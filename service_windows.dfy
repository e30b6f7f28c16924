/**
 * The Active Service Window Detector (`get_active_service_times`): the
 * scheduled visits at one stop and direction, the time range of each service,
 * and the sweep that merges the ranges into continuous in-service windows.
 * Two versions of the sweep are given: `MergeRanges`, the merge of ranges into
 * maximal windows that the function's documentation describes and the rest of
 * the model uses, and `SweepAsWritten`, the sweep as the source writes it.
 */
module ServiceWindows {
  import opened Wrappers
  import opened Feeds
  import opened Sorting

  /** A scheduled stop visit: one row of the stop details. */
  datatype Visit = Visit(trip: string, service: string, stopId: string, direction: string, time: Time)

  /** A closed time range [start, end]: a service range or an in-service window. */
  datatype Span = Span(start: Time, end: Time)

  /** The time range of one service at the stop. */
  datatype ServiceRange = ServiceRange(service: string, span: Span)

  function SpanStart(s: Span): int { s.start }

  function VisitTime(v: Visit): int { v.time }

  // ---------------------------------------------------------------------------
  // Visits and service ranges

  /** The visits at one stop in one direction, in input order. */
  function AtStop(visits: seq<Visit>, stopId: string, direction: string): (r: seq<Visit>)
    ensures forall v :: v in r <==> v in visits && v.stopId == stopId && v.direction == direction
  {
    if visits == [] then []
    else
      var last := visits[|visits| - 1];
      var p := AtStop(visits[..|visits| - 1], stopId, direction);
      assert visits == visits[..|visits| - 1] + [last];
      if last.stopId == stopId && last.direction == direction then p + [last] else p
  }

  /** Every visit of the stop and direction is kept as often as it occurs, and nothing else. */
  lemma {:induction false} AtStopCount(visits: seq<Visit>, stopId: string, direction: string, v: Visit)
    ensures multiset(AtStop(visits, stopId, direction))[v] ==
      if v.stopId == stopId && v.direction == direction then multiset(visits)[v] else 0
  {
    if visits != [] {
      var init, last := visits[..|visits| - 1], visits[|visits| - 1];
      assert visits == init + [last];
      AtStopCount(init, stopId, direction, v);
    }
  }

  /** The position of the range of service `service`, or -1 when it has none yet. */
  function FindService(rs: seq<ServiceRange>, service: string): (k: int)
    ensures -1 <= k < |rs|
    ensures k >= 0 ==> rs[k].service == service
    ensures k < 0 ==> forall j :: 0 <= j < |rs| ==> rs[j].service != service
  {
    if rs == [] then -1
    else if rs[|rs| - 1].service == service then |rs| - 1
    else FindService(rs[..|rs| - 1], service)
  }

  /** The smallest span holding `s` and the instant `t`. */
  function Widen(s: Span, t: Time): Span
  {
    Span(if t < s.start then t else s.start, if s.end < t then t else s.end)
  }

  /** Accounts for one more visit: widens its service's range, or opens a one-instant range for a new service. */
  function Absorb(rs: seq<ServiceRange>, v: Visit): seq<ServiceRange>
  {
    var k := FindService(rs, v.service);
    if k < 0 then rs + [ServiceRange(v.service, Span(v.time, v.time))]
    else rs[k := ServiceRange(v.service, Widen(rs[k].span, v.time))]
  }

  /** One range per service, `[min, max]` of that service's visit times. */
  function ServiceRanges(visits: seq<Visit>): seq<ServiceRange>
  {
    if visits == [] then [] else Absorb(ServiceRanges(visits[..|visits| - 1]), visits[|visits| - 1])
  }

  /** The visit times of one service, in input order. */
  function ServiceTimes(visits: seq<Visit>, service: string): seq<Time>
  {
    if visits == [] then []
    else
      var last := visits[|visits| - 1];
      ServiceTimes(visits[..|visits| - 1], service) + (if last.service == service then [last.time] else [])
  }

  /** Every listed time of a service is the time of one of its visits. */
  lemma {:induction false} ServiceTimesFromVisits(visits: seq<Visit>, service: string, t: Time)
    requires t in ServiceTimes(visits, service)
    ensures exists i :: 0 <= i < |visits| && visits[i].service == service && visits[i].time == t
  {
    var init := visits[..|visits| - 1];
    if t in ServiceTimes(init, service) {
      ServiceTimesFromVisits(init, service, t);
      var i :| 0 <= i < |init| && init[i].service == service && init[i].time == t;
      assert visits[i] == init[i];
    }
  }

  /** The services of the ranges, in the same order. */
  function ServiceIds(rs: seq<ServiceRange>): (r: seq<string>)
    ensures |r| == |rs| && forall i :: 0 <= i < |rs| ==> r[i] == rs[i].service
  {
    Map(rs, (x: ServiceRange) => x.service)
  }

  /** `r` is the range of its service: its start and end are the earliest and latest visit times of that service. */
  ghost predicate IsRangeOf(visits: seq<Visit>, r: ServiceRange)
  {
    var times := ServiceTimes(visits, r.service);
    r.span.start in times && r.span.end in times &&
    forall t :: t in times ==> r.span.start <= t <= r.span.end
  }

  /** `rs` lists exactly the services of `visits`, each once, each with its own range. */
  ghost predicate RangesOf(visits: seq<Visit>, rs: seq<ServiceRange>)
  {
    (forall i, j :: 0 <= i < j < |rs| ==> rs[i].service != rs[j].service) &&
    (forall k :: 0 <= k < |rs| ==> IsRangeOf(visits, rs[k])) &&
    (forall i :: 0 <= i < |visits| ==> visits[i].service in ServiceIds(rs))
  }

  /** A visit of another service leaves a range as it is. */
  lemma {:induction false} OtherRangeKept(visits: seq<Visit>, r: ServiceRange, v: Visit)
    requires IsRangeOf(visits, r) && r.service != v.service
    ensures IsRangeOf(visits + [v], r)
  {
    var all := visits + [v];
    assert all[..|all| - 1] == visits;
    assert ServiceTimes(all, r.service) == ServiceTimes(visits, r.service);
  }

  /** A visit of a range's own service widens the range to include the visit. */
  lemma {:induction false} WidenedRange(visits: seq<Visit>, r: ServiceRange, v: Visit)
    requires IsRangeOf(visits, r) && r.service == v.service
    ensures IsRangeOf(visits + [v], ServiceRange(v.service, Widen(r.span, v.time)))
  {
    var all := visits + [v];
    assert all[..|all| - 1] == visits;
    assert ServiceTimes(all, v.service) == ServiceTimes(visits, v.service) + [v.time];
  }

  /** A service without a range has no visits yet. */
  lemma {:induction false} UnknownServiceHasNoTimes(visits: seq<Visit>, rs: seq<ServiceRange>, service: string)
    requires RangesOf(visits, rs) && FindService(rs, service) < 0
    ensures ServiceTimes(visits, service) == []
  {
    if ServiceTimes(visits, service) != [] {
      ServiceTimesFromVisits(visits, service, ServiceTimes(visits, service)[0]);
      assert false;
    }
  }

  /** The first visit of a service makes a one-instant range. */
  lemma {:induction false} FirstVisitRange(visits: seq<Visit>, v: Visit)
    requires ServiceTimes(visits, v.service) == []
    ensures IsRangeOf(visits + [v], ServiceRange(v.service, Span(v.time, v.time)))
  {
    var all := visits + [v];
    assert all[..|all| - 1] == visits;
    assert ServiceTimes(all, v.service) == [v.time];
  }

  /** A visit of a service not seen before opens a one-instant range for it. */
  lemma {:induction false} AbsorbNewService(visits: seq<Visit>, rs: seq<ServiceRange>, v: Visit)
    requires RangesOf(visits, rs) && FindService(rs, v.service) < 0
    ensures RangesOf(visits + [v], Absorb(rs, v))
  {
    var all := visits + [v];
    var out := Absorb(rs, v);
    UnknownServiceHasNoTimes(visits, rs, v.service);
    forall k | 0 <= k < |out| ensures IsRangeOf(all, out[k]) {
      if k < |rs| {
        assert out[k] == rs[k];
        OtherRangeKept(visits, rs[k], v);
      } else {
        FirstVisitRange(visits, v);
      }
    }
    assert ServiceIds(out) == ServiceIds(rs) + [v.service];
    forall i | 0 <= i < |all| ensures all[i].service in ServiceIds(out) {
      if i < |visits| { assert all[i] == visits[i]; }
    }
  }

  /** A visit of a known service widens that service's range to include it. */
  lemma {:induction false} AbsorbKnownService(visits: seq<Visit>, rs: seq<ServiceRange>, v: Visit)
    requires RangesOf(visits, rs) && FindService(rs, v.service) >= 0
    ensures RangesOf(visits + [v], Absorb(rs, v))
  {
    var all := visits + [v];
    var out := Absorb(rs, v);
    var k := FindService(rs, v.service);
    assert IsRangeOf(visits, rs[k]);
    forall j | 0 <= j < |out| ensures IsRangeOf(all, out[j]) {
      if j == k {
        WidenedRange(visits, rs[k], v);
      } else {
        assert out[j] == rs[j] && rs[j].service != v.service;
        OtherRangeKept(visits, rs[j], v);
      }
    }
    assert ServiceIds(out) == ServiceIds(rs);
    forall i | 0 <= i < |all| ensures all[i].service in ServiceIds(out) {
      if i < |visits| { assert all[i] == visits[i]; } else { assert ServiceIds(out)[k] == v.service; }
    }
  }

  /** The ranges list every service of the visits once, each as `[min, max]` of its visit times. */
  lemma {:induction false} ServiceRangesCorrect(visits: seq<Visit>)
    ensures RangesOf(visits, ServiceRanges(visits))
  {
    if visits != [] {
      var init := visits[..|visits| - 1];
      var last := visits[|visits| - 1];
      assert init + [last] == visits;
      ServiceRangesCorrect(init);
      if FindService(ServiceRanges(init), last.service) < 0 {
        AbsorbNewService(init, ServiceRanges(init), last);
      } else {
        AbsorbKnownService(init, ServiceRanges(init), last);
      }
    }
  }

  /** The spans of the ranges, in the same order. */
  function Spans(rs: seq<ServiceRange>): (r: seq<Span>)
    ensures |r| == |rs| && forall i :: 0 <= i < |rs| ==> r[i] == rs[i].span
  {
    Map(rs, (x: ServiceRange) => x.span)
  }

  // ---------------------------------------------------------------------------
  // Merging sorted ranges into windows

  predicate WellFormed(ranges: seq<Span>)
  {
    forall i :: 0 <= i < |ranges| ==> ranges[i].start <= ranges[i].end
  }

  predicate Within(r: Span, w: Span)
  {
    w.start <= r.start && r.end <= w.end
  }

  /** Some range is in progress over [t, t + 1): the instant t is inside the union of the ranges with service still running after it. */
  predicate Covered(ranges: seq<Span>, t: Time)
  {
    exists i :: 0 <= i < |ranges| && ranges[i].start <= t < ranges[i].end
  }

  /** The whole of `w` is covered by the ranges: no gap in service inside it. */
  ghost predicate CoveredThroughout(ranges: seq<Span>, w: Span)
  {
    forall t :: w.start <= t < w.end ==> Covered(ranges, t)
  }

  predicate StartsRange(ranges: seq<Span>, t: Time)
  {
    exists i :: 0 <= i < |ranges| && ranges[i].start == t
  }

  predicate EndsRange(ranges: seq<Span>, t: Time)
  {
    exists i :: 0 <= i < |ranges| && ranges[i].end == t
  }

  /** The windows are ordered with a true gap between each window's end and the next window's start. */
  predicate Gapped(windows: seq<Span>)
  {
    forall k :: 0 <= k < |windows| - 1 ==> windows[k].end < windows[k + 1].start
  }

  /** `r` lies within one of the windows. */
  predicate InSome(r: Span, windows: seq<Span>)
  {
    exists k :: 0 <= k < |windows| && Within(r, windows[k])
  }

  lemma {:induction false} InSomeAppend(r: Span, windows: seq<Span>, w: Span)
    requires InSome(r, windows) || Within(r, w)
    ensures InSome(r, windows + [w])
  {
    if Within(r, w) {
      assert (windows + [w])[|windows|] == w;
    } else {
      var k :| 0 <= k < |windows| && Within(r, windows[k]);
      assert (windows + [w])[k] == windows[k];
    }
  }

  lemma {:induction false} GappedAppend(windows: seq<Span>, w: Span)
    requires WellFormed(windows) && Gapped(windows) && w.start <= w.end
    requires |windows| > 0 ==> windows[|windows| - 1].end < w.start
    ensures WellFormed(windows + [w]) && Gapped(windows + [w])
  {
    var all := windows + [w];
    forall k | 0 <= k < |all| - 1 ensures all[k].end < all[k + 1].start {
      if k + 1 < |windows| { assert all[k] == windows[k] && all[k + 1] == windows[k + 1]; }
    }
  }

  /** Every window starts at the start of a range and ends at the end of one, with no break in service inside. */
  ghost predicate Anchored(ranges: seq<Span>, w: Span)
  {
    StartsRange(ranges, w.start) && EndsRange(ranges, w.end) && CoveredThroughout(ranges, w)
  }

  /** Window `k` is anchored in the ranges. */
  ghost predicate AnchoredAt(ranges: seq<Span>, windows: seq<Span>, k: int)
  {
    0 <= k < |windows| && Anchored(ranges, windows[k])
  }

  /** Extending an anchored window by an overlapping or touching range keeps it anchored. */
  lemma {:induction false} ExtendAnchored(ranges: seq<Span>, cur: Span, i: nat)
    requires i < |ranges| && Anchored(ranges, cur) && ranges[i].start <= cur.end
    ensures Anchored(ranges, Span(cur.start, if cur.end < ranges[i].end then ranges[i].end else cur.end))
  {
    var r := ranges[i];
    var next := Span(cur.start, if cur.end < r.end then r.end else cur.end);
    forall t | next.start <= t < next.end ensures Covered(ranges, t) {
      if t >= cur.end { assert ranges[i].start <= t < ranges[i].end; }
    }
  }

  /**
   * The state of the merge after the first `i` ranges: closed `windows` and
   * the open window `cur` together hold those ranges.
   */
  ghost predicate MergeState(ranges: seq<Span>, i: nat, windows: seq<Span>, cur: Span)
  {
    && 0 < i <= |ranges|
    && cur.start <= cur.end && cur.start <= ranges[i - 1].start
    && WellFormed(windows) && Gapped(windows)
    && (|windows| > 0 ==> windows[|windows| - 1].end < cur.start)
    && (forall j :: 0 <= j < i ==> Within(ranges[j], cur) || InSome(ranges[j], windows))
    && Anchored(ranges, cur)
    && (forall k :: 0 <= k < |windows| ==> Anchored(ranges, windows[k]))
    && (if windows == [] then cur.start else windows[0].start) == ranges[0].start
  }

  /** A range that starts after the open window's end closes it and opens its own. */
  lemma {:induction false} CloseWindow(ranges: seq<Span>, i: nat, windows: seq<Span>, cur: Span)
    requires SortedBy(ranges, SpanStart) && WellFormed(ranges)
    requires MergeState(ranges, i, windows, cur) && i < |ranges| && ranges[i].start > cur.end
    ensures MergeState(ranges, i + 1, windows + [cur], ranges[i])
  {
    var r := ranges[i];
    forall j | 0 <= j < i ensures InSome(ranges[j], windows + [cur]) {
      InSomeAppend(ranges[j], windows, cur);
    }
    GappedAppend(windows, cur);
    var all := windows + [cur];
    forall k | 0 <= k < |all| ensures Anchored(ranges, all[k]) {
      if k < |windows| { assert all[k] == windows[k]; }
    }
    assert StartsRange(ranges, r.start) && EndsRange(ranges, r.end);
    assert Anchored(ranges, r);
  }

  /** A range that starts at or before the open window's end extends it. */
  lemma {:induction false} ExtendWindow(ranges: seq<Span>, i: nat, windows: seq<Span>, cur: Span)
    requires SortedBy(ranges, SpanStart) && WellFormed(ranges)
    requires MergeState(ranges, i, windows, cur) && i < |ranges| && ranges[i].start <= cur.end
    ensures MergeState(ranges, i + 1, windows, Span(cur.start, if cur.end < ranges[i].end then ranges[i].end else cur.end))
  {
    var r := ranges[i];
    assert SpanStart(ranges[i - 1]) <= SpanStart(r);
    ExtendAnchored(ranges, cur, i);
    var next := Span(cur.start, if cur.end < r.end then r.end else cur.end);
    forall j | 0 <= j <= i ensures Within(ranges[j], next) || InSome(ranges[j], windows) {
      if j < i && Within(ranges[j], cur) { assert Within(ranges[j], next); }
    }
  }

  /** The first range opens the first window. */
  lemma {:induction false} StartMerge(ranges: seq<Span>)
    requires WellFormed(ranges) && |ranges| > 0
    ensures MergeState(ranges, 1, [], ranges[0])
  {
    assert StartsRange(ranges, ranges[0].start) && EndsRange(ranges, ranges[0].end);
  }

  /**
   * `windows` are the maximal continuous in-service windows of `ranges`:
   * ordered and separated by true gaps, each range inside one of them, each
   * starting at a range's start, ending at a range's end and covered by the
   * ranges throughout, the first opening with the first range. (None of the
   * windows can be joined to the next, since no range bridges the gap.)
   */
  ghost predicate DocumentedWindows(ranges: seq<Span>, windows: seq<Span>)
  {
    && (|windows| == 0 <==> |ranges| == 0)
    && WellFormed(windows) && Gapped(windows)
    && (forall i :: 0 <= i < |ranges| ==> InSome(ranges[i], windows))
    && (forall k :: 0 <= k < |windows| ==> AnchoredAt(ranges, windows, k))
    && (|ranges| > 0 ==> windows[0].start == ranges[0].start)
  }

  /** Closing the last open window gives the documented windows. */
  lemma {:induction false} FinishMerge(ranges: seq<Span>, windows: seq<Span>, cur: Span)
    requires MergeState(ranges, |ranges|, windows, cur)
    ensures DocumentedWindows(ranges, windows + [cur])
  {
    var all := windows + [cur];
    forall j | 0 <= j < |ranges| ensures InSome(ranges[j], all) {
      InSomeAppend(ranges[j], windows, cur);
    }
    GappedAppend(windows, cur);
    forall k | 0 <= k < |all| ensures AnchoredAt(ranges, all, k) {
      if k < |windows| { assert all[k] == windows[k]; }
    }
  }

  /**
   * The documented in-service windows: the sweep over ranges sorted by start
   * that extends the open window to the largest end seen so far and closes it
   * only when the next range starts strictly after that end.
   */
  method MergeRanges(ranges: seq<Span>) returns (windows: seq<Span>)
    requires SortedBy(ranges, SpanStart) && WellFormed(ranges)
    ensures DocumentedWindows(ranges, windows)
  {
    windows := [];
    if |ranges| == 0 { return; }
    var cur := ranges[0];
    StartMerge(ranges);
    for i := 1 to |ranges|
      invariant MergeState(ranges, i, windows, cur)
    {
      var r := ranges[i];
      if r.start > cur.end {
        CloseWindow(ranges, i, windows, cur);
        windows, cur := windows + [cur], r;
      } else {
        ExtendWindow(ranges, i, windows, cur);
        cur := Span(cur.start, if cur.end < r.end then r.end else cur.end);
      }
    }
    FinishMerge(ranges, windows, cur);
    windows := windows + [cur];
  }

  // ---------------------------------------------------------------------------
  // The sweep as the source writes it

  /**
   * A window as the source emits it: the start is `None` where the source
   * emits its integer sentinel 0, which equals no timestamp.
   */
  datatype Emitted = Emitted(start: Option<Time>, end: Time)

  /**
   * The source's sweep from row `i` on, with `open` the start of the open
   * window (`None` for the sentinel). The last row emits the open start, which
   * is the sentinel when the previous row closed a window; the gap test
   * compares the next start with the row's own end, not the window's.
   */
  function SweepFrom(ranges: seq<Span>, i: nat, open: Option<Time>): seq<Emitted>
    decreases |ranges| - i
  {
    if i >= |ranges| then []
    else if i == |ranges| - 1 then [Emitted(open, ranges[i].end)]
    else
      var start := if open.None? then Some(ranges[i].start) else open;
      if ranges[i + 1].start > ranges[i].end then [Emitted(start, ranges[i].end)] + SweepFrom(ranges, i + 1, None)
      else SweepFrom(ranges, i + 1, start)
  }

  /**
   * The sweep as written over all rows: one window at most per range, and the
   * last one always closes at the last row's own end, whatever an earlier,
   * longer range still covers.
   */
  function SweepAsWritten(ranges: seq<Span>): (e: seq<Emitted>)
    ensures |e| <= |ranges| && (|e| == 0 <==> |ranges| == 0)
    ensures |ranges| > 0 ==> e[|e| - 1].end == ranges[|ranges| - 1].end
  {
    SweepFromShape(ranges, 0, None);
    SweepFrom(ranges, 0, None)
  }

  /** The sweep from row `i` emits at most one window per remaining row, and the last closes at the last row's end. */
  lemma {:induction false} SweepFromShape(ranges: seq<Span>, i: nat, open: Option<Time>)
    ensures var e := SweepFrom(ranges, i, open);
      (|e| > 0 <==> i < |ranges|) && (i < |ranges| ==> |e| + i <= |ranges| && e[|e| - 1].end == ranges[|ranges| - 1].end)
    decreases |ranges| - i
  {
    if i < |ranges| - 1 {
      var start := if open.None? then Some(ranges[i].start) else open;
      if ranges[i + 1].start > ranges[i].end {
        SweepFromShape(ranges, i + 1, None);
      } else {
        SweepFromShape(ranges, i + 1, start);
      }
    }
  }

  /** The loop of `get_active_service_times` as written. */
  method ActiveServiceTimesAsWritten(ranges: seq<Span>) returns (out: seq<Emitted>)
    ensures out == SweepAsWritten(ranges)
  {
    out := [];
    var open: Option<Time> := None;
    for i := 0 to |ranges|
      invariant out + SweepFrom(ranges, i, open) == SweepFrom(ranges, 0, None)
    {
      if i == |ranges| - 1 {
        out := out + [Emitted(open, ranges[i].end)];
      } else {
        if open.None? {
          open := Some(ranges[i].start);
        }
        if ranges[i + 1].start > ranges[i].end {
          out := out + [Emitted(open, ranges[i].end)];
          open := None;
        }
      }
    }
  }

  /** As written, a single service range is emitted without its start. */
  lemma {:induction false} SweepAsWrittenLosesStart()
    ensures SweepAsWritten([Span(100, 200)]) == [Emitted(None, 200)]
  {
  }

  /**
   * As written, a range nested in an earlier, longer one closes the window at
   * its own end: service [100, 1000] with [200, 300] and [500, 600] inside it
   * is reported as two windows ending at 300 and 600, the second without a
   * start, where the service runs without a break from 100 to 1000.
   */
  lemma {:induction false} SweepAsWrittenSplitsCoveredTime()
    ensures var ranges := [Span(100, 1000), Span(200, 300), Span(500, 600)];
      SortedBy(ranges, SpanStart) && Covered(ranges, 400) &&
      SweepAsWritten(ranges) == [Emitted(Some(100), 300), Emitted(None, 600)]
  {
    var ranges := [Span(100, 1000), Span(200, 300), Span(500, 600)];
    assert ranges[0].start <= 400 < ranges[0].end;
  }

  // ---------------------------------------------------------------------------
  // The detector end to end

  /** The time of every visit of the list. */
  function Times(visits: seq<Visit>): (r: seq<Time>)
    ensures |r| == |visits| && forall i :: 0 <= i < |visits| ==> r[i] == visits[i].time
  {
    Map(visits, (x: Visit) => x.time)
  }

  /** The instant `t` lies inside one of the (closed) windows. */
  predicate During(windows: seq<Span>, t: Time)
  {
    exists k :: 0 <= k < |windows| && windows[k].start <= t <= windows[k].end
  }

  /** Window `k` opens and closes at visit times. */
  predicate AtVisits(times: seq<Time>, windows: seq<Span>, k: int)
  {
    0 <= k < |windows| && windows[k].start in times && windows[k].end in times
  }

  /** A visit of a service contributes its time to that service's times. */
  lemma {:induction false} ServiceTimesOfVisit(visits: seq<Visit>, i: nat)
    requires i < |visits|
    ensures visits[i].time in ServiceTimes(visits, visits[i].service)
  {
    var init := visits[..|visits| - 1];
    if i < |init| {
      assert init[i] == visits[i];
      ServiceTimesOfVisit(init, i);
    }
  }

  /** The times of one service are visit times. */
  lemma {:induction false} ServiceTimesAreTimes(visits: seq<Visit>, service: string, t: Time)
    requires t in ServiceTimes(visits, service)
    ensures t in Times(visits)
  {
    ServiceTimesFromVisits(visits, service, t);
    var i :| 0 <= i < |visits| && visits[i].service == service && visits[i].time == t;
    assert Times(visits)[i] == t;
  }

  /** The range of a service holds the time of each of its visits. */
  lemma {:induction false} RangeHoldsVisit(visits: seq<Visit>, r: ServiceRange, i: nat)
    requires i < |visits| && IsRangeOf(visits, r) && r.service == visits[i].service
    ensures r.span.start <= visits[i].time <= r.span.end
  {
    ServiceTimesOfVisit(visits, i);
  }

  /** There is at most one range per visit, and a range exactly when there is a visit. */
  lemma {:induction false} ServiceRangesCount(visits: seq<Visit>)
    ensures var rs := ServiceRanges(visits);
      |rs| <= |visits| && (|rs| == 0 <==> |visits| == 0)
  {
    if visits != [] {
      ServiceRangesCount(visits[..|visits| - 1]);
    }
  }

  /** The spans of the service ranges are well formed and open and close at visit times. */
  lemma {:induction false} SpansAtVisits(visits: seq<Visit>)
    ensures var spans := Spans(ServiceRanges(visits));
      WellFormed(spans) && forall j :: 0 <= j < |spans| ==> AtVisits(Times(visits), spans, j)
  {
    var rs := ServiceRanges(visits);
    var spans := Spans(rs);
    ServiceRangesCorrect(visits);
    forall j | 0 <= j < |spans|
      ensures spans[j].start <= spans[j].end
      ensures AtVisits(Times(visits), spans, j)
    {
      assert IsRangeOf(visits, rs[j]);
      ServiceTimesAreTimes(visits, rs[j].service, spans[j].start);
      ServiceTimesAreTimes(visits, rs[j].service, spans[j].end);
    }
  }

  /** Every visit time lies inside the span of its service, and there is a span exactly when there is a visit. */
  lemma {:induction false} SpansHoldVisits(visits: seq<Visit>)
    ensures var spans := Spans(ServiceRanges(visits));
      (|spans| == 0 <==> |visits| == 0) && forall t :: t in Times(visits) ==> During(spans, t)
  {
    var rs := ServiceRanges(visits);
    var spans := Spans(rs);
    ServiceRangesCorrect(visits);
    forall t | t in Times(visits) ensures During(spans, t) {
      var i :| 0 <= i < |visits| && Times(visits)[i] == t;
      assert visits[i].service in ServiceIds(rs);
      var j :| 0 <= j < |rs| && ServiceIds(rs)[j] == visits[i].service;
      RangeHoldsVisit(visits, rs[j], i);
      assert spans[j] == rs[j].span;
    }
    if |visits| > 0 {
      assert Times(visits)[0] in Times(visits);
    }
  }

  /** The sorted service ranges of the visits at one stop and direction. */
  function SortedRanges(visits: seq<Visit>, stopId: string, direction: string): seq<Span>
  {
    SortBy(Spans(ServiceRanges(AtStop(visits, stopId, direction))), SpanStart)
  }

  /** The sorted ranges are well formed and open and close at visits of the stop. */
  lemma {:induction false} SortedRangesAtVisits(visits: seq<Visit>, stopId: string, direction: string)
    ensures var ranges := SortedRanges(visits, stopId, direction);
      WellFormed(ranges) && SortedBy(ranges, SpanStart) &&
      forall i :: 0 <= i < |ranges| ==> AtVisits(Times(AtStop(visits, stopId, direction)), ranges, i)
  {
    var here := AtStop(visits, stopId, direction);
    SpansAtVisits(here);
    SortKeepsAtVisits(Times(here), Spans(ServiceRanges(here)));
  }

  /** Sorting spans that are well formed and open and close at visits keeps them so. */
  lemma {:induction false} SortKeepsAtVisits(times: seq<Time>, spans: seq<Span>)
    requires WellFormed(spans) && forall j :: 0 <= j < |spans| ==> AtVisits(times, spans, j)
    ensures var ranges := SortBy(spans, SpanStart);
      WellFormed(ranges) && forall i :: 0 <= i < |ranges| ==> AtVisits(times, ranges, i)
  {
    var ranges := SortBy(spans, SpanStart);
    forall i | 0 <= i < |ranges|
      ensures ranges[i].start <= ranges[i].end
      ensures AtVisits(times, ranges, i)
    {
      var j := SortedElementFrom(spans, SpanStart, i);
      assert AtVisits(times, spans, j);
    }
  }

  /** Every visit at the stop lies inside one of the sorted ranges, and there is a range exactly when there is a visit. */
  lemma {:induction false} SortedRangesHoldVisits(visits: seq<Visit>, stopId: string, direction: string)
    ensures var ranges := SortedRanges(visits, stopId, direction);
      var times := Times(AtStop(visits, stopId, direction));
      (|ranges| == 0 <==> |times| == 0) && forall t :: t in times ==> During(ranges, t)
  {
    var here := AtStop(visits, stopId, direction);
    var spans := Spans(ServiceRanges(here));
    var ranges := SortedRanges(visits, stopId, direction);
    SpansHoldVisits(here);
    forall t | t in Times(here) ensures During(ranges, t) {
      var j :| 0 <= j < |spans| && spans[j].start <= t <= spans[j].end;
      assert spans[j] in multiset(spans);
      var i :| 0 <= i < |ranges| && ranges[i] == spans[j];
    }
  }

  /**
   * `windows` are the in-service windows of the visits `times` with service
   * ranges `ranges`: none exactly when there are no visits; ordered with true
   * gaps between them; each opening and closing at a scheduled visit; every
   * visit and every service range inside one; service running throughout
   * each; and the first window opening at the earliest visit.
   */
  ghost predicate ActiveWindows(times: seq<Time>, ranges: seq<Span>, windows: seq<Span>)
  {
    && (|windows| == 0 <==> |times| == 0)
    && WellFormed(windows) && Gapped(windows)
    && (forall k :: 0 <= k < |windows| ==> AtVisits(times, windows, k))
    && (forall t :: t in times ==> During(windows, t))
    && (forall i :: 0 <= i < |ranges| ==> InSome(ranges[i], windows))
    && (forall k :: 0 <= k < |windows| ==> CoveredThroughout(ranges, windows[k]))
    && (|windows| > 0 ==> forall t :: t in times ==> windows[0].start <= t)
  }

  /** Windows that hold every range hold every instant the ranges hold. */
  lemma {:induction false} WindowsHoldVisits(times: seq<Time>, ranges: seq<Span>, windows: seq<Span>)
    requires forall i :: 0 <= i < |ranges| ==> InSome(ranges[i], windows)
    requires forall t :: t in times ==> During(ranges, t)
    ensures forall t :: t in times ==> During(windows, t)
  {
    forall t | t in times ensures During(windows, t) {
      var i :| 0 <= i < |ranges| && ranges[i].start <= t <= ranges[i].end;
      var k :| 0 <= k < |windows| && Within(ranges[i], windows[k]);
    }
  }

  /** Windows that open and close where ranges do open and close at visits when the ranges do. */
  lemma {:induction false} WindowsAtVisits(times: seq<Time>, ranges: seq<Span>, windows: seq<Span>)
    requires forall k :: 0 <= k < |windows| ==> AnchoredAt(ranges, windows, k)
    requires forall i :: 0 <= i < |ranges| ==> AtVisits(times, ranges, i)
    ensures forall k :: 0 <= k < |windows| ==> AtVisits(times, windows, k)
  {
    forall k | 0 <= k < |windows| ensures AtVisits(times, windows, k) {
      assert AnchoredAt(ranges, windows, k);
      var i :| 0 <= i < |ranges| && ranges[i].start == windows[k].start;
      var j :| 0 <= j < |ranges| && ranges[j].end == windows[k].end;
      assert AtVisits(times, ranges, i) && AtVisits(times, ranges, j);
    }
  }

  /** A window opening with the earliest-starting range opens no later than any instant the ranges hold. */
  lemma {:induction false} FirstWindowEarliest(times: seq<Time>, ranges: seq<Span>, first: Time)
    requires SortedBy(ranges, SpanStart) && |ranges| > 0 && first == ranges[0].start
    requires forall t :: t in times ==> During(ranges, t)
    ensures forall t :: t in times ==> first <= t
  {
    forall t | t in times ensures first <= t {
      var i :| 0 <= i < |ranges| && ranges[i].start <= t <= ranges[i].end;
      assert i == 0 || SpanStart(ranges[0]) <= SpanStart(ranges[i]);
    }
  }

  /** The documented merge of the stop's sorted ranges gives its active windows. */
  lemma {:induction false} MergedWindowsAreActive(visits: seq<Visit>, stopId: string, direction: string, windows: seq<Span>)
    requires DocumentedWindows(SortedRanges(visits, stopId, direction), windows)
    ensures ActiveWindows(Times(AtStop(visits, stopId, direction)), SortedRanges(visits, stopId, direction), windows)
  {
    var ranges := SortedRanges(visits, stopId, direction);
    var times := Times(AtStop(visits, stopId, direction));
    SortedRangesHoldVisits(visits, stopId, direction);
    WindowsHoldVisits(times, ranges, windows);
    SortedRangesAtVisits(visits, stopId, direction);
    WindowsAtVisits(times, ranges, windows);
    forall k | 0 <= k < |windows| ensures CoveredThroughout(ranges, windows[k]) {
      assert AnchoredAt(ranges, windows, k);
    }
    if |windows| > 0 {
      FirstWindowEarliest(times, ranges, windows[0].start);
    }
  }

  /** When there are visits, the first active window opens at the earliest of them. */
  lemma {:induction false} FirstWindowOpensEarliest(times: seq<Time>, ranges: seq<Span>, windows: seq<Span>)
    requires ActiveWindows(times, ranges, windows) && |times| > 0
    ensures |windows| > 0 && windows[0].start in times && forall t :: t in times ==> windows[0].start <= t
  {
    assert AtVisits(times, windows, 0);
  }

  /** Between ordered windows with true gaps, every earlier window ends before a later one starts. */
  lemma {:induction false} GappedOrder(windows: seq<Span>, m: nat, k: nat)
    requires WellFormed(windows) && Gapped(windows) && m < k < |windows|
    ensures windows[m].end < windows[k].start
  {
    if m + 1 < k {
      GappedOrder(windows, m, k - 1);
      assert windows[k - 1].start <= windows[k - 1].end < windows[k].start;
    }
  }

  /**
   * No active window opens while a service range is running: a window start
   * is never strictly after a range's start and at or before its end. So a
   * headway is cleared only where service resumes after a break.
   */
  lemma {:induction false} NoStartInsideRange(times: seq<Time>, ranges: seq<Span>, windows: seq<Span>, i: nat, k: nat)
    requires ActiveWindows(times, ranges, windows) && i < |ranges| && k < |windows|
    ensures !(ranges[i].start < windows[k].start <= ranges[i].end)
  {
    assert InSome(ranges[i], windows);
    var m :| 0 <= m < |windows| && Within(ranges[i], windows[m]);
    if m < k {
      GappedOrder(windows, m, k);
    } else if k < m {
      GappedOrder(windows, k, m);
    }
  }

  /** One service visiting at 100, 200 and 300 is not split into the windows [100, 100] and [200, 300]. */
  lemma {:induction false} SplitWindowsNotActive()
    ensures !ActiveWindows([100, 200, 300], [Span(100, 300)], [Span(100, 100), Span(200, 300)])
  {
    var ranges, windows := [Span(100, 300)], [Span(100, 100), Span(200, 300)];
    assert !Within(ranges[0], windows[0]) && !Within(ranges[0], windows[1]);
    assert !InSome(ranges[0], windows);
  }

  /**
   * `get_active_service_times` with the documented merge: the ranges of the
   * services at the stop, sorted by start and merged into windows.
   */
  method ActiveServiceTimes(visits: seq<Visit>, stopId: string, direction: string) returns (windows: seq<Span>)
    ensures ActiveWindows(Times(AtStop(visits, stopId, direction)), SortedRanges(visits, stopId, direction), windows)
  {
    var ranges := SortedRanges(visits, stopId, direction);
    SortedRangesAtVisits(visits, stopId, direction);
    windows := MergeRanges(ranges);
    MergedWindowsAreActive(visits, stopId, direction, windows);
  }
}

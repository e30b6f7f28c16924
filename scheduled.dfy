/**
 * The Headway Calculator in scheduled mode (`get_scheduled_headways`): the
 * scheduled visits at one stop and direction sorted by time, each paired with
 * the visit before it, with the pairing dropped at the start of every
 * in-service window.
 */
module Scheduled {
  import opened Wrappers
  import opened Feeds
  import opened Sorting
  import opened ServiceWindows

  /** One output row: the visit, the time of the visit before it and the gap between them, null at a window start. */
  datatype ScheduledRow = ScheduledRow(visit: Visit, previous: Option<Time>, headway: Option<int>)

  function RowTime(r: ScheduledRow): int { r.visit.time }

  /** The starts of the windows, in order. */
  function Starts(windows: seq<Span>): (r: seq<Time>)
    ensures |r| == |windows| && forall k :: 0 <= k < |windows| ==> r[k] == windows[k].start
  {
    Map(windows, (x: Span) => x.start)
  }

  /**
   * The row of visit `v` whose rolled previous time is `previous`: the
   * difference of the two times, or null in both columns when `v` is at one
   * of the window starts.
   */
  function HeadwayRow(v: Visit, previous: Time, starts: seq<Time>): ScheduledRow
  {
    if v.time in starts then ScheduledRow(v, None, None)
    else ScheduledRow(v, Some(previous), Some(v.time - previous))
  }

  /**
   * Row `i` of the visits in time order: visit `i` paired with the one before
   * it, or, as the roll wraps round, the first visit with the last.
   */
  function RowOf(sorted: seq<Visit>, i: nat, starts: seq<Time>): ScheduledRow
    requires i < |sorted|
  {
    HeadwayRow(sorted[i], if i == 0 then sorted[|sorted| - 1].time else sorted[i - 1].time, starts)
  }

  /** The first `n` rows the source computes from the visits in time order and the window starts. */
  function HeadwayRows(sorted: seq<Visit>, n: nat, starts: seq<Time>): (r: seq<ScheduledRow>)
    requires n <= |sorted|
    ensures |r| == n
  {
    if n == 0 then [] else HeadwayRows(sorted, n - 1, starts) + [RowOf(sorted, n - 1, starts)]
  }

  /** Row `i` is `RowOf(sorted, i, starts)`. */
  lemma {:induction false} HeadwayRowAt(sorted: seq<Visit>, n: nat, starts: seq<Time>, i: nat)
    requires i < n <= |sorted|
    ensures HeadwayRows(sorted, n, starts)[i] == RowOf(sorted, i, starts)
  {
    if i < n - 1 {
      HeadwayRowAt(sorted, n - 1, starts, i);
    }
  }

  /** The visits of the rows, in order. */
  function RowVisits(rows: seq<ScheduledRow>): (r: seq<Visit>)
    ensures |r| == |rows| && forall i :: 0 <= i < |rows| ==> r[i] == rows[i].visit
  {
    Map(rows, (x: ScheduledRow) => x.visit)
  }

  /** The earliest of the visit times is the time of the first visit in time order. */
  lemma {:induction false} EarliestIsFirst(here: seq<Visit>, w: Time)
    requires w in Times(here) && forall t :: t in Times(here) ==> w <= t
    ensures |here| > 0 && SortBy(here, VisitTime)[0].time == w
  {
    var sorted := SortBy(here, VisitTime);
    var times := Times(here);
    var i :| 0 <= i < |times| && times[i] == w;
    SortedHeadIsMin(here, VisitTime, i);
    var m := SortedElementFrom(here, VisitTime, 0);
    assert times[m] in times;
  }

  /** Row `i`, when not null, holds the time of row `i - 1` and the non-negative gap to it. */
  predicate GapToPrevious(rows: seq<ScheduledRow>, i: int)
  {
    0 < i < |rows| &&
    (rows[i].headway.Some? ==>
      rows[i].previous == Some(rows[i - 1].visit.time) && rows[i].headway.value == rows[i].visit.time - rows[i - 1].visit.time >= 0)
  }

  /**
   * The rows of `get_scheduled_headways` for the visits `here` and the window
   * starts `starts`: the visits in time order, each with the time of the
   * visit before it and the gap, both null exactly at a window start; the
   * first row is null, so the value the roll wraps into it never surfaces.
   */
  ghost predicate ScheduledFacts(here: seq<Visit>, starts: seq<Time>, rows: seq<ScheduledRow>)
  {
    && SortedBy(RowVisits(rows), VisitTime)
    && multiset(RowVisits(rows)) == multiset(here)
    && (forall i :: 0 <= i < |rows| ==> (rows[i].headway.None? <==> rows[i].visit.time in starts))
    && (forall i :: 0 <= i < |rows| ==> rows[i].previous.None? == rows[i].headway.None?)
    && (|rows| > 0 ==> rows[0].headway.None?)
    && (forall i :: 0 < i < |rows| ==> GapToPrevious(rows, i))
  }

  /** The rows hold the visits in the order given. */
  lemma {:induction false} HeadwayRowsVisits(sorted: seq<Visit>, starts: seq<Time>)
    ensures RowVisits(HeadwayRows(sorted, |sorted|, starts)) == sorted
  {
    var rows := HeadwayRows(sorted, |sorted|, starts);
    forall i | 0 <= i < |rows| ensures RowVisits(rows)[i] == sorted[i] {
      HeadwayRowAt(sorted, |sorted|, starts, i);
    }
  }

  /** A row is null, in both columns, exactly when its visit is at a window start. */
  lemma {:induction false} HeadwayRowsNulls(sorted: seq<Visit>, starts: seq<Time>)
    ensures var rows := HeadwayRows(sorted, |sorted|, starts);
      forall i :: 0 <= i < |rows| ==>
        (rows[i].headway.None? <==> rows[i].visit.time in starts) && rows[i].previous.None? == rows[i].headway.None?
  {
    var rows := HeadwayRows(sorted, |sorted|, starts);
    forall i | 0 <= i < |rows|
      ensures rows[i].headway.None? <==> rows[i].visit.time in starts
      ensures rows[i].previous.None? == rows[i].headway.None?
    {
      HeadwayRowAt(sorted, |sorted|, starts, i);
    }
  }

  /** Row `i` of the rows as the source computes them keeps to `GapToPrevious`. */
  lemma {:induction false} HeadwayRowGapAt(sorted: seq<Visit>, starts: seq<Time>, i: nat)
    requires SortedBy(sorted, VisitTime) && 0 < i < |sorted|
    ensures GapToPrevious(HeadwayRows(sorted, |sorted|, starts), i)
  {
    HeadwayRowAt(sorted, |sorted|, starts, i - 1);
    HeadwayRowAt(sorted, |sorted|, starts, i);
    assert VisitTime(sorted[i - 1]) <= VisitTime(sorted[i]);
  }

  /** A non-null row after the first holds the previous visit's time and the non-negative gap to it. */
  lemma {:induction false} HeadwayRowsGaps(sorted: seq<Visit>, starts: seq<Time>)
    requires SortedBy(sorted, VisitTime)
    ensures var rows := HeadwayRows(sorted, |sorted|, starts); forall i :: 0 < i < |rows| ==> GapToPrevious(rows, i)
  {
    forall i | 0 < i < |sorted| ensures GapToPrevious(HeadwayRows(sorted, |sorted|, starts), i) {
      HeadwayRowGapAt(sorted, starts, i);
    }
  }

  /** When the earliest visit is a window start, the rows as the source computes them have the promised form. */
  lemma {:induction false} HeadwayRowsCorrect(here: seq<Visit>, starts: seq<Time>)
    requires |here| > 0 ==> SortBy(here, VisitTime)[0].time in starts
    ensures ScheduledFacts(here, starts, HeadwayRows(SortBy(here, VisitTime), |here|, starts))
  {
    var sorted := SortBy(here, VisitTime);
    var rows := HeadwayRows(sorted, |sorted|, starts);
    HeadwayRowsVisits(sorted, starts);
    HeadwayRowsNulls(sorted, starts);
    HeadwayRowsGaps(sorted, starts);
    if |here| > 0 {
      HeadwayRowAt(sorted, |sorted|, starts, 0);
    }
  }

  /** With the documented windows, the earliest visit at the stop is a window start. */
  lemma {:induction false} EarliestVisitStartsWindow(visits: seq<Visit>, stopId: string, direction: string, windows: seq<Span>)
    requires ActiveWindows(Times(AtStop(visits, stopId, direction)), SortedRanges(visits, stopId, direction), windows)
    requires |AtStop(visits, stopId, direction)| > 0
    ensures SortBy(AtStop(visits, stopId, direction), VisitTime)[0].time in Starts(windows)
  {
    var here := AtStop(visits, stopId, direction);
    FirstWindowOpensEarliest(Times(here), SortedRanges(visits, stopId, direction), windows);
    EarliestIsFirst(here, windows[0].start);
    assert Starts(windows)[0] == windows[0].start;
  }

  /** `get_scheduled_headways`, with the windows of the documented merge. */
  method ScheduledHeadways(visits: seq<Visit>, stopId: string, direction: string)
    returns (rows: seq<ScheduledRow>, ghost windows: seq<Span>)
    ensures ActiveWindows(Times(AtStop(visits, stopId, direction)), SortedRanges(visits, stopId, direction), windows)
    ensures ScheduledFacts(AtStop(visits, stopId, direction), Starts(windows), rows)
  {
    var active := ActiveServiceTimes(visits, stopId, direction);
    windows := active;
    var here := AtStop(visits, stopId, direction);
    var sorted := SortBy(here, VisitTime);
    var previous := Roll(Times(sorted));
    var starts := Starts(active);
    rows := [];
    for i := 0 to |sorted|
      invariant rows == HeadwayRows(sorted, i, starts)
    {
      assert previous[i] == if i == 0 then sorted[|sorted| - 1].time else sorted[i - 1].time;
      rows := rows + [HeadwayRow(sorted[i], previous[i], starts)];
    }
    if |here| > 0 {
      EarliestVisitStartsWindow(visits, stopId, direction, active);
    }
    HeadwayRowsCorrect(here, starts);
  }

  /**
   * A headway is cleared only where service resumes after a break: the time
   * of a null row lies strictly inside no service range at the stop, so
   * nothing is cleared while a service is running.
   */
  lemma {:induction false} NullOnlyAfterBreak(visits: seq<Visit>, stopId: string, direction: string,
                                              windows: seq<Span>, rows: seq<ScheduledRow>, i: nat, j: nat)
    requires ActiveWindows(Times(AtStop(visits, stopId, direction)), SortedRanges(visits, stopId, direction), windows)
    requires ScheduledFacts(AtStop(visits, stopId, direction), Starts(windows), rows)
    requires i < |rows| && rows[i].headway.None? && j < |SortedRanges(visits, stopId, direction)|
    ensures var r := SortedRanges(visits, stopId, direction)[j];
      !(r.start < rows[i].visit.time <= r.end)
  {
    var starts := Starts(windows);
    assert rows[i].visit.time in starts;
    var k :| 0 <= k < |starts| && starts[k] == rows[i].visit.time;
    NoStartInsideRange(Times(AtStop(visits, stopId, direction)), SortedRanges(visits, stopId, direction), windows, j, k);
  }

  // ---------------------------------------------------------------------------
  // With the windows of the sweep as written

  /** The window starts the source's sweep lists; its sentinel 0 equals no visit time, so it is left out. */
  function EmittedStarts(e: seq<Emitted>): seq<Time>
  {
    if e == [] then []
    else EmittedStarts(e[..|e| - 1]) + (if e[|e| - 1].start.Some? then [e[|e| - 1].start.value] else [])
  }

  /** Two visits of one service at one stop, at 100 and 200. */
  function TwoVisits(): seq<Visit>
  {
    [Visit("t1", "A", "S", "East", 100), Visit("t2", "A", "S", "East", 200)]
  }

  /** The two visits are at the stop and already in time order. */
  lemma {:induction false} TwoVisitsOrdered()
    ensures AtStop(TwoVisits(), "S", "East") == TwoVisits()
    ensures SortBy(TwoVisits(), VisitTime) == TwoVisits()
  {
    var visits := TwoVisits();
    var v1 := visits[0];
    assert visits[..1] == [v1];
    assert [v1][..0] == [];
    assert AtStop([v1], "S", "East") == AtStop([], "S", "East") + [v1];
    assert SortBy([v1], VisitTime) == [v1];
  }

  /** The one service of the two visits ranges over [100, 200]. */
  lemma {:induction false} TwoVisitsServiceRange()
    ensures ServiceRanges(TwoVisits()) == [ServiceRange("A", Span(100, 200))]
  {
    var visits := TwoVisits();
    var v1, v2 := visits[0], visits[1];
    assert visits[..1] == [v1];
    assert [v1][..0] == [];
    var rs := ServiceRanges([v1]);
    assert rs == Absorb([], v1) == [ServiceRange("A", Span(100, 100))];
    assert FindService(rs, "A") == 0;
    assert ServiceRanges(visits) == Absorb(rs, v2);
  }

  /** The two visits make the one service range [100, 200]. */
  lemma {:induction false} TwoVisitsOneRange()
    ensures SortedRanges(TwoVisits(), "S", "East") == [Span(100, 200)]
  {
    TwoVisitsOrdered();
    TwoVisitsServiceRange();
    var spans := Spans(ServiceRanges(TwoVisits()));
    assert spans == [Span(100, 200)];
    assert spans[..0] == [];
  }

  /**
   * With the windows of the sweep as written, one service visiting the stop
   * at 100 and 200 leaves no window start, so nothing nulls the first row and
   * the roll pairs it with the last visit: a headway of -100.
   */
  lemma {:induction false} WrapSurfacesAsWritten()
    ensures var ranges := SortedRanges(TwoVisits(), "S", "East");
      var sorted := SortBy(AtStop(TwoVisits(), "S", "East"), VisitTime);
      var rows := HeadwayRows(sorted, |sorted|, EmittedStarts(SweepAsWritten(ranges)));
      ranges == [Span(100, 200)] && rows[0].previous == Some(200) && rows[0].headway == Some(-100)
  {
    TwoVisitsOrdered();
    TwoVisitsOneRange();
    SweepAsWrittenLosesStart();
    var e := SweepAsWritten([Span(100, 200)]);
    assert e[..0] == [];
    assert EmittedStarts(e) == [];
    HeadwayRowAt(TwoVisits(), 2, [], 0);
  }
}

/**
 * The Stop-Crossing Interpolator: the stops of each pattern
 * (`get_pattern_stops`), the choice of the intervals that pass a stop
 * (`filter_intervals`), the constant-speed estimate of the crossing instant
 * rounded to the minute (`interpolate_stop_time`) and the per-(stop, pattern)
 * loop that collects the crossings (`get_stoptimes`).
 */
module Crossings {
  import opened Feeds
  import opened Sorting
  import opened Intervals

  // ---------------------------------------------------------------------------
  // Pattern topology

  /** A point of a pattern: sequence number `seq`, type `typ` ("S" for a stop), stop id `stpid`, distance `pdist`. */
  datatype Point = Point(order: int, typ: string, stopId: string, dist: int)

  /** A pattern as the topology provider returns it: id `pid`, direction `rtdir`, its points. */
  datatype Pattern = Pattern(pid: int, direction: string, points: seq<Point>)

  /** A stop on one pattern, tagged with the pattern and its direction. */
  datatype StopLocation = StopLocation(stopId: string, pattern: int, direction: string, dist: int, order: int)

  function PointOrder(p: Point): int { p.order }

  function StopOrder(s: StopLocation): int { s.order }

  /** The point `p`, a stop of pattern `pid` running in `direction`. */
  function Tag(p: Point, pid: int, direction: string): StopLocation
  {
    StopLocation(p.stopId, pid, direction, p.dist, p.order)
  }

  /** The direction of the first pattern listed with id `pid`. */
  function DirectionOf(patterns: seq<Pattern>, pid: int): (d: string)
    requires exists i :: 0 <= i < |patterns| && patterns[i].pid == pid
    ensures exists i :: (0 <= i < |patterns| && patterns[i].pid == pid && patterns[i].direction == d &&
                         forall j :: 0 <= j < i ==> patterns[j].pid != pid)
  {
    if patterns[0].pid == pid then patterns[0].direction
    else
      var d := DirectionOf(patterns[1..], pid);
      assert forall j :: 0 <= j < |patterns| - 1 ==> patterns[1..][j] == patterns[j + 1];
      var i :| 0 <= i < |patterns| - 1 && patterns[1..][i].pid == pid && patterns[1..][i].direction == d &&
               forall j :: 0 <= j < i ==> patterns[1..][j].pid != pid;
      assert patterns[i + 1].pid == pid && patterns[i + 1].direction == d;
      d
  }

  /** The stop points of `points`, in their order, tagged with the pattern and its direction. */
  function StopsOfPoints(points: seq<Point>, pid: int, direction: string): seq<StopLocation>
  {
    if points == [] then []
    else
      var last := points[|points| - 1];
      var p := StopsOfPoints(points[..|points| - 1], pid, direction);
      if last.typ == "S" then p + [Tag(last, pid, direction)] else p
  }

  /** Only stop points are kept. */
  lemma {:induction false} StopsOfPointsSound(points: seq<Point>, pid: int, direction: string, s: StopLocation)
    requires s in StopsOfPoints(points, pid, direction)
    ensures exists p :: p in points && p.typ == "S" && s == Tag(p, pid, direction)
  {
    var init := points[..|points| - 1];
    var last := points[|points| - 1];
    if s in StopsOfPoints(init, pid, direction) {
      StopsOfPointsSound(init, pid, direction, s);
      var p :| p in init && p.typ == "S" && s == Tag(p, pid, direction);
      assert p in points;
    } else {
      assert last in points;
    }
  }

  /** Every stop point is kept. */
  lemma {:induction false} StopsOfPointsComplete(points: seq<Point>, pid: int, direction: string, p: Point)
    requires p in points && p.typ == "S"
    ensures Tag(p, pid, direction) in StopsOfPoints(points, pid, direction)
  {
    var init := points[..|points| - 1];
    assert points == init + [points[|points| - 1]];
    if p != points[|points| - 1] {
      StopsOfPointsComplete(init, pid, direction, p);
    }
  }

  /** Stops keep the order of their points. */
  lemma {:induction false} StopsOfPointsSorted(points: seq<Point>, pid: int, direction: string)
    requires SortedBy(points, PointOrder)
    ensures SortedBy(StopsOfPoints(points, pid, direction), StopOrder)
  {
    if points != [] {
      var init := points[..|points| - 1];
      var last := points[|points| - 1];
      var p := StopsOfPoints(init, pid, direction);
      StopsOfPointsSorted(init, pid, direction);
      forall s | s in p ensures StopOrder(s) <= last.order {
        StopsOfPointsSound(init, pid, direction, s);
        var q :| q in init && q.typ == "S" && s == Tag(q, pid, direction);
        var m :| 0 <= m < |init| && init[m] == q;
        assert PointOrder(points[m]) <= PointOrder(points[|points| - 1]);
      }
    }
  }

  /** The stops of the `i`-th pattern: its points sorted by `seq`, tagged, and filtered to type "S". */
  function StopsOfPattern(patterns: seq<Pattern>, i: nat): seq<StopLocation>
    requires i < |patterns|
  {
    StopsOfPoints(SortBy(patterns[i].points, PointOrder), patterns[i].pid, DirectionOf(patterns, patterns[i].pid))
  }

  /** The stops of the first `n` patterns, pattern after pattern. */
  function StopsOfPatterns(patterns: seq<Pattern>, n: nat): seq<StopLocation>
    requires n <= |patterns|
  {
    if n == 0 then [] else StopsOfPatterns(patterns, n - 1) + StopsOfPattern(patterns, n - 1)
  }

  /** `get_pattern_stops` without the point geometry. */
  method PatternStops(patterns: seq<Pattern>) returns (stops: seq<StopLocation>)
    ensures stops == StopsOfPatterns(patterns, |patterns|)
  {
    stops := [];
    for i := 0 to |patterns|
      invariant stops == StopsOfPatterns(patterns, i)
    {
      stops := stops + StopsOfPattern(patterns, i);
    }
  }

  /** Each pattern contributes its stop points in ascending `seq` order. */
  lemma {:induction false} PatternStopsSorted(patterns: seq<Pattern>, i: nat)
    requires i < |patterns|
    ensures SortedBy(StopsOfPattern(patterns, i), StopOrder)
  {
    StopsOfPointsSorted(SortBy(patterns[i].points, PointOrder), patterns[i].pid, DirectionOf(patterns, patterns[i].pid));
  }

  /**
   * Each pattern contributes exactly its stop points, tagged with its id and
   * the direction listed for that id.
   */
  lemma {:induction false} PatternStopsAreStopPoints(patterns: seq<Pattern>, i: nat)
    requires i < |patterns|
    ensures forall s :: s in StopsOfPattern(patterns, i) ==>
      exists p :: p in patterns[i].points && p.typ == "S" && s == Tag(p, patterns[i].pid, DirectionOf(patterns, patterns[i].pid))
    ensures forall p :: p in patterns[i].points && p.typ == "S" ==>
      Tag(p, patterns[i].pid, DirectionOf(patterns, patterns[i].pid)) in StopsOfPattern(patterns, i)
  {
    var pts := patterns[i].points;
    var pid := patterns[i].pid;
    var dir := DirectionOf(patterns, pid);
    var sorted := SortBy(pts, PointOrder);
    SortByMembers(pts, PointOrder);
    forall s | s in StopsOfPattern(patterns, i)
      ensures exists p :: p in pts && p.typ == "S" && s == Tag(p, pid, dir)
    {
      StopsOfPointsSound(sorted, pid, dir, s);
      var p :| p in sorted && p.typ == "S" && s == Tag(p, pid, dir);
      var m :| 0 <= m < |sorted| && sorted[m] == p;
      assert p in pts;
    }
    forall p | p in pts && p.typ == "S"
      ensures Tag(p, pid, dir) in StopsOfPattern(patterns, i)
    {
      var m :| 0 <= m < |pts| && pts[m] == p;
      StopsOfPointsComplete(sorted, pid, dir, p);
    }
  }

  // ---------------------------------------------------------------------------
  // Choosing and interpolating intervals

  /** `filter_intervals`: the interval starts before the stop and ends at or beyond it. */
  predicate Qualifies(stopDist: int, iv: Interval)
    ensures Qualifies(stopDist, iv) ==> Travelled(iv) > 0
  {
    iv.startDist < stopDist <= iv.endDist
  }

  function Abs(x: int): nat { if x < 0 then -x else x }

  /** The arithmetic of whole minutes that `RoundToMinute` rests on. */
  lemma {:induction false} MinuteArithmetic(q: int, den: int)
    ensures (60 * q) % 60 == 0 && (60 * q) / 60 == q
    ensures (60 * q) * den == q * (60 * den)
  {
  }

  /**
   * Timestamp rounding to the nearest minute of the time `num / den` seconds,
   * with an exact half minute going to the even minute (the rule of pandas'
   * `Timestamp.round`).
   */
  function RoundToMinute(num: int, den: int): (t: Time)
    requires den > 0
    ensures t % 60 == 0
    ensures 2 * Abs(num - t * den) <= 60 * den
    ensures 2 * Abs(num - t * den) == 60 * den ==> (t / 60) % 2 == 0
  {
    var unit := 60 * den;
    var q := num / unit;
    var r := num % unit;
    MinuteArithmetic(q, den);
    MinuteArithmetic(q + 1, den);
    assert num - (60 * q) * den == r;
    assert num - (60 * (q + 1)) * den == r - unit;
    if 2 * r < unit then 60 * q
    else if 2 * r > unit then 60 * (q + 1)
    else if q % 2 == 0 then 60 * q
    else 60 * (q + 1)
  }

  /** The distance the interval covers: the denominator of the interpolation. */
  function Travelled(iv: Interval): int { iv.endDist - iv.startDist }

  /**
   * The unrounded crossing time times `Travelled(iv)`: start time plus the
   * elapsed time scaled by the covered fraction of the way to the stop.
   */
  function ScaledExactTime(stopDist: int, iv: Interval): int
  {
    iv.startTime * Travelled(iv) + (iv.endTime - iv.startTime) * (stopDist - iv.startDist)
  }

  /**
   * `interpolate_stop_time`: the crossing instant under constant speed,
   * rounded to the minute. Only defined for a qualifying interval, which is
   * what keeps the distance ratio's denominator positive.
   */
  function EstimateStopTime(stopDist: int, iv: Interval): (t: Time)
    requires Qualifies(stopDist, iv)
    ensures t % 60 == 0
    ensures 2 * Abs(ScaledExactTime(stopDist, iv) - t * Travelled(iv)) <= 60 * Travelled(iv)
  {
    RoundToMinute(ScaledExactTime(stopDist, iv), Travelled(iv))
  }

  /**
   * The unrounded crossing time lies in (start time, end time], and is the
   * end time exactly when the stop is at the interval's end distance.
   */
  lemma {:induction false} ExactTimeWithinInterval(stopDist: int, iv: Interval)
    requires Qualifies(stopDist, iv) && iv.startTime < iv.endTime
    ensures iv.startTime * Travelled(iv) < ScaledExactTime(stopDist, iv) <= iv.endTime * Travelled(iv)
    ensures ScaledExactTime(stopDist, iv) == iv.endTime * Travelled(iv) <==> stopDist == iv.endDist
  {
    var elapsed := iv.endTime - iv.startTime;
    var d := Travelled(iv);
    var part := stopDist - iv.startDist;
    assert ScaledExactTime(stopDist, iv) - iv.startTime * d == elapsed * part;
    assert iv.endTime * d - ScaledExactTime(stopDist, iv) == elapsed * (d - part);
    assert elapsed * part > 0;
    assert elapsed * (d - part) >= 0;
    assert elapsed * (d - part) == 0 ==> d - part == 0;
  }

  lemma {:induction false} MulStrict(a: int, b: int, d: int)
    requires d > 0 && a * d < b * d
    ensures a < b
  {
  }

  /** The rounded crossing time is within half a minute of the interval: (start - 30 s, end + 30 s]. */
  lemma {:induction false} EstimateNearInterval(stopDist: int, iv: Interval)
    requires Qualifies(stopDist, iv) && iv.startTime < iv.endTime
    ensures iv.startTime - 30 < EstimateStopTime(stopDist, iv) <= iv.endTime + 30
  {
    var t := EstimateStopTime(stopDist, iv);
    var d := Travelled(iv);
    ExactTimeWithinInterval(stopDist, iv);
    assert (iv.startTime - 30) * d < t * d;
    MulStrict(iv.startTime - 30, t, d);
    assert t * d < (iv.endTime + 31) * d;
    MulStrict(t, iv.endTime + 31, d);
  }

  /** (100 s, 0) to (200 s, 100) with the stop at 40 crosses at 140 s, which rounds to 120 s. */
  lemma {:induction false} InterpolationExample(vehicle: int, pattern: int)
    ensures var iv := Interval(vehicle, pattern, 100, 200, 0, 100);
      ScaledExactTime(40, iv) == 140 * Travelled(iv) && EstimateStopTime(40, iv) == 120
  {
  }

  // ---------------------------------------------------------------------------
  // The per-(stop, pattern) loop of `get_stoptimes`

  /** A crossing: the interval's row extended with the stop, its distance, the direction and the estimate. */
  datatype Crossing = Crossing(stopId: string, direction: string, stopDist: int, interval: Interval, time: Time)

  /** The crossing that interval `iv` yields at a stop. */
  function Cross(stopId: string, direction: string, stopDist: int, iv: Interval): Crossing
    requires Qualifies(stopDist, iv)
  {
    Crossing(stopId, direction, stopDist, iv, EstimateStopTime(stopDist, iv))
  }

  /** The intervals on pattern `pid` that pass the stop, in input order, each with its crossing. */
  function CrossingsAt(intervals: seq<Interval>, stopId: string, direction: string, stopDist: int, pid: int): (r: seq<Crossing>)
    ensures forall k :: 0 <= k < |r| ==>
      (r[k].interval in intervals && r[k].interval.pattern == pid &&
       Qualifies(stopDist, r[k].interval) && r[k] == Cross(stopId, direction, stopDist, r[k].interval))
    ensures forall i :: 0 <= i < |intervals| && intervals[i].pattern == pid && Qualifies(stopDist, intervals[i]) ==>
      Cross(stopId, direction, stopDist, intervals[i]) in r
  {
    if intervals == [] then []
    else
      var init := intervals[..|intervals| - 1];
      var last := intervals[|intervals| - 1];
      var p := CrossingsAt(init, stopId, direction, stopDist, pid);
      assert intervals == init + [last];
      if last.pattern == pid && Qualifies(stopDist, last) then p + [Cross(stopId, direction, stopDist, last)] else p
  }

  /** Each passing interval of the pattern gives its crossing exactly as often as it occurs in the input. */
  lemma {:induction false} CrossingsAtCount(intervals: seq<Interval>, stopId: string, direction: string, stopDist: int, pid: int,
                                            iv: Interval)
    requires iv.pattern == pid && Qualifies(stopDist, iv)
    ensures multiset(CrossingsAt(intervals, stopId, direction, stopDist, pid))[Cross(stopId, direction, stopDist, iv)] ==
      multiset(intervals)[iv]
  {
    if intervals != [] {
      var init, last := intervals[..|intervals| - 1], intervals[|intervals| - 1];
      assert intervals == init + [last];
      CrossingsAtCount(init, stopId, direction, stopDist, pid, iv);
    }
  }

  /** The distance of the first listed stop with this id on this pattern. */
  function FirstDist(stops: seq<StopLocation>, stopId: string, pid: int): (d: int)
    requires exists i :: 0 <= i < |stops| && stops[i].stopId == stopId && stops[i].pattern == pid
    ensures exists i :: (0 <= i < |stops| && stops[i].stopId == stopId && stops[i].pattern == pid && stops[i].dist == d &&
                         forall j :: 0 <= j < i ==> !(stops[j].stopId == stopId && stops[j].pattern == pid))
  {
    if stops[0].stopId == stopId && stops[0].pattern == pid then stops[0].dist
    else
      assert forall j :: 0 <= j < |stops| - 1 ==> stops[1..][j] == stops[j + 1];
      var d := FirstDist(stops[1..], stopId, pid);
      var i :| 0 <= i < |stops| - 1 && stops[1..][i].stopId == stopId && stops[1..][i].pattern == pid &&
               stops[1..][i].dist == d && forall j :: 0 <= j < i ==> !(stops[1..][j].stopId == stopId && stops[1..][j].pattern == pid);
      assert stops[i + 1].stopId == stopId && stops[i + 1].pattern == pid && stops[i + 1].dist == d;
      d
  }

  /**
   * Crossing `c` belongs to stop row `i`: the row's stop, direction and
   * pattern, at the distance of the first listed stop with that id on that
   * pattern.
   */
  predicate OfRow(stops: seq<StopLocation>, i: nat, c: Crossing)
    requires i < |stops|
  {
    var s := stops[i];
    s.stopId == c.stopId && s.direction == c.direction && s.pattern == c.interval.pattern &&
    c.stopDist == FirstDist(stops, s.stopId, s.pattern)
  }

  /** The crossings the `i`-th stop row contributes. */
  function CrossingsOfRow(intervals: seq<Interval>, stops: seq<StopLocation>, i: nat): seq<Crossing>
    requires i < |stops|
  {
    var s := stops[i];
    CrossingsAt(intervals, s.stopId, s.direction, FirstDist(stops, s.stopId, s.pattern), s.pattern)
  }

  /** The crossings of the first `n` stop rows, row after row. */
  function CrossingsOfRows(intervals: seq<Interval>, stops: seq<StopLocation>, n: nat): seq<Crossing>
    requires n <= |stops|
  {
    if n == 0 then [] else CrossingsOfRows(intervals, stops, n - 1) + CrossingsOfRow(intervals, stops, n - 1)
  }

  /**
   * `get_stoptimes` after the intervals and the stops are built: one pass over
   * the stop rows, each collecting the qualifying intervals of its pattern.
   */
  method StopTimes(intervals: seq<Interval>, stops: seq<StopLocation>) returns (out: seq<Crossing>)
    ensures out == CrossingsOfRows(intervals, stops, |stops|)
  {
    out := [];
    for i := 0 to |stops|
      invariant out == CrossingsOfRows(intervals, stops, i)
    {
      out := out + CrossingsOfRow(intervals, stops, i);
    }
  }

  /**
   * Every crossing comes from a listed interval on the stop's pattern that
   * starts before the stop and ends at or beyond it, and carries that
   * interval's estimate; it belongs to one of the stop rows, at that stop's
   * first listed distance on the pattern.
   */
  lemma {:induction false} CrossingsSound(intervals: seq<Interval>, stops: seq<StopLocation>, n: nat, c: Crossing)
    requires n <= |stops| && c in CrossingsOfRows(intervals, stops, n)
    ensures c.interval in intervals && Qualifies(c.stopDist, c.interval) && Travelled(c.interval) > 0
    ensures c.time == EstimateStopTime(c.stopDist, c.interval)
    ensures exists i :: 0 <= i < n && OfRow(stops, i, c)
  {
    if c in CrossingsOfRows(intervals, stops, n - 1) {
      CrossingsSound(intervals, stops, n - 1, c);
    } else {
      var row := CrossingsOfRow(intervals, stops, n - 1);
      var k :| 0 <= k < |row| && row[k] == c;
      assert OfRow(stops, n - 1, c);
    }
  }

  /** Conversely, every listed interval that passes a listed stop of its pattern yields that stop's crossing. */
  lemma {:induction false} CrossingsComplete(intervals: seq<Interval>, stops: seq<StopLocation>, n: nat, i: nat, iv: Interval)
    requires i < n <= |stops| && iv in intervals && iv.pattern == stops[i].pattern
    requires Qualifies(FirstDist(stops, stops[i].stopId, stops[i].pattern), iv)
    ensures Cross(stops[i].stopId, stops[i].direction, FirstDist(stops, stops[i].stopId, stops[i].pattern), iv)
      in CrossingsOfRows(intervals, stops, n)
  {
    if i < n - 1 {
      CrossingsComplete(intervals, stops, n - 1, i, iv);
    }
  }
}

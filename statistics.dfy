/**
 * Summaries of computed headways: the minimum, maximum and mean of a headway
 * column (`get_headway_stats`) and the average wait time per stop
 * (`get_average_wait_time`). Headways are whole seconds; a null headway is
 * `None` and is skipped, as pandas skips NaN and NaT.
 */
module Statistics {
  import opened Wrappers
  import opened Sorting
  import opened Crossings
  import opened Actual

  // ---------------------------------------------------------------------------
  // Reductions over the non-null headways

  /** The non-null headways, in order. */
  function Values(hs: seq<Option<int>>): (r: seq<int>)
    ensures forall x :: x in r <==> Some(x) in hs
    ensures forall x :: multiset(r)[x] == multiset(hs)[Some(x)]
  {
    if hs == [] then []
    else
      var last := hs[|hs| - 1];
      assert hs == hs[..|hs| - 1] + [last];
      Values(hs[..|hs| - 1]) + (if last.Some? then [last.value] else [])
  }

  /** The number of non-null headways. */
  function CountSome(hs: seq<Option<int>>): nat
  {
    if hs == [] then 0 else CountSome(hs[..|hs| - 1]) + (if hs[|hs| - 1].Some? then 1 else 0)
  }

  /** There is one value per non-null headway. */
  lemma {:induction false} ValuesCount(hs: seq<Option<int>>)
    ensures |Values(hs)| == CountSome(hs)
  {
    if hs != [] {
      ValuesCount(hs[..|hs| - 1]);
    }
  }

  function Sum(xs: seq<int>): int
  {
    if xs == [] then 0 else Sum(xs[..|xs| - 1]) + xs[|xs| - 1]
  }

  /** The smallest value, as `Series.min`. */
  function MinOf(xs: seq<int>): (m: int)
    requires |xs| > 0
    ensures m in xs && forall x :: x in xs ==> m <= x
  {
    if |xs| == 1 then xs[0]
    else
      var init := xs[..|xs| - 1];
      var m := MinOf(init);
      assert xs == init + [xs[|xs| - 1]];
      assert forall x :: x in xs ==> x in init || x == xs[|xs| - 1];
      if xs[|xs| - 1] < m then xs[|xs| - 1] else m
  }

  /** The largest value, as `Series.max`. */
  function MaxOf(xs: seq<int>): (m: int)
    requires |xs| > 0
    ensures m in xs && forall x :: x in xs ==> x <= m
  {
    if |xs| == 1 then xs[0]
    else
      var init := xs[..|xs| - 1];
      var m := MaxOf(init);
      assert xs == init + [xs[|xs| - 1]];
      assert forall x :: x in xs ==> x in init || x == xs[|xs| - 1];
      if m < xs[|xs| - 1] then xs[|xs| - 1] else m
  }

  /** A sum of values that all lie in `[lo, hi]` lies in `[n * lo, n * hi]`. */
  lemma {:induction false} SumBounds(xs: seq<int>, lo: int, hi: int)
    requires forall x :: x in xs ==> lo <= x <= hi
    ensures |xs| * lo <= Sum(xs) <= |xs| * hi
  {
    if xs != [] {
      var init, last := xs[..|xs| - 1], xs[|xs| - 1];
      assert forall x :: x in init ==> x in xs;
      SumBounds(init, lo, hi);
      assert last in xs;
      assert Sum(xs) == Sum(init) + last;
      assert |xs| * lo == |init| * lo + lo && |xs| * hi == |init| * hi + hi;
    }
  }

  // ---------------------------------------------------------------------------
  // get_headway_stats

  /** Minimum, maximum and mean of one headway column; `None` where pandas gives NaN. */
  datatype Stats = Stats(mean: Option<real>, max: Option<int>, min: Option<int>)

  /** The mean of `n` values summing to `sum`. */
  function Mean(sum: int, n: nat): real
    requires n > 0
  {
    sum as real / n as real
  }

  /** The statistics of a headway column, nulls skipped. */
  function HeadwayStats(hs: seq<Option<int>>): (s: Stats)
    ensures s.min.None? <==> forall i :: 0 <= i < |hs| ==> hs[i].None?
    ensures s.max.None? == s.min.None? && s.mean.None? == s.min.None?
    ensures s.min.Some? ==> Some(s.min.value) in hs && forall i :: 0 <= i < |hs| && hs[i].Some? ==> s.min.value <= hs[i].value
    ensures s.max.Some? ==> Some(s.max.value) in hs && forall i :: 0 <= i < |hs| && hs[i].Some? ==> hs[i].value <= s.max.value
  {
    var vs := Values(hs);
    assert forall i :: 0 <= i < |hs| && hs[i].Some? ==> hs[i].value in vs;
    if |vs| == 0 then
      assert forall i :: 0 <= i < |hs| ==> hs[i].None?;
      Stats(None, None, None)
    else
      var m := MinOf(vs);
      assert Some(vs[0]) in hs;
      Stats(Some(Mean(Sum(vs), |vs|)), Some(MaxOf(vs)), Some(m))
  }

  /** The mean is the sum of the non-null headways divided by how many there are. */
  lemma {:induction false} MeanValue(hs: seq<Option<int>>)
    ensures var s := HeadwayStats(hs);
      s.mean.Some? ==> CountSome(hs) > 0 && s.mean.value == Sum(Values(hs)) as real / CountSome(hs) as real
  {
    ValuesCount(hs);
  }

  /** Dividing a sum that lies in `[n * lo, n * hi]` by `n` gives a value in `[lo, hi]`. */
  lemma {:induction false} MeanBetween(sum: int, n: nat, lo: int, hi: int)
    requires n > 0 && n * lo <= sum <= n * hi
    ensures lo as real <= sum as real / n as real <= hi as real
  {
    var q := sum as real / n as real;
    assert q * n as real == sum as real;
    assert (n * lo) as real == n as real * lo as real;
    assert (n * hi) as real == n as real * hi as real;
  }

  /** The mean of a headway column lies between its minimum and its maximum. */
  lemma {:induction false} MeanWithinRange(hs: seq<Option<int>>)
    ensures var s := HeadwayStats(hs);
      s.mean.Some? ==> s.min.value as real <= s.mean.value <= s.max.value as real
  {
    var vs := Values(hs);
    if |vs| > 0 {
      SumBounds(vs, MinOf(vs), MaxOf(vs));
      MeanBetween(Sum(vs), |vs|, MinOf(vs), MaxOf(vs));
    }
  }

  /** `n` values all equal to `h` sum to `n * h`. */
  lemma {:induction false} EqualSum(xs: seq<int>, h: int)
    requires forall x :: x in xs ==> x == h
    ensures Sum(xs) == |xs| * h
  {
    if xs != [] {
      var init := xs[..|xs| - 1];
      assert forall x :: x in init ==> x in xs;
      EqualSum(init, h);
      assert xs[|xs| - 1] in xs;
    }
  }

  /** A column whose non-null headways all equal `h` has mean `h`. */
  lemma {:induction false} EqualHeadwaysMean(hs: seq<Option<int>>, h: int)
    requires Some(h) in hs && forall i :: 0 <= i < |hs| && hs[i].Some? ==> hs[i].value == h
    ensures HeadwayStats(hs).mean == Some(h as real)
  {
    var vs := Values(hs);
    forall x | x in vs ensures x == h {
      var i :| 0 <= i < |hs| && hs[i] == Some(x);
    }
    EqualSum(vs, h);
    assert h in vs;
    MeanOfEqual(|vs|, h);
  }

  /** `n` times `h`, divided by `n`, is `h`. */
  lemma {:induction false} MeanOfEqual(n: nat, h: int)
    requires n > 0
    ensures (n * h) as real / n as real == h as real
  {
    assert (n * h) as real == n as real * h as real;
  }

  // ---------------------------------------------------------------------------
  // get_average_wait_time

  const SECONDS_PER_DAY := 86400

  /**
   * `Timedelta.seconds`: the seconds component of a duration, which pandas
   * normalises into `[0, 86400)` and which therefore leaves out whole days.
   */
  function TimedeltaSeconds(d: int): (s: int)
    ensures 0 <= s < SECONDS_PER_DAY
    ensures (d - s) % SECONDS_PER_DAY == 0
  {
    d % SECONDS_PER_DAY
  }

  /** The wait-time row of one stop: AWT and mean headway in minutes, `None` where pandas gives NaN or inf. */
  datatype StopWait = StopWait(stopId: string, awt: Option<real>, meanHeadway: Option<real>)

  /** The rows at one stop, in either direction, in order. */
  function RowsAtStop(rows: seq<ActualRow>, stopId: string): (r: seq<ActualRow>)
    ensures forall row :: row in r <==> row in rows && row.crossing.stopId == stopId
  {
    if rows == [] then []
    else
      var last := rows[|rows| - 1];
      assert rows == rows[..|rows| - 1] + [last];
      RowsAtStop(rows[..|rows| - 1], stopId) + (if last.crossing.stopId == stopId then [last] else [])
  }

  /** Every row of the stop is kept as often as it occurs, and nothing else. */
  lemma {:induction false} RowsAtStopCount(rows: seq<ActualRow>, stopId: string, row: ActualRow)
    ensures multiset(RowsAtStop(rows, stopId))[row] ==
      if row.crossing.stopId == stopId then multiset(rows)[row] else 0
  {
    if rows != [] {
      var init, last := rows[..|rows| - 1], rows[|rows| - 1];
      assert rows == init + [last];
      RowsAtStopCount(init, stopId, row);
    }
  }

  /** The headway column of the rows. */
  function Headways(rows: seq<ActualRow>): (r: seq<Option<int>>)
    ensures |r| == |rows| && forall i :: 0 <= i < |rows| ==> r[i] == rows[i].headway
  {
    Map(rows, (x: ActualRow) => x.headway)
  }

  /** The start times of the rows' intervals. */
  function StartTimes(rows: seq<ActualRow>): (r: seq<int>)
    ensures |r| == |rows| && forall i :: 0 <= i < |rows| ==> r[i] == rows[i].crossing.interval.startTime
  {
    Map(rows, (x: ActualRow) => x.crossing.interval.startTime)
  }

  /** The end times of the rows' intervals. */
  function EndTimes(rows: seq<ActualRow>): (r: seq<int>)
    ensures |r| == |rows| && forall i :: 0 <= i < |rows| ==> r[i] == rows[i].crossing.interval.endTime
  {
    Map(rows, (x: ActualRow) => x.crossing.interval.endTime)
  }

  /** The timeframe of a stop in seconds: latest interval end minus earliest interval start, days dropped. */
  function Timeframe(here: seq<ActualRow>): (t: int)
    requires |here| > 0
    ensures 0 <= t < SECONDS_PER_DAY
  {
    TimedeltaSeconds(MaxOf(EndTimes(here)) - MinOf(StartTimes(here)))
  }

  /**
   * The timeframe runs from the earliest interval start of the rows `i` to
   * the latest interval end of the rows `j`, whole days dropped.
   */
  lemma {:induction false} TimeframeSpan(here: seq<ActualRow>) returns (i: nat, j: nat)
    requires |here| > 0
    ensures i < |here| && j < |here|
    ensures forall k :: 0 <= k < |here| ==>
      here[i].crossing.interval.startTime <= here[k].crossing.interval.startTime &&
      here[k].crossing.interval.endTime <= here[j].crossing.interval.endTime
    ensures Timeframe(here) == TimedeltaSeconds(here[j].crossing.interval.endTime - here[i].crossing.interval.startTime)
  {
    var starts, ends := StartTimes(here), EndTimes(here);
    var lo, hi := MinOf(starts), MaxOf(ends);
    i :| 0 <= i < |starts| && starts[i] == lo;
    j :| 0 <= j < |ends| && ends[j] == hi;
    forall k | 0 <= k < |here|
      ensures starts[i] <= starts[k] && ends[k] <= ends[j]
    {
      assert starts[k] in starts && ends[k] in ends;
      assert lo <= starts[k] && ends[k] <= hi;
    }
  }

  /** A span shorter than a day keeps all its seconds. */
  lemma SubDaySeconds(d: int)
    requires 0 <= d < SECONDS_PER_DAY
    ensures TimedeltaSeconds(d) == d
  {
  }

  /** Starts and ends that pair up inside one window span no more than it, and cover each pair. */
  lemma {:induction false} SpanOfBounds(starts: seq<int>, ends: seq<int>, from: int, until: int)
    requires |starts| == |ends| > 0
    requires forall k :: 0 <= k < |starts| ==> from <= starts[k] <= ends[k] <= until
    ensures from <= MinOf(starts) <= MaxOf(ends) <= until
    ensures forall k :: 0 <= k < |starts| ==> ends[k] - starts[k] <= MaxOf(ends) - MinOf(starts)
  {
    assert starts[0] in starts && ends[0] in ends;
    forall k | 0 <= k < |starts|
      ensures ends[k] - starts[k] <= MaxOf(ends) - MinOf(starts)
    {
      assert starts[k] in starts && ends[k] in ends;
    }
  }

  /**
   * When every row's interval runs forward inside one window shorter than a day, as the
   * intervals of one service day do, `.seconds` drops nothing: the timeframe is the plain
   * span from the earliest start to the latest end, and no interval is longer than it.
   */
  lemma {:induction false} TimeframeWithinDay(here: seq<ActualRow>, from: int, until: int)
    requires |here| > 0 && until - from < SECONDS_PER_DAY
    requires forall k :: 0 <= k < |here| ==>
      from <= here[k].crossing.interval.startTime <= here[k].crossing.interval.endTime <= until
    ensures Timeframe(here) == MaxOf(EndTimes(here)) - MinOf(StartTimes(here))
    ensures forall k :: 0 <= k < |here| ==>
      here[k].crossing.interval.endTime - here[k].crossing.interval.startTime <= Timeframe(here)
  {
    var starts, ends := StartTimes(here), EndTimes(here);
    SpanOfBounds(starts, ends, from, until);
    SubDaySeconds(MaxOf(ends) - MinOf(starts));
  }

  /** The sum of the squared headways in minutes. */
  function SquareSum(xs: seq<int>): real
  {
    if xs == [] then 0.0
    else
      var m := xs[|xs| - 1] as real / 60.0;
      SquareSum(xs[..|xs| - 1]) + m * m
  }

  lemma {:induction false} SquareSumNonNegative(xs: seq<int>)
    ensures SquareSum(xs) >= 0.0
  {
    if xs != [] {
      SquareSumNonNegative(xs[..|xs| - 1]);
    }
  }

  /**
   * AWT in minutes over a timeframe of `seconds`: the sum of the squared
   * headways in minutes over twice the timeframe in minutes. A zero timeframe
   * divides by zero in the source and gives no value here.
   */
  function AwtOf(hs: seq<int>, seconds: int): (a: Option<real>)
    requires seconds >= 0
    ensures a.None? <==> seconds == 0
    ensures a.Some? ==> a.value >= 0.0
  {
    if seconds == 0 then None
    else
      SquareSumNonNegative(hs);
      Some(SquareSum(hs) / (2.0 * (seconds as real / 60.0)))
  }

  /** The mean headway in minutes; none without headways. */
  function MeanMinutes(hs: seq<int>): (m: Option<real>)
    ensures m.None? <==> |hs| == 0
    ensures m.Some? ==> m.value * 60.0 * |hs| as real == Sum(hs) as real
  {
    if |hs| == 0 then None else Some(Sum(hs) as real / 60.0 / |hs| as real)
  }

  /** A stop has no headway values exactly when every row there has a null headway. */
  lemma {:induction false} NoHeadways(here: seq<ActualRow>)
    ensures |Values(Headways(here))| == 0 <==> forall row :: row in here ==> row.headway.None?
  {
    var hs := Values(Headways(here));
    if |hs| > 0 {
      assert Some(hs[0]) in Headways(here);
      var i :| 0 <= i < |here| && Headways(here)[i] == Some(hs[0]);
      assert here[i] in here;
    } else {
      forall row | row in here ensures row.headway.None? {
        var i :| 0 <= i < |here| && here[i] == row;
        assert Headways(here)[i] == row.headway;
      }
    }
  }

  /** The wait-time row of one stop, from the rows at that stop in either direction. */
  function WaitAt(rows: seq<ActualRow>, stopId: string): (w: StopWait)
    requires |RowsAtStop(rows, stopId)| > 0
    ensures w.stopId == stopId
    ensures w.awt.None? <==> Timeframe(RowsAtStop(rows, stopId)) == 0
    ensures w.meanHeadway.None? <==> forall row :: row in rows && row.crossing.stopId == stopId ==> row.headway.None?
  {
    var here := RowsAtStop(rows, stopId);
    var hs := Values(Headways(here));
    NoHeadways(here);
    StopWait(stopId, AwtOf(hs, Timeframe(here)), MeanMinutes(hs))
  }

  /** `n` equal headways of `h` seconds square-sum to `n * (h / 60)^2`. */
  lemma {:induction false} EqualSquareSum(xs: seq<int>, h: int)
    requires forall x :: x in xs ==> x == h
    ensures SquareSum(xs) == |xs| as real * (h as real / 60.0) * (h as real / 60.0)
  {
    if xs != [] {
      var init := xs[..|xs| - 1];
      assert forall x :: x in init ==> x in xs;
      EqualSquareSum(init, h);
      assert xs[|xs| - 1] in xs;
    }
  }

  /**
   * Regular service: when every headway is `h > 0` seconds and the headways
   * exactly fill the timeframe, the average wait is half a headway.
   */
  lemma {:induction false} RegularServiceWait(hs: seq<int>, h: int, seconds: int)
    requires h > 0 && |hs| > 0
    requires forall x :: x in hs ==> x == h
    requires |hs| * h == seconds
    ensures AwtOf(hs, seconds) == Some(h as real / 120.0)
  {
    var n := |hs| as real;
    var m := h as real / 60.0;
    EqualSquareSum(hs, h);
    assert seconds as real == n * h as real;
    assert seconds as real / 60.0 == n * m;
    assert n * m > 0.0;
    assert SquareSum(hs) == n * m * m;
    assert (m / 2.0) * (2.0 * (n * m)) == n * m * m;
    assert SquareSum(hs) / (2.0 * (n * m)) == m / 2.0;
    assert m / 2.0 == h as real / 120.0;
  }

  /** The stop ids of the rows, each once, in order of first appearance. */
  function StopIds(rows: seq<ActualRow>): (r: seq<string>)
    ensures forall i :: 0 <= i < |r| ==> |RowsAtStop(rows, r[i])| > 0
    ensures forall i :: 0 <= i < |rows| ==> rows[i].crossing.stopId in r
    ensures forall i, j :: 0 <= i < j < |r| ==> r[i] != r[j]
  {
    var ids := Distinct(RowStopIds(rows));
    forall i | 0 <= i < |ids| ensures |RowsAtStop(rows, ids[i])| > 0 {
      var k :| 0 <= k < |rows| && RowStopIds(rows)[k] == ids[i];
      assert rows[k] in RowsAtStop(rows, ids[i]);
    }
    ids
  }

  /** The stop id of every row, in order. */
  function RowStopIds(rows: seq<ActualRow>): (r: seq<string>)
    ensures |r| == |rows| && forall i :: 0 <= i < |rows| ==> r[i] == rows[i].crossing.stopId
  {
    Map(rows, (x: ActualRow) => x.crossing.stopId)
  }

  /** One wait-time row per stop id, in order of first appearance. */
  method AverageWaitTimes(rows: seq<ActualRow>) returns (waits: seq<StopWait>)
    ensures |waits| == |StopIds(rows)|
    ensures forall i :: 0 <= i < |waits| ==> waits[i] == WaitAt(rows, StopIds(rows)[i])
  {
    var stops := StopIds(rows);
    waits := [];
    for i := 0 to |stops|
      invariant |waits| == i
      invariant forall k :: 0 <= k < i ==> waits[k] == WaitAt(rows, stops[k])
    {
      waits := waits + [WaitAt(rows, stops[i])];
    }
  }
}

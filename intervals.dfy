/**
 * The Interval Builder (`get_vehicle_intervals`): position samples of one
 * route, grouped by vehicle and then by pattern, each group sorted by time,
 * and every sample paired with its predecessor in the group.
 */
module Intervals {
  import opened Feeds
  import opened Sorting

  /** A motion interval: the row of a sample extended with its predecessor's time and distance. */
  datatype Interval = Interval(vehicle: int, pattern: int, startTime: Time, endTime: Time, startDist: int, endDist: int)

  /** The interval from sample `a` to its successor `b`; it keeps `b`'s vehicle and pattern. */
  function Between(a: Sample, b: Sample): Interval
  {
    Interval(b.vehicle, b.pattern, a.time, b.time, a.dist, b.dist)
  }

  // ---------------------------------------------------------------------------
  // Selections of samples (the `.loc[...]` filters)

  /** The samples of one route. */
  function OnRoute(samples: seq<Sample>, route: string): seq<Sample>
  {
    Filter(samples, (s: Sample) => s.route == route)
  }

  /** The samples of one vehicle. */
  function OfVehicle(samples: seq<Sample>, vehicle: int): seq<Sample>
  {
    Filter(samples, (s: Sample) => s.vehicle == vehicle)
  }

  /** The samples of one pattern. */
  function OfPattern(samples: seq<Sample>, pattern: int): seq<Sample>
  {
    Filter(samples, (s: Sample) => s.pattern == pattern)
  }

  /** The `vid` column. */
  function VehicleIds(samples: seq<Sample>): (r: seq<int>)
    ensures |r| == |samples| && forall i :: 0 <= i < |r| ==> r[i] == samples[i].vehicle
  {
    Map(samples, (x: Sample) => x.vehicle)
  }

  /** The `pid` column. */
  function PatternIds(samples: seq<Sample>): (r: seq<int>)
    ensures |r| == |samples| && forall i :: 0 <= i < |r| ==> r[i] == samples[i].pattern
  {
    Map(samples, (x: Sample) => x.pattern)
  }

  // ---------------------------------------------------------------------------
  // The intervals the builder produces

  /**
   * Pairs every sample of the time-ordered group `g` with its predecessor: the
   * first sample has none and yields no interval.
   */
  function Pairs(g: seq<Sample>): (r: seq<Interval>)
    ensures |r| == if |g| == 0 then 0 else |g| - 1
    ensures forall k :: 0 <= k < |r| ==> r[k] == Between(g[k], g[k + 1])
  {
    if |g| < 2 then [] else Pairs(g[..|g| - 1]) + [Between(g[|g| - 2], g[|g| - 1])]
  }

  /** The samples of one (vehicle, pattern) group, sorted by time. */
  function Group(samples: seq<Sample>, vehicle: int, pattern: int): (g: seq<Sample>)
    ensures SortedBy(g, SampleTime)
  {
    SortBy(OfPattern(OfVehicle(samples, vehicle), pattern), SampleTime)
  }

  /** The patterns a vehicle ran, in order of first appearance. */
  function PatternsOf(samples: seq<Sample>, vehicle: int): seq<int>
  {
    Distinct(PatternIds(OfVehicle(samples, vehicle)))
  }

  /** The intervals of one vehicle over the patterns `pids`, in that order. */
  function VehicleIntervalsOf(samples: seq<Sample>, vehicle: int, pids: seq<int>): seq<Interval>
  {
    if pids == [] then []
    else VehicleIntervalsOf(samples, vehicle, pids[..|pids| - 1]) + Pairs(Group(samples, vehicle, pids[|pids| - 1]))
  }

  /** The intervals of the vehicles `vids`, in that order. */
  function RouteIntervalsOf(samples: seq<Sample>, vids: seq<int>): seq<Interval>
  {
    if vids == [] then []
    else
      var v := vids[|vids| - 1];
      RouteIntervalsOf(samples, vids[..|vids| - 1]) + VehicleIntervalsOf(samples, v, PatternsOf(samples, v))
  }

  /** All intervals of the (already route-filtered) samples. */
  function IntervalsOf(samples: seq<Sample>): seq<Interval>
  {
    RouteIntervalsOf(samples, Distinct(VehicleIds(samples)))
  }

  /** `a` and `b` belong to the same (vehicle, pattern) group. */
  predicate SameGroup(a: Sample, b: Sample)
  {
    a.vehicle == b.vehicle && a.pattern == b.pattern
  }

  /**
   * `iv` joins two samples of one (vehicle, pattern) group that are adjacent
   * in time: no sample of that group lies strictly between them.
   */
  ghost predicate Consecutive(samples: seq<Sample>, iv: Interval)
  {
    exists a, b :: a in samples && b in samples && SameGroup(a, b) && iv == Between(a, b) &&
      a.time <= b.time &&
      forall c :: c in samples && SameGroup(c, b) ==> c.time <= a.time || b.time <= c.time
  }

  /** The pairwise iteration over one sorted group: each sample after the first closes an interval. */
  method GroupIntervals(group: seq<Sample>) returns (out: seq<Interval>)
    ensures out == Pairs(group)
  {
    out := [];
    if |group| >= 2 {
      var k := 1;
      while k < |group|
        invariant 1 <= k <= |group|
        invariant out == Pairs(group[..k])
      {
        assert group[..k + 1][..k] == group[..k];
        out := out + [Between(group[k - 1], group[k])];
        k := k + 1;
      }
      assert group[..k] == group;
    }
  }

  /** One more pattern adds its group's intervals at the end. */
  lemma {:induction false} VehicleIntervalsStep(samples: seq<Sample>, vehicle: int, pids: seq<int>, j: nat)
    requires j < |pids|
    ensures VehicleIntervalsOf(samples, vehicle, pids[..j + 1]) ==
      VehicleIntervalsOf(samples, vehicle, pids[..j]) + Pairs(Group(samples, vehicle, pids[j]))
  {
    assert pids[..j + 1][..j] == pids[..j];
  }

  /** One more vehicle adds its intervals at the end. */
  lemma {:induction false} RouteIntervalsStep(samples: seq<Sample>, vids: seq<int>, i: nat)
    requires i < |vids|
    ensures RouteIntervalsOf(samples, vids[..i + 1]) ==
      RouteIntervalsOf(samples, vids[..i]) + VehicleIntervalsOf(samples, vids[i], PatternsOf(samples, vids[i]))
  {
    assert vids[..i + 1][..i] == vids[..i];
  }

  /** The per-pattern loop for one vehicle, over its patterns `pids`. */
  method OneVehicleIntervals(samples: seq<Sample>, vehicle: int, pids: seq<int>) returns (out: seq<Interval>)
    ensures out == VehicleIntervalsOf(samples, vehicle, pids)
  {
    out := [];
    for j := 0 to |pids|
      invariant out == VehicleIntervalsOf(samples, vehicle, pids[..j])
    {
      var pairs := GroupIntervals(Group(samples, vehicle, pids[j]));
      VehicleIntervalsStep(samples, vehicle, pids, j);
      out := out + pairs;
    }
    assert pids[..|pids|] == pids;
  }

  /** The per-vehicle loop over the vehicles `vids`. */
  method RouteIntervals(routeSamples: seq<Sample>, vids: seq<int>) returns (out: seq<Interval>)
    ensures out == RouteIntervalsOf(routeSamples, vids)
  {
    out := [];
    for i := 0 to |vids|
      invariant out == RouteIntervalsOf(routeSamples, vids[..i])
    {
      var more := OneVehicleIntervals(routeSamples, vids[i], PatternsOf(routeSamples, vids[i]));
      RouteIntervalsStep(routeSamples, vids, i);
      out := out + more;
    }
    assert vids[..|vids|] == vids;
  }

  /** `get_vehicle_intervals`, with explicit pairwise iteration in place of the roll-and-drop. */
  method VehicleIntervals(samples: seq<Sample>, route: string) returns (out: seq<Interval>)
    ensures out == IntervalsOf(OnRoute(samples, route))
  {
    var routeSamples := OnRoute(samples, route);
    out := RouteIntervals(routeSamples, Distinct(VehicleIds(routeSamples)));
  }

  /** Exactly the route's samples of one vehicle and pattern make up its group. */
  lemma {:induction false} GroupMembers(samples: seq<Sample>, vehicle: int, pattern: int, x: Sample)
    ensures x in Group(samples, vehicle, pattern) <==> x in samples && x.vehicle == vehicle && x.pattern == pattern
  {
    var members := OfPattern(OfVehicle(samples, vehicle), pattern);
    assert multiset(Group(samples, vehicle, pattern)) == multiset(members);
    assert x in Group(samples, vehicle, pattern) <==> x in multiset(members);
    if x in samples && x.vehicle == vehicle && x.pattern == pattern {
      assert x in OfVehicle(samples, vehicle);
    }
  }

  /** A group holds every sample of its vehicle and pattern as often as it occurs, and nothing else. */
  lemma {:induction false} GroupCount(samples: seq<Sample>, vehicle: int, pattern: int, x: Sample)
    ensures multiset(Group(samples, vehicle, pattern))[x] ==
      if x.vehicle == vehicle && x.pattern == pattern then multiset(samples)[x] else 0
  {
    FilterCount(samples, (s: Sample) => s.vehicle == vehicle, x);
    FilterCount(OfVehicle(samples, vehicle), (s: Sample) => s.pattern == pattern, x);
  }

  /** The interval closed by the `k+1`-th sample of a sorted group joins two time-adjacent samples. */
  lemma {:induction false} PairConsecutive(samples: seq<Sample>, vehicle: int, pattern: int, k: nat)
    requires k + 1 < |Group(samples, vehicle, pattern)|
    ensures var g := Group(samples, vehicle, pattern);
      Consecutive(samples, Between(g[k], g[k + 1])) && g[k].time <= g[k + 1].time &&
      g[k + 1].vehicle == vehicle && g[k + 1].pattern == pattern
  {
    var g := Group(samples, vehicle, pattern);
    var a, b := g[k], g[k + 1];
    GroupMembers(samples, vehicle, pattern, a);
    GroupMembers(samples, vehicle, pattern, b);
    assert SampleTime(a) <= SampleTime(b);
    forall c | c in samples && SameGroup(c, b)
      ensures c.time <= a.time || b.time <= c.time
    {
      GroupMembers(samples, vehicle, pattern, c);
      var m :| 0 <= m < |g| && g[m] == c;
      if m <= k { assert SampleTime(g[m]) <= SampleTime(g[k]); }
      else { assert SampleTime(g[k + 1]) <= SampleTime(g[m]); }
    }
  }

  /** A group's intervals join time-adjacent samples of that group, so none runs backwards in time. */
  lemma {:induction false} PairsConsecutive(samples: seq<Sample>, vehicle: int, pattern: int, iv: Interval)
    requires iv in Pairs(Group(samples, vehicle, pattern))
    ensures Consecutive(samples, iv) && iv.startTime <= iv.endTime
    ensures iv.vehicle == vehicle && iv.pattern == pattern
  {
    var g := Group(samples, vehicle, pattern);
    var ps := Pairs(g);
    var k :| 0 <= k < |ps| && ps[k] == iv;
    PairConsecutive(samples, vehicle, pattern, k);
  }

  lemma {:induction false} VehicleIntervalsConsecutive(samples: seq<Sample>, vehicle: int, pids: seq<int>, iv: Interval)
    requires iv in VehicleIntervalsOf(samples, vehicle, pids)
    ensures Consecutive(samples, iv) && iv.startTime <= iv.endTime && iv.vehicle == vehicle
  {
    var last := pids[|pids| - 1];
    if iv in VehicleIntervalsOf(samples, vehicle, pids[..|pids| - 1]) {
      VehicleIntervalsConsecutive(samples, vehicle, pids[..|pids| - 1], iv);
    } else {
      PairsConsecutive(samples, vehicle, last, iv);
    }
  }

  /**
   * Every interval the builder produces joins two time-adjacent samples of one
   * (vehicle, pattern) group, so its start time is at most its end time.
   */
  lemma {:induction false} IntervalsConsecutive(samples: seq<Sample>, vids: seq<int>, iv: Interval)
    requires iv in RouteIntervalsOf(samples, vids)
    ensures Consecutive(samples, iv) && iv.startTime <= iv.endTime
  {
    var v := vids[|vids| - 1];
    if iv in RouteIntervalsOf(samples, vids[..|vids| - 1]) {
      IntervalsConsecutive(samples, vids[..|vids| - 1], iv);
    } else {
      VehicleIntervalsConsecutive(samples, v, PatternsOf(samples, v), iv);
    }
  }

  /** Every interval of the group of pattern `pids[j]` is among the vehicle's intervals. */
  lemma {:induction false} VehicleIntervalsHold(samples: seq<Sample>, vehicle: int, pids: seq<int>, j: nat, iv: Interval)
    requires j < |pids| && iv in Pairs(Group(samples, vehicle, pids[j]))
    ensures iv in VehicleIntervalsOf(samples, vehicle, pids)
  {
    if j < |pids| - 1 {
      assert pids[..|pids| - 1][j] == pids[j];
      VehicleIntervalsHold(samples, vehicle, pids[..|pids| - 1], j, iv);
    }
  }

  /** Every interval of vehicle `vids[i]` is among the route's intervals. */
  lemma {:induction false} RouteIntervalsHold(samples: seq<Sample>, vids: seq<int>, i: nat, iv: Interval)
    requires i < |vids| && iv in VehicleIntervalsOf(samples, vids[i], PatternsOf(samples, vids[i]))
    ensures iv in RouteIntervalsOf(samples, vids)
  {
    if i < |vids| - 1 {
      assert vids[..|vids| - 1][i] == vids[i];
      RouteIntervalsHold(samples, vids[..|vids| - 1], i, iv);
    }
  }

  /**
   * Conversely, every two samples that are adjacent in the time order of
   * their (vehicle, pattern) group give an interval: each vehicle of the
   * samples is visited, and each pattern of that vehicle.
   */
  lemma {:induction false} IntervalsComplete(samples: seq<Sample>, vehicle: int, pattern: int, k: nat)
    requires k + 1 < |Group(samples, vehicle, pattern)|
    ensures var g := Group(samples, vehicle, pattern);
      Between(g[k], g[k + 1]) in IntervalsOf(samples)
  {
    var g := Group(samples, vehicle, pattern);
    var x := g[0];
    GroupMembers(samples, vehicle, pattern, x);
    var n :| 0 <= n < |samples| && samples[n] == x;
    assert VehicleIds(samples)[n] == vehicle;
    var vids := Distinct(VehicleIds(samples));
    var i :| 0 <= i < |vids| && vids[i] == vehicle;
    var vs := OfVehicle(samples, vehicle);
    assert samples[n] in vs;
    var m :| 0 <= m < |vs| && vs[m] == x;
    assert PatternIds(vs)[m] == pattern;
    var pids := PatternsOf(samples, vehicle);
    var j :| 0 <= j < |pids| && pids[j] == pattern;
    var iv := Between(g[k], g[k + 1]);
    assert Pairs(g)[k] == iv;
    VehicleIntervalsHold(samples, vehicle, pids, j, iv);
    RouteIntervalsHold(samples, vids, i, iv);
  }

  /** Samples at three increasing times of one (vehicle, pattern) give exactly two intervals; one sample gives none. */
  lemma {:induction false} ThreeSamplesTwoIntervals(s0: Sample, s1: Sample, s2: Sample)
    requires SameGroup(s0, s1) && SameGroup(s1, s2) && s0.time < s1.time < s2.time
    ensures Pairs([s0, s1, s2]) == [Between(s0, s1), Between(s1, s2)]
    ensures Pairs([s0]) == []
  {
  }
}

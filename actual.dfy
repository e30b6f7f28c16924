/**
 * The Headway Calculator in actual mode (`get_actual_headways`): the
 * estimated crossings of every pattern pooled per stop and direction, sorted
 * by time, each with the gap to the crossing before it; the first crossing at
 * a stop and direction has no headway.
 */
module Actual {
  import opened Wrappers
  import opened Feeds
  import opened Sorting
  import opened Crossings

  /** One output row: a crossing and its headway, null for the first bus at the stop and direction. */
  datatype ActualRow = ActualRow(crossing: Crossing, headway: Option<int>)

  /** A stop in one direction of travel: the key the crossings are pooled by. */
  datatype StopKey = StopKey(stopId: string, direction: string)

  function KeyOf(c: Crossing): StopKey { StopKey(c.stopId, c.direction) }

  function CrossingTime(c: Crossing): int { c.time }

  function RowKey(r: ActualRow): StopKey { KeyOf(r.crossing) }

  /** The key of every crossing, in order. */
  function Keys(cs: seq<Crossing>): (r: seq<StopKey>)
    ensures |r| == |cs| && forall i :: 0 <= i < |cs| ==> r[i] == KeyOf(cs[i])
  {
    Map(cs, KeyOf)
  }

  /** The stop and directions that occur among the crossings, each once, in order of first appearance. */
  function StopKeys(cs: seq<Crossing>): (keys: seq<StopKey>)
    ensures forall i :: 0 <= i < |cs| ==> KeyOf(cs[i]) in keys
    ensures forall i, j :: 0 <= i < j < |keys| ==> keys[i] != keys[j]
  {
    var keys := Distinct(Keys(cs));
    assert forall i :: 0 <= i < |cs| ==> Keys(cs)[i] == KeyOf(cs[i]);
    keys
  }

  /** The crossings at one stop and direction, in input order: each one as often as in `cs`, and nothing else. */
  function AtKey(cs: seq<Crossing>, key: StopKey): seq<Crossing>
  {
    if cs == [] then []
    else
      var last := cs[|cs| - 1];
      AtKey(cs[..|cs| - 1], key) + (if KeyOf(last) == key then [last] else [])
  }

  /** The filter keeps every crossing of `key` as often as it occurs, and nothing else. */
  lemma {:induction false} AtKeyCount(cs: seq<Crossing>, key: StopKey, c: Crossing)
    ensures multiset(AtKey(cs, key))[c] == if KeyOf(c) == key then multiset(cs)[c] else 0
  {
    if cs != [] {
      var init, last := cs[..|cs| - 1], cs[|cs| - 1];
      assert cs == init + [last];
      AtKeyCount(init, key, c);
    }
  }

  /** The crossings whose stop and direction is one of `keys`, in input order. */
  function WithKeys(cs: seq<Crossing>, keys: set<StopKey>): seq<Crossing>
  {
    if cs == [] then []
    else
      var last := cs[|cs| - 1];
      WithKeys(cs[..|cs| - 1], keys) + (if KeyOf(last) in keys then [last] else [])
  }

  /** The crossings of the rows, in order. */
  function RowCrossings(rows: seq<ActualRow>): (r: seq<Crossing>)
    ensures |r| == |rows| && forall i :: 0 <= i < |rows| ==> r[i] == rows[i].crossing
  {
    Map(rows, (x: ActualRow) => x.crossing)
  }

  /** The time of every crossing, in order. */
  function CrossingTimes(cs: seq<Crossing>): (r: seq<Time>)
    ensures |r| == |cs| && forall i :: 0 <= i < |cs| ==> r[i] == cs[i].time
  {
    Map(cs, (x: Crossing) => x.time)
  }

  /** Row `i` comes no earlier than row `i - 1` and holds the gap to it. */
  predicate GapAfter(rows: seq<ActualRow>, i: int)
  {
    0 < i < |rows| &&
    rows[i - 1].crossing.time <= rows[i].crossing.time &&
    rows[i].headway == Some(rows[i].crossing.time - rows[i - 1].crossing.time)
  }

  // ---------------------------------------------------------------------------
  // One stop and direction

  /**
   * The crossings of one stop and direction sorted by time, each with the gap
   * to the one before it; the first row's headway, which the roll computes
   * from the last crossing, is set to null.
   */
  method GroupHeadways(group: seq<Crossing>) returns (rows: seq<ActualRow>)
    ensures multiset(RowCrossings(rows)) == multiset(group)
    ensures SortedBy(RowCrossings(rows), CrossingTime)
    ensures |rows| > 0 ==> rows[0].headway.None?
    ensures forall i :: 0 < i < |rows| ==> GapAfter(rows, i)
  {
    var sorted := SortBy(group, CrossingTime);
    var previous := Roll(CrossingTimes(sorted));
    var rolled := Subtract(sorted, previous);
    RolledRowsCrossings(sorted, previous);
    RolledRowsGaps(sorted);
    rows := NullFirst(rolled);
    assert RowCrossings(rows) == sorted;
  }

  /** The column subtraction `est_stop_time - previous_stop_time`, row by row. */
  method Subtract(sorted: seq<Crossing>, previous: seq<Time>) returns (rows: seq<ActualRow>)
    requires |sorted| == |previous|
    ensures rows == RolledRows(sorted, previous, |sorted|)
  {
    rows := [];
    for i := 0 to |sorted|
      invariant rows == RolledRows(sorted, previous, i)
    {
      rows := rows + [ActualRow(sorted[i], Some(sorted[i].time - previous[i]))];
    }
  }

  /** The first `n` rows before the null: each crossing with its time minus the rolled time. */
  function RolledRows(sorted: seq<Crossing>, previous: seq<Time>, n: nat): (r: seq<ActualRow>)
    requires n <= |sorted| == |previous|
    ensures |r| == n
  {
    if n == 0 then []
    else RolledRows(sorted, previous, n - 1) + [ActualRow(sorted[n - 1], Some(sorted[n - 1].time - previous[n - 1]))]
  }

  lemma {:induction false} RolledRowAt(sorted: seq<Crossing>, previous: seq<Time>, n: nat, i: nat)
    requires i < n <= |sorted| == |previous|
    ensures RolledRows(sorted, previous, n)[i] == ActualRow(sorted[i], Some(sorted[i].time - previous[i]))
  {
    if i < n - 1 {
      RolledRowAt(sorted, previous, n - 1, i);
    }
  }

  /** The rolled rows hold the crossings in their given order. */
  lemma {:induction false} RolledRowsCrossings(sorted: seq<Crossing>, previous: seq<Time>)
    requires |sorted| == |previous|
    ensures RowCrossings(RolledRows(sorted, previous, |sorted|)) == sorted
  {
    var rows := RolledRows(sorted, previous, |sorted|);
    forall k | 0 <= k < |sorted| ensures rows[k].crossing == sorted[k] {
      RolledRowAt(sorted, previous, |sorted|, k);
    }
  }

  /** Over time-sorted crossings every rolled row after the first holds the gap to the row before it. */
  lemma {:induction false} RolledRowsGaps(sorted: seq<Crossing>)
    requires SortedBy(sorted, CrossingTime)
    ensures forall k :: 0 < k < |sorted| ==> GapAfter(RolledRows(sorted, Roll(CrossingTimes(sorted)), |sorted|), k)
  {
    forall k | 0 < k < |sorted| ensures GapAfter(RolledRows(sorted, Roll(CrossingTimes(sorted)), |sorted|), k) {
      assert CrossingTime(sorted[k - 1]) <= CrossingTime(sorted[k]);
      RolledGapAt(sorted, k);
    }
  }

  /** Row `k` of the rolled rows holds the gap to row `k - 1` when the two are in time order. */
  lemma {:induction false} RolledGapAt(sorted: seq<Crossing>, k: nat)
    requires 0 < k < |sorted|
    requires CrossingTime(sorted[k - 1]) <= CrossingTime(sorted[k])
    ensures GapAfter(RolledRows(sorted, Roll(CrossingTimes(sorted)), |sorted|), k)
  {
    var times := CrossingTimes(sorted);
    var previous := Roll(times);
    var rows := RolledRows(sorted, previous, |sorted|);
    RolledRowAt(sorted, previous, |sorted|, k);
    RolledRowAt(sorted, previous, |sorted|, k - 1);
    assert times[k - 1] == sorted[k - 1].time;
    assert previous[k] == times[k - 1];
    assert rows[k].crossing.time - rows[k - 1].crossing.time == sorted[k].time - previous[k];
  }

  /** `iloc[0] = None`: the first row loses its headway, the other rows are kept. */
  function NullFirst(rows: seq<ActualRow>): (r: seq<ActualRow>)
    requires forall k :: 0 < k < |rows| ==> GapAfter(rows, k)
    ensures RowCrossings(r) == RowCrossings(rows)
    ensures |r| > 0 ==> r[0].headway.None?
    ensures forall k :: 0 < k < |r| ==> GapAfter(r, k)
  {
    if rows == [] then []
    else
      var r := [ActualRow(rows[0].crossing, None)] + rows[1..];
      assert forall k :: 0 <= k < |r| ==> r[k].crossing == rows[k].crossing;
      forall k | 0 < k < |r| ensures GapAfter(r, k) {
        assert GapAfter(rows, k);
      }
      r
  }

  // ---------------------------------------------------------------------------
  // All stops and directions

  /** No earlier row has the stop and direction of row `i`. */
  predicate FirstOfKey(rows: seq<ActualRow>, i: int)
    requires 0 <= i < |rows|
  {
    forall j :: 0 <= j < i ==> RowKey(rows[j]) != RowKey(rows[i])
  }

  /** Row `i` has no headway exactly when it is the first at its stop and direction. */
  predicate NullIffFirst(rows: seq<ActualRow>, i: int)
  {
    0 <= i < |rows| && (rows[i].headway.None? <==> FirstOfKey(rows, i))
  }

  /** A row `i` with a headway follows a row of its own stop and direction and holds the gap to it. */
  predicate FollowsSameKey(rows: seq<ActualRow>, i: int)
  {
    0 < i < |rows| && (rows[i].headway.Some? ==> RowKey(rows[i - 1]) == RowKey(rows[i]) && GapAfter(rows, i))
  }

  /**
   * The rows pool the crossings of each stop and direction: a row is null
   * exactly when it is the first at its stop and direction; otherwise it
   * follows a row of the same stop and direction and holds the gap to it;
   * and the rows of one stop and direction are in time order.
   */
  ghost predicate Pooled(rows: seq<ActualRow>)
  {
    && (forall i :: 0 <= i < |rows| ==> NullIffFirst(rows, i))
    && (forall i :: 0 < i < |rows| ==> FollowsSameKey(rows, i))
    && (forall i, j :: 0 <= i < j < |rows| && RowKey(rows[i]) == RowKey(rows[j]) ==> rows[i].crossing.time <= rows[j].crossing.time)
  }

  /** Row lists concatenate crossing by crossing. */
  lemma {:induction false} RowCrossingsAppend(a: seq<ActualRow>, b: seq<ActualRow>)
    ensures RowCrossings(a + b) == RowCrossings(a) + RowCrossings(b)
  {
    var r := RowCrossings(a + b);
    forall i | 0 <= i < |r| ensures r[i] == (RowCrossings(a) + RowCrossings(b))[i] {
      if i >= |a| {
        assert (a + b)[i] == b[i - |a|];
      }
    }
  }

  /** Adding one more stop and direction to the filter adds exactly its crossings. */
  lemma {:induction false} WithKeysAppend(cs: seq<Crossing>, keys: set<StopKey>, key: StopKey)
    requires key !in keys
    ensures multiset(WithKeys(cs, keys + {key})) == multiset(WithKeys(cs, keys)) + multiset(AtKey(cs, key))
  {
    if cs != [] {
      var init, last := cs[..|cs| - 1], cs[|cs| - 1];
      WithKeysAppend(init, keys, key);
      var inEither := if KeyOf(last) in keys + {key} then [last] else [];
      var inKeys := if KeyOf(last) in keys then [last] else [];
      var atKey := if KeyOf(last) == key then [last] else [];
      assert multiset(inEither) == multiset(inKeys) + multiset(atKey);
      assert WithKeys(cs, keys + {key}) == WithKeys(init, keys + {key}) + inEither;
      assert WithKeys(cs, keys) == WithKeys(init, keys) + inKeys;
      assert AtKey(cs, key) == AtKey(init, key) + atKey;
    }
  }

  /** Filtering by no stop and direction keeps nothing. */
  lemma {:induction false} WithNoKeys(cs: seq<Crossing>)
    ensures WithKeys(cs, {}) == []
  {
    if cs != [] {
      WithNoKeys(cs[..|cs| - 1]);
    }
  }

  /** Filtering by a list that holds every crossing's stop and direction keeps every crossing. */
  lemma {:induction false} WithAllKeys(cs: seq<Crossing>, keys: set<StopKey>)
    requires forall i :: 0 <= i < |cs| ==> KeyOf(cs[i]) in keys
    ensures WithKeys(cs, keys) == cs
  {
    if cs != [] {
      WithAllKeys(cs[..|cs| - 1], keys);
      assert cs == cs[..|cs| - 1] + [cs[|cs| - 1]];
    }
  }

  /** The rows of one group all carry the group's stop and direction. */
  lemma {:induction false} GroupKeys(group: seq<ActualRow>, cs: seq<Crossing>, key: StopKey)
    requires multiset(RowCrossings(group)) == multiset(AtKey(cs, key))
    ensures forall i :: 0 <= i < |group| ==> RowKey(group[i]) == key
  {
    forall i | 0 <= i < |group| ensures RowKey(group[i]) == key {
      var c := RowCrossings(group)[i];
      assert c in multiset(RowCrossings(group));
      AtKeyCount(cs, key, c);
    }
  }

  /** The facts `GroupHeadways` establishes about one group of rows, all with stop and direction `key`. */
  ghost predicate GroupFacts(group: seq<ActualRow>, key: StopKey)
  {
    && (forall i :: 0 <= i < |group| ==> RowKey(group[i]) == key)
    && SortedBy(RowCrossings(group), CrossingTime)
    && (|group| > 0 ==> group[0].headway.None?)
    && (forall i :: 0 < i < |group| ==> GapAfter(group, i))
  }

  /** No row is at stop and direction `key` yet. */
  ghost predicate Fresh(rows: seq<ActualRow>, key: StopKey)
  {
    forall i :: 0 <= i < |rows| ==> RowKey(rows[i]) != key
  }

  lemma {:induction false} PoolFirsts(rows: seq<ActualRow>, key: StopKey, group: seq<ActualRow>)
    requires Fresh(rows, key) && Pooled(rows) && GroupFacts(group, key)
    ensures forall i :: 0 <= i < |rows + group| ==> NullIffFirst(rows + group, i)
  {
    var r := rows + group;
    forall i | 0 <= i < |r| ensures NullIffFirst(r, i) {
      if i < |rows| {
        assert r[i] == rows[i];
        assert NullIffFirst(rows, i);
        assert FirstOfKey(r, i) <==> FirstOfKey(rows, i) by {
          forall j | 0 <= j < i ensures r[j] == rows[j] { }
        }
      } else if i == |rows| {
        assert r[i] == group[0];
        forall j | 0 <= j < i ensures RowKey(r[j]) != RowKey(r[i]) {
          assert r[j] == rows[j];
        }
      } else {
        assert r[i] == group[i - |rows|] && r[i - 1] == group[i - 1 - |rows|];
        assert GapAfter(group, i - |rows|);
      }
    }
  }

  lemma {:induction false} PoolGaps(rows: seq<ActualRow>, key: StopKey, group: seq<ActualRow>)
    requires Pooled(rows) && GroupFacts(group, key)
    ensures forall i :: 0 < i < |rows + group| ==> FollowsSameKey(rows + group, i)
  {
    var r := rows + group;
    forall i | 0 < i < |r| ensures FollowsSameKey(r, i) {
      if i < |rows| {
        assert r[i] == rows[i] && r[i - 1] == rows[i - 1];
        assert FollowsSameKey(rows, i);
        assert GapAfter(rows, i) ==> GapAfter(r, i);
      } else if i > |rows| {
        assert r[i] == group[i - |rows|] && r[i - 1] == group[i - 1 - |rows|];
        assert GapAfter(group, i - |rows|);
      }
    }
  }

  lemma {:induction false} PoolOrder(rows: seq<ActualRow>, key: StopKey, group: seq<ActualRow>)
    requires Fresh(rows, key) && Pooled(rows) && GroupFacts(group, key)
    ensures forall i, j :: 0 <= i < j < |rows + group| && RowKey((rows + group)[i]) == RowKey((rows + group)[j]) ==>
      (rows + group)[i].crossing.time <= (rows + group)[j].crossing.time
  {
    var r := rows + group;
    forall i, j | 0 <= i < j < |r| && RowKey(r[i]) == RowKey(r[j]) ensures r[i].crossing.time <= r[j].crossing.time {
      if j < |rows| {
        assert r[i] == rows[i] && r[j] == rows[j];
      } else if i >= |rows| {
        assert r[i] == group[i - |rows|] && r[j] == group[j - |rows|];
        assert RowCrossings(group)[i - |rows|] == group[i - |rows|].crossing;
        assert RowCrossings(group)[j - |rows|] == group[j - |rows|].crossing;
      } else {
        assert false;
      }
    }
  }

  /** Appending the rows of a stop and direction not seen before keeps the rows pooled. */
  lemma {:induction false} PoolGroup(rows: seq<ActualRow>, key: StopKey, group: seq<ActualRow>)
    requires Fresh(rows, key) && Pooled(rows) && GroupFacts(group, key)
    ensures Pooled(rows + group)
    ensures forall other :: other != key && Fresh(rows, other) ==> Fresh(rows + group, other)
  {
    PoolFirsts(rows, key, group);
    PoolGaps(rows, key, group);
    PoolOrder(rows, key, group);
    var r := rows + group;
    forall other | other != key && Fresh(rows, other) ensures Fresh(r, other) {
      forall i | 0 <= i < |r| ensures RowKey(r[i]) != other {
        if i < |rows| {
          assert r[i] == rows[i];
        } else {
          assert r[i] == group[i - |rows|];
        }
      }
    }
  }

  /** One turn of the loop in `ActualHeadways`: the rows of a new stop and direction are appended. */
  lemma {:induction false} PoolStep(crossings: seq<Crossing>, done: set<StopKey>, key: StopKey, rows: seq<ActualRow>, group: seq<ActualRow>)
    requires key !in done && Fresh(rows, key) && Pooled(rows)
    requires multiset(RowCrossings(rows)) == multiset(WithKeys(crossings, done))
    requires multiset(RowCrossings(group)) == multiset(AtKey(crossings, key))
    requires SortedBy(RowCrossings(group), CrossingTime)
    requires |group| > 0 ==> group[0].headway.None?
    requires forall i :: 0 < i < |group| ==> GapAfter(group, i)
    ensures Pooled(rows + group)
    ensures forall other :: other != key && Fresh(rows, other) ==> Fresh(rows + group, other)
    ensures multiset(RowCrossings(rows + group)) == multiset(WithKeys(crossings, done + {key}))
  {
    GroupKeys(group, crossings, key);
    PoolGroup(rows, key, group);
    RowCrossingsAppend(rows, group);
    WithKeysAppend(crossings, done, key);
  }

  /** The first `k` keys, as a set. */
  function KeySet(keys: seq<StopKey>, k: nat): (r: set<StopKey>)
    requires k <= |keys|
    ensures forall key :: key in r ==> key in keys[..k]
  {
    if k == 0 then {} else KeySet(keys, k - 1) + {keys[k - 1]}
  }

  lemma {:induction false} InKeySet(keys: seq<StopKey>, k: nat, j: nat)
    requires j < k <= |keys|
    ensures keys[j] in KeySet(keys, k)
  {
    if j < k - 1 {
      InKeySet(keys, k - 1, j);
    }
  }

  /** The next key of a duplicate-free list is not among the earlier ones. */
  lemma {:induction false} NextKey(keys: seq<StopKey>, k: nat)
    requires k < |keys|
    requires forall i, j :: 0 <= i < j < |keys| ==> keys[i] != keys[j]
    ensures keys[k] !in KeySet(keys, k)
  {
  }

  /** One turn of the loop in `ActualHeadways` keeps its invariants. */
  lemma {:induction false} LoopStep(crossings: seq<Crossing>, keys: seq<StopKey>, k: nat, done: set<StopKey>, rows: seq<ActualRow>, group: seq<ActualRow>)
    requires k < |keys|
    requires forall i, j :: 0 <= i < j < |keys| ==> keys[i] != keys[j]
    requires done == KeySet(keys, k)
    requires forall j :: k <= j < |keys| ==> Fresh(rows, keys[j])
    requires multiset(RowCrossings(rows)) == multiset(WithKeys(crossings, done))
    requires Pooled(rows)
    requires multiset(RowCrossings(group)) == multiset(AtKey(crossings, keys[k]))
    requires SortedBy(RowCrossings(group), CrossingTime)
    requires |group| > 0 ==> group[0].headway.None?
    requires forall i :: 0 < i < |group| ==> GapAfter(group, i)
    ensures done + {keys[k]} == KeySet(keys, k + 1)
    ensures forall j :: k + 1 <= j < |keys| ==> Fresh(rows + group, keys[j])
    ensures multiset(RowCrossings(rows + group)) == multiset(WithKeys(crossings, done + {keys[k]}))
    ensures Pooled(rows + group)
  {
    KeySetStep(keys, k);
    NextKey(keys, k);
    PoolStep(crossings, done, keys[k], rows, group);
    StillFresh(keys, k, rows, group);
  }

  /** The first `k + 1` keys are the first `k` and `keys[k]`. */
  lemma {:induction false} KeySetStep(keys: seq<StopKey>, k: nat)
    requires k < |keys|
    ensures KeySet(keys, k + 1) == KeySet(keys, k) + {keys[k]}
  {
  }

  /** The keys after `keys[k]` are still fresh once the rows of `keys[k]` are appended. */
  lemma {:induction false} StillFresh(keys: seq<StopKey>, k: nat, rows: seq<ActualRow>, group: seq<ActualRow>)
    requires k < |keys|
    requires forall i, j :: 0 <= i < j < |keys| ==> keys[i] != keys[j]
    requires forall j :: k <= j < |keys| ==> Fresh(rows, keys[j])
    requires forall other :: other != keys[k] && Fresh(rows, other) ==> Fresh(rows + group, other)
    ensures forall j :: k + 1 <= j < |keys| ==> Fresh(rows + group, keys[j])
  {
    forall j | k + 1 <= j < |keys| ensures Fresh(rows + group, keys[j]) {
      assert keys[k] != keys[j] && Fresh(rows, keys[j]);
    }
  }

  /** Every crossing's stop and direction is among the keys gathered from them. */
  lemma {:induction false} AllKeys(crossings: seq<Crossing>, keys: seq<StopKey>, done: set<StopKey>)
    requires forall i :: 0 <= i < |crossings| ==> KeyOf(crossings[i]) in keys
    requires done == KeySet(keys, |keys|)
    ensures WithKeys(crossings, done) == crossings
  {
    forall i | 0 <= i < |crossings| ensures KeyOf(crossings[i]) in done {
      assert KeyOf(crossings[i]) in keys;
      var n :| 0 <= n < |keys| && keys[n] == KeyOf(crossings[i]);
      InKeySet(keys, |keys|, n);
    }
    WithAllKeys(crossings, done);
  }

  /**
   * Actual headways: for every stop and direction, in order of first
   * appearance, the rows of its crossings from `GroupHeadways`. The source
   * iterates a set of stop and directions, so its order of groups is
   * arbitrary; this is one admissible order.
   */
  method ActualHeadways(crossings: seq<Crossing>) returns (rows: seq<ActualRow>)
    ensures multiset(RowCrossings(rows)) == multiset(crossings)
    ensures Pooled(rows)
  {
    var keys := StopKeys(crossings);
    ghost var done: set<StopKey> := {};
    rows := [];
    WithNoKeys(crossings);
    for k := 0 to |keys|
      invariant done == KeySet(keys, k)
      invariant forall j :: k <= j < |keys| ==> Fresh(rows, keys[j])
      invariant multiset(RowCrossings(rows)) == multiset(WithKeys(crossings, done))
      invariant Pooled(rows)
    {
      var group := GroupHeadways(AtKey(crossings, keys[k]));
      LoopStep(crossings, keys, k, done, rows, group);
      rows := rows + group;
      done := done + {keys[k]};
    }
    AllKeys(crossings, keys, done);
  }
}

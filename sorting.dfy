/**
 * Sequence helpers shared by the headway engine: a column projection, a
 * boolean-mask selection (the model of `df.loc[mask]`), a sort by an integer key (the model of
 * `sort_values`), first-appearance de-duplication (the model of
 * `unique().tolist()`) and the rotation `np.roll(s, 1)`.
 */
module Sorting {

  /** The elements of `s` that satisfy `keep`, in their order. */
  function Filter<T>(s: seq<T>, keep: T -> bool): (r: seq<T>)
    ensures forall i :: 0 <= i < |r| ==> r[i] in s && keep(r[i])
    ensures forall i :: 0 <= i < |s| && keep(s[i]) ==> s[i] in r
    ensures |r| <= |s|
  {
    if s == [] then []
    else
      var last := s[|s| - 1];
      assert s == s[..|s| - 1] + [last];
      Filter(s[..|s| - 1], keep) + (if keep(last) then [last] else [])
  }

  /** The selection keeps every element that satisfies `keep` as often as it occurs, and nothing else. */
  lemma {:induction false} FilterCount<T>(s: seq<T>, keep: T -> bool, x: T)
    ensures multiset(Filter(s, keep))[x] == if keep(x) then multiset(s)[x] else 0
  {
    if s != [] {
      var init, last := s[..|s| - 1], s[|s| - 1];
      assert s == init + [last];
      FilterCount(init, keep, x);
    }
  }

  /** Selecting from a concatenation selects from each part in turn, so the input order is kept. */
  lemma {:induction false} FilterAppend<T>(a: seq<T>, b: seq<T>, keep: T -> bool)
    ensures Filter(a + b, keep) == Filter(a, keep) + Filter(b, keep)
    decreases |b|
  {
    if b == [] {
      assert a + b == a;
    } else {
      var init, last := b[..|b| - 1], b[|b| - 1];
      assert b == init + [last];
      assert (a + b)[..|a + b| - 1] == a + init;
      FilterAppend(a, init, keep);
    }
  }

  /** `f` applied to every element of `s`, in order: the model of taking one column of a frame. */
  function Map<T, U>(s: seq<T>, f: T -> U): (r: seq<U>)
    ensures |r| == |s| && forall i :: 0 <= i < |s| ==> r[i] == f(s[i])
  {
    if s == [] then [] else Map(s[..|s| - 1], f) + [f(s[|s| - 1])]
  }

  /** `s` is ascending in `key`. */
  ghost predicate SortedBy<T>(s: seq<T>, key: T -> int)
  {
    forall i, j :: 0 <= i < j < |s| ==> key(s[i]) <= key(s[j])
  }

  /** Putting an element no larger than the head in front keeps a sequence ascending. */
  lemma {:induction false} ConsSorted<T>(a: T, s: seq<T>, key: T -> int)
    requires SortedBy(s, key) && (|s| > 0 ==> key(a) <= key(s[0]))
    ensures SortedBy([a] + s, key)
  {
    var r := [a] + s;
    forall i, j | 0 <= i < j < |r| ensures key(r[i]) <= key(r[j]) {
      if i > 0 {
        assert r[i] == s[i - 1] && r[j] == s[j - 1];
      } else {
        assert key(s[0]) <= key(s[j - 1]);
      }
    }
  }

  /** Inserts `x` into the ascending sequence `s`, after every element whose key is not larger. */
  function Insert<T>(x: T, s: seq<T>, key: T -> int): (r: seq<T>)
    requires SortedBy(s, key)
    ensures SortedBy(r, key)
    ensures multiset(r) == multiset(s) + multiset{x}
    ensures |r| == |s| + 1
    ensures r[0] == x || (|s| > 0 && r[0] == s[0])
  {
    if s == [] then [x]
    else if key(x) < key(s[0]) then
      ConsSorted(x, s, key);
      [x] + s
    else
      assert s == [s[0]] + s[1..];
      var rest := Insert(x, s[1..], key);
      ConsSorted(s[0], rest, key);
      [s[0]] + rest
  }

  /**
   * Sorts `s` ascending by `key`. The source's `sort_values` is not stable, so
   * any ascending permutation is an admissible result; this one keeps equal
   * keys in their input order.
   */
  function SortBy<T>(s: seq<T>, key: T -> int): (r: seq<T>)
    ensures SortedBy(r, key)
    ensures multiset(r) == multiset(s)
    ensures |r| == |s|
  {
    if s == [] then []
    else
      assert s == s[..|s| - 1] + [s[|s| - 1]];
      Insert(s[|s| - 1], SortBy(s[..|s| - 1], key), key)
  }

  /** Sorting neither adds nor drops elements. */
  lemma {:induction false} SortByMembers<T>(s: seq<T>, key: T -> int)
    ensures forall i :: 0 <= i < |s| ==> s[i] in SortBy(s, key)
    ensures forall i :: 0 <= i < |s| ==> SortBy(s, key)[i] in s
  {
    var r := SortBy(s, key);
    forall i | 0 <= i < |s| ensures s[i] in r && r[i] in s {
      assert s[i] in multiset(s);
      assert r[i] in multiset(r);
    }
  }

  /** The first element after sorting has the smallest key. */
  lemma {:induction false} SortedHeadIsMin<T>(s: seq<T>, key: T -> int, i: nat)
    requires i < |s|
    ensures key(SortBy(s, key)[0]) <= key(s[i])
  {
    var r := SortBy(s, key);
    assert s[i] in multiset(r);
    var j :| 0 <= j < |r| && r[j] == s[i];
    assert j == 0 || key(r[0]) <= key(r[j]);
  }

  /** Every element after sorting is one of the input's elements. */
  lemma {:induction false} SortedElementFrom<T>(s: seq<T>, key: T -> int, i: nat) returns (m: nat)
    requires i < |s|
    ensures m < |s| && SortBy(s, key)[i] == s[m]
  {
    var r := SortBy(s, key);
    assert r[i] in multiset(s);
    m :| 0 <= m < |s| && s[m] == r[i];
  }

  /** The elements of `s`, each once, in order of first appearance. */
  function Distinct<T(==)>(s: seq<T>): (r: seq<T>)
    ensures forall i :: 0 <= i < |r| ==> r[i] in s
    ensures forall i :: 0 <= i < |s| ==> s[i] in r
    ensures forall i, j :: 0 <= i < j < |r| ==> r[i] != r[j]
    ensures |r| <= |s|
  {
    if s == [] then []
    else
      var p := Distinct(s[..|s| - 1]);
      assert s == s[..|s| - 1] + [s[|s| - 1]];
      if s[|s| - 1] in p then p else p + [s[|s| - 1]]
  }

  /**
   * `Distinct` keeps the order of first appearance: of two results, the
   * earlier one occurs in `s` before every occurrence of the later one.
   */
  lemma {:induction false} DistinctFirstAppearance<T>(s: seq<T>, i: nat, j: nat, k: nat)
    requires i < j < |Distinct(s)| && k < |s| && s[k] == Distinct(s)[j]
    ensures Distinct(s)[i] in s[..k]
  {
    var init := s[..|s| - 1];
    var p := Distinct(init);
    var r := Distinct(s);
    if k < |init| {
      assert s[k] == init[k];
      if j < |p| {
        assert r[i] == p[i] && r[j] == p[j];
        DistinctFirstAppearance(init, i, j, k);
        assert init[..k] == s[..k];
      } else {
        assert false;
      }
    } else if j < |p| {
      assert r[j] == p[j] && r[i] == p[i];
      var m :| 0 <= m < |init| && init[m] == p[j];
      DistinctFirstAppearance(init, i, j, m);
      assert init[..m] == s[..m];
    } else {
      assert r[i] == p[i];
      assert s[..k] == init;
    }
  }

  /**
   * `np.roll(s, 1)`: every element moves one place later and the last one
   * wraps round to the front.
   */
  function Roll<T>(s: seq<T>): (r: seq<T>)
    ensures |r| == |s|
    ensures |s| > 0 ==> r[0] == s[|s| - 1]
    ensures forall i :: 0 <= i < |s| - 1 ==> r[i + 1] == s[i]
    ensures multiset(r) == multiset(s)
  {
    if s == [] then []
    else
      assert s == s[..|s| - 1] + [s[|s| - 1]];
      [s[|s| - 1]] + s[..|s| - 1]
  }
}

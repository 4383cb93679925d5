/** Shared vocabulary: optional values, 64-bit words, sums over finite maps, extremes and listings
    of finite sets. */
module Prelude {

  datatype Option<+T> = None | Some(value: T)

  const TWO_63: nat := 0x8000_0000_0000_0000
  const TWO_64: nat := 0x1_0000_0000_0000_0000
  const MAX_UINT64: nat := TWO_64 - 1

  /** A 64-bit unsigned value. */
  type Word = x: nat | x < 0x1_0000_0000_0000_0000

  /** A 64-bit unsigned value read as a signed one. */
  function ToInt64(x: nat): int {
    if x < TWO_63 then x else x - TWO_64
  }

  /** The sum of a map's values. */
  ghost function Sum<K>(m: map<K, int>): int {
    if m == map[] then 0 else
      var k :| k in m;
      m[k] + Sum(m - {k})
  }

  /** The sum does not depend on the order in which keys are taken. */
  lemma {:induction false} SumRemove<K>(m: map<K, int>, k: K)
    requires k in m
    ensures Sum(m) == m[k] + Sum(m - {k})
    decreases |m|
  {
    var j :| j in m && Sum(m) == m[j] + Sum(m - {j});
    if j != k {
      SumRemove(m - {j}, k);
      SumRemove(m - {k}, j);
      assert m - {j} - {k} == m - {k} - {j};
    }
  }

  lemma SumUpdate<K>(m: map<K, int>, k: K, v: int)
    ensures Sum(m[k := v]) == Sum(m) + v - (if k in m then m[k] else 0)
  {
    SumRemove(m[k := v], k);
    assert m[k := v] - {k} == m - {k};
    if k in m {
      SumRemove(m, k);
    } else {
      assert m - {k} == m;
    }
  }

  lemma {:induction false} SumNonNegative<K>(m: map<K, int>)
    requires forall k :: k in m ==> m[k] >= 0
    ensures Sum(m) >= 0
    ensures forall k :: k in m ==> m[k] <= Sum(m)
    decreases |m|
  {
    forall k | k in m ensures m[k] <= Sum(m) && Sum(m) >= 0 {
      SumRemove(m, k);
      SumNonNegative(m - {k});
    }
  }

  predicate IsMin(s: set<nat>, k: nat) {
    k in s && forall j :: j in s ==> k <= j
  }

  predicate IsMax(s: set<nat>, k: nat) {
    k in s && forall j :: j in s ==> j <= k
  }

  lemma {:induction false} ExtremesExist(s: set<nat>)
    requires s != {}
    ensures exists k :: IsMin(s, k)
    ensures exists k :: IsMax(s, k)
    decreases |s|
  {
    var x :| x in s;
    if s == {x} {
      assert IsMin(s, x) && IsMax(s, x);
    } else {
      var t := s - {x};
      ExtremesExist(t);
      var lo :| IsMin(t, lo);
      var hi :| IsMax(t, hi);
      assert forall j :: j in s <==> j in t || j == x;
      assert IsMin(s, if x < lo then x else lo);
      assert IsMax(s, if x < hi then hi else x);
    }
  }

  function Min(s: set<nat>): (k: nat)
    requires s != {}
    ensures IsMin(s, k)
  {
    ExtremesExist(s);
    var k :| IsMin(s, k);
    k
  }

  function Max(s: set<nat>): (k: nat)
    requires s != {}
    ensures IsMax(s, k)
  {
    ExtremesExist(s);
    var k :| IsMax(s, k);
    k
  }

  ghost predicate Increasing(s: seq<nat>) {
    forall i, j :: 0 <= i < j < |s| ==> s[i] < s[j]
  }

  ghost predicate Lists(r: seq<nat>, s: set<nat>) {
    forall x :: x in r <==> x in s
  }

  lemma {:induction false} AscendingExists(s: set<nat>)
    ensures exists r: seq<nat> :: |r| == |s| && Increasing(r) && Lists(r, s)
    decreases |s|
  {
    if s == {} {
      assert Increasing([]) && Lists([], s);
    } else {
      var hi := Max(s);
      AscendingExists(s - {hi});
      var r: seq<nat> :| |r| == |s - {hi}| && Increasing(r) && Lists(r, s - {hi});
      AscendingAppend(r, s, hi);
    }
  }

  lemma AscendingAppend(r: seq<nat>, s: set<nat>, hi: nat)
    requires IsMax(s, hi) && Increasing(r) && Lists(r, s - {hi})
    ensures Increasing(r + [hi]) && Lists(r + [hi], s)
  {
    forall i | 0 <= i < |r| ensures r[i] < hi {
      assert r[i] in r;
      assert r[i] in s - {hi};
    }
  }

  /** The elements of a set in increasing order. */
  ghost function Ascending(s: set<nat>): (r: seq<nat>)
    ensures |r| == |s| && Increasing(r) && Lists(r, s)
  {
    AscendingExists(s);
    var r: seq<nat> :| |r| == |s| && Increasing(r) && Lists(r, s);
    r
  }

  lemma EmptyListing(r: seq<nat>, s: set<nat>)
    requires Lists(r, s)
    ensures r == [] <==> s == {}
  {
    if r != [] {
      assert r[0] in r;
    }
  }

  lemma LastIsMax(r: seq<nat>, s: set<nat>)
    requires r != [] && Increasing(r) && Lists(r, s)
    ensures IsMax(s, r[|r| - 1])
    ensures Increasing(r[..|r| - 1]) && Lists(r[..|r| - 1], s - {r[|r| - 1]})
  {
    var m := |r| - 1;
    assert r[m] in r;
    forall x | x in s ensures x <= r[m] && (x != r[m] ==> x in r[..m]) {
      var i :| 0 <= i < |r| && r[i] == x;
      assert i < m ==> r[..m][i] == x;
    }
    forall x | x in r[..m] ensures x in s - {r[m]} {
      assert x in r;
    }
  }

  lemma {:induction false} IncreasingUnique(r: seq<nat>, t: seq<nat>, s: set<nat>)
    requires Increasing(r) && Increasing(t) && Lists(r, s) && Lists(t, s)
    ensures r == t
    decreases |r|
  {
    EmptyListing(r, s);
    EmptyListing(t, s);
    if r != [] {
      LastIsMax(r, s);
      LastIsMax(t, s);
      IncreasingUnique(r[..|r| - 1], t[..|t| - 1], s - {r[|r| - 1]});
      assert r == r[..|r| - 1] + [r[|r| - 1]] && t == t[..|t| - 1] + [t[|t| - 1]];
    }
  }

  /** There is only one increasing listing of a set. */
  lemma AscendingUnique(r: seq<nat>, s: set<nat>)
    requires Increasing(r) && Lists(r, s)
    ensures r == Ascending(s)
  {
    IncreasingUnique(r, Ascending(s), s);
  }

  lemma AscendingSplit(a: set<nat>, b: set<nat>)
    requires forall x, y :: x in a && y in b ==> x < y
    ensures Ascending(a + b) == Ascending(a) + Ascending(b)
  {
    var r, t := Ascending(a), Ascending(b);
    assert forall i :: 0 <= i < |r| ==> r[i] in r && r[i] in a;
    assert forall i :: 0 <= i < |t| ==> t[i] in t && t[i] in b;
    assert forall x :: x in r + t <==> x in r || x in t;
    AscendingUnique(r + t, a + b);
  }

  lemma DuplicateCount<T>(s: seq<T>, i: nat, j: nat)
    requires i < j < |s| && s[i] == s[j]
    ensures multiset(s)[s[i]] >= 2
  {
    assert s == s[..i] + [s[i]] + s[i + 1..j] + [s[j]] + s[j + 1..];
  }

  predicate Distinct<T(==)>(s: seq<T>) {
    forall i, j :: 0 <= i < j < |s| ==> s[i] != s[j]
  }

  /** A sequence with the elements of a set has no repeats. */
  lemma SetHasNoRepeats<T>(s: seq<T>, elems: set<T>, i: nat, j: nat)
    requires multiset(s) == multiset(elems) && i < j < |s|
    ensures s[i] != s[j]
  {
    assert multiset(elems)[s[i]] <= 1;
    if s[i] == s[j] {
      DuplicateCount(s, i, j);
    }
  }
}

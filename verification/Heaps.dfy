/** The heap and sorting routines the transaction lists rely on, over sequences that
    their owners reassign. Elements are ordered by a lexicographic rank, which covers
    both the nonce heap and the price heap. */
module Heaps {

  /** A lexicographic rank: `hi` decides, `lo` breaks ties. */
  datatype Rank = Rank(hi: int, lo: int) {
    predicate AtMost(other: Rank) {
      hi < other.hi || (hi == other.hi && lo <= other.lo)
    }
  }

  ghost predicate Ordered<T>(h: seq<T>, rank: T -> Rank, k: nat)
    requires 0 < k < |h|
  {
    rank(h[(k - 1) / 2]).AtMost(rank(h[k]))
  }

  ghost predicate IsHeap<T>(h: seq<T>, rank: T -> Rank) {
    forall k :: 0 < k < |h| ==> Ordered(h, rank, k)
  }

  /** Heap order on every edge whose parent is at or above `lo`, except the edges that touch
      `i`; the parent of `i` is still below the children of `i`. */
  ghost predicate HeapAround<T>(h: seq<T>, rank: T -> Rank, lo: nat, i: nat) {
    && (forall k :: 0 < k < |h| && lo <= (k - 1) / 2 != i && k != i ==> Ordered(h, rank, k))
    && (i > 0 && lo <= (i - 1) / 2 ==> GrandOrdered(h, rank, i))
  }

  ghost predicate GrandOrdered<T>(h: seq<T>, rank: T -> Rank, i: nat)
    requires i > 0
  {
    forall k :: 2 * i + 1 <= k <= 2 * i + 2 && k < |h| ==> rank(h[(i - 1) / 2]).AtMost(rank(h[k]))
  }

  ghost predicate SortedBy<T>(s: seq<T>, rank: T -> Rank) {
    forall i, j :: 0 <= i < j < |s| ==> rank(s[i]).AtMost(rank(s[j]))
  }

  function Swap<T>(h: seq<T>, i: nat, j: nat): (r: seq<T>)
    requires i < |h| && j < |h|
    ensures |r| == |h| && r[i] == h[j] && r[j] == h[i]
    ensures forall k :: 0 <= k < |h| && k != i && k != j ==> r[k] == h[k]
    ensures multiset(r) == multiset(h)
  {
    h[i := h[j]][j := h[i]]
  }

  /** The root of a heap is minimal. */
  lemma {:induction false} RootMinimal<T>(h: seq<T>, rank: T -> Rank, k: nat)
    requires IsHeap(h, rank) && k < |h|
    ensures rank(h[0]).AtMost(rank(h[k]))
  {
    if k > 0 {
      RootMinimal(h, rank, (k - 1) / 2);
      assert Ordered(h, rank, k);
    }
  }

  /** Lifting the element at `j` over its parent moves the only bad edge up. */
  lemma UpStep<T>(h: seq<T>, rank: T -> Rank, j: nat)
    requires 0 < j < |h| && !Ordered(h, rank, j)
    requires forall k :: 0 < k < |h| && k != j ==> Ordered(h, rank, k)
    requires GrandOrdered(h, rank, j)
    ensures var i, r := (j - 1) / 2, Swap(h, (j - 1) / 2, j);
            && (forall k :: 0 < k < |h| && k != i ==> Ordered(r, rank, k))
            && (i > 0 ==> GrandOrdered(r, rank, i))
  {
    var i, r := (j - 1) / 2, Swap(h, (j - 1) / 2, j);
    forall k | 0 < k < |h| && k != i ensures Ordered(r, rank, k) {
      assert k != j ==> Ordered(h, rank, k);
    }
    if i > 0 {
      assert Ordered(h, rank, i);
      forall k | 2 * i + 1 <= k <= 2 * i + 2 && k < |h|
        ensures rank(r[(i - 1) / 2]).AtMost(rank(r[k]))
      {
        assert k != j ==> Ordered(h, rank, k);
      }
    }
  }

  method Up<T>(h0: seq<T>, rank: T -> Rank, j0: nat) returns (h: seq<T>)
    requires j0 < |h0|
    requires forall k :: 0 < k < |h0| && k != j0 ==> Ordered(h0, rank, k)
    requires j0 > 0 ==> GrandOrdered(h0, rank, j0)
    ensures IsHeap(h, rank) && multiset(h) == multiset(h0) && |h| == |h0|
  {
    h := h0;
    var j := j0;
    while j > 0 && !rank(h[(j - 1) / 2]).AtMost(rank(h[j]))
      invariant 0 <= j < |h| == |h0| && multiset(h) == multiset(h0)
      invariant forall k :: 0 < k < |h| && k != j ==> Ordered(h, rank, k)
      invariant j > 0 ==> GrandOrdered(h, rank, j)
    {
      UpStep(h, rank, j);
      h, j := Swap(h, (j - 1) / 2, j), (j - 1) / 2;
    }
  }

  /** Pushing the element at `i` below its smaller child `j` moves the bad edges down. */
  lemma DownStep<T>(h: seq<T>, rank: T -> Rank, lo: nat, i: nat, j: nat)
    requires HeapAround(h, rank, lo, i) && lo <= i
    requires 2 * i + 1 <= j <= 2 * i + 2 && j < |h| && !Ordered(h, rank, j)
    requires forall k :: 2 * i + 1 <= k <= 2 * i + 2 && k < |h| ==> rank(h[j]).AtMost(rank(h[k]))
    ensures HeapAround(Swap(h, i, j), rank, lo, j) && Ordered(Swap(h, i, j), rank, j)
  {
    var r := Swap(h, i, j);
    forall k | 0 < k < |h| && lo <= (k - 1) / 2 != j && k != j ensures Ordered(r, rank, k) {
      if (k - 1) / 2 == i {
        assert k == 2 * i + 1 || k == 2 * i + 2;
      } else if k != i {
        assert Ordered(h, rank, k);
      }
    }
    forall k | 2 * j + 1 <= k <= 2 * j + 2 && k < |h|
      ensures rank(r[(j - 1) / 2]).AtMost(rank(r[k]))
    {
      assert (k - 1) / 2 == j && Ordered(h, rank, k);
    }
  }

  method Down<T>(h0: seq<T>, rank: T -> Rank, ghost lo: nat, i0: nat) returns (h: seq<T>, moved: bool)
    requires lo <= i0 < |h0| && HeapAround(h0, rank, lo, i0)
    ensures |h| == |h0| && multiset(h) == multiset(h0)
    ensures forall k :: 0 < k < |h| && lo <= (k - 1) / 2 && (moved || k != i0) ==> Ordered(h, rank, k)
    ensures !moved ==> h == h0
  {
    h := h0;
    var i := i0;
    while 2 * i + 1 < |h|
      invariant i0 <= i < |h| == |h0| && multiset(h) == multiset(h0)
      invariant HeapAround(h, rank, lo, i)
      invariant if i == i0 then h == h0 else Ordered(h, rank, i)
      decreases |h| - i
    {
      var j := 2 * i + 1;
      if j + 1 < |h| && !rank(h[j]).AtMost(rank(h[j + 1])) {
        j := j + 1;
      }
      if rank(h[i]).AtMost(rank(h[j])) {
        forall k | 0 < k < |h| && (k - 1) / 2 == i ensures Ordered(h, rank, k) {
          assert k == 2 * i + 1 || k == 2 * i + 2;
        }
        break;
      }
      DownStep(h, rank, lo, i, j);
      h, i := Swap(h, i, j), j;
    }
    moved := i > i0;
  }

  method Push<T>(h0: seq<T>, rank: T -> Rank, x: T) returns (h: seq<T>)
    requires IsHeap(h0, rank)
    ensures IsHeap(h, rank) && |h| == |h0| + 1
    ensures multiset(h) == multiset(h0) + multiset{x}
  {
    h := h0 + [x];
    forall k | 0 < k < |h| && k != |h0| ensures Ordered(h, rank, k) {
      assert Ordered(h0, rank, k);
    }
    h := Up(h, rank, |h0|);
  }

  method Remove<T>(h0: seq<T>, rank: T -> Rank, i: nat) returns (h: seq<T>, x: T)
    requires IsHeap(h0, rank) && i < |h0|
    ensures IsHeap(h, rank) && |h| == |h0| - 1
    ensures x == h0[i] && multiset(h0) == multiset(h) + multiset{x}
  {
    var n := |h0| - 1;
    var s := Swap(h0, i, n);
    x := s[n];
    h := s[..n];
    assert s == h + [x];
    if i == n {
      forall k | 0 < k < |h| ensures Ordered(h, rank, k) {
        assert Ordered(h0, rank, k);
      }
    } else {
      AroundReplaced(h0, rank, i, h);
      var moved;
      h, moved := Down(h, rank, 0, i);
      if !moved {
        h := Up(h, rank, i);
      }
    }
  }

  lemma AroundReplaced<T>(h0: seq<T>, rank: T -> Rank, i: nat, h: seq<T>)
    requires IsHeap(h0, rank) && i < |h0| - 1
    requires |h| == |h0| - 1 && forall k :: 0 <= k < |h| && k != i ==> h[k] == h0[k]
    ensures HeapAround(h, rank, 0, i) && (i > 0 ==> GrandOrdered(h, rank, i))
  {
    forall k | 0 < k < |h| && k != i && (k - 1) / 2 != i ensures Ordered(h, rank, k) {
      assert Ordered(h0, rank, k);
    }
    forall k | i > 0 && 2 * i + 1 <= k <= 2 * i + 2 && k < |h|
      ensures rank(h[(i - 1) / 2]).AtMost(rank(h[k]))
    {
      assert (k - 1) / 2 == i;
      assert Ordered(h0, rank, k) && Ordered(h0, rank, i);
    }
  }

  method Pop<T>(h0: seq<T>, rank: T -> Rank) returns (h: seq<T>, x: T)
    requires IsHeap(h0, rank) && h0 != []
    ensures IsHeap(h, rank) && |h| == |h0| - 1
    ensures x == h0[0] && multiset(h0) == multiset(h) + multiset{x}
    ensures forall y :: y in h0 ==> rank(x).AtMost(rank(y))
  {
    forall y | y in h0 ensures rank(h0[0]).AtMost(rank(y)) {
      var k :| 0 <= k < |h0| && h0[k] == y;
      RootMinimal(h0, rank, k);
    }
    h, x := Remove(h0, rank, 0);
  }

  method Init<T>(h0: seq<T>, rank: T -> Rank) returns (h: seq<T>)
    ensures IsHeap(h, rank) && |h| == |h0| && multiset(h) == multiset(h0)
  {
    h := h0;
    var i := |h| / 2;
    while i > 0
      invariant i <= |h| / 2 && |h| == |h0| && multiset(h) == multiset(h0)
      invariant forall k :: 0 < k < |h| && (k - 1) / 2 >= i ==> Ordered(h, rank, k)
    {
      i := i - 1;
      var moved;
      h, moved := Down(h, rank, i, i);
    }
  }

  method Sort<T>(s: seq<T>, rank: T -> Rank) returns (r: seq<T>)
    ensures SortedBy(r, rank) && multiset(r) == multiset(s) && |r| == |s|
  {
    hide SortedBy;
    r := [];
    SortedNone(rank);
    for n := 0 to |s|
      invariant SortedBy(r, rank) && |r| == n && multiset(r) == multiset(s[..n])
    {
      var i := 0;
      while i < |r| && rank(r[i]).AtMost(rank(s[n]))
        invariant i <= |r|
        invariant forall k :: 0 <= k < i ==> rank(r[k]).AtMost(rank(s[n]))
      {
        i := i + 1;
      }
      SortedInsert(r, rank, i, s[n]);
      assert s[..n + 1] == s[..n] + [s[n]];
      r := r[..i] + [s[n]] + r[i..];
    }
    assert s[..|s|] == s;
  }

  lemma SortedNone<T>(rank: T -> Rank)
    ensures SortedBy([], rank)
  {
  }

  lemma SortedInsert<T>(r: seq<T>, rank: T -> Rank, i: nat, x: T)
    requires SortedBy(r, rank) && i <= |r|
    requires forall k :: 0 <= k < i ==> rank(r[k]).AtMost(rank(x))
    requires i < |r| ==> !rank(r[i]).AtMost(rank(x))
    ensures SortedBy(r[..i] + [x] + r[i..], rank)
    ensures multiset(r[..i] + [x] + r[i..]) == multiset(r) + multiset{x}
  {
    assert r == r[..i] + r[i..];
  }
}

/** Weighted random selection: a tree of nodes with eight branches each, where every node keeps
    the weight and item sums of its subtree, selects from a flat list of weighted slots. */
module RandSelects {
  import opened Prelude

  const BRANCHES: nat := 8

  type Item = nat

  datatype Slot = Empty | Full(item: Item, weight: int)

  type Slots = seq<Slot>

  function Weight(x: Slot): int {
    if x.Full? then x.weight else 0
  }

  ghost function Total(s: Slots): int {
    if s == [] then 0 else Weight(s[0]) + Total(s[1..])
  }

  ghost function Count(s: Slots): nat {
    if s == [] then 0 else (if s[0].Full? then 1 else 0) + Count(s[1..])
  }

  /** The slot whose interval of prefix sums contains `val`. */
  ghost function Pick(s: Slots, val: nat): (p: nat)
    requires val < Total(s)
    ensures p < |s|
  {
    if val < Weight(s[0]) then 0 else 1 + Pick(s[1..], val - Weight(s[0]))
  }

  /** No stored weight is negative. */
  ghost predicate NonNegative(s: Slots) {
    forall i :: 0 <= i < |s| ==> Weight(s[i]) >= 0
  }

  lemma {:induction false} TotalNonNegative(s: Slots)
    requires NonNegative(s)
    ensures Total(s) >= 0
  {
    if s != [] {
      TotalNonNegative(s[1..]);
    }
  }

  lemma {:induction false} Joined(a: Slots, b: Slots)
    ensures Total(a + b) == Total(a) + Total(b) && Count(a + b) == Count(a) + Count(b)
  {
    if a == [] {
      assert a + b == b;
    } else {
      Joined(a[1..], b);
      assert (a + b)[1..] == a[1..] + b;
    }
  }

  lemma {:induction false} CountBound(s: Slots)
    ensures Count(s) <= |s|
    ensures Count(s) == |s| <==> forall i :: 0 <= i < |s| ==> s[i].Full?
    ensures Count(s) == 0 <==> forall i :: 0 <= i < |s| ==> s[i].Empty?
  {
    if s != [] {
      CountBound(s[1..]);
      assert forall i :: 0 < i < |s| ==> s[i] == s[1..][i - 1];
    }
  }

  lemma {:induction false} EmptyTotal(s: Slots)
    requires forall i :: 0 <= i < |s| ==> s[i].Empty?
    ensures Total(s) == 0 && Count(s) == 0
  {
    if s != [] {
      EmptyTotal(s[1..]);
    }
  }

  /** Replacing one slot changes the sums by the difference at that slot. */
  lemma Replaced(s: Slots, k: nat, x: Slot)
    requires k < |s|
    ensures Total(s[k := x]) == Total(s) - Weight(s[k]) + Weight(x)
    ensures Count(s[k := x]) == Count(s) - (if s[k].Full? then 1 else 0) + (if x.Full? then 1 else 0)
  {
    assert s == s[..k] + ([s[k]] + s[k + 1..]) && s[k := x] == s[..k] + ([x] + s[k + 1..]);
    Joined(s[..k], [s[k]] + s[k + 1..]);
    Joined(s[..k], [x] + s[k + 1..]);
  }

  /** The pick is the only slot whose interval of prefix sums contains the value. */
  lemma {:induction false} PickInterval(s: Slots, val: nat)
    requires NonNegative(s) && val < Total(s)
    ensures var p := Pick(s, val); p < |s| && s[p].Full? && Total(s[..p]) <= val < Total(s[..p]) + Weight(s[p])
    ensures forall i :: 0 <= i < |s| && Total(s[..i]) <= val < Total(s[..i]) + Weight(s[i]) ==> i == Pick(s, val)
  {
    var p := Pick(s, val);
    if val < Weight(s[0]) {
      forall i | 0 < i < |s| ensures Total(s[..i]) > val {
        TotalNonNegative(s[..i][1..]);
        assert s[..i][0] == s[0];
      }
    } else {
      PickInterval(s[1..], val - Weight(s[0]));
      assert s[..p][1..] == s[1..][..p - 1];
      forall i | 0 < i < |s| ensures Total(s[..i]) == Weight(s[0]) + Total(s[1..][..i - 1]) && s[i] == s[1..][i - 1] {
        assert s[..i][1..] == s[1..][..i - 1];
      }
    }
  }

  /** Picking within a middle part of the list. */
  lemma {:induction false} PickWithin(a: Slots, b: Slots, c: Slots, val: nat)
    requires NonNegative(a) && NonNegative(c) && Total(a) <= val < Total(a) + Total(b)
    ensures Total(a + b + c) > val && Pick(a + b + c, val) == |a| + Pick(b, val - Total(a))
  {
    Joined(a, b);
    Joined(a + b, c);
    TotalNonNegative(c);
    var s := a + b + c;
    if a != [] {
      TotalNonNegative(a[1..]);
      PickWithin(a[1..], b, c, val - Weight(a[0]));
      assert s[1..] == a[1..] + b + c;
    } else {
      assert s == b + c;
      PickPrefix(b, c, val);
    }
  }

  lemma {:induction false} PickPrefix(b: Slots, c: Slots, val: nat)
    requires NonNegative(c) && val < Total(b)
    ensures Total(b + c) > val && Pick(b + c, val) == Pick(b, val)
  {
    Joined(b, c);
    TotalNonNegative(c);
    if val >= Weight(b[0]) {
      PickPrefix(b[1..], c, val - Weight(b[0]));
      assert (b + c)[1..] == b[1..] + c;
    }
  }

  /** The `i`-th of the parts of length `u`. */
  ghost function Part(s: Slots, i: nat, u: nat): Slots {
    Cut(s, i * u, u)
  }

  ghost function Cut(s: Slots, lo: nat, u: nat): Slots {
    if lo + u <= |s| then s[lo..lo + u] else []
  }

  lemma Mul(i: nat, j: nat, u: nat)
    requires i <= j
    ensures i * u <= j * u && (j + 1) * u == j * u + u
  {
  }

  lemma CutReplaced(s: Slots, lo: nat, hi: nat, k: nat, u: nat, x: Slot)
    requires k < u && lo + u <= |s| && hi + u <= |s| && (lo == hi || lo + u <= hi || hi + u <= lo)
    ensures |Cut(s, lo, u)| == u && Cut(s, lo, u)[k] == s[lo + k]
    ensures Cut(s[lo + k := x], hi, u) == if lo == hi then Cut(s, lo, u)[k := x] else Cut(s, hi, u)
  {
  }

  /** Changing one slot changes one part at the offset within it and no other. */
  lemma PartReplaced(s: Slots, i: nat, k: nat, u: nat, x: Slot, j: nat)
    requires k < u && (i + 1) * u <= |s| && (j + 1) * u <= |s|
    ensures |Part(s, i, u)| == u && i * u + k < |s| && Part(s, i, u)[k] == s[i * u + k]
    ensures Part(s[i * u + k := x], j, u) == if i == j then Part(s, i, u)[k := x] else Part(s, j, u)
  {
    hide Cut;
    Apart(i, j, u);
    CutReplaced(s, i * u, j * u, k, u, x);
  }

  lemma Apart(i: nat, j: nat, u: nat)
    requires u > 0
    ensures (i + 1) * u == i * u + u && (j + 1) * u == j * u + u
    ensures i * u == j * u <==> i == j
    ensures i == j || i * u + u <= j * u || j * u + u <= i * u
  {
    Mul(i, i, u);
    Mul(j, j, u);
    if i < j {
      Mul(i + 1, j, u);
    } else if j < i {
      Mul(j + 1, i, u);
    }
  }

  lemma PartSplit(s: Slots, i: nat, u: nat)
    requires (i + 1) * u <= |s|
    ensures i * u <= (i + 1) * u && s == s[..i * u] + Part(s, i, u) + s[(i + 1) * u..]
    ensures Total(s[..(i + 1) * u]) == Total(s[..i * u]) + Total(Part(s, i, u))
  {
    Mul(i, i, u);
    assert s[..(i + 1) * u] == s[..i * u] + Part(s, i, u);
    Joined(s[..i * u], Part(s, i, u));
  }

  /** The number of slots below one branch of a node. */
  function Unit(level: nat): (u: nat)
    ensures u > 0
  {
    if level == 0 then 1 else BRANCHES * Unit(level - 1)
  }

  /** The first slot of a branch. */
  ghost function Base(level: nat, branch: nat): nat {
    branch * Unit(level)
  }

  lemma BaseStart(level: nat)
    ensures Base(level, 0) == 0
  {
  }

  /** The index of slot `k` below a branch whose nodes hold `u` items. */
  function Index(u: nat, branch: nat, k: nat): nat {
    u * branch + k
  }

  lemma IndexBase(level: nat, branch: nat, k: nat)
    ensures Index(Unit(level), branch, k) == Base(level, branch) + k
  {
  }

  /** All of the first `n` slots are taken. */
  ghost predicate FullBefore(s: Slots, n: nat) {
    forall i :: 0 <= i < n && i < |s| ==> s[i].Full?
  }

  ghost predicate FirstFree(s: Slots, idx: nat) {
    idx < |s| && s[idx].Empty? && forall i :: 0 <= i < idx ==> s[i].Full?
  }

  /** The sums a node keeps about its slots. */
  ghost predicate Summed(level: nat, maxItems: nat, itemCnt: int, sumWeight: int, weights: seq<int>, slots: Slots) {
    && |weights| == BRANCHES && maxItems == BRANCHES * Unit(level) && |slots| == maxItems
    && itemCnt == Count(slots) && sumWeight == Total(slots)
    && (forall i: nat :: i < BRANCHES ==> weights[i] == Total(Part(slots, i, Unit(level))))
  }

  /** Writing one slot and adjusting the sums along its branch. */
  lemma SumsReplaced(level: nat, maxItems: nat, itemCnt: int, sumWeight: int, weights: seq<int>, slots: Slots,
                     branch: nat, k: nat, x: Slot)
    requires Summed(level, maxItems, itemCnt, sumWeight, weights, slots)
    requires branch < BRANCHES && k < Unit(level)
    ensures |Part(slots, branch, Unit(level))| == Unit(level)
    ensures var idx, u := Base(level, branch) + k, Unit(level);
            && idx < |slots| && Part(slots, branch, u)[k] == slots[idx]
            && Summed(level, maxItems, itemCnt - (if slots[idx].Full? then 1 else 0) + (if x.Full? then 1 else 0),
                      sumWeight - Weight(slots[idx]) + Weight(x),
                      weights[branch := weights[branch] - Weight(slots[idx]) + Weight(x)], slots[idx := x])
  {
    hide Total, Count, Part, Unit;
    var u := Unit(level);
    var idx := branch * u + k;
    Mul(branch + 1, BRANCHES, u);
    PartReplaced(slots, branch, k, u, x, branch);
    Replaced(slots, idx, x);
    Replaced(Part(slots, branch, u), k, x);
    forall i: nat | i < BRANCHES && i != branch ensures Part(slots[idx := x], i, u) == Part(slots, i, u) {
      Mul(i + 1, BRANCHES, u);
      PartReplaced(slots, branch, k, u, x, i);
    }
  }

  /** A leaf branch holds its item directly. */
  function LeafSlot(leaf: Option<Item>, weight: int): Slot {
    if leaf.Some? then Full(leaf.value, weight) else Empty
  }

  lemma {:induction false} EmptySums(level: nat, slots: Slots)
    requires |slots| == BRANCHES * Unit(level) && forall i :: 0 <= i < |slots| ==> slots[i].Empty?
    ensures Summed(level, |slots|, 0, 0, seq(BRANCHES, _ => 0), slots)
    ensures forall i: nat :: i < BRANCHES ==> Count(Part(slots, i, Unit(level))) == 0
  {
    hide Unit;
    EmptyTotal(slots);
    forall i: nat | i < BRANCHES
      ensures Total(Part(slots, i, Unit(level))) == 0 && Count(Part(slots, i, Unit(level))) == 0
    {
      EmptyTotal(Part(slots, i, Unit(level)));
    }
  }

  /** As long as a node is not full, the search for a branch with room does not run out. */
  lemma RoomLeft(level: nat, slots: Slots, branch: nat)
    requires |slots| == BRANCHES * Unit(level) && Count(slots) < |slots| && branch < BRANCHES
    requires FullBefore(slots, Base(level, branch))
    requires Count(Part(slots, branch, Unit(level))) == Unit(level)
    ensures branch + 1 < BRANCHES && FullBefore(slots, Base(level, branch + 1))
  {
    var u := Unit(level);
    Mul(branch + 1, BRANCHES, u);
    Mul(branch, branch, u);
    var p := Part(slots, branch, u);
    CountBound(p);
    CountBound(slots);
    forall i | branch * u <= i < (branch + 1) * u ensures slots[i].Full? {
      assert slots[i] == p[i - branch * u];
    }
  }

  lemma FirstFreeWithin(level: nat, slots: Slots, branch: nat, k: nat)
    requires |slots| == BRANCHES * Unit(level) && branch < BRANCHES
    requires FullBefore(slots, Base(level, branch))
    requires FirstFree(Part(slots, branch, Unit(level)), k)
    ensures FirstFree(slots, Base(level, branch) + k)
  {
    var u := Unit(level);
    Mul(branch + 1, BRANCHES, u);
    Mul(branch, branch, u);
    var p := Part(slots, branch, u);
    forall i | branch * u <= i < branch * u + k ensures slots[i].Full? {
      assert slots[i] == p[i - branch * u];
    }
    assert slots[branch * u + k] == p[k];
  }

  /** A write to slot `k` below a branch. */
  datatype Write = Write(branch: nat, k: nat, slot: Slot)

  /** The slots of a root, seen from a new root above it. */
  ghost function Padded(s: Slots): Slots {
    s + seq((BRANCHES - 1) * |s|, _ => Empty)
  }

  lemma PaddedSums(level: nat, s: Slots)
    requires |s| == BRANCHES * Unit(level)
    ensures Summed(level + 1, BRANCHES * |s|, Count(s), Total(s), seq(BRANCHES, _ => 0)[0 := Total(s)], Padded(s))
    ensures Part(Padded(s), 0, |s|) == s && forall i: nat :: 0 < i < BRANCHES ==> Count(Part(Padded(s), i, |s|)) == 0
  {
    var u, p := |s|, Padded(s);
    assert Unit(level + 1) == u && p == s + p[u..] && p[..u] == s;
    PaddedTotal(s);
    assert Part(p, 0, u) == s;
    forall i: nat | 0 < i < BRANCHES ensures Total(Part(p, i, u)) == 0 && Count(Part(p, i, u)) == 0 {
      PaddedPart(s, i);
    }
  }

  lemma PaddedTotal(s: Slots)
    ensures Total(Padded(s)) == Total(s) && Count(Padded(s)) == Count(s)
  {
    var pad := seq((BRANCHES - 1) * |s|, _ => Empty);
    EmptyTotal(pad);
    Joined(s, pad);
  }

  lemma PaddedPart(s: Slots, i: nat)
    requires 0 < i < BRANCHES
    ensures Total(Part(Padded(s), i, |s|)) == 0 && Count(Part(Padded(s), i, |s|)) == 0
  {
    var u, part := |s|, Part(Padded(s), i, |s|);
    Mul(1, i, u);
    forall k | 0 <= k < |part| ensures part[k].Empty? {
      assert part[k] == Padded(s)[i * u + k];
    }
    EmptyTotal(part);
  }

  class WrsNode {
    const level: nat
    const maxItems: nat
    var itemCnt: int
    var sumWeight: int
    var weights: seq<int>
    var leaves: seq<Option<Item>>
    var kids: seq<WrsNode?>
    ghost var slots: Slots
    ghost var Repr: set<WrsNode>

    ghost predicate Valid()
      reads this, Repr
      decreases level, 1
    {
      && this in Repr && |leaves| == BRANCHES && |kids| == BRANCHES
      && Summed(level, maxItems, itemCnt, sumWeight, weights, slots)
      && (level == 0 ==> forall i: nat :: i < BRANCHES ==> slots[i] == LeafSlot(leaves[i], weights[i]))
      && (level > 0 ==> KidsValid())
    }

    /** An inner branch is absent, or a valid node of its own over its part of the slots. */
    ghost predicate KidsValid()
      requires level > 0 && |kids| == BRANCHES
      reads this, Repr
      decreases level, 0
    {
      && (forall i: nat :: i < BRANCHES && kids[i] == null ==> Count(Part(slots, i, Unit(level))) == 0)
      && (forall i: nat :: i < BRANCHES && kids[i] != null ==>
            && kids[i] in Repr && kids[i] in kids[i].Repr && kids[i].Repr <= Repr && this !in kids[i].Repr
            && kids[i].level == level - 1 && kids[i].Valid() && kids[i].slots == Part(slots, i, Unit(level)))
      && (forall i: nat, j: nat :: i < j < BRANCHES && kids[i] != null && kids[j] != null ==>
          kids[i].Repr !! kids[j].Repr)
    }

    constructor (level: nat)
      ensures Valid() && Repr == {this} && this.level == level && sumWeight == 0
      ensures |slots| == BRANCHES * Unit(level) && forall i :: 0 <= i < |slots| ==> slots[i].Empty?
    {
      this.level, maxItems := level, BRANCHES * Unit(level);
      itemCnt, sumWeight, weights := 0, 0, seq(BRANCHES, _ => 0);
      leaves, kids := seq(BRANCHES, _ => None), seq(BRANCHES, _ => null);
      slots, Repr := seq(BRANCHES * Unit(level), _ => Empty), {this};
      new;
      hide Summed, Part, Count, Total;
      EmptySums(level, slots);
    }

    /** A new root whose first branch is the old root: the slots keep their indexes. */
    constructor Above(kid: WrsNode)
      requires kid.Valid()
      ensures Valid() && Repr == {this} + kid.Repr && level == kid.level + 1
      ensures |slots| == BRANCHES * |kid.slots| && slots[..|kid.slots|] == kid.slots
      ensures itemCnt == kid.itemCnt < maxItems && sumWeight == kid.sumWeight
      ensures forall i :: |kid.slots| <= i < |slots| ==> slots[i].Empty?
    {
      level, maxItems := kid.level + 1, kid.maxItems * BRANCHES;
      itemCnt, sumWeight, weights := kid.itemCnt, kid.sumWeight, seq(BRANCHES, _ => 0)[0 := kid.sumWeight];
      leaves, kids := seq(BRANCHES, _ => None), seq(BRANCHES, _ => null)[0 := kid];
      slots, Repr := Padded(kid.slots), {this} + kid.Repr;
      new;
      kid.Sums();
      CountBound(kid.slots);
      PaddedSums(kid.level, kid.slots);
    }

    lemma Sums()
      requires Valid()
      ensures Summed(level, maxItems, itemCnt, sumWeight, weights, slots) && |leaves| == BRANCHES && |kids| == BRANCHES
      ensures |slots| == maxItems == BRANCHES * Unit(level) && itemCnt == Count(slots) && sumWeight == Total(slots)
      ensures |weights| == BRANCHES && this in Repr
    {
    }

    lemma Kid(i: nat)
      requires Valid() && level > 0 && i < BRANCHES && kids[i] != null
      ensures var k := kids[i];
              && k in Repr && k.Repr <= Repr && this !in k.Repr && k.level == level - 1 && k.Valid()
              && k.slots == Part(slots, i, Unit(level)) && k.maxItems == Unit(level) && k.itemCnt == Count(k.slots)
    {
      kids[i].Sums();
    }

    /** The first branch that has room. */
    method FindBranch() returns (branch: nat)
      requires Valid() && itemCnt < maxItems
      ensures branch < BRANCHES && FullBefore(slots, Base(level, branch))
      ensures level == 0 ==> leaves[branch].None?
      ensures level > 0 && kids[branch] != null ==> kids[branch].itemCnt < kids[branch].maxItems
    {
      hide WrsNode.Valid, WrsNode.KidsValid, Summed, Unit, Base, Part, Total, Count;
      Sums();
      BaseStart(level);
      branch := 0;
      while if level == 0 then leaves[branch].Some?
            else kids[branch] != null && kids[branch].itemCnt == kids[branch].maxItems
        invariant branch < BRANCHES && FullBefore(slots, Base(level, branch))
        decreases BRANCHES - branch
      {
        BranchFull(branch);
        RoomLeft(level, slots, branch);
        branch := branch + 1;
      }
      if level > 0 && kids[branch] != null {
        Kid(branch);
        kids[branch].Sums();
        CountBound(kids[branch].slots);
      }
    }

    lemma BranchFull(branch: nat)
      requires Valid() && branch < BRANCHES
      requires if level == 0 then leaves[branch].Some?
               else kids[branch] != null && kids[branch].itemCnt == kids[branch].maxItems
      ensures Count(Part(slots, branch, Unit(level))) == Unit(level)
    {
      if level > 0 {
        Kid(branch);
      } else {
        assert Part(slots, branch, 1) == [slots[branch]];
        assert weights[branch] == Total(Part(slots, branch, 1));
      }
    }

    /** A valid inner node from its sums and its branches. */
    lemma Inner()
      requires this in Repr && |leaves| == BRANCHES && |kids| == BRANCHES && level > 0
      requires Summed(level, maxItems, itemCnt, sumWeight, weights, slots)
      requires KidsValid()
      ensures Valid()
    {
    }

    lemma Kids()
      requires Valid() && level > 0
      ensures |kids| == BRANCHES && KidsValid()
    {
    }

    lemma LeafWeight(branch: nat)
      requires Valid() && level == 0 && branch < BRANCHES
      ensures slots[branch] == LeafSlot(leaves[branch], weights[branch]) && weights[branch] == Weight(slots[branch])
    {
      assert Part(slots, branch, 1) == [slots[branch]];
      assert weights[branch] == Total(Part(slots, branch, 1));
    }

    /** Changing one slot through the node of its branch and adjusting the sums keeps the node valid. */
    twostate lemma KidChanged(w: Write)
      requires old(Valid()) && level > 0 && w.branch < BRANCHES && w.k < Unit(level) && kids == old(kids)
               && kids[w.branch] != null
      requires forall o :: o in old(Repr) && o != this && o !in old(kids[w.branch].Repr) ==> unchanged(o)
      requires kids[w.branch].Valid() && |old(kids[w.branch].slots)| == Unit(level)
      requires kids[w.branch].slots == old(kids[w.branch].slots)[w.k := w.slot]
      requires fresh(kids[w.branch].Repr - old(kids[w.branch].Repr))
      requires |old(slots)| == BRANCHES * Unit(level) && Base(level, w.branch) + w.k < |old(slots)|
      requires slots == old(slots)[Base(level, w.branch) + w.k := w.slot] && Repr == old(Repr) + kids[w.branch].Repr
      requires Summed(level, maxItems, itemCnt, sumWeight, weights, slots) && |leaves| == BRANCHES
      ensures Valid()
    {
      hide WrsNode.Valid, Summed, Total, Count, Part, Unit, Base;
      PartsReplaced(level, old(slots), w.branch, w.k, w.slot);
      OldKids();
      kids[w.branch].Sums();
      forall i: nat | i < BRANCHES && kids[i] != null && i != w.branch
        ensures kids[i].Valid() && kids[i].Repr == old(kids[i].Repr) && kids[i].slots == old(kids[i].slots)
      {
        assert old(kids[i].Repr) !! old(kids[w.branch].Repr) by {
          assert i < w.branch || w.branch < i;
        }
        assert old(kids[i].Valid()) && kids[i] in old(kids[i].Repr) && unchanged(kids[i]);
      }
      Inner();
    }

    twostate lemma OldKids()
      requires old(Valid()) && level > 0
      ensures |old(kids)| == BRANCHES && old(KidsValid()) && this in old(Repr)
    {
    }

    /** Makes sure the branch has a node, adding an empty one where there is none. */
    method GrowBranch(branch: nat)
      requires Valid() && level > 0 && branch < BRANCHES
      modifies `kids, `Repr
      ensures Valid() && fresh(Repr - old(Repr)) && old(Repr) <= Repr
      ensures kids[branch] != null && (old(kids[branch]) != null ==> kids[branch] == old(kids[branch]))
      ensures old(kids[branch]) == null ==> kids[branch].itemCnt == 0 < kids[branch].maxItems
    {
      hide WrsNode.Valid, Summed, Total, Count, Part;
      Sums();
      if kids[branch] == null {
        Kids();
        var subNode := new WrsNode(level - 1);
        subNode.Sums();
        EmptyPart(level, slots, branch, subNode.slots);
        EmptyTotal(subNode.slots);
        kids := kids[branch := subNode];
        Repr := Repr + {subNode};
        Inner();
      }
    }

    method InsertLeaf(branch: nat, item: Item, weight: int)
      requires Valid() && level == 0 && branch < BRANCHES && leaves[branch].None?
      modifies `itemCnt, `sumWeight, `weights, `leaves, `slots
      ensures Valid() && old(slots)[branch].Empty? && slots == old(slots)[branch := Full(item, weight)]
      ensures sumWeight == old(sumWeight) + weight
    {
      hide Summed, Total, Count, Part;
      Sums();
      LeafWeight(branch);
      SumsReplaced(level, maxItems, itemCnt, sumWeight, weights, slots, branch, 0, Full(item, weight));
      itemCnt, sumWeight, weights := itemCnt + 1, sumWeight + weight, weights[branch := weights[branch] + weight];
      leaves := leaves[branch := Some(item)];
      slots := slots[branch := Full(item, weight)];
    }

    /** Inserts into the lowest free slot. */
    method Insert(item: Item, weight: int) returns (idx: nat)
      requires Valid() && itemCnt < maxItems
      modifies Repr
      ensures Valid() && fresh(Repr - old(Repr))
      ensures FirstFree(old(slots), idx) && slots == old(slots)[idx := Full(item, weight)]
              && sumWeight == old(sumWeight) + weight
      decreases level, 1
    {
      hide WrsNode.Valid, Summed, Total, Count, Part;
      Sums();
      var branch := FindBranch();
      if level == 0 {
        InsertLeaf(branch, item, weight);
        return branch;
      }
      GrowBranch(branch);
      idx := InsertBelow(branch, item, weight);
    }

    method InsertBelow(branch: nat, item: Item, weight: int) returns (idx: nat)
      requires Valid() && level > 0 && branch < BRANCHES
      requires FullBefore(slots, Base(level, branch))
      requires kids[branch] != null && kids[branch].itemCnt < kids[branch].maxItems
      modifies Repr
      ensures Valid() && fresh(Repr - old(Repr))
      ensures FirstFree(old(slots), idx) && slots == old(slots)[idx := Full(item, weight)]
              && sumWeight == old(sumWeight) + weight
      decreases level, 0
    {
      hide WrsNode.Valid, WrsNode.KidsValid, Summed, Total, Count, Part, Unit, Base, Index;
      Sums();
      Kid(branch);
      var subNode := kids[branch];
      subNode.Sums();
      var subIdx := subNode.Insert(item, weight);
      idx := Index(subNode.maxItems, branch, subIdx);
      IndexBase(level, branch, subIdx);
      FirstFreeWithin(level, slots, branch, subIdx);
      SumsReplaced(level, maxItems, itemCnt, sumWeight, weights, slots, branch, subIdx, Full(item, weight));
      itemCnt, sumWeight, weights := itemCnt + 1, sumWeight + weight, weights[branch := weights[branch] + weight];
      slots := slots[idx := Full(item, weight)];
      Repr := Repr + subNode.Repr;
      KidChanged(Write(branch, subIdx, Full(item, weight)));
    }

    /** A branch below which something is stored has a node. */
    lemma KidExists(branch: nat)
      requires Valid() && level > 0 && branch < BRANCHES
      requires (exists k :: 0 <= k < |Part(slots, branch, Unit(level))| && Part(slots, branch, Unit(level))[k].Full?)
               || weights[branch] > 0
      ensures kids[branch] != null
    {
      if kids[branch] == null {
        var part := Part(slots, branch, Unit(level));
        CountBound(part);
        EmptyTotal(part);
      }
    }

    method SetLeaf(idx: nat, weight: int) returns (diff: int)
      requires Valid() && level == 0 && idx < maxItems && slots[idx].Full?
      modifies `itemCnt, `sumWeight, `weights, `leaves, `slots
      ensures Valid() && slots == old(slots)[idx := Weighed(old(slots)[idx].item, weight)]
      ensures diff == weight - old(slots)[idx].weight && sumWeight == old(sumWeight) + diff
    {
      hide Summed, Total, Count, Part;
      Sums();
      LeafWeight(idx);
      SumsReplaced(level, maxItems, itemCnt, sumWeight, weights, slots, idx, 0, Weighed(slots[idx].item, weight));
      ghost var x := Weighed(slots[idx].item, weight);
      var oldWeight := weights[idx];
      weights := weights[idx := weight];
      diff := weight - oldWeight;
      sumWeight := sumWeight + diff;
      if weight == 0 {
        leaves := leaves[idx := None];
        itemCnt := itemCnt - 1;
      }
      slots := slots[idx := x];
    }

    /** Sets the weight of the item in a slot; zero empties the slot. */
    method SetWeight(idx: nat, weight: int) returns (diff: int)
      requires Valid() && idx < maxItems && slots[idx].Full?
      modifies Repr
      ensures Valid() && Repr == old(Repr) && slots == old(slots)[idx := Weighed(old(slots)[idx].item, weight)]
      ensures diff == weight - old(slots)[idx].weight && sumWeight == old(sumWeight) + diff
      decreases level
    {
      hide WrsNode.Valid, WrsNode.KidsValid, Summed, Total, Count, Part, Unit, Base;
      Sums();
      if level == 0 {
        diff := SetLeaf(idx, weight);
        return;
      }
      var branchItems := maxItems / BRANCHES;
      var branch := idx / branchItems;
      Located(level, slots, idx);
      var k := idx - branch * branchItems;
      KidExists(branch);
      Kid(branch);
      var subNode := kids[branch];
      subNode.Sums();
      ghost var x := Weighed(slots[idx].item, weight);
      SumsReplaced(level, maxItems, itemCnt, sumWeight, weights, slots, branch, k, x);
      diff := subNode.SetWeight(k, weight);
      weights := weights[branch := weights[branch] + diff];
      sumWeight := sumWeight + diff;
      if weight == 0 {
        itemCnt := itemCnt - 1;
      }
      slots := slots[idx := x];
      KidChanged(Write(branch, k, x));
    }

    /** The item whose interval of prefix sums contains `val`. */
    method Choose(val: nat) returns (item: Item, weight: int)
      requires Valid() && NonNegative(slots) && val < sumWeight
      ensures val < Total(slots) && slots[Pick(slots, val)] == Full(item, weight) && weight > 0
      decreases level
    {
      hide WrsNode.Valid, WrsNode.KidsValid, Summed, Total, Count, Part, Unit, Base, Pick;
      Sums();
      var i, v := 0, val;
      Skipped(level, maxItems, itemCnt, sumWeight, weights, slots, val, 0);
      while v >= weights[i]
        invariant i < BRANCHES && 0 <= v == val - Skip(level, slots, i)
        decreases BRANCHES - i
      {
        Skipped(level, maxItems, itemCnt, sumWeight, weights, slots, val, i);
        v := v - weights[i];
        i := i + 1;
      }
      Hit(level, maxItems, itemCnt, sumWeight, weights, slots, val, i);
      if level == 0 {
        LeafWeight(i);
        item, weight := leaves[i].value, weights[i];
        return;
      }
      KidExists(i);
      Kid(i);
      kids[i].Sums();
      item, weight := kids[i].Choose(v);
    }
  }

  /** What a slot holds after its weight was set. */
  function Weighed(item: Item, weight: int): Slot {
    if weight == 0 then Empty else Full(item, weight)
  }

  /** The weight of the branches before `i`. */
  ghost function Skip(level: nat, slots: Slots, i: nat): int {
    if Base(level, i) <= |slots| then Total(slots[..Base(level, i)]) else 0
  }

  lemma Located(level: nat, slots: Slots, idx: nat)
    requires |slots| == BRANCHES * Unit(level) && idx < |slots|
    ensures |slots| / BRANCHES == Unit(level) > 0 && idx - idx / Unit(level) * Unit(level) == idx % Unit(level)
    ensures var u := Unit(level); var branch, k := idx / u, idx % u;
            branch < BRANCHES && Base(level, branch) + k == idx && |Part(slots, branch, u)| == u
              && Part(slots, branch, u)[k] == slots[idx]
  {
    hide Unit;
    UnitPositive(level);
    Divided(Unit(level), idx);
  }

  lemma UnitPositive(level: nat)
    ensures Unit(level) > 0
  {
  }

  /** An index below eight units, by branch and offset. */
  lemma Divided(u: nat, idx: nat)
    requires u > 0 && idx < BRANCHES * u
    ensures idx / u < BRANCHES && idx / u * u + idx % u == idx && BRANCHES * u / BRANCHES == u
    ensures (idx / u + 1) * u == idx / u * u + u <= BRANCHES * u && idx % u < u
  {
    var branch := idx / u;
    assert idx == branch * u + idx % u;
    assert branch < BRANCHES by {
      if branch >= BRANCHES {
        Mul(BRANCHES, branch, u);
        assert false;
      }
    }
    Mul(branch + 1, BRANCHES, u);
    Mul(branch, branch, u);
  }

  lemma Skipped(level: nat, maxItems: nat, itemCnt: int, sumWeight: int, weights: seq<int>, slots: Slots, val: nat,
                i: nat)
    requires Summed(level, maxItems, itemCnt, sumWeight, weights, slots) && val < sumWeight && i < BRANCHES
    ensures Skip(level, slots, 0) == 0 && Skip(level, slots, i + 1) == Skip(level, slots, i) + weights[i]
    ensures val >= Skip(level, slots, i + 1) ==> i + 1 < BRANCHES
  {
    var u := Unit(level);
    Mul(i + 1, BRANCHES, u);
    PartSplit(slots, i, u);
    assert slots[..BRANCHES * u] == slots;
  }

  lemma Hit(level: nat, maxItems: nat, itemCnt: int, sumWeight: int, weights: seq<int>, slots: Slots, val: nat, i: nat)
    requires Summed(level, maxItems, itemCnt, sumWeight, weights, slots) && NonNegative(slots)
    requires val < sumWeight && i < BRANCHES
    requires 0 <= val - Skip(level, slots, i) < weights[i]
    ensures var u, v := Unit(level), val - Skip(level, slots, i); var part := Part(slots, i, u);
            && |part| == u && v < Total(part) == weights[i] && Pick(slots, val) == Base(level, i) + Pick(part, v)
            && NonNegative(part) && slots[Pick(slots, val)] == part[Pick(part, v)]
            && Weight(slots[Pick(slots, val)]) > 0 && (level == 0 ==> Pick(slots, val) == i)
  {
    hide Total, Pick, Count;
    var u := Unit(level);
    Mul(i + 1, BRANCHES, u);
    Mul(i, i, u);
    var part := Part(slots, i, u);
    PartSplit(slots, i, u);
    assert weights[i] == Total(part);
    PickWithin(slots[..i * u], part, slots[(i + 1) * u..], val);
    PickInterval(slots, val);
    if level == 0 {
      assert u == 1 && Base(level, i) == i;
    }
  }

  lemma EmptyPart(level: nat, slots: Slots, branch: nat, blank: Slots)
    requires level > 0 && |slots| == BRANCHES * Unit(level) && branch < BRANCHES
             && Count(Part(slots, branch, Unit(level))) == 0
    requires |blank| == Unit(level) && forall i :: 0 <= i < |blank| ==> blank[i].Empty?
    ensures blank == Part(slots, branch, Unit(level))
  {
    Mul(branch + 1, BRANCHES, Unit(level));
    Mul(branch, branch, Unit(level));
    CountBound(Part(slots, branch, Unit(level)));
  }

  lemma PartsReplaced(level: nat, slots: Slots, branch: nat, k: nat, x: Slot)
    requires |slots| == BRANCHES * Unit(level) && branch < BRANCHES && k < Unit(level)
    ensures Base(level, branch) + k < |slots| && |Part(slots, branch, Unit(level))| == Unit(level)
    ensures Part(slots[Base(level, branch) + k := x], branch, Unit(level)) == Part(slots, branch, Unit(level))[k := x]
    ensures forall i: nat :: i < BRANCHES && i != branch ==>
              Part(slots[Base(level, branch) + k := x], i, Unit(level)) == Part(slots, i, Unit(level))
  {
    hide Part;
    var u := Unit(level);
    Mul(branch + 1, BRANCHES, u);
    PartReplaced(slots, branch, k, u, x, branch);
    forall i: nat | i < BRANCHES && i != branch ensures Part(slots[branch * u + k := x], i, u) == Part(slots, i, u) {
      Mul(i + 1, BRANCHES, u);
      PartReplaced(slots, branch, k, u, x, i);
    }
  }

  /** The item index points at the slot of every item, and every full slot is indexed. */
  ghost predicate Indexed(idx: map<Item, nat>, slots: Slots) {
    && (forall it :: it in idx ==> 0 <= idx[it] < |slots| && slots[idx[it]].Full? && slots[idx[it]].item == it)
    && (forall i :: 0 <= i < |slots| && slots[i].Full? ==> slots[i].item in idx && idx[slots[i].item] == i)
  }

  /** The weights by item. */
  ghost function WeightsOf(idx: map<Item, nat>, slots: Slots): map<Item, int>
    requires Indexed(idx, slots)
  {
    map it | it in idx :: slots[idx[it]].weight
  }

  lemma IndexReweighed(idx: map<Item, nat>, slots: Slots, item: Item, weight: int)
    requires Indexed(idx, slots) && item in idx
    ensures var s, m := slots[idx[item] := Weighed(item, weight)], WeightsOf(idx, slots);
            && (weight == 0 ==> Indexed(idx - {item}, s) && WeightsOf(idx - {item}, s) == m - {item})
            && (weight != 0 ==> Indexed(idx, s) && WeightsOf(idx, s) == m[item := weight])
  {
  }

  lemma IndexAdded(idx: map<Item, nat>, slots: Slots, item: Item, weight: int, i: nat)
    requires Indexed(idx, slots) && item !in idx && i < |slots| && slots[i].Empty?
    ensures var s := slots[i := Full(item, weight)];
            Indexed(idx[item := i], s) && WeightsOf(idx[item := i], s) == WeightsOf(idx, slots)[item := weight]
  {
  }

  /** An index into the old root is good for the new root. */
  lemma IndexKept(idx: map<Item, nat>, slots: Slots, padded: Slots)
    requires Indexed(idx, slots) && |slots| <= |padded| && padded[..|slots|] == slots
    requires forall i :: |slots| <= i < |padded| ==> padded[i].Empty?
    ensures Indexed(idx, padded) && WeightsOf(idx, padded) == WeightsOf(idx, slots)
  {
    assert forall i :: 0 <= i < |slots| ==> padded[i] == slots[i];
  }

  ghost predicate Nonzero(m: map<Item, int>) {
    forall it :: it in m ==> m[it] != 0
  }

  ghost predicate Positive(m: map<Item, int>) {
    forall it :: it in m ==> m[it] > 0
  }

  lemma PositiveSet(m: map<Item, int>, item: Item, weight: nat)
    requires Positive(m)
    ensures Positive(if weight == 0 then m - {item} else m[item := weight])
  {
  }

  lemma StoredWeight(idx: map<Item, nat>, slots: Slots, i: nat)
    requires Indexed(idx, slots) && i < |slots| && slots[i].Full?
    ensures slots[i].item in idx && idx[slots[i].item] == i && slots[i].item in WeightsOf(idx, slots)
    ensures WeightsOf(idx, slots)[slots[i].item] == slots[i].weight
  {
  }

  /** The values that pick a slot. */
  ghost function HitBy(s: Slots, p: nat): set<nat> {
    set val: nat | val < Total(s) && Pick(s, val) == p
  }

  /** A slot is hit by exactly as many values as it weighs. */
  lemma Proportional(s: Slots, p: nat)
    requires NonNegative(s) && p < |s|
    ensures |HitBy(s, p)| == Weight(s[p])
  {
    hide Pick;
    var lo, w := Total(s[..p]), Weight(s[p]);
    TotalSplitAt(s, p);
    TotalNonNegative(s[..p]);
    TotalNonNegative(s[p + 1..]);
    var hits := HitBy(s, p);
    forall val: nat ensures val in hits <==> lo <= val < lo + w {
      if val < Total(s) {
        PickInterval(s, val);
      }
    }
    RangeSize(lo, lo + w, hits);
  }

  lemma {:induction false} RangeSize(lo: nat, hi: nat, range: set<nat>)
    requires lo <= hi && forall n: nat :: n in range <==> lo <= n < hi
    ensures |range| == hi - lo
    decreases hi
  {
    if lo == hi {
      assert range == {};
    } else {
      RangeSize(lo, hi - 1, range - {hi - 1});
    }
  }

  lemma {:induction false} TotalSplitAt(s: Slots, p: nat)
    requires p < |s|
    ensures Total(s) == Total(s[..p]) + Weight(s[p]) + Total(s[p + 1..])
  {
    if p > 0 {
      TotalSplitAt(s[1..], p - 1);
      assert s[..p][1..] == s[1..][..p - 1] && s[1..][p..] == s[p + 1..];
    }
  }

  /** The random numbers of each round, below a given bound, and the weights that items report. */
  datatype Chance = Chance(draw: (nat, nat) -> nat, roll: (nat, nat) -> nat, report: (nat, Item) -> nat) {
    ghost predicate Fair() {
      && (forall i, n: nat :: n > 0 ==> draw(i, n) < n)
      && (forall i, n: nat :: n > 0 ==> roll(i, n) < n)
    }
  }

  /** The interval of prefix sums of slot `p` contains the value. */
  ghost predicate Hits(slots: Slots, val: nat, p: nat) {
    && p < |slots| && slots[p].Full? && slots[p].weight > 0
    && Total(slots[..p]) <= val < Total(slots[..p]) + slots[p].weight
  }

  /** One round of drawing: the item that is hit takes the weight it reports, and is chosen when that
      did not fall, or else in proportion. */
  ghost predicate Round(before: Slots, chance: Chance, i: nat, after: Slots, choice: Option<Item>) {
    && Total(before) > 0
    && exists p: nat :: && Hits(before, chance.draw(i, Total(before)), p)
         && var item, stored := before[p].item, before[p].weight;
            var weight := chance.report(i, item);
            && after == before[p := Weighed(item, weight)]
            && choice == if weight >= stored || chance.roll(i, stored) < weight then Some(item) else None
  }

  class WeightedRandomSelect {
    var root: WrsNode
    var idx: map<Item, nat>

    ghost predicate Valid()
      reads this, root, root.Repr
    {
      root.Valid() && Indexed(idx, root.slots) && Nonzero(WeightsOf(idx, root.slots))
    }

    /** The source draws from the sum of weights, which must not be negative, so no weight may be. */
    ghost predicate Drawable()
      requires Valid()
      reads this, root, root.Repr
    {
      Positive(Weights())
    }

    ghost function Weights(): map<Item, int>
      requires Valid()
      reads this, root, root.Repr
    {
      WeightsOf(idx, root.slots)
    }

    constructor ()
      ensures Valid() && fresh(root) && fresh(root.Repr) && Weights() == map[]
      ensures root.level == 0 && |root.slots| == 8 && root.sumWeight == 0
    {
      root := new WrsNode(0);
      idx := map[];
    }

    /** Adds an item, below a new root when the old one is full. */
    method AddItem(item: Item, weight: int)
      requires Valid() && item !in idx && weight != 0
      modifies this, root.Repr
      ensures Valid() && fresh(root.Repr - old(root.Repr)) && Weights() == old(Weights())[item := weight]
      ensures item in idx && idx == old(idx)[item := idx[item]] && root.sumWeight == old(root.sumWeight) + weight
    {
      hide WrsNode.Valid, Total, Count, Unit, Summed, Indexed, WeightsOf;
      root.Sums();
      CountBound(root.slots);
      if root.itemCnt == root.maxItems {
        var newRoot := new WrsNode.Above(root);
        IndexKept(idx, root.slots, newRoot.slots);
        root := newRoot;
        root.Sums();
      }
      ghost var before := root.slots;
      var i := root.Insert(item, weight);
      IndexAdded(idx, before, item, weight, i);
      idx := idx[item := i];
    }

    /** Adds, reweighs or removes an item. An item keeps its index as long as it stays. */
    method SetWeight(item: Item, weight: int)
      requires Valid()
      modifies this, root.Repr
      ensures Valid() && fresh(root.Repr - old(root.Repr))
      ensures Weights() == if weight == 0 then old(Weights()) - {item} else old(Weights())[item := weight]
      ensures forall it :: it in old(idx) && it in idx ==> idx[it] == old(idx)[it]
      ensures idx.Keys == if weight == 0 then old(idx.Keys) - {item} else old(idx.Keys) + {item}
      ensures root.sumWeight == old(root.sumWeight) + weight - (if item in old(idx) then old(Weights())[item] else 0)
      ensures item in old(idx) ==> root.slots == old(root.slots)[old(idx)[item] := Weighed(item, weight)]
    {
      hide WrsNode.Valid, Total, Count, Unit, Summed;
      root.Sums();
      if item in idx {
        var i := idx[item];
        IndexReweighed(idx, root.slots, item, weight);
        var diff := root.SetWeight(i, weight);
        if weight == 0 {
          idx := idx - {item};
        }
      } else if weight != 0 {
        AddItem(item, weight);
      }
    }

    /** One draw: the item whose interval of prefix sums contains the drawn value is reweighed to
        what it reports, and passed over in proportion when that fell. Passing over lowers the sum. */
    method Draw(chance: Chance, i: nat) returns (choice: Option<Item>, ghost p: nat)
      requires Valid() && Drawable() && root.sumWeight > 0 && chance.Fair()
      modifies this, root.Repr
      ensures Valid() && Drawable() && fresh(root.Repr - old(root.Repr)) && idx.Keys <= old(idx.Keys)
      ensures choice.None? ==> 0 <= root.sumWeight < old(root.sumWeight)
      ensures Hits(old(root.slots), chance.draw(i, old(root.sumWeight)), p)
      ensures var item, stored := old(root.slots)[p].item, old(root.slots)[p].weight;
              var weight := chance.report(i, item);
              && root.slots == old(root.slots)[p := Weighed(item, weight)]
              && Weights() == (if weight == 0 then old(Weights()) - {item} else old(Weights())[item := weight])
              && choice == if weight >= stored || chance.roll(i, stored) < weight then Some(item) else None
      ensures choice.Some? ==> choice.value in idx
    {
      hide WrsNode.Valid, Total, Count, Unit, Summed, Pick, Indexed, WeightsOf, Positive, Nonzero;
      root.Sums();
      DrawableSlots();
      var val := chance.draw(i, root.sumWeight);
      var item, lastWeight := root.Choose(val);
      p := Pick(root.slots, val);
      PickInterval(root.slots, val);
      StoredWeight(idx, root.slots, p);
      var weight := chance.report(i, item);
      ghost var m := Weights();
      if weight != lastWeight {
        PositiveSet(m, item, weight);
        SetWeight(item, weight);
      } else {
        assert m[item := weight] == m && root.slots == root.slots[p := Weighed(item, weight)];
      }
      if weight >= lastWeight || chance.roll(i, lastWeight) < weight {
        return Some(item), p;
      }
      root.Sums();
      DrawableSlots();
      return None, p;
    }

    /** Random choice with weights that may have fallen since they were stored: draws until an item
        is accepted or none is left. */
    method Choose(chance: Chance) returns (choice: Option<Item>, ghost rounds: seq<Slots>)
      requires Valid() && Drawable() && chance.Fair()
      modifies this, root.Repr
      ensures Valid() && Drawable() && fresh(root.Repr - old(root.Repr)) && idx.Keys <= old(idx.Keys)
      ensures choice.None? ==> root.sumWeight == 0 && idx == map[]
      ensures choice.Some? ==> choice.value in idx
      ensures |rounds| > 0 && rounds[0] == old(root.slots)
      ensures forall i: nat :: i < |rounds| - 1 ==> Round(rounds[i], chance, i, rounds[i + 1], None)
      ensures if choice.None? then root.slots == rounds[|rounds| - 1]
              else Round(rounds[|rounds| - 1], chance, |rounds| - 1, root.slots, choice)
    {
      hide WrsNode.Valid, Indexed, WeightsOf, Total, Positive, Nonzero, Chance.Fair, Hits;
      DrawableSlots();
      rounds := [root.slots];
      var i := 0;
      while root.sumWeight != 0
        invariant Valid() && Drawable() && fresh(root.Repr - old(root.Repr)) && idx.Keys <= old(idx.Keys)
                  && root.sumWeight >= 0
        invariant |rounds| == i + 1 && rounds[0] == old(root.slots) && rounds[i] == root.slots
        invariant forall k: nat :: k < i ==> Round(rounds[k], chance, k, rounds[k + 1], None)
        decreases root.sumWeight
      {
        root.Sums();
        ghost var p;
        choice, p := Draw(chance, i);
        assert Round(rounds[i], chance, i, root.slots, choice);
        if choice.Some? {
          return;
        }
        i, rounds := i + 1, rounds + [root.slots];
      }
      NoneLeft();
      choice := None;
    }

    lemma DrawableSlots()
      requires Valid() && Drawable()
      ensures NonNegative(root.slots) && root.sumWeight >= 0
      ensures forall i :: 0 <= i < |root.slots| && root.slots[i].Full? ==> root.slots[i].weight > 0
    {
      forall i | 0 <= i < |root.slots| && root.slots[i].Full? ensures root.slots[i].weight > 0 {
        assert root.slots[i].item in Weights();
      }
      TotalNonNegative(root.slots);
      root.Sums();
    }

    lemma NoneLeft()
      requires Valid() && Drawable() && root.sumWeight == 0
      ensures idx == map[]
    {
      var s := root.slots;
      DrawableSlots();
      forall i | 0 <= i < |s| ensures s[i].Empty? {
        Replaced(s, i, Empty);
        TotalNonNegative(s[i := Empty]);
      }
    }
  }
}

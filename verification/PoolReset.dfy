/** What a pool reset reinjects: the transactions of the abandoned branch that the new branch does
    not contain, found by walking both branches back to their common ancestor. */
module PoolResets {
  import opened Prelude
  import opened Transactions

  const MAX_REORG_DEPTH: nat := 64

  /** A block stands for its hash, which commits to its ancestry. */
  datatype Block = Root | Block(parent: Block, number: nat, txs: seq<Tx>, extra: nat)

  /** The parent of a block, if the store has it one number below. */
  function ParentIn(store: set<Block>, b: Block): Option<Block>
    requires b.Block?
  {
    if b.parent.Block? && b.parent in store && b.parent.number == b.number - 1 then Some(b.parent) else None
  }

  /** Every walk from a stored block finds its blocks down to the first one. */
  ghost predicate Unbroken(store: set<Block>) {
    forall b :: b in store ==>
      b.Block? && (b.number > 0 ==> b.parent.Block? && b.parent in store && b.parent.number == b.number - 1)
  }

  /** The ancestor of a block at a height, along stored parents. */
  ghost function AncestorAt(b: Block, n: nat): Block {
    if b.Block? && b.number > n then AncestorAt(b.parent, n) else b
  }

  /** The transactions of a block and its ancestors above a height. */
  ghost function TxsAbove(b: Block, n: nat): set<Tx> {
    if b.Block? && b.number > n then (set tx | tx in b.txs) + TxsAbove(b.parent, n) else {}
  }

  /** The order-keeping difference of two lists of transactions. */
  function Difference(a: seq<Tx>, b: seq<Tx>): (r: seq<Tx>)
    ensures forall tx :: tx in r <==> tx in a && tx !in b
  {
    if a == [] then []
    else if a[0] in b then Difference(a[1..], b)
    else [a[0]] + Difference(a[1..], b)
  }

  /** The walk from `head` down to height `n` finds every parent. */
  ghost predicate Rooted(store: set<Block>, head: Block, n: nat) {
    head.Block? && forall k: nat :: n < k <= head.number ==> ParentAt(store, AncestorAt(head, k))
  }

  ghost predicate ParentAt(store: set<Block>, b: Block) {
    b.Block? && ParentIn(store, b).Some?
  }

  /** Both branches can be walked down to where they part, at height `n`. */
  ghost predicate Meet(store: set<Block>, left: Block, right: Block, n: nat) {
    PartAt(left, right, n) && Rooted(store, left, n) && Rooted(store, right, n)
  }

  /** The walk has come from `head` to `b`, having collected exactly the transactions above it. */
  ghost predicate Walked(store: set<Block>, head: Block, b: Block, txs: seq<Tx>) {
    && b.Block? && b in store && head.Block? && b.number <= head.number && AncestorAt(head, b.number) == b
    && TxsAbove(head, b.number) == (set tx | tx in txs) && Rooted(store, head, b.number)
  }

  lemma WalkStart(store: set<Block>, head: Block)
    requires head.Block? && head in store
    ensures Walked(store, head, head, [])
  {
  }

  lemma {:induction false} WalkStep(store: set<Block>, head: Block, b: Block, txs: seq<Tx>)
    requires Walked(store, head, b, txs) && ParentIn(store, b).Some?
    ensures Walked(store, head, b.parent, txs + b.txs)
  {
    AncestorStep(head, b);
    assert (set tx | tx in txs + b.txs) == (set tx | tx in txs) + set tx | tx in b.txs;
  }

  lemma {:induction false} AncestorStep(head: Block, b: Block)
    requires head.Block? && b.Block? && b.number <= head.number && AncestorAt(head, b.number) == b
    requires b.parent.Block? && b.parent.number == b.number - 1
    ensures AncestorAt(head, b.parent.number) == b.parent
    ensures TxsAbove(head, b.parent.number) == TxsAbove(head, b.number) + set tx | tx in b.txs
    decreases head
  {
    if head != b {
      assert AncestorAt(head.parent, b.number) == b;
      AncestorBelow(head.parent, b.number);
      AncestorStep(head.parent, b);
    }
  }

  lemma {:induction false} AncestorBelow(x: Block, n: nat)
    ensures AncestorAt(x, n).Block? && AncestorAt(x, n).number == n ==> x.Block? && n <= x.number
    decreases x
  {
    if x.Block? && x.number > n {
      AncestorBelow(x.parent, n);
    }
  }

  /** The branches of two heads part right above height `n`. */
  ghost predicate PartAt(left: Block, right: Block, n: nat) {
    && left.Block? && right.Block? && n <= left.number && n <= right.number
    && AncestorAt(left, n) == AncestorAt(right, n)
    && forall k: nat :: n < k <= left.number && k <= right.number ==> AncestorAt(left, k) != AncestorAt(right, k)
  }

  /** No reinjection is due: the new head extends the old one, or is too far from it. */
  predicate NothingDue(oldHead: Option<Block>, newHead: Block)
    requires newHead.Block? && (oldHead.Some? ==> oldHead.value.Block?)
  {
    || oldHead.None? || oldHead.value == newHead.parent
    || oldHead.value.number > newHead.number + MAX_REORG_DEPTH
    || newHead.number > oldHead.value.number + MAX_REORG_DEPTH
  }

  /** Nothing is due for a child of the old head, or when the heads are more than 64 blocks apart. */
  lemma DueExactly(oldHead: Option<Block>, newHead: Block)
    requires newHead.Block? && (oldHead.Some? ==> oldHead.value.Block?)
    ensures NothingDue(oldHead, newHead) <==>
              oldHead.Some? ==> oldHead.value == newHead.parent || !(-64 <= newHead.number - oldHead.value.number <= 64)
  {
  }

  /** The transactions to reinject: those above the fork on the old branch and not above it on the
      new one. There is no result when a block of either branch is missing. */
  method Reinjected(oldHead: Option<Block>, newHead: Block, store: set<Block>) returns (r: Option<seq<Tx>>)
    requires newHead.Block? && newHead in store && (oldHead.Some? ==> oldHead.value.Block?)
    ensures NothingDue(oldHead, newHead) ==> r == Some([])
    ensures !NothingDue(oldHead, newHead) && r.Some? ==>
              exists n: nat :: PartAt(oldHead.value, newHead, n) && Abandoned(oldHead.value, newHead, n, r.value)
    ensures !NothingDue(oldHead, newHead) ==>
              (r.Some? <==> oldHead.value in store && exists n: nat :: Meet(store, oldHead.value, newHead, n))
    ensures !NothingDue(oldHead, newHead) && oldHead.value in store && Unbroken(store) ==>
              (r.Some? <==> AncestorAt(oldHead.value, 0) == AncestorAt(newHead, 0))
  {
    hide Walked, Unbroken, Meet;
    if NothingDue(oldHead, newHead) {
      return Some([]);
    }
    var rem, add := oldHead.value, newHead;
    if rem !in store {
      return None;
    }
    var discarded, included := [], [];
    WalkStart(store, rem);
    WalkStart(store, add);
    while rem.number > add.number
      invariant rem.Block? && add == newHead && Walked(store, oldHead.value, rem, discarded)
      invariant rem == oldHead.value || rem.number >= add.number
      decreases rem.number
    {
      var up := ParentIn(store, rem);
      if up.None? {
        BrokenWalk(store, oldHead.value, newHead, rem, discarded);
        return None;
      }
      WalkStep(store, oldHead.value, rem, discarded);
      discarded, rem := discarded + rem.txs, up.value;
    }
    while add.number > rem.number
      invariant rem.Block? && add.Block? && Walked(store, oldHead.value, rem, discarded)
                && Walked(store, newHead, add, included)
      invariant add.number >= rem.number && (rem == oldHead.value || add == newHead)
      decreases add.number
    {
      var up := ParentIn(store, add);
      if up.None? {
        BrokenWalk(store, newHead, oldHead.value, add, included);
        return None;
      }
      WalkStep(store, newHead, add, included);
      included, add := included + add.txs, up.value;
    }
    assert Apart(oldHead.value, newHead, rem.number);
    while rem != add
      invariant rem.Block? && add.Block? && Walked(store, oldHead.value, rem, discarded)
                && Walked(store, newHead, add, included)
      invariant rem.number == add.number && Apart(oldHead.value, newHead, rem.number)
      decreases rem.number
    {
      ApartStep(store, oldHead.value, newHead, rem, add, discarded, included);
      var up, over := ParentIn(store, rem), ParentIn(store, add);
      if up.None? || over.None? {
        return None;
      }
      WalkStep(store, oldHead.value, rem, discarded);
      WalkStep(store, newHead, add, included);
      discarded, included := discarded + rem.txs, included + add.txs;
      rem, add := up.value, over.value;
    }
    Met(store, oldHead.value, newHead, rem, discarded, included);
    r := Some(Difference(discarded, included));
  }

  /** Above height `n` the branches have no block in common. */
  ghost predicate Apart(left: Block, right: Block, n: nat) {
    left.Block? && right.Block? &&
    forall k: nat :: n < k <= left.number && k <= right.number ==> AncestorAt(left, k) != AncestorAt(right, k)
  }

  /** What is reinjected at a fork at height `n`. */
  ghost predicate Abandoned(left: Block, right: Block, n: nat, txs: seq<Tx>) {
    forall tx :: tx in txs <==> tx in TxsAbove(left, n) && tx !in TxsAbove(right, n)
  }

  lemma BrokenWalk(store: set<Block>, head: Block, other: Block, b: Block, txs: seq<Tx>)
    requires Walked(store, head, b, txs) && ParentIn(store, b).None? && other.Block? && b.number > other.number
    ensures !Unbroken(store)
    ensures forall n: nat :: !Meet(store, head, other, n) && !Meet(store, other, head, n)
  {
    forall n: nat | Rooted(store, head, n) ensures n > other.number {
      assert n < b.number ==> ParentAt(store, AncestorAt(head, b.number));
    }
  }

  lemma ApartStep(store: set<Block>, left: Block, right: Block, rem: Block, add: Block, discarded: seq<Tx>,
                  included: seq<Tx>)
    requires Walked(store, left, rem, discarded) && Walked(store, right, add, included)
    requires rem.number == add.number && rem != add && Apart(left, right, rem.number)
    ensures rem.number > 0 ==> Apart(left, right, rem.number - 1)
    ensures ParentIn(store, rem).None? || ParentIn(store, add).None? ==>
              !Unbroken(store) || AncestorAt(left, 0) != AncestorAt(right, 0)
    ensures ParentIn(store, rem).None? || ParentIn(store, add).None? ==> forall n: nat :: !Meet(store, left, right, n)
    ensures ParentIn(store, rem).Some? ==> rem.number > 0
  {
    forall n: nat | Meet(store, left, right, n) ensures ParentAt(store, rem) && ParentAt(store, add) {
      var k := rem.number;
      assert n < k ==> ParentAt(store, AncestorAt(left, k)) && ParentAt(store, AncestorAt(right, k));
    }
  }

  lemma Met(store: set<Block>, left: Block, right: Block, b: Block, discarded: seq<Tx>, included: seq<Tx>)
    requires Walked(store, left, b, discarded) && Walked(store, right, b, included) && Apart(left, right, b.number)
    ensures Meet(store, left, right, b.number) && Abandoned(left, right, b.number, Difference(discarded, included))
    ensures AncestorAt(left, 0) == AncestorAt(right, 0)
  {
    AncestorTwice(left, b.number);
    AncestorTwice(right, b.number);
    assert forall tx :: tx in discarded <==> tx in TxsAbove(left, b.number);
    assert forall tx :: tx in included <==> tx in TxsAbove(right, b.number);
  }

  lemma {:induction false} AncestorTwice(x: Block, n: nat)
    ensures AncestorAt(AncestorAt(x, n), 0) == AncestorAt(x, 0)
    decreases x
  {
    if x.Block? && x.number > n {
      AncestorTwice(x.parent, n);
    }
  }
}

/** The block chain: fork choice by the difficulty of the head block, reorganisation of the
    canonical index, and the index from transactions to block numbers. */
module BlockChains {
  import opened Prelude
  import opened Headers

  const TWO_128: nat := 0x1_0000_0000_0000_0000_0000_0000_0000_0000

  type Lookup = map<TxId, nat>

  /** What is stored as the total difficulty of a block: the difficulty of the block itself,
      then its number. */
  function StoredTd(genesis: Header, x: Header): nat {
    if x == genesis then genesis.difficulty else x.difficulty * TWO_128 + x.number
  }

  /** Fork choice order on blocks: genesis first, then by difficulty, then by number. */
  predicate Outranks(genesis: Header, x: Header, y: Header) {
    x != genesis
      && (y == genesis || x.difficulty > y.difficulty || (x.difficulty == y.difficulty && x.number > y.number))
  }

  /** Blocks that the stored difficulty can order. */
  predicate Rankable(genesis: Header, x: Header) {
    if x == genesis then x.difficulty < TWO_128 else x.difficulty >= 1 && x.number < TWO_128
  }

  /** Comparing stored difficulties compares (difficulty, number) lexicographically. */
  lemma TdOrder(genesis: Header, x: Header, y: Header)
    requires Rankable(genesis, x) && Rankable(genesis, y)
    ensures StoredTd(genesis, x) > StoredTd(genesis, y) <==> Outranks(genesis, x, y)
  {
    if x != genesis && y != genesis {
      if x.difficulty > y.difficulty {
        assert x.difficulty * TWO_128 >= (y.difficulty + 1) * TWO_128;
      } else if x.difficulty < y.difficulty {
        assert y.difficulty * TWO_128 >= (x.difficulty + 1) * TWO_128;
      }
    } else if x != genesis {
      assert x.difficulty * TWO_128 >= TWO_128;
    } else if y != genesis {
      assert y.difficulty * TWO_128 >= TWO_128;
    }
  }

  /** The head is the fork choice maximum of all stored blocks. */
  ghost predicate BestHead(blocks: set<Header>, genesis: Header, head: Header) {
    && head in blocks
    && (forall x :: x in blocks ==> Rankable(genesis, x))
    && (forall x :: x in blocks ==> !Outranks(genesis, x, head))
  }

  /** No transaction of `x` occurs in an ancestor of `x`. */
  ghost predicate FreshTxs(x: Header) {
    forall k, t :: 1 <= k <= x.number && t in x.txs && Ancestor(HashOf(x), k).HashOf? ==>
        t !in Ancestor(HashOf(x), k).header.txs
  }

  /** Every canonical entry is a stored block, and the mapped numbers have no gap. */
  ghost predicate CanonStored(canon: Canon, blocks: set<Header>) {
    && (forall n :: n in canon ==> canon[n].HashOf? && canon[n].header in blocks && canon[n].header.number == n)
    && (forall n, k :: n in canon && 0 <= k <= n ==> k in canon)
  }

  /** The transactions on the path to `head` are indexed under their block number; any other
      entry of the index is in `junk`. */
  ghost predicate IndexedBut(lookup: Lookup, canon: Canon, head: Header, junk: set<TxId>)
    requires LinkedTo(canon, head)
  {
    && (forall n, t :: 0 <= n <= head.number && t in canon[n].header.txs ==> t in lookup && lookup[t] == n)
    && (forall t :: t in lookup && t !in junk ==> 0 <= lookup[t] <= head.number && t in canon[lookup[t]].header.txs)
  }

  /** The index after the entries of one block were written. */
  function WriteEntries(lookup: Lookup, x: Header): Lookup {
    lookup + map t | t in x.txs :: x.number
  }

  lemma FreshOnPath(x: Header, canon: Canon, tip: Header, n: nat, t: TxId)
    requires FreshTxs(x) && LinkedTo(canon, tip) && x.parent == HashOf(tip) && x.number == tip.number + 1
    requires n <= tip.number && t in x.txs
    ensures t !in canon[n].header.txs
  {
    LinkedAncestor(canon, tip, tip.number, tip.number - n);
    assert Ancestor(HashOf(x), x.number - n) == Ancestor(x.parent, tip.number - n) == canon[n];
  }

  /** Appending a child of the tip to the canonical chain. */
  lemma LinkChild(canon: Canon, tip: Header, x: Header)
    requires LinkedTo(canon, tip) && x.parent == HashOf(tip) && x.number == tip.number + 1
    ensures LinkedTo(canon[x.number := HashOf(x)], x)
  {
  }

  lemma IndexChild(lookup: Lookup, canon: Canon, tip: Header, x: Header, junk: set<TxId>)
    requires LinkedTo(canon, tip) && x.parent == HashOf(tip) && x.number == tip.number + 1
    requires IndexedBut(lookup, canon, tip, junk) && FreshTxs(x)
    ensures LinkedTo(canon[x.number := HashOf(x)], x)
    ensures IndexedBut(WriteEntries(lookup, x), canon[x.number := HashOf(x)], x, junk)
  {
    LinkChild(canon, tip, x);
    var l, c := WriteEntries(lookup, x), canon[x.number := HashOf(x)];
    forall n, t | 0 <= n <= x.number && t in c[n].header.txs ensures t in l && l[t] == n {
      if n < x.number && t in x.txs {
        FreshOnPath(x, canon, tip, n, t);
      }
    }
  }

  /** The canonical chain up to a canonical block is linked to it. */
  lemma LinkedPrefix(canon: Canon, head: Header, x: Header)
    requires LinkedTo(canon, head) && x.number <= head.number && CanonicalHash(canon, x.number) == HashOf(x)
    ensures LinkedTo(canon, x)
  {
  }

  /** Seen from an ancestor, the entries above it are junk. */
  lemma IndexedPrefix(lookup: Lookup, canon: Canon, head: Header, x: Header, above: set<TxId>)
    requires LinkedTo(canon, head) && x.number <= head.number && CanonicalHash(canon, x.number) == HashOf(x)
    requires IndexedBut(lookup, canon, head, {}) && above == set t | t in lookup && lookup[t] > x.number
    ensures LinkedTo(canon, x) && IndexedBut(lookup, canon, x, above)
  {
    LinkedPrefix(canon, head, x);
  }

  /** `chain` runs down from its first block to a child of `base`. */
  ghost predicate Descends(chain: seq<Header>, base: Header) {
    && (forall i: nat :: i < |chain| ==> chain[i].number == base.number + |chain| - i)
    && (forall i: nat :: i < |chain| ==> chain[i].parent == HashOf(Below(chain, base, i)))
  }

  /** The block that the `i`-th block of a descending chain rests on. */
  ghost function Below(chain: seq<Header>, base: Header, i: nat): Header {
    if i + 1 < |chain| then chain[i + 1] else base
  }

  /** No block of `chain` is on the canonical path to `head`. */
  ghost predicate OffPath(chain: seq<Header>, canon: Canon, head: Header) {
    forall i :: 0 <= i < |chain| && chain[i].number <= head.number ==>
        CanonicalHash(canon, chain[i].number) != HashOf(chain[i])
  }

  lemma DescendOne(chain: seq<Header>, x: Header)
    requires Descends(chain, x) && x.parent.HashOf? && x.number == x.parent.header.number + 1
    ensures Descends(chain + [x], x.parent.header)
  {
    var c, base := chain + [x], x.parent.header;
    forall i: nat | i < |c| ensures c[i].parent == HashOf(Below(c, base, i)) && c[i].number == base.number + |c| - i {
      if i < |chain| {
        assert c[i] == chain[i] && chain[i].parent == HashOf(Below(chain, x, i));
        assert Below(c, base, i) == Below(chain, x, i);
      }
    }
  }

  class BlockChain {
    const genesis: Header
    var blocks: set<Header>
    var tds: map<Header, nat>
    var canon: Canon
    var lookup: Lookup
    var current: Header
    var headHeader: Header
    var headFast: Header

    /** What the block store and the canonical path satisfy at every moment. */
    ghost predicate Stored()
      reads this
    {
      && Rooted(blocks, genesis) && CanonStored(canon, blocks)
      && (forall x :: x in blocks ==> FreshTxs(x))
      && tds.Keys == blocks && (forall x :: x in tds ==> tds[x] == StoredTd(genesis, x))
    }

    ghost predicate Valid()
      reads this
    {
      && Stored() && BestHead(blocks, genesis, current)
      && LinkedTo(canon, current) && IndexedBut(lookup, canon, current, {})
      && headHeader == current && headFast == current
    }

    constructor (genesis: Header)
      requires genesis.number == 0 && genesis.parent.ZeroHash? && genesis.difficulty < TWO_128
      ensures Valid() && EndsAt(canon, current) && this.genesis == genesis && blocks == {genesis} && current == genesis
    {
      this.genesis, blocks, tds := genesis, {genesis}, map[genesis := genesis.difficulty];
      canon, lookup := map[0 := HashOf(genesis)], map t | t in genesis.txs :: 0;
      current, headHeader, headFast := genesis, genesis, genesis;
    }

    /** Makes a block the head; the header and fast-sync heads follow unless the block is
        already canonical at its number. */
    method WriteHeadBlock(block: Header)
      modifies `canon, `lookup, `current, `headHeader, `headFast
      ensures canon == old(canon)[block.number := HashOf(block)]
      ensures lookup == WriteEntries(old(lookup), block) && current == block
      ensures CanonicalHash(old(canon), block.number) != HashOf(block) ==> headHeader == block && headFast == block
      ensures CanonicalHash(old(canon), block.number) == HashOf(block) ==>
                headHeader == old(headHeader) && headFast == old(headFast)
    {
      var updateHeads := CanonicalHash(canon, block.number) != HashOf(block);
      canon := canon[block.number := HashOf(block)];
      lookup := WriteEntries(lookup, block);
      if updateHeads {
        headHeader, headFast := block, block;
      }
      current := block;
    }

    /** Walks the old and the new chain back to their common ancestor. Every step finds its
        parent, since stored blocks have stored ancestors. */
    method FindFork(oldHead: Header, newHead: Header)
      returns (newChain: seq<Header>, deleted: set<TxId>, common: Header)
      requires Rooted(blocks, genesis) && oldHead in blocks && newHead in blocks
      requires LinkedTo(canon, oldHead) && IndexedBut(lookup, canon, oldHead, {})
      ensures OnPath(canon, oldHead, common)
      ensures Descends(newChain, common) && OffPath(newChain, canon, oldHead)
      ensures newHead == if newChain == [] then common else newChain[0]
      ensures forall x :: x in newChain ==> x in blocks
      ensures deleted == set t | t in lookup && lookup[t] > common.number
    {
      hide Rooted, LinkedTo, IndexedBut, Descends, OffPath;
      var o, n := oldHead, newHead;
      newChain, deleted := [], {};
      ForkStart(lookup, canon, oldHead, newHead);
      while o.number > n.number
        invariant OnPath(canon, oldHead, o) && o in blocks && n == newHead && newChain == []
        invariant o == oldHead || o.number >= n.number
        invariant deleted == set t | t in lookup && lookup[t] > o.number
        decreases o.number
      {
        OldStep(blocks, genesis, lookup, canon, oldHead, o);
        deleted := deleted + set t | t in o.txs;
        o := o.parent.header;
      }
      while n.number > o.number
        invariant OnPath(canon, oldHead, o) && o in blocks && n in blocks && n.number >= o.number
        invariant n.number > o.number ==> o == oldHead
        invariant deleted == set t | t in lookup && lookup[t] > o.number
        invariant Descends(newChain, n) && OffPath(newChain, canon, oldHead)
        invariant newHead == if newChain == [] then n else newChain[0]
        invariant forall x :: x in newChain ==> x in blocks
        decreases n.number
      {
        NewStep(blocks, genesis, canon, oldHead, newChain, n);
        newChain, n := newChain + [n], n.parent.header;
      }
      while o != n
        invariant OnPath(canon, oldHead, o) && o in blocks && n in blocks && n.number == o.number
        invariant deleted == set t | t in lookup && lookup[t] > o.number
        invariant Descends(newChain, n) && OffPath(newChain, canon, oldHead)
        invariant newHead == if newChain == [] then n else newChain[0]
        invariant forall x :: x in newChain ==> x in blocks
        decreases o.number
      {
        SameHeight(blocks, genesis, o, n);
        OldStep(blocks, genesis, lookup, canon, oldHead, o);
        NewStep(blocks, genesis, canon, oldHead, newChain, n);
        deleted := deleted + set t | t in o.txs;
        newChain := newChain + [n];
        o, n := o.parent.header, n.parent.header;
      }
      common := o;
    }

    /** Writes the new chain except its head, oldest block first. */
    method Replay(newChain: seq<Header>, common: Header, ghost junk: set<TxId>) returns (added: set<TxId>)
      requires Stored() && newChain != [] && Descends(newChain, common)
      requires LinkedTo(canon, common) && IndexedBut(lookup, canon, common, junk)
      requires Collected(lookup, canon, common, common, {}, junk)
      requires forall x :: x in newChain ==> x in blocks
      modifies `canon, `lookup, `current, `headHeader, `headFast
      ensures Stored() && newChain[0].parent.HashOf? && newChain[0].number == newChain[0].parent.header.number + 1
      ensures var tip := newChain[0].parent.header;
              && LinkedTo(canon, tip) && IndexedBut(lookup, canon, tip, junk)
              && Collected(lookup, canon, common, tip, added, junk)
              && current == if |newChain| == 1 then old(current) else tip
      ensures |newChain| == 1 ==> canon == old(canon) && lookup == old(lookup)
    {
      hide Rooted, LinkedTo, IndexedBut, Descends, FreshTxs, CanonStored, Collected, WriteEntries;
      added := {};
      ghost var tip := common;
      var i := |newChain|;
      while i > 1
        invariant 1 <= i <= |newChain| && Stored()
        invariant tip == if i == |newChain| then common else newChain[i]
        invariant LinkedTo(canon, tip) && IndexedBut(lookup, canon, tip, junk)
        invariant Collected(lookup, canon, common, tip, added, junk)
        invariant current == if i == |newChain| then old(current) else tip
        invariant i == |newChain| ==> canon == old(canon) && lookup == old(lookup)
      {
        i := i - 1;
        var x := newChain[i];
        DescendAt(newChain, common, i);
        IndexChild(lookup, canon, tip, x, junk);
        CollectChild(lookup, canon, common, tip, x, added, junk);
        StoreChild(canon, blocks, tip, x);
        WriteHeadBlock(x);
        added := added + set t | t in x.txs;
        tip := x;
      }
      DescendAt(newChain, common, 0);
    }

    /** The canonical numbers above `number`, up to the first that is not mapped. */
    method CanonAbove(number: nat) returns (gone: set<nat>)
      requires CanonStored(canon, blocks)
      ensures gone == set n | n in canon && n > number
    {
      gone := {};
      var i := number + 1;
      while i in canon
        invariant number < i && gone == set n | n in canon && number < n < i
        decreases canon.Keys - gone
      {
        assert i in canon.Keys - gone;
        gone, i := gone + {i}, i + 1;
      }
    }

    /** Moves the canonical chain from `oldHead` to the parent of `newHead`. The head stays the
        old one when that parent is canonical already. */
    method Reorg(oldHead: Header, newHead: Header)
      requires Stored() && oldHead == current && oldHead in blocks && newHead in blocks
      requires LinkedTo(canon, oldHead) && IndexedBut(lookup, canon, oldHead, {})
      requires !OnPath(canon, oldHead, newHead)
      modifies `canon, `lookup, `current, `headHeader, `headFast
      ensures Stored() && newHead.parent.HashOf? && newHead.number == newHead.parent.header.number + 1
      ensures LinkedTo(canon, newHead.parent.header) && IndexedBut(lookup, canon, newHead.parent.header, {})
      ensures LinkedTo(canon, current) && EndsAt(canon, current)
      ensures old(OnPath(canon, oldHead, newHead.parent.header)) ==>
                current == oldHead && canon.Items <= old(canon).Items
      ensures !old(OnPath(canon, oldHead, newHead.parent.header)) ==> current == newHead.parent.header
    {
      hide Rooted, LinkedTo, IndexedBut, Descends, FreshTxs, OffPath, CanonStored, EndsAt, Collected;
      var newChain, deleted, common := FindFork(oldHead, newHead);
      ForkPoint(newChain, common, lookup, canon, oldHead, deleted);
      var added := Replay(newChain, common, deleted);
      ghost var tip := newHead.parent.header;
      Cleaned(lookup, canon, common, tip, deleted, added);
      lookup := lookup - (deleted - added);
      var gone := CanonAbove(current.number);
      Trimmed(lookup, canon, blocks, tip, current, gone);
      canon := canon - gone;
    }

    /** Makes a stored block the head, reorganising when it does not extend the old head. The
        canonical map then ends at the block unless the block forks off the old path by one step
        and stays below the old head. */
    method Adopt(block: Header)
      requires Stored() && current in blocks && block in blocks && block.number > 0 && block.parent.HashOf?
      requires LinkedTo(canon, current) && IndexedBut(lookup, canon, current, {})
      requires forall n :: n in canon ==> canon[n] != HashOf(block)
      modifies `canon, `lookup, `current, `headHeader, `headFast
      ensures Stored() && LinkedTo(canon, block) && IndexedBut(lookup, canon, block, {})
      ensures current == block && headHeader == block && headFast == block
      ensures block.parent == HashOf(old(current)) ==> canon == old(canon)[block.number := HashOf(block)]
      ensures block.parent != HashOf(old(current)) ==>
                (EndsAt(canon, block) <==>
                  (old(OnPath(canon, current, block.parent.header)) ==> old(current).number <= block.number))
    {
      hide Rooted, LinkedTo, IndexedBut, FreshTxs, CanonStored, EndsAt, WriteEntries;
      ParentOf(blocks, genesis, block);
      ghost var parent := block.parent.header;
      if block.parent != HashOf(current) {
        ghost var before := canon;
        Reorg(current, block);
        NewEnd(before, canon, current, block);
      }
      IndexChild(lookup, canon, parent, block, {});
      StoreChild(canon, blocks, parent, block);
      WriteHeadBlock(block);
    }

    /** Stores a block under its difficulty and, when it outranks the head, makes it the head. */
    method WriteBlockWithState(block: Header) returns (status: WriteStatus)
      requires Valid() && block.FollowsParent() && block.difficulty >= 1 && block.number < TWO_128 && FreshTxs(block)
      modifies this
      ensures Valid()
      ensures status == UnknownAncestor <==> !(block.parent.HashOf? && block.parent.header in old(blocks))
      ensures blocks == old(blocks) + if status == UnknownAncestor then {} else {block}
      ensures status == CanonStat <==>
                && status != UnknownAncestor
                && (|| old(current) == genesis || block.difficulty > old(current).difficulty
                    || (block.difficulty == old(current).difficulty && block.number > old(current).number))
      ensures current == if status == CanonStat then block else old(current)
      ensures status != CanonStat ==> canon == old(canon) && lookup == old(lookup)
      ensures old(EndsAt(canon, current)) ==>
                (EndsAt(canon, current) <==>
                  (status == CanonStat && old(OnPath(canon, current, block.parent.header)) ==>
                   old(current).number <= block.number))
    {
      hide Rooted, LinkedTo, IndexedBut, FreshTxs, CanonStored, BestHead;
      if !(block.parent.HashOf? && block.parent.header in blocks) {
        return UnknownAncestor;
      }
      Ranked(blocks, genesis, canon, current, block);
      var localTd := tds[current];
      var externTd := block.difficulty * TWO_128 + block.number;
      tds := tds[block := externTd];
      blocks := blocks + {block};
      if externTd <= localTd {
        return SideStat;
      }
      Adopt(block);
      return CanonStat;
    }

    /** Any run of block writes: a block is stored exactly when its parent is stored by then, the
        head is the fork choice maximum of everything stored, and the canonical path and the
        transaction index belong to it. */
    method WriteAll(bs: seq<Header>) returns (statuses: seq<WriteStatus>)
      requires Valid() && forall x :: x in bs ==>
                 x.FollowsParent() && x.difficulty >= 1 && x.number < TWO_128 && FreshTxs(x)
      modifies this
      ensures Valid() && |statuses| == |bs| && blocks == StoredAfter(old(blocks), bs, statuses)
      ensures forall i: nat :: i < |bs| ==>
                (statuses[i] != UnknownAncestor <==> Attached(bs[i], StoredAfter(old(blocks), bs, statuses[..i])))
      ensures forall x :: x in blocks ==> !Outranks(genesis, x, current)
    {
      hide BlockChain.Valid, StoredAfter, Attached;
      statuses := [];
      StoredNone(blocks, bs);
      for i := 0 to |bs|
        invariant Valid() && |statuses| == i && blocks == StoredAfter(old(blocks), bs, statuses)
        invariant forall k: nat :: k < i ==>
                    (statuses[k] != UnknownAncestor <==> Attached(bs[k], StoredAfter(old(blocks), bs, statuses[..k])))
      {
        IsAttached(bs[i], blocks);
        var status := WriteBlockWithState(bs[i]);
        StoredOne(old(blocks), bs, statuses, status);
        assert forall k: nat :: k < i ==> (statuses + [status])[..k] == statuses[..k];
        assert (statuses + [status])[..i] == statuses;
        statuses := statuses + [status];
      }
      HeadIsBest();
    }

    lemma HeadIsBest()
      requires Valid()
      ensures forall x :: x in blocks ==> !Outranks(genesis, x, current)
    {
    }
  }

  /** The parent of the block is stored. */
  ghost predicate Attached(x: Header, blocks: set<Header>) {
    x.parent.HashOf? && x.parent.header in blocks
  }

  /** The block store after the writes that have a status. */
  ghost function StoredAfter(known: set<Header>, bs: seq<Header>, statuses: seq<WriteStatus>): set<Header> {
    known + set i | 0 <= i < |statuses| && i < |bs| && statuses[i] != UnknownAncestor :: bs[i]
  }

  lemma StoredNone(known: set<Header>, bs: seq<Header>)
    ensures StoredAfter(known, bs, []) == known
  {
  }

  lemma StoredOne(known: set<Header>, bs: seq<Header>, statuses: seq<WriteStatus>, status: WriteStatus)
    requires |statuses| < |bs|
    ensures StoredAfter(known, bs, statuses + [status]) ==
            StoredAfter(known, bs, statuses) + if status == UnknownAncestor then {} else {bs[|statuses|]}
  {
    var more := statuses + [status];
    forall x | x in StoredAfter(known, bs, statuses) && x !in known ensures x in StoredAfter(known, bs, more) {
      var i :| 0 <= i < |statuses| && i < |bs| && statuses[i] != UnknownAncestor && bs[i] == x;
      assert more[i] == statuses[i];
    }
    assert more[|statuses|] == status;
  }

  lemma IsAttached(x: Header, blocks: set<Header>)
    ensures Attached(x, blocks) <==> x.parent.HashOf? && x.parent.header in blocks
  {
  }

  /** A chain of two blocks on genesis, and a heavier single block beside it. */
  ghost predicate StaleFork(g: Header, a1: Header, a2: Header, b1: Header) {
    && g.parent == ZeroHash && g.number == 0 && g.difficulty < TWO_128
    && a1.parent == HashOf(g) && a1.number == 1 && a2.parent == HashOf(a1) && a2.number == 2
    && b1.parent == HashOf(g) && b1.number == 1
    && a1.txs == a2.txs == b1.txs == [] && 1 <= a1.difficulty <= a2.difficulty < b1.difficulty
  }

  lemma StaleForkExists()
    ensures exists g, a1, a2, b1 :: StaleFork(g, a1, a2, b1)
  {
    var g := Header(ZeroHash, 0, 1, [], 0);
    var a1 := Header(HashOf(g), 1, 1, [], 0);
    var a2, b1 := Header(HashOf(a1), 2, 1, [], 0), Header(HashOf(g), 1, 2, [], 0);
    assert StaleFork(g, a1, a2, b1);
  }

  /** A stale canonical number: the heavier block replaces the chain of two, and number 2 stays
      mapped above the head. */
  method StaleEntry(g: Header, a1: Header, a2: Header, b1: Header) returns (chain: BlockChain)
    requires StaleFork(g, a1, a2, b1)
    ensures fresh(chain) && chain.Valid() && chain.current == b1 && !EndsAt(chain.canon, chain.current)
    ensures chain.canon == map[0 := HashOf(g), 1 := HashOf(b1), 2 := HashOf(a2)]
  {
    hide BlockChain.Valid, FreshTxs;
    NoTxs(a1);
    NoTxs(a2);
    NoTxs(b1);
    chain := new BlockChain(g);
    var status := chain.WriteBlockWithState(a1);
    status := chain.WriteBlockWithState(a2);
    PathStart(chain);
    status := chain.WriteBlockWithState(b1);
    StaleMap(chain, a1, a2);
  }

  lemma StaleMap(chain: BlockChain, a1: Header, a2: Header)
    requires chain.Valid() && !EndsAt(chain.canon, chain.current)
    requires chain.blocks == {chain.genesis, a1, a2, chain.current}
    requires a1.number == chain.current.number == 1 && a2.number == 2 && chain.current.parent == HashOf(chain.genesis)
    ensures chain.canon == map[0 := HashOf(chain.genesis), 1 := HashOf(chain.current), 2 := HashOf(a2)]
  {
    hide BlockChain.Valid, CanonStored;
    NoGap(chain);
    PathStart(chain);
    StoredAt(chain.canon, chain.blocks);
    StaleCanon(chain.canon, chain.genesis, a1, a2, chain.current);
  }

  lemma StaleCanon(canon: Canon, g: Header, a1: Header, a2: Header, b1: Header)
    requires CanonicalHash(canon, 0) == HashOf(g) && CanonicalHash(canon, 1) == HashOf(b1) && 2 in canon
    requires forall n :: n in canon ==>
               canon[n].HashOf? && canon[n].header in {g, a1, a2, b1} && canon[n].header.number == n
    requires g.number == 0 && a1.number == b1.number == 1 && a2.number == 2
    ensures canon == map[0 := HashOf(g), 1 := HashOf(b1), 2 := HashOf(a2)]
  {
    forall n | n in canon ensures n <= 2 {
      assert canon[n].header in {g, a1, a2, b1};
    }
    assert canon[2].header == a2;
  }

  lemma StoredAt(canon: Canon, blocks: set<Header>)
    requires CanonStored(canon, blocks)
    ensures forall n :: n in canon ==> canon[n].HashOf? && canon[n].header in blocks && canon[n].header.number == n
  {
  }

  lemma NoTxs(x: Header)
    requires x.txs == []
    ensures FreshTxs(x)
  {
  }

  lemma PathStart(chain: BlockChain)
    requires chain.Valid()
    ensures CanonStored(chain.canon, chain.blocks) && chain.genesis.number == 0
    ensures OnPath(chain.canon, chain.current, chain.genesis) && OnPath(chain.canon, chain.current, chain.current)
  {
    assert chain.canon[0].header in chain.blocks;
    OnlyGenesisAtZero(chain.blocks, chain.genesis, chain.canon[0].header);
  }

  /** The mapped canonical numbers have no gap, so a stale map reaches the number above the head. */
  lemma NoGap(chain: BlockChain)
    requires chain.Valid() && !EndsAt(chain.canon, chain.current)
    ensures chain.current.number + 1 in chain.canon
  {
  }

  ghost predicate OnPath(canon: Canon, head: Header, x: Header) {
    x.number <= head.number && CanonicalHash(canon, x.number) == HashOf(x)
  }

  lemma ForkStart(lookup: Lookup, canon: Canon, oldHead: Header, newHead: Header)
    requires LinkedTo(canon, oldHead) && IndexedBut(lookup, canon, oldHead, {})
    ensures OnPath(canon, oldHead, oldHead) && (set t | t in lookup && lookup[t] > oldHead.number) == {}
    ensures Descends([], newHead) && OffPath([], canon, oldHead)
  {
  }

  /** Stepping back on the old chain deletes exactly the transactions of the block left behind. */
  lemma OldStep(blocks: set<Header>, genesis: Header, lookup: Lookup, canon: Canon, oldHead: Header, o: Header)
    requires Rooted(blocks, genesis) && LinkedTo(canon, oldHead) && IndexedBut(lookup, canon, oldHead, {})
    requires OnPath(canon, oldHead, o) && o in blocks && o.number > 0
    ensures o.parent.HashOf? && o.parent.header in blocks && o.parent.header.number == o.number - 1
    ensures OnPath(canon, oldHead, o.parent.header)
    ensures (set t | t in lookup && lookup[t] > o.number - 1) ==
              (set t | t in lookup && lookup[t] > o.number) + set t | t in o.txs
  {
    forall t | t in lookup && lookup[t] == o.number ensures t in o.txs {
      assert t in canon[lookup[t]].header.txs;
    }
    forall t | t in o.txs ensures t in lookup && lookup[t] == o.number {
      assert t in canon[o.number].header.txs;
    }
  }

  lemma NewStep(blocks: set<Header>, genesis: Header, canon: Canon, oldHead: Header, newChain: seq<Header>, n: Header)
    requires Rooted(blocks, genesis) && n in blocks && n.number > 0
    requires Descends(newChain, n) && OffPath(newChain, canon, oldHead) && !OnPath(canon, oldHead, n)
    ensures n.parent.HashOf? && n.parent.header in blocks && n.parent.header.number == n.number - 1
    ensures Descends(newChain + [n], n.parent.header) && OffPath(newChain + [n], canon, oldHead)
  {
    DescendOne(newChain, n);
  }

  lemma SameHeight(blocks: set<Header>, genesis: Header, o: Header, n: Header)
    requires Rooted(blocks, genesis) && o in blocks && n in blocks && o.number == n.number && o != n
    ensures o.number > 0
  {
  }

  /** What replaying the new chain up to `tip` has established: `added` holds exactly the
      transactions above the fork, and nothing at or below it is to be deleted. */
  ghost predicate Collected(lookup: Lookup, canon: Canon, common: Header, tip: Header, added: set<TxId>,
                            junk: set<TxId>)
    requires LinkedTo(canon, tip)
  {
    && common.number <= tip.number
    && (forall n, t :: 0 <= n <= common.number && t in canon[n].header.txs ==> t !in junk)
    && (forall n, t :: common.number < n <= tip.number && t in canon[n].header.txs ==> t in added)
    && (forall t :: t in added ==> t in lookup && 0 <= lookup[t] <= tip.number && t in canon[lookup[t]].header.txs)
  }

  lemma DescendAt(chain: seq<Header>, base: Header, i: nat)
    requires Descends(chain, base) && i < |chain|
    ensures var below := if i + 1 < |chain| then chain[i + 1] else base;
            chain[i].parent == HashOf(below) && chain[i].number == below.number + 1
  {
    assert chain[i].parent == HashOf(Below(chain, base, i));
  }

  lemma CollectChild(lookup: Lookup, canon: Canon, common: Header, tip: Header, x: Header, added: set<TxId>,
                     junk: set<TxId>)
    requires LinkedTo(canon, tip) && x.parent == HashOf(tip) && x.number == tip.number + 1
    requires Collected(lookup, canon, common, tip, added, junk)
    ensures LinkedTo(canon[x.number := HashOf(x)], x)
    ensures Collected(WriteEntries(lookup, x), canon[x.number := HashOf(x)], common, x, added + (set t | t in x.txs),
                      junk)
  {
  }

  lemma StoreChild(canon: Canon, blocks: set<Header>, tip: Header, x: Header)
    requires CanonStored(canon, blocks) && LinkedTo(canon, tip) && x.number == tip.number + 1 && x in blocks
    ensures CanonStored(canon[x.number := HashOf(x)], blocks)
  {
  }

  lemma ForkPoint(newChain: seq<Header>, common: Header, lookup: Lookup, canon: Canon, oldHead: Header,
                  deleted: set<TxId>)
    requires LinkedTo(canon, oldHead) && IndexedBut(lookup, canon, oldHead, {}) && OnPath(canon, oldHead, common)
    requires Descends(newChain, common) && OffPath(newChain, canon, oldHead)
    requires deleted == set t | t in lookup && lookup[t] > common.number
    ensures LinkedTo(canon, common) && IndexedBut(lookup, canon, common, deleted)
    ensures Collected(lookup, canon, common, common, {}, deleted)
    ensures newChain != [] ==> newChain[0].parent.HashOf?
    ensures newChain != [] ==> (|newChain| == 1 <==> OnPath(canon, oldHead, newChain[0].parent.header))
  {
    hide LinkedTo, IndexedBut, Collected, Descends, OffPath;
    IndexedPrefix(lookup, canon, oldHead, common, deleted);
    ForkCollected(lookup, canon, common, deleted);
    if newChain != [] {
      DescendAt(newChain, common, 0);
      if |newChain| > 1 {
        OffPathAt(newChain, canon, oldHead, 1);
      }
    }
  }

  lemma ForkCollected(lookup: Lookup, canon: Canon, common: Header, deleted: set<TxId>)
    requires LinkedTo(canon, common) && IndexedBut(lookup, canon, common, deleted)
    requires deleted == set t | t in lookup && lookup[t] > common.number
    ensures Collected(lookup, canon, common, common, {}, deleted)
  {
  }

  lemma OffPathAt(chain: seq<Header>, canon: Canon, head: Header, i: nat)
    requires OffPath(chain, canon, head) && i < |chain|
    ensures !OnPath(canon, head, chain[i])
  {
  }

  /** Deleting the deleted-but-not-added entries leaves exactly the transactions on the path. */
  lemma Cleaned(lookup: Lookup, canon: Canon, common: Header, tip: Header, deleted: set<TxId>, added: set<TxId>)
    requires LinkedTo(canon, tip) && IndexedBut(lookup, canon, tip, deleted)
    requires Collected(lookup, canon, common, tip, added, deleted)
    ensures IndexedBut(lookup - (deleted - added), canon, tip, {})
  {
    var l := lookup - (deleted - added);
    forall n, t | 0 <= n <= tip.number && t in canon[n].header.txs ensures t in l && l[t] == n {
      assert t in lookup && lookup[t] == n;
    }
  }

  /** Removing what lies above the head keeps the path to any block at or below it. */
  lemma Trimmed(lookup: Lookup, canon: Canon, blocks: set<Header>, tip: Header, head: Header, gone: set<nat>)
    requires LinkedTo(canon, head) && LinkedTo(canon, tip) && IndexedBut(lookup, canon, tip, {})
             && CanonStored(canon, blocks)
    requires gone == (set n | n in canon && n > head.number) && tip.number <= head.number
    ensures LinkedTo(canon - gone, head) && LinkedTo(canon - gone, tip)
    ensures IndexedBut(lookup, canon - gone, tip, {}) && CanonStored(canon - gone, blocks)
    ensures EndsAt(canon - gone, head) && (canon - gone).Items <= canon.Items
  {
    hide IndexedBut, LinkedTo;
    TrimLinks(canon, head, head, gone);
    TrimLinks(canon, tip, head, gone);
    TrimIndex(lookup, canon, tip, head, gone);
  }

  lemma TrimLinks(canon: Canon, x: Header, head: Header, gone: set<nat>)
    requires LinkedTo(canon, x) && gone == (set n | n in canon && n > head.number) && x.number <= head.number
    ensures LinkedTo(canon - gone, x)
  {
    var c := canon - gone;
    assert forall n :: 0 <= n <= x.number ==> n in c && c[n] == canon[n];
  }

  lemma TrimIndex(lookup: Lookup, canon: Canon, tip: Header, head: Header, gone: set<nat>)
    requires LinkedTo(canon, tip) && IndexedBut(lookup, canon, tip, {})
    requires gone == (set n | n in canon && n > head.number) && tip.number <= head.number
    requires LinkedTo(canon - gone, tip)
    ensures IndexedBut(lookup, canon - gone, tip, {})
  {
    var c := canon - gone;
    assert forall n :: 0 <= n <= tip.number ==> c[n] == canon[n];
  }

  /** Storing a child of a stored block: comparing the two stored difficulties decides which of
      the head and the block is the fork choice maximum, and a winning block is not canonical yet. */
  lemma Ranked(blocks: set<Header>, genesis: Header, canon: Canon, head: Header, block: Header)
    requires Rooted(blocks, genesis) && CanonStored(canon, blocks) && BestHead(blocks, genesis, head)
    requires block.parent.HashOf? && block.parent.header in blocks && block.number == block.parent.header.number + 1
    requires block.difficulty >= 1 && block.number < TWO_128
    ensures Rooted(blocks + {block}, genesis) && CanonStored(canon, blocks + {block}) && head in blocks
    ensures StoredTd(genesis, block) == block.difficulty * TWO_128 + block.number
    ensures StoredTd(genesis, block) > StoredTd(genesis, head) <==> Outranks(genesis, block, head)
    ensures BestHead(blocks + {block}, genesis, if Outranks(genesis, block, head) then block else head)
    ensures Outranks(genesis, block, head) ==> forall n :: n in canon ==> canon[n] != HashOf(block)
  {
    TdOrder(genesis, block, head);
  }

  /** After a reorganisation the map ends at `head`; adding the block makes it end at the block
      exactly when the block is not below. */
  lemma NewEnd(before: Canon, canon: Canon, head: Header, block: Header)
    requires LinkedTo(canon, head) && EndsAt(canon, head) && block.number > 0
    requires forall n :: n in before ==> before[n] != HashOf(block)
    requires canon.Items <= before.Items || head.number < block.number
    ensures EndsAt(canon[block.number := HashOf(block)], block) <==> head.number <= block.number
    ensures CanonicalHash(canon, block.number) != HashOf(block)
  {
    var c := canon[block.number := HashOf(block)];
    if head.number > block.number {
      assert head.number in c;
    }
    if block.number in canon {
      assert (block.number, canon[block.number]) in canon.Items;
    }
  }

  lemma ParentOf(blocks: set<Header>, genesis: Header, x: Header)
    requires Rooted(blocks, genesis) && x in blocks && x.number > 0
    ensures x.parent.HashOf? && x.number == x.parent.header.number + 1
  {
  }
}

/** The hash index of the pool and the price heap that shadows it. */
module TxPriced {
  import opened Prelude
  import opened Heaps
  import opened Transactions

  function PriceRank(tx: Tx): Rank {
    Rank(tx.gasPrice, -(tx.nonce as int))
  }

  /** The heap puts lower prices first, and among equal prices higher nonces. */
  lemma RankExactly(t: Tx, u: Tx)
    ensures PriceRank(t).AtMost(PriceRank(u)) <==>
              t.gasPrice < u.gasPrice || (t.gasPrice == u.gasPrice && t.nonce >= u.nonce)
  {
  }

  ghost function SlotSum(all: set<Tx>): int {
    Sum(map tx | tx in all :: tx.Slots())
  }

  lemma SlotSumAdd(all: set<Tx>, tx: Tx)
    requires tx !in all
    ensures SlotSum(all + {tx}) == SlotSum(all) + tx.Slots()
  {
    var m := map t | t in all :: t.Slots();
    SumUpdate(m, tx, tx.Slots());
    assert (map t | t in all + {tx} :: t.Slots()) == m[tx := tx.Slots()];
  }

  lemma {:induction false} SlotSumBound(all: set<Tx>)
    ensures SlotSum(all) >= |all|
    decreases |all|
  {
    if all != {} {
      var tx :| tx in all;
      SlotSumBound(all - {tx});
      SlotSumAdd(all - {tx}, tx);
      assert all - {tx} + {tx} == all;
    }
  }

  /** All known transactions and the number of slots they take. */
  class TxLookup {
    var all: set<Tx>
    var slots: int

    ghost predicate Valid()
      reads this
    {
      slots == SlotSum(all)
    }

    constructor ()
      ensures all == {} && Valid()
    {
      all, slots := {}, 0;
    }

    method Add(tx: Tx)
      modifies this
      ensures all == old(all) + {tx} && slots == old(slots) + tx.Slots()
      ensures old(Valid()) && tx !in old(all) ==> Valid()
    {
      if tx !in all {
        SlotSumAdd(all, tx);
      }
      slots := slots + tx.Slots();
      all := all + {tx};
    }

    /** Removing an unknown hash dereferences nil. */
    method Remove(tx: Tx)
      requires tx in all
      modifies this
      ensures all == old(all) - {tx} && slots == old(slots) - tx.Slots()
      ensures old(Valid()) ==> Valid()
    {
      SlotSumAdd(all - {tx}, tx);
      assert all - {tx} + {tx} == all;
      slots := slots - tx.Slots();
      all := all - {tx};
    }

    /** The loop around Remove that every list operation of the pool ends in. */
    method RemoveAll(gone: TxMap)
      requires Keyed(gone) && gone.Values <= all
      modifies this
      ensures all == old(all) - gone.Values && |all| == |old(all)| - |gone|
      ensures old(Valid()) ==> Valid()
    {
      hide SlotSum, Keyed;
      var rest := gone;
      while rest != map[]
        invariant Keyed(rest) && rest.Values <= gone.Values && all == old(all) - (gone.Values - rest.Values)
        invariant old(Valid()) ==> Valid()
        decreases rest.Keys
      {
        var n :| n in rest;
        ValuesLess(rest, n);
        Remove(rest[n]);
        rest := rest - {n};
      }
      assert rest.Values == {} && gone.Values - {} == gone.Values;
      ValuesCount(gone);
      assert |old(all) - gone.Values| == |old(all)| - |gone.Values|;
    }
  }

  lemma {:induction false} ValuesCount(m: TxMap)
    requires Keyed(m)
    ensures |m.Values| == |m|
    decreases m.Keys
  {
    if m == map[] {
      assert m.Values == {};
    } else {
      var n :| n in m;
      ValuesLess(m, n);
      ValuesCount(m - {n});
      assert m.Values == (m - {n}).Values + {m[n]};
      assert m == (m - {n})[n := m[n]];
    }
  }

  lemma ValuesLess(m: TxMap, n: nat)
    requires Keyed(m) && n in m
    ensures m[n] in m.Values && (m - {n}).Values == m.Values - {m[n]} && Keyed(m - {n})
  {
    var r := m - {n};
    assert m[n] in m.Values;
    forall tx ensures tx in r.Values <==> tx in m.Values - {m[n]} {
      if tx in m.Values - {m[n]} {
        var k :| k in m && m[k] == tx;
        assert r[k] == tx;
      }
    }
  }

  // ---------------------------------------------------------------- price heap

  /** The heap covers the index except for `doomed`, and it has no more surplus entries than
      the stale counter (plus `debt`) accounts for. */
  ghost predicate Shadows(items: seq<Tx>, stales: int, all: set<Tx>, doomed: set<Tx>, debt: int) {
    && IsHeap(items, PriceRank)
    && (forall tx :: tx in all && tx !in doomed ==> tx in items)
    && |items| <= |all| + stales + debt
  }

  lemma ShadowsPut(items: seq<Tx>, stales: int, all: set<Tx>, tx: Tx, more: seq<Tx>)
    requires Shadows(items, stales, all, {}, 0) && tx !in all
    requires IsHeap(more, PriceRank) && |more| == |items| + 1 && multiset(more) == multiset(items) + multiset{tx}
    ensures Shadows(more, stales, all + {tx}, {}, 0)
  {
    forall t | t in all + {tx} ensures t in more {
      assert t != tx ==> t in multiset(items);
      assert t in multiset(more);
    }
  }

  lemma ShadowsDrop(items: seq<Tx>, stales: int, all: set<Tx>, drop: seq<Tx>)
    requires drop != [] && Shadows(items, stales, all, set tx | tx in drop, -|drop|)
    ensures Shadows(items, stales, all - {drop[0]}, set tx | tx in drop[1..], -|drop[1..]|)
  {
  }

  /** Entries of the heap that the index no longer knows. */
  ghost function Dead(items: seq<Tx>, all: set<Tx>): nat {
    if items == [] then 0
    else Dead(items[1..], all) + if items[0] in all then 0 else 1
  }

  /** The stale counter never undercounts the dead entries, so it is never negative. */
  lemma {:induction false} StalesCoverDead(items: seq<Tx>, stales: int, all: set<Tx>)
    requires Shadows(items, stales, all, {}, 0)
    ensures 0 <= Dead(items, all) <= stales
  {
    LiveEntries(items, all, set tx | tx in all && tx in items);
    assert (set tx | tx in all && tx in items) == all;
  }

  lemma {:induction false} LiveEntries(items: seq<Tx>, all: set<Tx>, live: set<Tx>)
    requires forall tx :: tx in live ==> tx in all && tx in items
    ensures Dead(items, all) + |live| <= |items|
    decreases |items|
  {
    if items == [] {
      assert live == {};
    } else {
      var rest := live - {items[0]};
      forall tx | tx in rest ensures tx in items[1..] {
        var k :| 0 <= k < |items| && items[k] == tx;
        assert items[1..][k - 1] == tx;
      }
      LiveEntries(items[1..], all, rest);
      assert live <= rest + {items[0]};
      if items[0] !in all {
        assert rest == live;
      } else {
        assert |live| <= |rest + {items[0]}|;
      }
    }
  }

  ghost function SlotsOf(txs: seq<Tx>): nat {
    if txs == [] then 0 else SlotsOf(txs[..|txs| - 1]) + txs[|txs| - 1].Slots()
  }

  /** The invariant of a sweep over the heap: what was popped is dropped, saved or dead, and
      nothing left in the heap is cheaper. */
  ghost predicate Swept(items: seq<Tx>, stales: int, all: set<Tx>, locals: set<Address>, drop: seq<Tx>, save: seq<Tx>) {
    && IsHeap(items, PriceRank)
    && (forall tx :: tx in all ==> tx in items || tx in drop || tx in save)
    && |items| + |drop| + |save| <= |all| + stales
    && (forall tx :: tx in drop ==> tx in all && tx.from !in locals)
    && (forall tx :: tx in save ==> tx in all)
    && (forall d, tx :: d in drop && tx in items ==> PriceRank(d).AtMost(PriceRank(tx)))
  }

  lemma SweepOne(items: seq<Tx>, stales: int, all: set<Tx>, locals: set<Address>, drop: seq<Tx>, save: seq<Tx>, tx: Tx,
                 rest: seq<Tx>)
    requires Swept(items, stales, all, locals, drop, save)
    requires IsHeap(rest, PriceRank) && multiset(items) == multiset(rest) + multiset{tx} && |rest| == |items| - 1
    requires forall t :: t in items ==> PriceRank(tx).AtMost(PriceRank(t))
    ensures tx !in all ==> Swept(rest, stales - 1, all, locals, drop, save)
    ensures tx in all ==> Swept(rest, stales, all, locals, drop, save + [tx])
    ensures tx in all && tx.from !in locals ==> Swept(rest, stales, all, locals, drop + [tx], save)
  {
    forall t ensures t in items <==> t in rest || t == tx {
      assert t in items <==> t in multiset(items);
    }
  }

  lemma SweepBack(items: seq<Tx>, stales: int, all: set<Tx>, locals: set<Address>, drop: seq<Tx>, save: seq<Tx>,
                  more: seq<Tx>)
    requires save != [] && |more| == |items| + 1 && IsHeap(more, PriceRank)
    requires multiset(more) == multiset(items) + multiset{save[0]}
    requires |items| + |drop| + |save| <= |all| + stales
    requires forall tx :: tx in all ==> tx in items || tx in drop || tx in save
    ensures forall tx :: tx in all ==> tx in more || tx in drop || tx in save[1..]
    ensures |more| + |drop| + |save[1..]| <= |all| + stales
  {
    forall t ensures t in more <==> t in items || t == save[0] {
      assert t in more <==> t in multiset(more);
    }
  }

  /** A price-sorted heap over the pool's transactions that lags behind removals. */
  class TxPricedList {
    const lookup: TxLookup
    var items: seq<Tx>
    var stales: int

    ghost predicate Valid()
      reads this, lookup
    {
      Shadows(items, stales, lookup.all, {}, 0)
    }

    constructor (lookup: TxLookup)
      requires lookup.all == {}
      ensures Valid() && this.lookup == lookup && items == [] && stales == 0
    {
      this.lookup := lookup;
      items, stales := [], 0;
    }

    method Put(tx: Tx)
      requires IsHeap(items, PriceRank)
      modifies this
      ensures IsHeap(items, PriceRank) && stales == old(stales)
      ensures multiset(items) == multiset(old(items)) + multiset{tx} && |items| == |old(items)| + 1
    {
      items := Push(items, PriceRank, tx);
    }

    method Removed(count: nat)
      requires Shadows(items, stales, lookup.all, {}, count)
      modifies this
      ensures Valid()
      ensures if old(stales) + count <= |old(items)| / 4 then items == old(items) && stales == old(stales) + count
              else stales == 0 && |items| == |lookup.all|
    {
      stales := stales + count;
      if stales <= |items| / 4 {
        return;
      }
      var heap, rest := [], lookup.all;
      while rest != {}
        invariant rest <= lookup.all && |heap| + |rest| == |lookup.all|
        invariant forall tx :: tx in lookup.all ==> tx in rest || tx in heap
      {
        var tx :| tx in rest;
        heap := heap + [tx];
        rest := rest - {tx};
      }
      var h := Init(heap, PriceRank);
      assert forall tx :: tx in heap ==> tx in multiset(heap);
      assert forall tx :: tx in multiset(h) ==> tx in h;
      items, stales := h, 0;
    }

    /** Pops the cheapest entry. */
    method PopCheapest() returns (tx: Tx)
      requires IsHeap(items, PriceRank) && items != []
      modifies `items
      ensures IsHeap(items, PriceRank) && |items| == |old(items)| - 1
      ensures tx == old(items)[0] && multiset(old(items)) == multiset(items) + multiset{tx}
      ensures forall t :: t in old(items) ==> PriceRank(tx).AtMost(PriceRank(t))
    {
      items, tx := Pop(items, PriceRank);
    }

    /** Pushes saved entries back. */
    method Restore(save: seq<Tx>, ghost drop: seq<Tx>)
      requires IsHeap(items, PriceRank)
      requires forall tx :: tx in lookup.all ==> tx in items || tx in drop || tx in save
      requires |items| + |drop| + |save| <= |lookup.all| + stales
      modifies `items
      ensures Shadows(items, stales, lookup.all, set tx | tx in drop, -|drop|)
    {
      var rest := save;
      while rest != []
        invariant IsHeap(items, PriceRank)
        invariant forall tx :: tx in lookup.all ==> tx in items || tx in drop || tx in rest
        invariant |items| + |drop| + |rest| <= |lookup.all| + stales
        decreases |rest|
      {
        ghost var before := items;
        items := Push(items, PriceRank, rest[0]);
        SweepBack(before, stales, lookup.all, {}, drop, rest, items);
        rest := rest[1..];
      }
    }

    /** Finds all remote transactions below a price. */
    method Cap(threshold: nat, locals: set<Address>) returns (drop: seq<Tx>)
      requires Valid()
      modifies this
      ensures Shadows(items, stales, lookup.all, set tx | tx in drop, -|drop|)
      ensures forall tx :: tx in drop <==> tx in lookup.all && tx.from !in locals && tx.gasPrice < threshold
    {
      hide Swept, IsHeap;
      drop := [];
      var save := [];
      SweepStart(items, stales, lookup.all, locals);
      while |items| > 0
        invariant Swept(items, stales, lookup.all, locals, drop, save)
        invariant forall tx :: tx in drop ==> tx.gasPrice < threshold
        invariant forall tx :: tx in save ==> tx.from in locals
        decreases |items|
      {
        SweptHeap(items, stales, lookup.all, locals, drop, save);
        ghost var before := items;
        var tx := PopCheapest();
        SweepOne(before, stales, lookup.all, locals, drop, save, tx, items);
        if tx !in lookup.all {
          stales := stales - 1;
        } else if tx.gasPrice >= threshold {
          save := save + [tx];
          PricesAbove(before, items, tx);
          break;
        } else if tx.from in locals {
          save := save + [tx];
        } else {
          drop := drop + [tx];
        }
      }
      SweptParts(items, stales, lookup.all, locals, drop, save);
      Restore(save, drop);
    }

    /** Whether a transaction is no better than the cheapest one tracked. */
    method Underpriced(tx: Tx, locals: set<Address>) returns (r: bool)
      requires Valid()
      modifies this
      ensures Valid()
      ensures tx.from in locals || lookup.all == {} ==> !r
      ensures tx.from !in locals && lookup.all != {} ==>
                (r <==> forall t :: t in lookup.all ==> tx.gasPrice <= t.gasPrice)
      ensures |items| - stales == |old(items)| - old(stales) && multiset(items) <= multiset(old(items))
    {
      if tx.from in locals {
        return false;
      }
      while |items| > 0 && items[0] !in lookup.all
        invariant Valid()
        invariant |items| - stales == |old(items)| - old(stales) && multiset(items) <= multiset(old(items))
        decreases |items|
      {
        ghost var before := items;
        stales := stales - 1;
        var dead := PopCheapest();
        forall t | t in lookup.all ensures t in items {
          assert t in multiset(before) && t != dead;
        }
      }
      if |items| == 0 {
        return false;
      }
      forall t | t in lookup.all ensures items[0].gasPrice <= t.gasPrice {
        var k :| 0 <= k < |items| && items[k] == t;
        RootMinimal(items, PriceRank, k);
      }
      return items[0].gasPrice >= tx.gasPrice;
    }

    /** Makes room for `slots` slots by dropping the cheapest remote transactions: just
        enough of them, or all of them. */
    method Discard(slots: int, locals: set<Address>) returns (drop: seq<Tx>)
      requires Valid()
      modifies this
      ensures Shadows(items, stales, lookup.all, set tx | tx in drop, -|drop|)
      ensures forall tx :: tx in drop ==> tx in lookup.all && tx.from !in locals
      ensures SlotsOf(drop) >= slots || forall tx :: tx in lookup.all && tx.from !in locals ==> tx in drop
      ensures drop != [] ==> SlotsOf(drop[..|drop| - 1]) < slots
      ensures forall d, tx :: d in drop && tx in lookup.all && tx.from !in locals && tx !in drop ==>
                d.gasPrice < tx.gasPrice || (d.gasPrice == tx.gasPrice && d.nonce >= tx.nonce)
      ensures multiset(drop) <= multiset(old(items))
    {
      hide Swept, IsHeap;
      drop := [];
      var save, left := [], slots;
      SweepStart(items, stales, lookup.all, locals);
      while |items| > 0 && left > 0
        invariant Swept(items, stales, lookup.all, locals, drop, save)
        invariant multiset(items) + multiset(drop) <= multiset(old(items))
        invariant left == slots - SlotsOf(drop)
        invariant drop != [] ==> SlotsOf(drop[..|drop| - 1]) < slots
        invariant forall tx :: tx in save ==> tx.from in locals
        decreases |items|
      {
        SweptHeap(items, stales, lookup.all, locals, drop, save);
        ghost var before := items;
        var tx := PopCheapest();
        SweepOne(before, stales, lookup.all, locals, drop, save, tx, items);
        if tx !in lookup.all {
          stales := stales - 1;
        } else if tx.from in locals {
          save := save + [tx];
        } else {
          assert (drop + [tx])[..|drop|] == drop;
          drop := drop + [tx];
          left := left - tx.Slots();
        }
      }
      SweptParts(items, stales, lookup.all, locals, drop, save);
      Restore(save, drop);
    }
  }

  /** Dropping distinct transactions frees exactly their slots. */
  lemma {:induction false} SlotsFreed(all: set<Tx>, drop: seq<Tx>)
    requires Distinct(drop) && forall tx :: tx in drop ==> tx in all
    ensures SlotSum(all - set tx | tx in drop) == SlotSum(all) - SlotsOf(drop)
    decreases |drop|
  {
    hide SlotSum;
    if drop == [] {
      assert all - (set tx | tx in drop) == all;
    } else {
      var m := |drop| - 1;
      var last, rest := drop[m], drop[..m];
      assert forall tx :: tx in rest ==> tx in drop;
      assert forall i :: 0 <= i < m ==> rest[i] == drop[i];
      SlotsFreed(all, rest);
      var left := all - set tx | tx in drop;
      assert last !in rest;
      assert forall tx :: tx in drop <==> tx in rest || tx == last;
      assert left + {last} == all - set tx | tx in rest;
      SlotSumAdd(left, last);
    }
  }

  lemma DistinctPart(part: seq<Tx>, whole: seq<Tx>)
    requires multiset(part) <= multiset(whole) && Distinct(whole)
    ensures Distinct(part)
  {
    forall i, j | 0 <= i < j < |part| ensures part[i] != part[j] {
      if part[i] == part[j] {
        DuplicateCount(part, i, j);
        OneOfEach(whole, part[i]);
      }
    }
  }

  lemma {:induction false} OneOfEach(s: seq<Tx>, tx: Tx)
    requires Distinct(s)
    ensures multiset(s)[tx] <= 1
    decreases |s|
  {
    if s != [] {
      var m := |s| - 1;
      assert s == s[..m] + [s[m]];
      OneOfEach(s[..m], tx);
      assert s[m] !in s[..m];
    }
  }

  lemma SweepStart(items: seq<Tx>, stales: int, all: set<Tx>, locals: set<Address>)
    requires Shadows(items, stales, all, {}, 0)
    ensures Swept(items, stales, all, locals, [], [])
  {
  }

  lemma PricesAbove(before: seq<Tx>, items: seq<Tx>, tx: Tx)
    requires multiset(before) == multiset(items) + multiset{tx}
    requires forall t :: t in before ==> PriceRank(tx).AtMost(PriceRank(t))
    ensures forall t :: t in items ==> tx.gasPrice <= t.gasPrice
  {
    forall t | t in items ensures tx.gasPrice <= t.gasPrice {
      assert t in multiset(before);
      assert t in before;
    }
  }

  lemma SweptHeap(items: seq<Tx>, stales: int, all: set<Tx>, locals: set<Address>, drop: seq<Tx>, save: seq<Tx>)
    requires Swept(items, stales, all, locals, drop, save)
    ensures IsHeap(items, PriceRank)
  {
  }

  lemma SweptParts(items: seq<Tx>, stales: int, all: set<Tx>, locals: set<Address>, drop: seq<Tx>, save: seq<Tx>)
    requires Swept(items, stales, all, locals, drop, save)
    ensures IsHeap(items, PriceRank)
    ensures forall tx :: tx in all ==> tx in items || tx in drop || tx in save
    ensures |items| + |drop| + |save| <= |all| + stales
    ensures forall tx :: tx in drop ==> tx in all && tx.from !in locals
    ensures forall d, tx :: d in drop && tx in items ==> PriceRank(d).AtMost(PriceRank(tx))
  {
  }
}

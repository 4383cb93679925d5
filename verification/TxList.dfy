/** The mutable per-account lists: a nonce-keyed map, a heap of its nonces and a cached
    sorted view that must agree, and the list object with its caps on top. Every method is
    proved against the value functions of module Transactions. */
module TxLists {
  import opened Prelude
  import opened Heaps
  import opened Transactions

  function NonceRank(n: nat): Rank {
    Rank(n, 0)
  }

  function TxNonceRank(tx: Tx): Rank {
    Rank(tx.nonce, 0)
  }

  /** The heap holds each nonce of the map exactly once. */
  ghost predicate Indexes(index: seq<nat>, keys: set<nat>) {
    IsHeap(index, NonceRank) && multiset(index) == multiset(keys)
  }

  // ---------------------------------------------------------------- index lemmas

  lemma IndexCovers(index: seq<nat>, keys: set<nat>)
    requires multiset(index) == multiset(keys)
    ensures |index| == |keys| && Lists(index, keys)
  {
    assert |multiset(index)| == |multiset(keys)|;
    forall n ensures n in index <==> n in keys {
      assert n in index <==> n in multiset(index);
    }
  }

  /** The root of the heap is the lowest nonce. */
  lemma RootLowest(index: seq<nat>, keys: set<nat>)
    requires Indexes(index, keys)
    ensures |index| == |keys| && Lists(index, keys)
    ensures index != [] ==> IsMin(keys, index[0])
  {
    IndexCovers(index, keys);
    if index != [] {
      assert index[0] in index;
      forall n | n in keys ensures index[0] <= n {
        assert n in index;
        var k :| 0 <= k < |index| && index[k] == n;
        RootMinimal(index, NonceRank, k);
      }
    }
  }

  lemma SortedIndex(index: seq<nat>, keys: set<nat>)
    requires SortedBy(index, NonceRank) && multiset(index) == multiset(keys)
    ensures index == Ascending(keys)
  {
    IndexCovers(index, keys);
    forall i, j | 0 <= i < j < |index| ensures index[i] < index[j] {
      SetHasNoRepeats(index, keys, i, j);
      assert NonceRank(index[i]).AtMost(NonceRank(index[j]));
    }
    AscendingUnique(index, keys);
  }

  lemma {:induction false} ListingMultiset(r: seq<nat>, s: set<nat>)
    requires Increasing(r) && Lists(r, s)
    ensures multiset(r) == multiset(s)
    decreases |r|
  {
    hide Increasing, Lists;
    EmptyListing(r, s);
    if r != [] {
      var m := |r| - 1;
      LastIsMax(r, s);
      ListingMultiset(r[..m], s - {r[m]});
      assert r == r[..m] + [r[m]];
      assert s == s - {r[m]} + {r[m]};
    }
  }

  lemma KeyGone(index: seq<nat>, keys: set<nat>, n: nat)
    requires n in keys && multiset(keys) == multiset(index) + multiset{n}
    ensures multiset(index) == multiset(keys - {n})
  {
    assert multiset(keys) == multiset(keys - {n}) + multiset{n};
    assert multiset(index) == multiset(keys) - multiset{n};
  }

  lemma EnumeratesMember(s: seq<Tx>, m: TxMap, i: nat)
    requires Keyed(m) && Enumerates(s, m) && i < |s|
    ensures s[i].nonce in m && m[s[i].nonce] == s[i]
  {
    assert s[i] in multiset(m.Values);
  }

  lemma EnumeratesAll(s: seq<Tx>, m: TxMap, n: nat)
    requires Enumerates(s, m) && n in m
    ensures m[n] in s
  {
    assert m[n] in multiset(m.Values);
  }

  lemma NoncesDistinct(s: seq<Tx>, m: TxMap, i: nat, j: nat)
    requires Keyed(m) && Enumerates(s, m) && i < j < |s|
    ensures s[i].nonce != s[j].nonce
  {
    EnumeratesMember(s, m, i);
    EnumeratesMember(s, m, j);
    SetHasNoRepeats(s, m.Values, i, j);
  }

  /** A nonce-sorted enumeration is the flattened map. */
  lemma SortedEnumeration(s: seq<Tx>, m: TxMap)
    requires Keyed(m) && Enumerates(s, m) && SortedBy(s, TxNonceRank)
    ensures s == Flatten(m)
  {
    hide Enumerates;
    var ks := seq(|s|, i requires 0 <= i < |s| => s[i].nonce);
    forall i, j | 0 <= i < j < |s| ensures ks[i] < ks[j] {
      NoncesDistinct(s, m, i, j);
      assert TxNonceRank(s[i]).AtMost(TxNonceRank(s[j]));
    }
    forall n ensures n in ks <==> n in m.Keys {
      if n in m.Keys {
        EnumeratesAll(s, m, n);
        var i :| 0 <= i < |s| && s[i] == m[n];
        assert ks[i] == n;
      }
      if n in ks {
        var i :| 0 <= i < |ks| && ks[i] == n;
        EnumeratesMember(s, m, i);
      }
    }
    AscendingUnique(ks, m.Keys);
    forall i | 0 <= i < |s| ensures s[i] == Flatten(m)[i] {
      EnumeratesMember(s, m, i);
    }
  }

  lemma EnumeratesSize(s: seq<Tx>, m: TxMap)
    requires Keyed(m) && Enumerates(s, m)
    ensures |s| == |m|
  {
    assert |multiset(s)| == |multiset(m.Values)|;
    ValuesSize(m);
  }

  lemma {:induction false} ValuesSize(m: TxMap)
    requires Keyed(m)
    ensures |m.Values| == |m|
    decreases |m|
  {
    if m != map[] {
      var n :| n in m;
      ValuesSize(m - {n});
      ValuesWith(m - {n}, m[n]);
      assert (m - {n})[n := m[n]] == m;
      assert |multiset(m.Values)| == |multiset((m - {n}).Values)| + 1;
    } else {
      assert m.Values == {};
    }
  }

  /** The nonces below `cut` have left the map `all`, and `removed` lists them. */
  ghost predicate TakenBelow(all: TxMap, cut: nat, items: TxMap, removed: seq<Tx>) {
    Keyed(all) && items == AtLeast(all, cut) && Enumerates(removed, Under(all, cut))
  }

  /** The nonces from `cut` on have left the map `all`, and `drops` lists them. */
  ghost predicate TakenAbove(all: TxMap, cut: nat, items: TxMap, drops: seq<Tx>) {
    Keyed(all) && items == Under(all, cut) && Enumerates(drops, AtLeast(all, cut))
  }

  /** The nonces from `lo` up to `next` have left the map `all`, in order. */
  ghost predicate TakenRun(all: TxMap, lo: nat, next: nat, items: TxMap, ready: seq<Tx>) {
    && items == AtLeast(all, next) && next == lo + |ready|
    && forall n :: lo <= n < next ==> n in all && ready[n - lo] == all[n]
  }

  lemma NothingTaken(all: TxMap)
    requires Keyed(all)
    ensures TakenBelow(all, 0, all, [])
    ensures all != map[] ==> TakenAbove(all, Max(all.Keys) + 1, all, [])
    ensures all != map[] ==> TakenRun(all, Min(all.Keys), Min(all.Keys), all, [])
  {
    assert Under(all, 0) == map[];
    if all != map[] {
      assert AtLeast(all, Max(all.Keys) + 1) == map[];
    }
  }

  /** Taking the lowest remaining nonce moves the cut past it. */
  lemma TakeLowest(all: TxMap, cut: nat, items: TxMap, removed: seq<Tx>, n: nat)
    requires TakenBelow(all, cut, items, removed) && IsMin(items.Keys, n)
    ensures TakenBelow(all, n + 1, items - {n}, removed + [items[n]])
  {
    CutMove(all, cut, n) by {
      forall x | cut <= x < n ensures x !in all {
        assert x in items.Keys ==> n <= x;
      }
    }
    CutStep(all, n);
    ValuesWith(Under(all, n), all[n]);
  }

  lemma TakeHighest(all: TxMap, cut: nat, items: TxMap, drops: seq<Tx>, n: nat)
    requires TakenAbove(all, cut, items, drops) && IsMax(items.Keys, n)
    ensures TakenAbove(all, n, items - {n}, drops + [items[n]])
  {
    CutMove(all, n + 1, cut) by {
      forall x | n + 1 <= x < cut ensures x !in all {
        assert x in items.Keys ==> x <= n;
      }
    }
    CutStep(all, n);
    ValuesWith(AtLeast(all, n + 1), all[n]);
  }

  lemma TakeNext(all: TxMap, lo: nat, next: nat, items: TxMap, ready: seq<Tx>)
    requires TakenRun(all, lo, next, items, ready) && next in items
    ensures TakenRun(all, lo, next + 1, items - {next}, ready + [items[next]])
  {
    CutStep(all, next);
  }

  /** When nothing below `t` is left, exactly the nonces below `t` were taken. */
  lemma TakenAllBelow(all: TxMap, cut: nat, items: TxMap, removed: seq<Tx>, t: nat)
    requires TakenBelow(all, cut, items, removed) && cut <= t
    requires items == map[] || t <= Min(items.Keys)
    ensures items == AtLeast(all, t) && Enumerates(removed, Under(all, t))
    ensures |removed| <= |all| && Flatten(all)[|removed|..] == Flatten(items)
  {
    forall n | cut <= n < t ensures n !in all {
      assert n in all ==> n in items.Keys;
    }
    CutMove(all, cut, t);
    CutFlatten(all, t);
    EnumeratesSize(removed, Under(all, t));
  }

  lemma TakenExcess(all: TxMap, cut: nat, items: TxMap, drops: seq<Tx>)
    requires TakenAbove(all, cut, items, drops)
    ensures Keyed(items) && items == CapTo(all, |items|) && Enumerates(drops, Without(all, items))
    ensures |all| == |items| + |drops| && Flatten(items) == Flatten(all)[..|items|]
    ensures Ascending(items.Keys) == Ascending(all.Keys)[..|items|]
  {
    hide Lists, Increasing, CapTo;
    CapToUnique(all, cut);
    CutFlatten(all, cut);
    CutAscending(all, cut);
    WithoutUnder(all, cut);
    EnumeratesSize(drops, AtLeast(all, cut));
  }

  lemma WithoutUnder(m: TxMap, t: nat)
    ensures Without(m, Under(m, t)) == AtLeast(m, t)
    ensures Keyed(m) ==> Keyed(AtLeast(m, t))
  {
  }

  /** Ready took the run from the lowest nonce, in nonce order, if it starts early enough. */
  ghost predicate TookReady(all: TxMap, start: nat, items: TxMap, ready: seq<Tx>) {
    if all == map[] || Min(all.Keys) > start then ready == [] && items == all
    else
      var lo := Min(all.Keys);
      var hi := RunEnd(all, lo);
      && items == AtLeast(all, hi + 1) && |ready| == hi - lo
      && forall i :: 0 <= i < |ready| ==> ready[i] == all[lo + i]
  }

  lemma NothingReady(all: TxMap, start: nat)
    requires all == map[] || Min(all.Keys) > start
    ensures TookReady(all, start, all, [])
  {
  }

  lemma TakenWholeRun(all: TxMap, lo: nat, next: nat, items: TxMap, ready: seq<Tx>)
    requires TakenRun(all, lo, next, items, ready) && (items == map[] || Min(items.Keys) != next)
    requires IsMin(all.Keys, lo)
    ensures forall start :: lo <= start ==> TookReady(all, start, items, ready)
  {
    assert next in all ==> next in items.Keys;
    RunEndUnique(all, lo, next);
    CutMove(all, next, next + 1);
    forall i | 0 <= i < |ready| ensures ready[i] == all[lo + i] {
      assert ready[lo + i - lo] == all[lo + i];
    }
  }

  lemma {:induction false} RunEndUnique(m: TxMap, lo: nat, hi: nat)
    requires lo <= hi && hi !in m && forall n :: lo <= n < hi ==> n in m
    ensures RunEnd(m, lo) == hi
    decreases hi - lo
  {
    if lo < hi {
      RunEndUnique(m, lo + 1, hi);
    }
  }

  /** Filtering has looked at everything outside `rest`. */
  ghost predicate Sifted(all: TxMap, drop: Tx -> bool, rest: TxMap, items: TxMap, gone: TxMap) {
    && Keyed(all)
    && (forall n :: n in all <==> n in items || n in gone)
    && (forall n :: n in items ==> n !in gone && items[n] == all[n] && (n in rest || !drop(all[n])))
    && (forall n :: n in gone ==> gone[n] == all[n] && drop(all[n]))
    && (forall n :: n in rest ==> n in items && rest[n] == all[n])
  }

  lemma NothingSifted(all: TxMap, drop: Tx -> bool)
    requires Keyed(all)
    ensures Sifted(all, drop, all, all, map[])
  {
  }

  lemma SiftOne(all: TxMap, drop: Tx -> bool, rest: TxMap, items: TxMap, gone: TxMap, n: nat)
    requires Sifted(all, drop, rest, items, gone) && n in rest
    ensures rest[n] == all[n] && all[n].nonce == n && n !in gone && Keyed(gone) && n in items
    ensures drop(all[n]) ==> Sifted(all, drop, rest - {n}, items - {n}, gone[n := all[n]])
    ensures !drop(all[n]) ==> Sifted(all, drop, rest - {n}, items, gone)
  {
  }

  lemma SiftedAll(all: TxMap, drop: Tx -> bool, items: TxMap, gone: TxMap)
    requires Sifted(all, drop, map[], items, gone)
    ensures items == Without(all, gone) && gone == Select(all, drop) && Keyed(items)
    ensures gone == map[] ==> items == all
  {
  }

  // ---------------------------------------------------------------- sorted map

  /** A nonce-to-transaction map with a heap based index. */
  class TxSortedMap {
    var items: TxMap
    var index: seq<nat>
    var cache: Option<seq<Tx>>

    ghost predicate Valid()
      reads this
    {
      && Keyed(items)
      && Indexes(index, items.Keys)
      && (cache.Some? ==> cache.value == Flatten(items))
    }

    constructor ()
      ensures Valid() && items == map[]
    {
      items, index, cache := map[], [], None;
    }

    function Get(nonce: nat): (r: Option<Tx>)
      reads this
    {
      if nonce in items then Some(items[nonce]) else None
    }

    method Put(tx: Tx)
      requires Valid()
      modifies this
      ensures Valid() && items == old(items)[tx.nonce := tx]
    {
      if tx.nonce !in items {
        index := Push(index, NonceRank, tx.nonce);
      }
      assert items[tx.nonce := tx].Keys == items.Keys + {tx.nonce};
      items, cache := items[tx.nonce := tx], None;
    }

    /** Takes the lowest nonce off the heap and out of the map. */
    method PopLowest() returns (tx: Tx)
      requires Keyed(items) && Indexes(index, items.Keys) && items != map[]
      modifies `items, `index
      ensures Keyed(items) && Indexes(index, items.Keys)
      ensures old(index != [] && tx.nonce == index[0] && tx.nonce in items && items[tx.nonce] == tx)
      ensures items == old(items) - {tx.nonce}
    {
      RootLowest(index, items.Keys);
      var nonce;
      index, nonce := Pop(index, NonceRank);
      tx := items[nonce];
      ghost var keys := items.Keys;
      items := items - {nonce};
      assert items.Keys == keys - {nonce};
      KeyGone(index, keys, nonce);
    }

    method Forward(threshold: nat) returns (removed: seq<Tx>)
      requires Valid()
      modifies this
      ensures Valid()
      ensures items == AtLeast(old(items), threshold)
      ensures Enumerates(removed, Under(old(items), threshold))
    {
      hide Indexes, Under, AtLeast, Enumerates;
      ghost var all := items;
      removed := PopBelow(threshold);
      if cache.Some? {
        cache := Some(cache.value[|removed|..]);
      }
    }

    /** Pops the heap until its root reaches the threshold. */
    method PopBelow(threshold: nat) returns (removed: seq<Tx>)
      requires Keyed(items) && Indexes(index, items.Keys)
      modifies `items, `index
      ensures Keyed(items) && Indexes(index, items.Keys)
      ensures items == AtLeast(old(items), threshold)
      ensures Enumerates(removed, Under(old(items), threshold))
      ensures |removed| <= |old(items)| && Flatten(old(items))[|removed|..] == Flatten(items)
    {
      hide TakenBelow, Indexes, Lists;
      removed := [];
      ghost var all, cut := items, 0;
      NothingTaken(all);
      RootLowest(index, items.Keys);
      while |index| > 0 && index[0] < threshold
        invariant Keyed(items) && Indexes(index, items.Keys)
        invariant 0 <= cut <= threshold && TakenBelow(all, cut, items, removed)
        decreases items.Keys
      {
        RootLowest(index, items.Keys);
        TakeLowest(all, cut, items, removed, index[0]);
        cut := index[0] + 1;
        var tx := PopLowest();
        removed := removed + [tx];
      }
      RootLowest(index, items.Keys);
      TakenAllBelow(all, cut, items, removed, threshold);
    }

    method Filter(drop: Tx -> bool) returns (removed: seq<Tx>)
      requires Valid()
      modifies this
      ensures Valid()
      ensures items == Without(old(items), Select(old(items), drop))
      ensures Enumerates(removed, Select(old(items), drop))
    {
      hide Sifted, Indexes;
      removed := [];
      ghost var all := items;
      ghost var gone: TxMap := map[];
      var rest := items;
      assert Sifted(all, drop, rest, items, gone) by { NothingSifted(all, drop); }
      while rest != map[]
        invariant Sifted(all, drop, rest, items, gone)
        invariant Enumerates(removed, gone) && (removed == [] <==> gone == map[])
        invariant index == old(index) && cache == old(cache)
        decreases |rest|
      {
        var nonce :| nonce in rest;
        var tx := rest[nonce];
        SiftOne(all, drop, rest, items, gone, nonce);
        if drop(tx) {
          ValuesWith(gone, tx);
          removed, gone := removed + [tx], gone[nonce := tx];
          items := items - {nonce};
        }
        rest := rest - {nonce};
      }
      SiftedAll(all, drop, items, gone);
      if |removed| > 0 {
        index := Reindex();
        cache := None;
      }
    }

    /** A fresh heap over the nonces of the map. */
    method Reindex() returns (h: seq<nat>)
      ensures Indexes(h, items.Keys)
    {
      h := [];
      var keys := items.Keys;
      while keys != {}
        invariant keys <= items.Keys
        invariant multiset(h) == multiset(items.Keys - keys)
      {
        var nonce :| nonce in keys;
        h := h + [nonce];
        assert items.Keys - (keys - {nonce}) == items.Keys - keys + {nonce};
        keys := keys - {nonce};
      }
      assert items.Keys - keys == items.Keys;
      h := Init(h, NonceRank);
    }

    method Cap(threshold: nat) returns (drops: seq<Tx>)
      requires Valid()
      modifies this
      ensures Valid()
      ensures items == CapTo(old(items), threshold)
      ensures Enumerates(drops, Without(old(items), items))
    {
      drops := [];
      if |items| <= threshold {
        assert Without(items, items) == map[];
        return;
      }
      hide CapTo, Enumerates, Flatten;
      index := Sort(index, NonceRank);
      SortedIndex(index, items.Keys);
      drops := DropAbove(threshold);
      ListingMultiset(index[..threshold], items.Keys);
      index := Init(index[..threshold], NonceRank);
      if cache.Some? {
        cache := Some(cache.value[..|cache.value| - |drops|]);
      }
    }

    /** Drops the highest nonces, given the sorted index. */
    method DropAbove(threshold: nat) returns (drops: seq<Tx>)
      requires Keyed(items) && index == Ascending(items.Keys) && threshold < |items|
      modifies `items
      ensures Keyed(items) && items == CapTo(old(items), threshold)
      ensures Enumerates(drops, Without(old(items), items))
      ensures |old(items)| - |drops| == threshold <= |index| && index[..threshold] == Ascending(items.Keys)
      ensures Flatten(items) == Flatten(old(items))[..threshold]
    {
      hide TakenAbove, Increasing, Lists;
      drops := [];
      ghost var all := items;
      var size := |items|;
      ghost var cut: nat := Max(items.Keys) + 1;
      NothingTaken(all);
      while size > threshold
        invariant threshold <= size == |items|
        invariant TakenAbove(all, cut, items, drops)
      {
        TakenExcess(all, cut, items, drops);
        LastIsMax(index[..size], items.Keys);
        var top := index[size - 1];
        TakeHighest(all, cut, items, drops, top);
        drops := drops + [items[top]];
        items := items - {top};
        size, cut := size - 1, top;
      }
      TakenExcess(all, cut, items, drops);
    }

    method Remove(nonce: nat) returns (found: bool)
      requires Valid()
      modifies this
      ensures Valid()
      ensures found == (nonce in old(items)) && items == old(items) - {nonce}
    {
      if nonce !in items {
        assert items - {nonce} == items;
        return false;
      }
      IndexCovers(index, items.Keys);
      assert nonce in index;
      var i := 0;
      while i < |index| && index[i] != nonce
        invariant i <= |index| && nonce !in index[..i]
      {
        i := i + 1;
      }
      assert index[..|index|] == index;
      var x;
      index, x := Heaps.Remove(index, NonceRank, i);
      ghost var keys := items.Keys;
      assert (items - {nonce}).Keys == keys - {nonce};
      KeyGone(index, keys, nonce);
      items, cache := items - {nonce}, None;
      return true;
    }

    method Ready(start: nat) returns (ready: seq<Tx>)
      requires Valid()
      modifies this
      ensures Valid()
      ensures TookReady(old(items), start, items, ready)
    {
      hide TakenRun, TookReady, Indexes, Lists;
      RootLowest(index, items.Keys);
      if |index| == 0 || index[0] > start {
        NothingReady(items, start);
        return [];
      }
      ready := [];
      cache := None;
      ghost var all, lo := items, index[0];
      var next := index[0];
      NothingTaken(all);
      while |index| > 0 && index[0] == next
        invariant Keyed(items) && Indexes(index, items.Keys) && cache == None
        invariant lo <= next && TakenRun(all, lo, next, items, ready) && IsMin(all.Keys, lo)
        decreases |items|
      {
        RootLowest(index, items.Keys);
        TakeNext(all, lo, next, items, ready);
        var tx := PopLowest();
        ready, next := ready + [tx], next + 1;
      }
      RootLowest(index, items.Keys);
      TakenWholeRun(all, lo, next, items, ready);
    }

    method FlattenCached() returns (txs: seq<Tx>)
      requires Valid()
      modifies `cache
      ensures Valid() && txs == Flatten(items)
    {
      if cache.None? {
        var s, rest := [], items;
        ghost var listed: TxMap := map[];
        while rest != map[]
          invariant rest.Keys <= items.Keys
          invariant forall n :: n in items <==> n in rest || n in listed
          invariant forall n :: n in rest ==> rest[n] == items[n] && n !in listed
          invariant forall n :: n in listed ==> listed[n] == items[n]
          invariant Enumerates(s, listed)
          decreases |rest|
        {
          var nonce :| nonce in rest;
          ValuesWith(listed, rest[nonce]);
          s, listed := s + [rest[nonce]], listed[nonce := rest[nonce]];
          rest := rest - {nonce};
        }
        assert listed == items;
        s := Sort(s, TxNonceRank);
        SortedEnumeration(s, items);
        cache := Some(s);
      }
      txs := cache.value;
    }
  }

  // ---------------------------------------------------------------- list object

  /** An account's list of transactions, with the caps that let Filter skip work. */
  class TxList {
    const strict: bool
    const txs: TxSortedMap
    var costcap: int
    var gascap: nat

    ghost function State(): ListState
      reads this, txs
    {
      ListState(strict, txs.items, costcap, gascap)
    }

    ghost predicate Valid()
      reads this, txs
    {
      txs.Valid() && State().Capped()
    }

    constructor (strict: bool)
      ensures Valid() && fresh(txs) && State() == EmptyList(strict)
    {
      this.strict := strict;
      txs := new TxSortedMap();
      costcap, gascap := 0, 0;
    }

    method Overlaps(tx: Tx) returns (r: bool)
      requires Valid()
      ensures r <==> tx.nonce in State().txs
    {
      r := txs.Get(tx.nonce).Some?;
    }

    method Add(tx: Tx, priceBump: nat) returns (inserted: bool, prior: Option<Tx>)
      requires Valid()
      modifies this, txs
      ensures Valid()
      ensures match old(State()).Add(tx, priceBump)
              case Rejected => !inserted && prior.None? && State() == old(State())
              case Inserted(l, replaced) => inserted && prior == replaced && State() == l
    {
      prior := txs.Get(tx.nonce);
      if prior.Some? {
        var threshold := prior.value.gasPrice * (100 + priceBump) / 100;
        if prior.value.gasPrice >= tx.gasPrice || threshold > tx.gasPrice {
          return false, None;
        }
      }
      txs.Put(tx);
      if costcap < tx.Cost() {
        costcap := tx.Cost();
      }
      if gascap < tx.gas {
        gascap := tx.gas;
      }
      inserted := true;
    }

    method Forward(threshold: nat) returns (removed: seq<Tx>)
      requires Valid()
      modifies txs
      ensures Valid() && State() == old(State()).Forward(threshold)
      ensures Enumerates(removed, Under(old(State()).txs, threshold))
    {
      removed := txs.Forward(threshold);
    }

    method Filter(costLimit: int, gasLimit: nat) returns (removed: seq<Tx>, invalids: seq<Tx>)
      requires Valid()
      modifies this, txs
      ensures Valid()
      ensures var r := old(State()).Filter(costLimit, gasLimit);
              State() == r.list && Enumerates(removed, r.removed) && Enumerates(invalids, r.invalids)
    {
      removed, invalids := [], [];
      if costcap <= costLimit && gascap <= gasLimit {
        return;
      }
      hide ListState.Filter, ListState.Capped, Enumerates, Select, Without;
      ghost var l := State();
      FilterStages(l, costLimit, gasLimit);
      costcap, gascap := costLimit, gasLimit;
      removed := txs.Filter(Exceeds(costLimit, gasLimit));
      ghost var gone := Select(l.txs, Exceeds(costLimit, gasLimit));
      EnumeratesSize(removed, gone);
      if strict && |removed| > 0 {
        var lowest := LowestNonce(removed, gone);
        invalids := txs.Filter(NonceAbove(lowest));
      }
    }

    method Cap(threshold: nat) returns (drops: seq<Tx>)
      requires Valid()
      modifies txs
      ensures Valid() && State() == old(State()).Cap(threshold)
      ensures Enumerates(drops, Without(old(State()).txs, State().txs))
    {
      drops := txs.Cap(threshold);
    }

    method Remove(tx: Tx) returns (found: bool, invalids: seq<Tx>)
      requires Valid()
      modifies txs
      ensures Valid() && State() == old(State()).Remove(tx.nonce)
      ensures found == (tx.nonce in old(State()).txs)
      ensures Enumerates(invalids, old(State()).Invalidated(tx.nonce))
    {
      hide ListState.Remove, ListState.Invalidated, ListState.Capped, Enumerates, Select, Without;
      RemoveStages(State(), tx.nonce);
      var nonce := tx.nonce;
      found := txs.Remove(nonce);
      invalids := [];
      if found && strict {
        invalids := txs.Filter(NonceAbove(nonce));
      }
    }

    method Ready(start: nat) returns (ready: seq<Tx>)
      requires Valid()
      modifies txs
      ensures Valid() && State() == old(State()).Ready(start)
      ensures ready == Transactions.Flatten(old(State()).ReadyRun(start))
    {
      hide ListState.Ready, ListState.ReadyRun, ListState.Capped, TookReady;
      ghost var l := State();
      ready := txs.Ready(start);
      ReadyStages(l, start, txs.items, ready);
    }

    method Len() returns (n: nat)
      ensures n == |State().txs|
    {
      n := |txs.items|;
    }

    method Flatten() returns (r: seq<Tx>)
      requires Valid()
      modifies txs`cache
      ensures Valid() && State() == old(State()) && r == Transactions.Flatten(State().txs)
    {
      r := txs.FlattenCached();
    }
  }

  lemma FilterStages(l: ListState, costLimit: int, gasLimit: nat)
    requires l.Capped() && !(l.costcap <= costLimit && l.gascap <= gasLimit)
    ensures var gone := Select(l.txs, Exceeds(costLimit, gasLimit));
            var kept := Without(l.txs, gone);
            var r := l.Filter(costLimit, gasLimit);
            && Keyed(gone) && r.removed == gone && r.list.Capped()
            && if l.strict && |gone| > 0 then
                 var above := Select(kept, NonceAbove(Min(gone.Keys)));
                 r.list == ListState(l.strict, Without(kept, above), costLimit, gasLimit) && r.invalids == above
               else
                 r.list == ListState(l.strict, kept, costLimit, gasLimit) && Enumerates([], r.invalids)
  {
    var gone := Select(l.txs, Exceeds(costLimit, gasLimit));
    var kept := Without(l.txs, gone);
    FilterShortCircuit(l, costLimit, gasLimit);
    if l.strict && |gone| > 0 {
      SelectAbove(kept, Min(gone.Keys));
    } else {
      assert Without(kept, map[]) == kept;
    }
  }

  lemma RemoveStages(l: ListState, nonce: nat)
    requires l.Capped()
    ensures var rest := l.txs - {nonce};
            var above := Select(rest, NonceAbove(nonce));
            && l.Remove(nonce).Capped()
            && if l.strict && nonce in l.txs then
                 l.Remove(nonce) == l.(txs := Without(rest, above)) && l.Invalidated(nonce) == above
               else
                 l.Remove(nonce) == l.(txs := rest) && Enumerates([], l.Invalidated(nonce))
  {
    SelectAbove(l.txs, nonce);
    SelectAbove(l.txs - {nonce}, nonce);
    if nonce !in l.txs {
      assert l.txs - {nonce} == l.txs;
    }
  }

  lemma ReadyStages(l: ListState, start: nat, items: TxMap, ready: seq<Tx>)
    requires l.Capped() && TookReady(l.txs, start, items, ready)
    ensures l.Ready(start) == l.(txs := items) && l.Ready(start).Capped()
    ensures ready == Flatten(l.ReadyRun(start))
  {
    hide RunEnd, Flatten;
    if l.txs != map[] && Min(l.txs.Keys) <= start {
      ReadyIsMaximalRun(l, start);
      FlattenInterval(l.ReadyRun(start), Min(l.txs.Keys), l.ReadyEnd(start), ready);
    } else {
      assert Without(l.txs, map[]) == l.txs;
    }
  }

  lemma FlattenInterval(m: TxMap, lo: nat, hi: nat, s: seq<Tx>)
    requires lo <= hi && Interval(m, lo, hi) && |s| == hi - lo
    requires forall i :: 0 <= i < |s| ==> s[i] == m[lo + i]
    ensures s == Flatten(m)
  {
    IntervalSize(m, lo, hi);
    var ks: seq<nat> := seq(hi - lo, i => lo + i);
    forall n ensures n in ks <==> n in m.Keys {
      if n in m.Keys {
        assert ks[n - lo] == n;
      }
    }
    AscendingUnique(ks, m.Keys);
    assert forall i :: 0 <= i < |s| ==> s[i] == Flatten(m)[i];
  }

  /** The lowest nonce of a non-empty enumeration, found by one pass over it. */
  method LowestNonce(s: seq<Tx>, ghost m: TxMap) returns (lowest: nat)
    requires Keyed(m) && Enumerates(s, m) && s != []
    ensures m != map[] && lowest == Min(m.Keys)
  {
    lowest := s[0].nonce;
    for i := 0 to |s|
      invariant exists k :: 0 <= k < |s| && s[k].nonce == lowest
      invariant forall k :: 0 <= k < i ==> lowest <= s[k].nonce
    {
      if lowest > s[i].nonce {
        lowest := s[i].nonce;
      }
    }
    var k :| 0 <= k < |s| && s[k].nonce == lowest;
    EnumeratesMember(s, m, k);
    forall n | n in m.Keys ensures lowest <= n {
      EnumeratesAll(s, m, n);
      var j :| 0 <= j < |s| && s[j] == m[n];
    }
  }
}

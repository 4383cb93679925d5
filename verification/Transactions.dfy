/** Transactions and the per-account, nonce-keyed lists of the transaction pool, as values.
    A transaction stands for its own hash: hashes are injective, so looking a transaction up
    by hash is looking it up by value. Nonces stay below 2^64 - 1, so `nonce + 1` never wraps. */
module Transactions {
  import opened Prelude

  type Address = nat
  type Byte = b: int | 0 <= b < 256
  type Size = n: nat | n > 0 witness 1

  /** The address that signs unpaid request transactions. */
  const NULL_ADDRESS: Address := 0
  const TX_SLOT_SIZE := 32 * 1024
  const TX_MAX_SIZE := 2 * TX_SLOT_SIZE

  /** `signed` says whether the sender `from` can be recovered from the signature. */
  datatype Tx = Tx(from: Address, signed: bool, nonce: nat, gasPrice: nat, gas: nat,
                   value: int, to: Option<Address>, data: seq<Byte>, size: Size)
  {
    function Cost(): int {
      gasPrice * gas + value
    }

    function Slots(): (s: nat)
      ensures s >= 1
    {
      (size + TX_SLOT_SIZE - 1) / TX_SLOT_SIZE
    }
  }

  /** The cost of a transaction in numbers, and its slots: the fewest of 32 KiB that hold it. */
  lemma TxInNumbers(tx: Tx)
    ensures tx.Cost() == tx.gasPrice * tx.gas + tx.value
    ensures (tx.Slots() - 1) * 32768 < tx.size <= tx.Slots() * 32768
  {
  }

  type TxMap = map<nat, Tx>

  /** Every transaction sits under its own nonce. */
  ghost predicate Keyed(m: TxMap) {
    forall n :: n in m ==> m[n].nonce == n
  }

  // ---------------------------------------------------------------- nonce maps

  function Under(m: TxMap, t: nat): (r: TxMap) {
    map n | n in m && n < t :: m[n]
  }

  function AtLeast(m: TxMap, t: nat): (r: TxMap) {
    map n | n in m && n >= t :: m[n]
  }

  function Select(m: TxMap, keep: Tx -> bool): (r: TxMap) {
    map n | n in m && keep(m[n]) :: m[n]
  }

  function Exceeds(costLimit: int, gasLimit: nat): Tx -> bool {
    (tx: Tx) => tx.Cost() > costLimit || tx.gas > gasLimit
  }

  function NonceAbove(n: nat): Tx -> bool {
    (tx: Tx) => tx.nonce > n
  }

  lemma SelectAbove(m: TxMap, n: nat)
    requires Keyed(m)
    ensures Select(m, NonceAbove(n)) == AtLeast(m, n + 1)
    ensures AtLeast(m - {n}, n + 1) == AtLeast(m, n + 1)
    ensures Without(m - {n}, AtLeast(m, n + 1)) == Under(m, n)
  {
  }

  function Without(m: TxMap, gone: TxMap): (r: TxMap) {
    m - gone.Keys
  }

  /** The lowest nonce that a cap of `k` has to drop. */
  function CapCut(m: TxMap, k: nat): (c: nat)
    requires k < |m|
    ensures c in m && |Under(m, c)| == k
  {
    assert m.Keys != {};
    var top := Max(m.Keys);
    assert Under(m, top) == m - {top};
    if |m| == k + 1 then top else
      var c := CapCut(m - {top}, k);
      assert c in m.Keys && Under(m, c) == Under(m - {top}, c);
      c
  }

  /** Keeps the lowest nonces, at most `k` of them. */
  function CapTo(m: TxMap, k: nat): (r: TxMap)
    ensures |r| == if |m| <= k then |m| else k
  {
    if |m| <= k then m else Under(m, CapCut(m, k))
  }

  /** The end of the run of consecutive nonces that starts at `lo`. */
  function RunEnd(m: TxMap, lo: nat): (hi: nat)
    ensures lo <= hi && hi !in m
    ensures forall n :: lo <= n < hi ==> n in m
    decreases |AtLeast(m, lo)|
  {
    if lo !in m then lo else
      assert AtLeast(m, lo).Keys == AtLeast(m, lo + 1).Keys + {lo};
      RunEnd(m, lo + 1)
  }

  /** The contents in nonce order. */
  ghost function Flatten(m: TxMap): (r: seq<Tx>)
    ensures |r| == |m|
    ensures forall i :: 0 <= i < |r| ==> Ascending(m.Keys)[i] in m && r[i] == m[Ascending(m.Keys)[i]]
  {
    var ks := Ascending(m.Keys);
    assert forall i :: 0 <= i < |ks| ==> ks[i] in ks;
    seq(|ks|, i requires 0 <= i < |ks| => m[ks[i]])
  }

  lemma CutStep(m: TxMap, n: nat)
    ensures AtLeast(m, n) - {n} == AtLeast(m, n + 1)
    ensures n in m ==> Under(m, n + 1) == Under(m, n)[n := m[n]] && AtLeast(m, n) == AtLeast(m, n + 1)[n := m[n]]
    ensures Under(m, n + 1) - {n} == Under(m, n)
  {
  }

  /** A cut may move over nonces that the map does not hold. */
  lemma CutMove(m: TxMap, s: nat, t: nat)
    requires s <= t && forall n :: s <= n < t ==> n !in m
    ensures Under(m, s) == Under(m, t) && AtLeast(m, s) == AtLeast(m, t)
  {
  }

  lemma CutAscending(m: TxMap, t: nat)
    ensures |m| == |Under(m, t)| + |AtLeast(m, t)|
    ensures Ascending(m.Keys) == Ascending(Under(m, t).Keys) + Ascending(AtLeast(m, t).Keys)
  {
    var a, b := Under(m, t).Keys, AtLeast(m, t).Keys;
    assert m.Keys == a + b && a !! b;
    AscendingSplit(a, b);
  }

  /** Cutting a map at a nonce cuts its flattened list. */
  lemma CutFlatten(m: TxMap, t: nat)
    ensures |m| == |Under(m, t)| + |AtLeast(m, t)|
    ensures Flatten(m) == Flatten(Under(m, t)) + Flatten(AtLeast(m, t))
  {
    hide Lists, Increasing;
    CutAscending(m, t);
    var f := Flatten(Under(m, t)) + Flatten(AtLeast(m, t));
    forall i | 0 <= i < |m| ensures Flatten(m)[i] == f[i] {
      var k := Ascending(m.Keys)[i];
      assert k in m && Flatten(m)[i] == m[k];
    }
  }

  lemma SubsetBySize(a: set<nat>, b: set<nat>)
    requires a <= b && |a| >= |b|
    ensures a == b
  {
    assert |b - a| == |b| - |a|;
    assert b == a + (b - a);
  }

  lemma UnderBySize(m: TxMap, c: nat, t: nat)
    requires |Under(m, c)| == |Under(m, t)|
    ensures Under(m, c) == Under(m, t)
  {
    var a, b := Under(m, if c < t then c else t).Keys, Under(m, if c < t then t else c).Keys;
    SubsetBySize(a, b);
  }

  /** The number of nonces below a cut determines which ones they are. */
  lemma CapToUnique(m: TxMap, t: nat)
    ensures CapTo(m, |Under(m, t)|) == Under(m, t)
  {
    hide CapCut;
    assert Under(m, t).Keys <= m.Keys;
    var k := |Under(m, t)|;
    if |m| <= k {
      SubsetBySize(Under(m, t).Keys, m.Keys);
    } else {
      UnderBySize(m, CapCut(m, k), t);
    }
  }

  /** Capping in two steps is capping once. */
  lemma CapToCompose(m: TxMap, k: nat, l: nat)
    requires l <= k
    ensures CapTo(CapTo(m, k), l) == CapTo(m, l)
  {
    hide CapCut;
    if |m| > k {
      var r, c := CapTo(m, k), CapCut(m, k);
      var d := if |r| > l then CapCut(r, l) else c;
      assert d <= c && CapTo(r, l) == Under(m, d);
      CapToUnique(m, d);
    }
  }

  /** `s` holds every transaction of `m` exactly once. */
  ghost predicate Enumerates(s: seq<Tx>, m: TxMap) {
    multiset(s) == multiset(m.Values)
  }

  lemma ValuesWith(m: TxMap, tx: Tx)
    requires Keyed(m) && tx.nonce !in m
    ensures Keyed(m[tx.nonce := tx])
    ensures multiset(m[tx.nonce := tx].Values) == multiset(m.Values) + multiset{tx}
  {
    var r := m[tx.nonce := tx];
    assert tx !in m.Values;
    assert r.Values == m.Values + {tx} by {
      assert r[tx.nonce] in r.Values;
      forall x | x in m.Values ensures x in r.Values {
        var n :| n in m && m[n] == x;
        assert r[n] == x;
      }
    }
  }

  // ---------------------------------------------------------------- account lists

  /** The value of one account's list: its transactions and the two caps it remembers. */
  datatype ListState = ListState(strict: bool, txs: TxMap, costcap: int, gascap: nat) {

    /** Both caps bound every transaction in the list. */
    ghost predicate Capped() {
      Keyed(txs) && forall n :: n in txs ==> txs[n].Cost() <= costcap && txs[n].gas <= gascap
    }

    function Add(tx: Tx, priceBump: nat): (r: AddResult) {
      if tx.nonce in txs && !Outbids(tx, txs[tx.nonce], priceBump) then Rejected
      else Inserted(
        this.(txs := txs[tx.nonce := tx],
              costcap := if costcap < tx.Cost() then tx.Cost() else costcap,
              gascap := if gascap < tx.gas then tx.gas else gascap),
        if tx.nonce in txs then Some(txs[tx.nonce]) else None)
    }

    function Forward(threshold: nat): (r: ListState) {
      this.(txs := AtLeast(txs, threshold))
    }

    function Cap(threshold: nat): (r: ListState) {
      this.(txs := CapTo(txs, threshold))
    }

    function Filter(costLimit: int, gasLimit: nat): (r: FilterResult) {
      if costcap <= costLimit && gascap <= gasLimit then Filtered(this, map[], map[])
      else FullFilter(costLimit, gasLimit)
    }

    /** The filter without the short circuit on the caps. */
    function FullFilter(costLimit: int, gasLimit: nat): (r: FilterResult) {
      var removed := Select(txs, Exceeds(costLimit, gasLimit));
      var kept := Without(txs, removed);
      var invalids := if strict && removed != map[] then AtLeast(kept, Min(removed.Keys) + 1) else map[];
      Filtered(ListState(strict, Without(kept, invalids), costLimit, gasLimit), removed, invalids)
    }

    /** Removal of one nonce; a strict list also gives up everything above it. */
    function Remove(nonce: nat): (r: ListState) {
      if nonce !in txs then this
      else if strict then this.(txs := Under(txs, nonce))
      else this.(txs := txs - {nonce})
    }

    function Invalidated(nonce: nat): (r: TxMap) {
      if strict && nonce in txs then AtLeast(txs, nonce + 1) else map[]
    }

    function ReadyEnd(start: nat): (hi: nat)
      requires txs != map[]
    {
      RunEnd(txs, Min(txs.Keys))
    }

    /** The run that starts at the lowest nonce, if that nonce is not above `start`. */
    function ReadyRun(start: nat): (r: TxMap) {
      if txs == map[] || Min(txs.Keys) > start then map[]
      else Under(txs, ReadyEnd(start))
    }

    function Ready(start: nat): (r: ListState) {
      this.(txs := Without(txs, ReadyRun(start)))
    }
  }

  datatype AddResult = Rejected | Inserted(list: ListState, replaced: Option<Tx>)
  datatype FilterResult = Filtered(list: ListState, removed: TxMap, invalids: TxMap)

  function EmptyList(strict: bool): (r: ListState) {
    ListState(strict, map[], 0, 0)
  }

  /** A replacement must beat the old price and the bumped threshold. */
  predicate Outbids(tx: Tx, rival: Tx, priceBump: nat) {
    tx.gasPrice > rival.gasPrice && tx.gasPrice >= rival.gasPrice * (100 + priceBump) / 100
  }

  /** A transaction takes an occupied nonce exactly when it pays more and reaches the old price raised
      by the bump, in whole percent and rounded down. */
  lemma OutbidsExactly(l: ListState, tx: Tx, priceBump: nat)
    ensures l.Add(tx, priceBump).Rejected? <==>
              && tx.nonce in l.txs
              && (tx.gasPrice <= l.txs[tx.nonce].gasPrice
                  || 100 * tx.gasPrice + 100 <= l.txs[tx.nonce].gasPrice * (100 + priceBump))
  {
    if tx.nonce in l.txs {
      Percent(tx.gasPrice, l.txs[tx.nonce].gasPrice * (100 + priceBump));
    }
  }

  lemma Percent(price: nat, bumped: nat)
    ensures price >= bumped / 100 <==> 100 * price + 100 > bumped
  {
  }

  /** The caps make the short circuit of Filter invisible in what stays and what leaves. */
  lemma FilterShortCircuit(l: ListState, costLimit: int, gasLimit: nat)
    requires l.Capped()
    ensures var short, full := l.Filter(costLimit, gasLimit), l.FullFilter(costLimit, gasLimit);
            && short.list.txs == full.list.txs
            && short.removed == full.removed && short.invalids == full.invalids
            && short.list.Capped()
  {
    if l.costcap <= costLimit && l.gascap <= gasLimit {
      assert Select(l.txs, Exceeds(costLimit, gasLimit)) == map[];
    }
  }

  ghost predicate Interval(m: TxMap, lo: nat, hi: nat) {
    forall n :: n in m <==> lo <= n < hi
  }

  /** Every transaction is kept, removed or invalidated, exactly once. */
  ghost predicate Partition3(m: TxMap, a: TxMap, b: TxMap, c: TxMap) {
    && (forall n :: n in m <==> n in a || n in b || n in c)
    && a.Keys !! b.Keys && a.Keys !! c.Keys && b.Keys !! c.Keys
    && (forall n :: n in a ==> a[n] == m[n])
    && (forall n :: n in b ==> b[n] == m[n])
    && (forall n :: n in c ==> c[n] == m[n])
  }

  lemma FilterPartitions(l: ListState, costLimit: int, gasLimit: nat)
    requires l.Capped()
    ensures var r := l.Filter(costLimit, gasLimit);
            && Partition3(l.txs, r.list.txs, r.removed, r.invalids)
            && (forall n :: n in r.list.txs ==> r.list.txs[n].Cost() <= costLimit && r.list.txs[n].gas <= gasLimit)
            && (forall n :: n in r.removed ==> r.removed[n].Cost() > costLimit || r.removed[n].gas > gasLimit)
            && (!l.strict ==> r.invalids == map[])
  {
  }

  ghost predicate Within(tx: Tx, costLimit: int, gasLimit: nat) {
    tx.Cost() <= costLimit && tx.gas <= gasLimit
  }

  /** Filter keeps what is within the limits, on a strict list only up to the first that is not. */
  lemma FilterExactly(l: ListState, costLimit: int, gasLimit: nat, n: nat)
    requires l.Capped() && n in l.txs
    ensures var r := l.Filter(costLimit, gasLimit);
            && (n in r.removed <==> !Within(l.txs[n], costLimit, gasLimit))
            && (n in r.list.txs <==>
                  && Within(l.txs[n], costLimit, gasLimit)
                  && (l.strict ==> forall m :: m in l.txs && m < n ==> Within(l.txs[m], costLimit, gasLimit)))
  {
    FilterPartitions(l, costLimit, gasLimit);
    FilterShortCircuit(l, costLimit, gasLimit);
    var r := l.FullFilter(costLimit, gasLimit);
    if l.strict && r.removed != map[] {
      var low := Min(r.removed.Keys);
      assert low in r.removed;
      assert forall m :: m in l.txs && m < low ==> m !in r.removed;
    }
  }

  /** On a strict list with interval nonces, Filter leaves an interval with the same start. */
  lemma FilterInterval(l: ListState, costLimit: int, gasLimit: nat, lo: nat, hi: nat)
    requires l.Capped() && l.strict && lo <= hi && Interval(l.txs, lo, hi)
    ensures exists mid :: lo <= mid <= hi && Interval(l.Filter(costLimit, gasLimit).list.txs, lo, mid)
  {
    var r := l.Filter(costLimit, gasLimit);
    var mid := if r.removed == map[] then hi else Min(r.removed.Keys);
    assert Interval(r.list.txs, lo, mid);
  }

  lemma RemoveInterval(l: ListState, nonce: nat, lo: nat, hi: nat)
    requires l.strict && lo <= hi && Interval(l.txs, lo, hi) && lo <= nonce < hi
    ensures Interval(l.Remove(nonce).txs, lo, nonce)
    ensures Interval(l.Invalidated(nonce), nonce + 1, hi)
  {
  }

  lemma {:induction false} IntervalSize(m: TxMap, lo: nat, hi: nat)
    requires lo <= hi && Interval(m, lo, hi)
    ensures |m| == hi - lo
    decreases hi
  {
    if lo < hi {
      IntervalSize(m - {hi - 1}, lo, hi - 1);
    } else {
      assert m == map[];
    }
  }

  /** Forward and Cap cut an interval from below and from above. */
  lemma CutInterval(m: TxMap, lo: nat, hi: nat, k: nat)
    requires lo <= hi && Interval(m, lo, hi)
    ensures lo <= k <= hi ==> Interval(AtLeast(m, k), k, hi)
    ensures k <= hi - lo ==> Interval(CapTo(m, k), lo, lo + k)
  {
    hide CapCut, CapTo;
    if k <= hi - lo {
      IntervalSize(Under(m, lo + k), lo, lo + k);
      CapToUnique(m, lo + k);
    }
  }

  /** Ready takes a run of consecutive nonces from the lowest one, and the run is maximal. */
  lemma ReadyIsMaximalRun(l: ListState, start: nat)
    requires l.txs != map[] && Min(l.txs.Keys) <= start
    ensures var lo, hi := Min(l.txs.Keys), l.ReadyEnd(start);
            && lo < hi && Interval(l.ReadyRun(start), lo, hi)
            && hi !in l.txs
            && l.Ready(start).txs == AtLeast(l.txs, hi + 1)
  {
    var lo, hi := Min(l.txs.Keys), l.ReadyEnd(start);
    assert lo in l.txs;
    var run := l.ReadyRun(start);
    assert run == Under(l.txs, hi);
    forall n ensures n in run <==> lo <= n < hi {
      assert n in l.txs ==> n in l.txs.Keys;
    }
    assert Without(l.txs, run) == AtLeast(l.txs, hi + 1);
  }
}

/** The shape of pending across a head change: what promotion and demotion leave of an account
    whose pending nonces were consecutive, seen from the new state nonce. */
module PoolShapes {
  import opened Prelude
  import opened Transactions
  import opened PoolModel

  /** Consecutive nonces from `base` on, at least one. */
  ghost predicate RunFrom(m: TxMap, base: nat) {
    m != map[] && Interval(m, base, Max(m.Keys) + 1)
  }

  /** Above `base` no nonce is missing below one that is held. */
  ghost predicate Grounded(m: TxMap, base: nat) {
    forall n, k: nat :: n in m && base <= k < n ==> k in m
  }

  /** The queue holds the next transaction of the account, payable under the promotion limits. */
  predicate Due(pending: TxMap, queued: TxMap, base: nat, costLimit: int, gasLimit: nat) {
    base !in pending && base in queued && queued[base].Cost() <= costLimit && queued[base].gas <= gasLimit
  }

  /** The next transaction is promoted although the balance does not cover it: demotion then empties
      the account while its virtual nonce stays ahead. */
  predicate Overspends(pending: TxMap, queued: TxMap, base: nat, costLimit: int, balance: int, gasLimit: nat) {
    Due(pending, queued, base, costLimit, gasLimit) && queued[base].Cost() > balance
  }

  lemma IntervalRun(m: TxMap, lo: nat, hi: nat)
    requires Interval(m, lo, hi)
    ensures lo < hi ==> RunFrom(m, lo)
    ensures lo >= hi ==> m == map[]
  {
    if lo < hi {
      assert lo in m && hi - 1 in m;
      assert IsMax(m.Keys, hi - 1);
    }
  }

  lemma GroundedRun(m: TxMap, base: nat)
    requires Grounded(m, base)
    ensures if base in m then RunFrom(AtLeast(m, base), base) else AtLeast(m, base) == map[]
  {
    var up := AtLeast(m, base);
    assert base in m <==> base in up;
    if up != map[] {
      var top := Max(up.Keys);
      assert top in up;
      assert Interval(up, base, top + 1);
    }
  }

  /** Moving the state nonce up a contiguous account leaves it grounded. */
  lemma ShapedGrounded(p: Lists, state: map<Address, nat>, m: map<Address, nat>, a: Address, base: nat)
    requires ShapedAt(p, state, m, a) && BaseNonce(state, a) <= base
    ensures Grounded(ListOf(p, a, true).txs, base)
  {
    var txs := ListOf(p, a, true).txs;
    forall n, k: nat | n in txs && base <= k < n ensures k in txs {
      assert Holds(p, a, n) && Holds(p, a, k);
    }
  }

  lemma FilterKeeps(l: ListState, costLimit: int, gasLimit: nat, n: nat)
    requires l.Capped() && !l.strict
    ensures var kept := l.Filter(costLimit, gasLimit).list.txs;
            && (n in kept <==> n in l.txs && l.txs[n].Cost() <= costLimit && l.txs[n].gas <= gasLimit)
            && (n in kept ==> kept[n] == l.txs[n])
  {
    FilterPartitions(l, costLimit, gasLimit);
  }

  lemma ReadyFrom(l: ListState, base: nat)
    requires forall n :: n in l.txs ==> base <= n
    ensures l.ReadyRun(base) != map[] <==> base in l.txs
    ensures base in l.txs ==> RunFrom(l.ReadyRun(base), base) && l.ReadyRun(base)[base] == l.txs[base]
  {
    if base in l.txs {
      assert IsMin(l.txs.Keys, base);
      assert Min(l.txs.Keys) == base;
      var hi := RunEnd(l.txs, base);
      assert Interval(Under(l.txs, hi), base, hi);
      IntervalRun(Under(l.txs, hi), base, hi);
    } else if l.txs != map[] {
      assert Min(l.txs.Keys) in l.txs;
    }
  }

  /** Promotion takes or leaves every queued transaction that is neither stale nor over the limits,
      and no other. */
  lemma QueueFate(q: ListState, base: nat, costLimit: int, gasLimit: nat, start: nat, n: nat)
    requires q.Capped() && !q.strict && n in q.txs
    ensures var run := Executable(q, base, costLimit, gasLimit, start);
            var left := Unready(q, base, costLimit, gasLimit, start).txs;
            var fit := base <= n && q.txs[n].Cost() <= costLimit && q.txs[n].gas <= gasLimit;
            && (fit ==> (n in run && run[n] == q.txs[n]) || (n in left && left[n] == q.txs[n]))
            && (!fit ==> n !in run && n !in left)
  {
    hide ListState.Filter, ListState.ReadyEnd;
    ForwardShrinks(q, base);
    FilterKeeps(q.Forward(base), costLimit, gasLimit, n);
  }

  /** Capping keeps a transaction unless as many as the cap allows have lower nonces. */
  lemma CapFate(l: ListState, k: nat, n: nat)
    requires n in l.txs
    ensures var kept := l.Cap(k).txs;
            (n in kept && kept[n] == l.txs[n]) || (|kept| == k && forall m :: m in kept ==> m < n)
  {
  }

  /** Demotion keeps or postpones every pending transaction that is neither stale nor over the
      limits, and no other. */
  lemma PendingFate(l: ListState, base: nat, costLimit: int, gasLimit: nat, n: nat)
    requires l.Capped() && n in l.txs
    ensures var d, back := Demoted(l, base, costLimit, gasLimit).txs, Postponed(l, base, costLimit, gasLimit);
            var fit := base <= n && l.txs[n].Cost() <= costLimit && l.txs[n].gas <= gasLimit;
            && (fit ==> (n in d && d[n] == l.txs[n]) || (n in back && back[n] == l.txs[n]))
            && (n in d ==> fit)
            && (!fit ==> n !in back)
  {
    hide ListState.Filter, ListState.Cap, ListState.Capped;
    ForwardShrinks(l, base);
    var f := l.Forward(base);
    CapToNone(f.Filter(costLimit, gasLimit).list);
    FilterFate(f, costLimit, gasLimit, n);
  }

  /** Demotion keeps exactly the transactions up to the first one over the limits, from the state
      nonce on, and nothing when the state nonce is missing. */
  lemma DemotedExactly(l: ListState, base: nat, costLimit: int, gasLimit: nat, n: nat)
    requires l.Capped() && l.strict && n in l.txs
    ensures n in Demoted(l, base, costLimit, gasLimit).txs <==>
              && base in l.txs && base <= n
              && forall m :: m in l.txs && base <= m <= n ==> Within(l.txs[m], costLimit, gasLimit)
  {
    hide ListState.Filter, ListState.Cap, ListState.Capped, Within;
    ForwardShrinks(l, base);
    var f := l.Forward(base);
    var kept := f.Filter(costLimit, gasLimit).list;
    FilterShrinks(f, costLimit, gasLimit);
    CapToNone(kept);
    if n in f.txs {
      FilterExactly(f, costLimit, gasLimit, n);
    }
    if base in f.txs {
      FilterExactly(f, costLimit, gasLimit, base);
    }
  }

  /** What becomes of one nonce in a filter. */
  lemma FilterFate(l: ListState, costLimit: int, gasLimit: nat, n: nat)
    requires l.Capped()
    ensures var r := l.Filter(costLimit, gasLimit);
            var fit := n in l.txs && l.txs[n].Cost() <= costLimit && l.txs[n].gas <= gasLimit;
            && (n in r.list.txs ==> fit && r.list.txs[n] == l.txs[n])
            && (n in r.invalids ==> fit && r.invalids[n] == l.txs[n])
            && (fit ==> (n in r.list.txs || n in r.invalids))
  {
    FilterPartitions(l, costLimit, gasLimit);
    if l.costcap <= costLimit && l.gascap <= gasLimit {
      assert l.Filter(costLimit, gasLimit).invalids == map[];
    }
  }

  /** What a queue has ready at the state nonce starts there, and is there exactly when the
      transaction at that nonce survives the limits. */
  lemma ExecutableStart(q: ListState, base: nat, costLimit: int, gasLimit: nat)
    requires q.Capped() && !q.strict
    ensures var run := Executable(q, base, costLimit, gasLimit, base);
            && (run != map[] <==> base in q.txs && q.txs[base].Cost() <= costLimit && q.txs[base].gas <= gasLimit)
            && (run != map[] ==> RunFrom(run, base) && run[base] == q.txs[base])
  {
    hide ListState.Filter, ListState.ReadyRun, RunFrom;
    var f := q.Forward(base);
    var kept := f.Filter(costLimit, gasLimit).list;
    forall n | n in kept.txs ensures base <= n {
      FilterKeeps(f, costLimit, gasLimit, n);
    }
    FilterKeeps(f, costLimit, gasLimit, base);
    ReadyFrom(kept, base);
  }

  /** Filtering a strict run keeps a run from the same start, or nothing when its first transaction
      is not payable. */
  lemma FilteredRun(l: ListState, base: nat, costLimit: int, gasLimit: nat)
    requires l.Capped() && l.strict && RunFrom(l.txs, base)
    ensures var kept := l.Filter(costLimit, gasLimit).list;
            if l.txs[base].Cost() <= costLimit && l.txs[base].gas <= gasLimit then RunFrom(kept.txs, base)
            else kept.txs == map[]
  {
    var r := l.Filter(costLimit, gasLimit);
    FilterPartitions(l, costLimit, gasLimit);
    FilterInterval(l, costLimit, gasLimit, base, Max(l.txs.Keys) + 1);
    var mid :| base <= mid && Interval(r.list.txs, base, mid);
    IntervalRun(r.list.txs, base, mid);
    if l.txs[base].Cost() <= costLimit && l.txs[base].gas <= gasLimit {
      assert base !in r.removed;
      assert base !in r.invalids;
    }
  }

  lemma DemotedRun(l: ListState, base: nat, costLimit: int, gasLimit: nat)
    requires l.Capped() && l.strict
    requires AtLeast(l.txs, base) == map[] || RunFrom(AtLeast(l.txs, base), base)
    ensures var d := Demoted(l, base, costLimit, gasLimit).txs;
            if base in l.txs && l.txs[base].Cost() <= costLimit && l.txs[base].gas <= gasLimit then RunFrom(d, base)
            else d == map[]
  {
    hide ListState.Filter, RunFrom;
    var f := l.Forward(base);
    ForwardShrinks(l, base);
    FilterShrinks(f, costLimit, gasLimit);
    RunStart(l.txs, base);
    if f.txs != map[] {
      FilteredRun(f, base, costLimit, gasLimit);
      RunStart(f.Filter(costLimit, gasLimit).list.txs, base);
    }
  }

  lemma RunStart(m: TxMap, base: nat)
    ensures RunFrom(m, base) ==> base in m
    ensures base in m <==> base in AtLeast(m, base)
    ensures base in m ==> AtLeast(m, base)[base] == m[base]
  {
  }

  /** Promotion and demotion of an account at its state nonce: what stays is a run from there, and
      nothing stays of what was promoted exactly when the account overspends. */
  lemma Lands(l: ListState, q: ListState, now: ListState, base: nat, costLimit: int, balance: int, gasLimit: nat)
    requires l.Capped() && q.Capped() && now.Capped() && now.strict && !q.strict
    requires Grounded(l.txs, base) && (base in l.txs ==> base !in q.txs)
    requires now.txs == l.txs + Executable(q, base, costLimit, gasLimit, base)
    ensures var d, run := Demoted(now, base, balance, gasLimit).txs, Executable(q, base, costLimit, gasLimit, base);
            && (d != map[] ==> RunFrom(d, base))
            && (d == map[] && run != map[] <==> Overspends(l.txs, q.txs, base, costLimit, balance, gasLimit))
  {
    hide Executable, Demoted, RunFrom, Grounded, AtLeast, ListState.Capped;
    var run := Executable(q, base, costLimit, gasLimit, base);
    ExecutableStart(q, base, costLimit, gasLimit);
    GroundedRun(l.txs, base);
    if run == map[] {
      assert now.txs == l.txs;
    } else {
      RunOnTop(l.txs, run, base);
    }
    DemotedRun(now, base, balance, gasLimit);
    RunStart(Demoted(now, base, balance, gasLimit).txs, base);
  }

  lemma RunOnTop(m: TxMap, run: TxMap, base: nat)
    requires AtLeast(m, base) == map[] && RunFrom(run, base)
    ensures AtLeast(m + run, base) == run && base in run && base in m + run && (m + run)[base] == run[base]
  {
    assert forall n :: n in m && n >= base ==> n in AtLeast(m, base);
  }

  lemma CappedRun(l: ListState, c: nat, base: nat)
    requires c >= 1 && RunFrom(l.txs, base)
    ensures RunFrom(l.Cap(c).txs, base)
  {
    if |l.txs| > c {
      var cut := CapCut(l.txs, c);
      assert Under(l.txs, cut) != map[];
      assert Interval(Under(l.txs, cut), base, cut);
      IntervalRun(Under(l.txs, cut), base, cut);
    }
  }

  /** When every pending list is a run from the state nonce to the virtual nonce, the pool is
      contiguous unless an account without pending transactions has a virtual nonce of its own. */
  lemma RunsShaped(p: Lists, state: map<Address, nat>, m: map<Address, nat>)
    requires forall a :: a in p ==>
               RunFrom(p[a].txs, BaseNonce(state, a)) && VirtualNonce(state, m, a) == Max(p[a].txs.Keys) + 1
    ensures Shaped(p, state, m) <==> forall a :: a !in p ==> VirtualNonce(state, m, a) == BaseNonce(state, a)
  {
    forall a ensures ShapedAt(p, state, m, a) <==> a in p || VirtualNonce(state, m, a) == BaseNonce(state, a) {
      if a !in p && ShapedAt(p, state, m, a) {
        assert !Holds(p, a, BaseNonce(state, a));
      }
    }
  }
}

/** The transaction pool: pending and queued lists, the index of all transactions, the price
    heap and the virtual nonces, and the operations that move transactions between them. Each
    method is one locked region of the pool. */
module TxPools {
  import opened Prelude
  import opened Heaps
  import opened Transactions
  import opened TxPriced
  import opened PoolModel
  import opened PoolResets
  import opened PoolShapes
  import opened GasRules

  datatype Config = Config(priceLimit: nat, priceBump: nat, accountSlots: nat, globalSlots: nat,
                           accountQueue: nat, globalQueue: nat)
  {
    /** Workable settings are kept, and others fall back to the defaults. */
    function Sanitize(): (r: Config)
      ensures r.priceLimit >= 1 && r.priceBump >= 1 && r.accountSlots >= 1
      ensures r.globalSlots >= 1 && r.accountQueue >= 1 && r.globalQueue >= 1
      ensures r.priceLimit == priceLimit || (priceLimit == 0 && r.priceLimit == 1)
      ensures r.priceBump == priceBump || (priceBump == 0 && r.priceBump == 10)
      ensures r.accountSlots == accountSlots || (accountSlots == 0 && r.accountSlots == 512)
      ensures r.globalSlots == globalSlots || (globalSlots == 0 && r.globalSlots == 8192)
      ensures r.accountQueue == accountQueue || (accountQueue == 0 && r.accountQueue == 64)
      ensures r.globalQueue == globalQueue || (globalQueue == 0 && r.globalQueue == 4096)
    {
      Config(
        if priceLimit < 1 then 1 else priceLimit,
        if priceBump < 1 then 10 else priceBump,
        if accountSlots < 1 then 512 else accountSlots,
        if globalSlots < 1 then 8192 else globalSlots,
        if accountQueue < 1 then 64 else accountQueue,
        if globalQueue < 1 then 4096 else globalQueue)
    }
  }

  /** The chain state that the pool validates against. The delegatee of an account in
      `unreachable` cannot be looked up. */
  datatype ChainState = ChainState(nonces: map<Address, nat>, balances: map<Address, nat>,
                                   delegatees: map<Address, Address>, stamina: map<Address, nat>,
                                   unreachable: set<Address>)
  {
    function Balance(a: Address): nat {
      if a in balances then balances[a] else 0
    }

    /** The stamina of the account that pays for `a`. */
    function StaminaFor(a: Address): nat {
      var d := if a in delegatees && a !in unreachable then delegatees[a] else NULL_ADDRESS;
      if d in stamina then stamina[d] else 0
    }

    /** What `a` can spend per transaction: its balance or the stamina of its delegatee. */
    function CostLimit(a: Address): nat {
      if StaminaFor(a) >= Balance(a) then StaminaFor(a) else Balance(a)
    }
  }

  /** The nonce of a transaction is not below the state nonce of its sender. */
  ghost predicate Current(state: ChainState, tx: Tx) {
    tx.from in state.nonces ==> state.nonces[tx.from] <= tx.nonce
  }

  /** The balance of the sender covers gas and value. */
  ghost predicate Owned(state: ChainState, tx: Tx) {
    tx.gasPrice * tx.gas + tx.value <= if tx.from in state.balances then state.balances[tx.from] else 0
  }

  /** The stamina of the sender's delegatee covers gas and value. */
  ghost predicate Staked(state: ChainState, tx: Tx) {
    var payer := if tx.from in state.delegatees && tx.from !in state.unreachable then state.delegatees[tx.from] else 0;
    tx.gasPrice * tx.gas + tx.value <= if payer in state.stamina then state.stamina[payer] else 0
  }

  /** The stamina of the sender's delegatee covers the gas, or the gas is past what 64 signed bits hold. */
  ghost predicate StaminaPays(state: ChainState, tx: Tx) {
    var payer := if tx.from in state.delegatees && tx.from !in state.unreachable then state.delegatees[tx.from] else 0;
    || tx.gas >= 0x8000_0000_0000_0000
    || tx.gasPrice * tx.gas <= if payer in state.stamina then state.stamina[payer] else 0
  }

  /** The balance of the sender covers the value, and stamina or the rest of the balance the gas. */
  ghost predicate Funded(state: ChainState, tx: Tx) {
    var balance := if tx.from in state.balances then state.balances[tx.from] else 0;
    (StaminaPays(state, tx) && tx.value <= balance) || Owned(state, tx)
  }

  /** The intrinsic gas of a transaction, in numbers. */
  ghost function IntrinsicFor(tx: Tx, istanbul: bool): int {
    var zeros := multiset(tx.data)[0];
    (if tx.to.None? then 53000 else 21000) + 4 * zeros + (if istanbul then 16 else 68) * (|tx.data| - zeros)
  }

  lemma FundedInNumbers(state: ChainState, tx: Tx)
    requires tx.gas <= MAX_UINT64
    ensures StaminaPays(state, tx) <==> state.StaminaFor(tx.from) >= tx.gasPrice * ToInt64(tx.gas)
    ensures tx.value >= 0 ==>
              (Funded(state, tx) <==>
                 if StaminaPays(state, tx) then tx.value <= state.Balance(tx.from)
                 else tx.Cost() <= state.Balance(tx.from))
  {
    if tx.gas >= TWO_63 {
      assert tx.gasPrice * ToInt64(tx.gas) <= 0;
    }
    assert tx.gasPrice * tx.gas >= 0;
  }

  lemma LimitsInNumbers(state: ChainState, tx: Tx)
    ensures tx.Cost() <= state.CostLimit(tx.from) <==> Owned(state, tx) || Staked(state, tx)
    ensures tx.Cost() <= state.Balance(tx.from) <==> Owned(state, tx)
    ensures BaseNonce(state.nonces, tx.from) <= tx.nonce <==> Current(state, tx)
  {
  }

  datatype TxError = KnownTransaction | OversizedData | NegativeValue | GasLimit | InvalidSender
                   | Underpriced | NonceTooLow | StaminaGetDelegatee | InsufficientValue
                   | InsufficientFunds | OutOfGas | IntrinsicGas | ReplaceUnderpriced

  datatype AddOutcome = Accepted(replaced: bool) | Refused(error: TxError)

  /** Virtual nonces of accounts on top of a fallback state. */
  class TxNoncer {
    const fallback: map<Address, nat>
    var nonces: map<Address, nat>

    constructor (state: map<Address, nat>)
      ensures fallback == state && nonces == map[]
    {
      fallback, nonces := state, map[];
    }

    ghost function Value(a: Address): nat
      reads this
    {
      VirtualNonce(fallback, nonces, a)
    }

    /** Reading caches the fallback nonce and changes no account's value. */
    method Get(a: Address) returns (n: nat)
      modifies this
      ensures n == old(Value(a)) && forall b :: Value(b) == old(Value(b))
    {
      if a !in nonces {
        nonces := nonces[a := BaseNonce(fallback, a)];
      }
      n := nonces[a];
    }

    method Set(a: Address, n: nat)
      modifies this
      ensures Value(a) == n && forall b :: b != a ==> Value(b) == old(Value(b))
    {
      nonces := nonces[a := n];
    }

    method SetIfLower(a: Address, n: nat)
      modifies this
      ensures Value(a) == if n < old(Value(a)) then n else old(Value(a))
      ensures forall b :: b != a ==> Value(b) == old(Value(b))
    {
      if a !in nonces {
        nonces := nonces[a := BaseNonce(fallback, a)];
      }
      if nonces[a] <= n {
        return;
      }
      nonces := nonces[a := n];
    }
  }

  class TxPool {
    const config: Config
    const lookup: TxLookup
    const priced: TxPricedList
    var noncer: TxNoncer
    var chain: ChainState
    var maxGas: nat
    var istanbul: bool
    var gasPrice: nat
    var locals: set<Address>
    var pending: Lists
    var queue: Lists
    var beats: map<Address, nat>

    function Capacity(): nat {
      config.globalSlots + config.globalQueue
    }

    /** The lists and the index agree, up to transactions in flight. */
    ghost predicate Core(flight: set<Tx>)
      reads this, lookup
    {
      && priced.lookup == lookup && lookup.Valid()
      && Agree(pending, queue, lookup.all, flight)
    }

    /** No list is empty. */
    ghost predicate Tidy()
      reads this
    {
      NoEmptyList(pending) && NoEmptyList(queue)
    }

    /** Remote transactions pay at least the pool's price, and a full pool has at most one. */
    ghost predicate Policed()
      reads this, lookup
    {
      && PriceFloor(lookup.all, locals, gasPrice)
      && WithinBounds(lookup.all, locals, Capacity())
    }

    /** The invariant of the pool. */
    ghost predicate Valid()
      reads this, lookup, priced, noncer
    {
      Core({}) && Tidy() && Policed() && priced.Valid() && noncer.fallback == chain.nonces && config.accountSlots >= 1
    }

    /** Every account's pending nonces run from its state nonce to its virtual nonce. */
    ghost predicate Contiguous()
      reads this, noncer
    {
      Shaped(pending, noncer.fallback, noncer.nonces)
    }

    constructor (config: Config, chain: ChainState, maxGas: nat, locals: set<Address>)
      ensures Valid() && Contiguous() && fresh(lookup) && fresh(priced) && fresh(noncer)
      ensures lookup.all == {} && this.locals == locals && this.config == config.Sanitize()
      ensures pending == map[] && queue == map[] && this.chain == chain && this.maxGas == maxGas && !istanbul
      ensures gasPrice == this.config.priceLimit
    {
      this.config := config.Sanitize();
      var index := new TxLookup();
      lookup := index;
      priced := new TxPricedList(index);
      noncer := new TxNoncer(chain.nonces);
      this.chain, this.maxGas, this.istanbul, this.locals := chain, maxGas, false, locals;
      gasPrice := config.Sanitize().priceLimit;
      pending, queue, beats := map[], map[], map[];
      new;
      assert Remote({}, locals) == {};
      forall a ensures ShapedAt(pending, noncer.fallback, noncer.nonces, a) {
      }
    }

    // -------------------------------------------------------------- joining a list

    /** Makes a new transaction known. */
    method Index(tx: Tx)
      requires priced.lookup == lookup && lookup.Valid() && priced.Valid() && tx !in lookup.all
      modifies lookup, priced
      ensures lookup.Valid() && priced.Valid() && lookup.all == old(lookup.all) + {tx}
              && priced.stales == old(priced.stales)
    {
      ghost var items := priced.items;
      ghost var known := lookup.all;
      lookup.Add(tx);
      priced.Put(tx);
      ShadowsPut(items, priced.stales, known, tx, priced.items);
    }

    /** A transaction from flight always finds its nonce free in the queue; one from outside
        may replace a cheaper one or be refused by a better one. */
    method EnqueueTx(tx: Tx, ghost flight: set<Tx>) returns (replaced: bool, ok: bool)
      requires Core(flight) && !Holds(pending, tx.from, tx.nonce)
      requires tx in flight || (tx !in lookup.all && flight == {} && priced.Valid())
      modifies this`queue, lookup, priced
      ensures Core(flight - {tx}) && queue == Join(old(queue), false, tx, config.priceBump)
      ensures ok == old(ListOf(queue, tx.from, false).Add(tx, config.priceBump).Inserted?)
      ensures lookup.all == if ok then old(lookup.all) - old(Replaced(queue, tx)) + {tx} else old(lookup.all)
      ensures replaced == (ok && old(Holds(queue, tx.from, tx.nonce)))
      ensures tx in flight ==> ok && !replaced && lookup.all == old(lookup.all) && unchanged(priced)
      ensures tx !in flight ==> priced.Valid() && Counted(old(priced.stales), priced.stales, if replaced then 1 else 0)
    {
      hide Agree, IsHeap, Join, Added, ListState.Add, Replaced, SlotSum;
      var list := ListOf(queue, tx.from, false);
      ListsCapped(pending, queue, lookup.all, flight, tx.from);
      JoinCases(queue, false, tx, config.priceBump);
      match list.Add(tx, config.priceBump) {
        case Rejected =>
          HeldNotFlying(pending, queue, lookup.all, flight, tx);
          replaced, ok := false, false;
          assert flight - {tx} == flight;
        case Inserted(l, prior) =>
          ghost var known, waiting := lookup.all, queue;
          JoinQueue(pending, queue, lookup.all, flight, tx, l);
          queue := queue[tx.from := l];
          if prior.Some? {
            lookup.Remove(prior.value);
            priced.Removed(1);
          }
          if tx !in lookup.all {
            Index(tx);
          }
          assert lookup.all == known - Replaced(waiting, tx) + {tx};
          replaced, ok := prior.Some?, true;
      }
    }

    /** Puts one account's transactions in flight back into its queue. */
    method EnqueueAll(a: Address, txs: TxMap)
      requires Core(txs.Values) && Keyed(txs) && NoEmptyList(queue)
      requires forall n :: n in txs ==> txs[n].from == a
      modifies this`queue, lookup, priced
      ensures Core({}) && NoEmptyList(queue) && Gained(old(queue), queue, a, txs)
      ensures lookup.all == old(lookup.all) && unchanged(priced)
    {
      hide Agree, Join, Added, Gained, Replaced, ListState.Add;
      var rest := txs;
      ghost var moved: TxMap := map[];
      NothingGained(queue, a);
      while rest != map[]
        invariant Core(rest.Values) && Keyed(rest) && NoEmptyList(queue)
        invariant moved + rest == txs
        invariant Gained(old(queue), queue, a, moved)
        invariant lookup.all == old(lookup.all) && unchanged(priced)
        decreases |rest|
      {
        var n :| n in rest;
        var tx := rest[n];
        ValuesLess(rest, n);
        assert tx == txs[n];
        FlightFree(pending, queue, lookup.all, rest.Values, tx);
        ListsCapped(pending, queue, lookup.all, rest.Values, a);
        JoinCases(queue, false, tx, config.priceBump);
        ghost var before := queue;
        var replaced, ok := EnqueueTx(tx, rest.Values);
        GainOne(old(queue), before, a, moved, tx, queue[a]);
        UnionMove(moved, rest, n);
        moved := moved[n := tx];
        rest := rest - {n};
      }
      assert rest.Values == {};
      assert moved == txs;
    }

    /** Moves a transaction from flight to pending. Its nonce is free there, so the branches in
        which an older transaction is better or gets replaced are never taken. */
    method PromoteTx(tx: Tx, now: nat, ghost flight: set<Tx>)
      requires Core(flight) && tx in flight
      modifies this`pending, this`beats, noncer
      ensures Core(flight - {tx})
      ensures Added(ListOf(old(pending), tx.from, true), tx, ListOf(pending, tx.from, true))
      ensures SameElsewhere(old(pending), pending, tx.from) && tx.from in pending
      ensures noncer.Value(tx.from) == tx.nonce + 1 && beats == old(beats)[tx.from := now]
      ensures forall b :: b != tx.from ==> noncer.Value(b) == old(noncer.Value(b))
    {
      hide Agree, Join, Added, ListState.Add, Replaced;
      FlightFree(pending, queue, lookup.all, flight, tx);
      ListsCapped(pending, queue, lookup.all, flight, tx.from);
      JoinCases(pending, true, tx, config.priceBump);
      match ListOf(pending, tx.from, true).Add(tx, config.priceBump) {
        case Rejected =>
          assert false;
        case Inserted(l, prior) =>
          assert prior.None?;
          JoinPending(pending, queue, lookup.all, flight, tx, l);
          assert lookup.all - {} + {tx} == lookup.all;
          pending := pending[tx.from := l];
          beats := beats[tx.from := now];
          noncer.Set(tx.from, tx.nonce + 1);
      }
    }

    // -------------------------------------------------------------- leaving the pool

    /** Removes one transaction; pending ones above it go back to the queue. */
    method RemoveTx(tx: Tx, outofbound: bool)
      requires Core({}) && Tidy() && (outofbound ==> priced.Valid())
      modifies this`pending, this`queue, this`beats, lookup, priced, noncer
      ensures Core({}) && Tidy() && lookup.all == old(lookup.all) - {tx}
      ensures if outofbound then priced.Valid() else unchanged(priced)
      ensures outofbound && tx in old(lookup.all) ==> Counted(old(priced.stales), priced.stales, 1)
      ensures old(Contiguous()) ==> Contiguous()
      ensures tx !in old(lookup.all) ==> pending == old(pending) && queue == old(queue)
      ensures old(In(pending, tx)) ==>
                && pending == Put(old(pending), tx.from, old(pending)[tx.from].Remove(tx.nonce))
                && Gained(old(queue), queue, tx.from, old(pending)[tx.from].Invalidated(tx.nonce))
      ensures old(In(queue, tx)) ==>
                && pending == old(pending) && unchanged(noncer)
                && queue == Put(old(queue), tx.from, old(queue)[tx.from].Remove(tx.nonce))
      ensures forall b :: noncer.Value(b) <= old(noncer.Value(b))
    {
      hide Agree, IsHeap, Gained, NoEmptyList, Shaped, ListState.Remove, ListState.Invalidated;
      if tx !in lookup.all {
        NotListed(pending, queue, lookup.all, tx);
        return;
      }
      KnownByNonce(pending, queue, lookup.all, tx);
      ghost var known := lookup.all;
      lookup.Remove(tx);
      if outofbound {
        priced.Removed(1);
      }
      if Holds(pending, tx.from, tx.nonce) {
        RemoveFromPending(tx, known);
      } else {
        RemoveQueued(pending, queue, known, tx);
        queue := Put(queue, tx.from, queue[tx.from].Remove(tx.nonce));
      }
    }

    method RemoveFromPending(tx: Tx, ghost known: set<Tx>)
      requires priced.lookup == lookup && lookup.Valid() && lookup.all == known - {tx}
      requires Agree(pending, queue, known, {}) && In(pending, tx) && Tidy()
      modifies this`pending, this`queue, this`beats, lookup, priced, noncer
      ensures Core({}) && Tidy() && lookup.all == old(lookup.all) && unchanged(priced)
      ensures pending == Put(old(pending), tx.from, old(pending)[tx.from].Remove(tx.nonce))
      ensures Gained(old(queue), queue, tx.from, old(pending)[tx.from].Invalidated(tx.nonce))
      ensures old(Contiguous()) ==> Contiguous()
      ensures forall b :: noncer.Value(b) <= old(noncer.Value(b))
    {
      hide Agree, Gained, NoEmptyList, Shaped, ListState.Remove, ListState.Invalidated;
      var a := tx.from;
      RemovePending(pending, queue, known, tx);
      ghost var before := pending;
      var above, left := pending[a].Invalidated(tx.nonce), pending[a].Remove(tx.nonce);
      pending := pending[a := left];
      if pending[a].txs == map[] {
        pending, beats := pending - {a}, beats - {a};
      }
      assert pending == Put(before, a, left);
      EnqueueAll(a, above);
      ghost var virtual := noncer.nonces;
      noncer.SetIfLower(a, tx.nonce);
      if old(Contiguous()) {
        ShapeHolds(before, noncer.fallback, virtual, a, tx.nonce);
        assert forall b :: VirtualNonce(noncer.fallback, noncer.nonces, b) == noncer.Value(b);
        ShapeCut(before, pending, noncer.fallback, virtual, noncer.nonces, a, left, tx.nonce);
      }
    }

    /** Removes what the price heap already gave up. */
    method RemoveDropped(drop: seq<Tx>)
      requires Core({}) && Tidy()
      requires Shadows(priced.items, priced.stales, lookup.all, set tx | tx in drop, -|drop|)
      modifies this`pending, this`queue, this`beats, lookup, priced, noncer
      ensures Core({}) && Tidy() && priced.Valid()
      ensures lookup.all == old(lookup.all) - set tx | tx in drop
      ensures old(Contiguous()) ==> Contiguous()
    {
      hide Agree, IsHeap, NoEmptyList, Shaped, Shadows;
      var rest := drop;
      while rest != []
        invariant Core({}) && Tidy()
        invariant Shadows(priced.items, priced.stales, lookup.all, set tx | tx in rest, -|rest|)
        invariant forall tx :: tx in rest ==> tx in drop
        invariant forall tx :: tx in drop ==> tx in rest || tx !in lookup.all
        invariant lookup.all <= old(lookup.all)
        invariant forall tx :: tx in old(lookup.all) && tx !in drop ==> tx in lookup.all
        invariant old(Contiguous()) ==> Contiguous()
        decreases |rest|
      {
        ShadowsDrop(priced.items, priced.stales, lookup.all, rest);
        assert forall tx :: tx in rest <==> tx == rest[0] || tx in rest[1..];
        RemoveTx(rest[0], false);
        rest := rest[1..];
      }
      assert (set tx | tx in rest) == {};
    }

    // -------------------------------------------------------------- adding

    /** The checks on a transaction, in the order in which they are made. */
    function ValidateTx(tx: Tx, local: bool): Option<TxError>
      reads this
    {
      if tx.size > TX_MAX_SIZE then Some(OversizedData)
      else if tx.value < 0 then Some(NegativeValue)
      else if maxGas < tx.gas then Some(GasLimit)
      else if !tx.signed then Some(InvalidSender)
      else if !local && tx.from !in locals && gasPrice > tx.gasPrice then Some(Underpriced)
      else if BaseNonce(chain.nonces, tx.from) > tx.nonce then Some(NonceTooLow)
      else if tx.from == NULL_ADDRESS then None
      else if tx.from in chain.unreachable then Some(StaminaGetDelegatee)
      else if chain.StaminaFor(tx.from) >= tx.gasPrice * ToInt64(tx.gas) && chain.Balance(tx.from) < tx.value
      then Some(InsufficientValue)
      else if chain.StaminaFor(tx.from) < tx.gasPrice * ToInt64(tx.gas) && chain.Balance(tx.from) < tx.Cost()
      then Some(InsufficientFunds)
      else
        var gas := ExactIntrinsicGas(tx.data, tx.to.None?, true, istanbul);
        if gas > MAX_UINT64 then Some(OutOfGas)
        else if tx.gas < gas then Some(IntrinsicGas)
        else None
    }

    /** The transaction is small, not negative, fits into a block, is signed, pays the pool's price
        unless it is local, and is not stale. */
    ghost predicate Proper(tx: Tx, local: bool)
      reads this`maxGas, this`locals, this`gasPrice, this`chain
    {
      && tx.size <= 65536 && tx.value >= 0 && tx.gas <= maxGas && tx.signed
      && (local || tx.from in locals || gasPrice <= tx.gasPrice) && Current(chain, tx)
    }

    /** What a transaction has to satisfy to be added, in numbers: a request of the null address needs
        no funds, and any other must be funded and pay its intrinsic gas. */
    ghost predicate Admissible(tx: Tx, local: bool)
      reads this`maxGas, this`locals, this`gasPrice, this`chain, this`istanbul
    {
      && Proper(tx, local)
      && (tx.from != 0 ==> tx.from !in chain.unreachable && Funded(chain, tx) && tx.gas >= IntrinsicFor(tx, istanbul))
    }

    /** Validation passes exactly the admissible transactions. */
    lemma ValidExactly(tx: Tx, local: bool)
      requires tx.gas <= MAX_UINT64
      ensures ValidateTx(tx, local).None? <==> Admissible(tx, local)
    {
      hide Current, Funded, ExactIntrinsicGas;
      LimitsInNumbers(chain, tx);
      FundedInNumbers(chain, tx);
      IntrinsicInNumbers(tx.data, tx.to.None?, true, istanbul);
    }

    lemma PaysFloor(tx: Tx, local: bool)
      ensures ValidateTx(tx, local).None? ==> local || tx.from in locals || tx.gasPrice >= gasPrice
      ensures ValidateTx(tx, local) != Some(KnownTransaction) && ValidateTx(tx, local) != Some(ReplaceUnderpriced)
    {
    }

    /** The errors, each at the first check that fails. */
    lemma RefusedFirst(tx: Tx, local: bool)
      requires tx.gas <= MAX_UINT64
      ensures var error := ValidateTx(tx, local);
              var sized, positive := tx.size <= 65536, tx.size <= 65536 && tx.value >= 0;
              var fits, signed := positive && tx.gas <= maxGas, positive && tx.gas <= maxGas && tx.signed;
              var priced := signed && (local || tx.from in locals || gasPrice <= tx.gasPrice);
              var asked := priced && Current(chain, tx) && tx.from != 0;
              var found, intrinsic := asked && tx.from !in chain.unreachable, IntrinsicFor(tx, istanbul);
              && (error == Some(OversizedData) <==> !sized)
              && (error == Some(NegativeValue) <==> sized && !positive)
              && (error == Some(GasLimit) <==> positive && !fits)
              && (error == Some(InvalidSender) <==> fits && !signed)
              && (error == Some(Underpriced) <==> signed && !priced)
              && (error == Some(NonceTooLow) <==> priced && !Current(chain, tx))
              && (error == Some(StaminaGetDelegatee) <==> asked && !found)
              && (error == Some(InsufficientValue) <==> found && !Funded(chain, tx) && StaminaPays(chain, tx))
              && (error == Some(InsufficientFunds) <==> found && !Funded(chain, tx) && !StaminaPays(chain, tx))
              && (error == Some(OutOfGas) <==> found && Funded(chain, tx) && intrinsic > 0xFFFF_FFFF_FFFF_FFFF)
              && (error == Some(IntrinsicGas) <==>
                    found && Funded(chain, tx) && tx.gas < intrinsic <= 0xFFFF_FFFF_FFFF_FFFF)
    {
      hide Current, Funded, StaminaPays, ExactIntrinsicGas;
      LimitsInNumbers(chain, tx);
      FundedInNumbers(chain, tx);
      IntrinsicInNumbers(tx.data, tx.to.None?, true, istanbul);
    }

    /** A better-paying transaction takes the place of a pending one. */
    method ReplacePending(tx: Tx) returns (ok: bool)
      requires Core({}) && Tidy() && priced.Valid() && tx !in lookup.all && Holds(pending, tx.from, tx.nonce)
      modifies this`pending, lookup, priced
      ensures Core({}) && Tidy() && priced.Valid() && pending == Join(old(pending), true, tx, config.priceBump)
      ensures lookup.all == if ok then old(lookup.all) - old(Replaced(pending, tx)) + {tx} else old(lookup.all)
      ensures ok ==> old(pending)[tx.from].txs[tx.nonce].gasPrice < tx.gasPrice
      ensures Counted(old(priced.stales), priced.stales, if ok then 1 else 0)
      ensures old(Contiguous()) ==> Contiguous()
    {
      hide Agree, IsHeap, Join, Added, ListState.Add, Replaced, NoEmptyList, Shaped, SlotSum;
      ListsCapped(pending, queue, lookup.all, {}, tx.from);
      JoinCases(pending, true, tx, config.priceBump);
      HeldByOne(pending, queue, lookup.all, tx.from, tx.nonce);
      match pending[tx.from].Add(tx, config.priceBump) {
        case Rejected =>
          ok := false;
        case Inserted(l, prior) =>
          JoinPending(pending, queue, lookup.all, {}, tx, l);
          StaysTidy(pending, tx, l);
          if old(Contiguous()) {
            ShapeReplace(pending, noncer.fallback, noncer.nonces, tx, l);
          }
          pending := pending[tx.from := l];
          lookup.Remove(prior.value);
          priced.Removed(1);
          Index(tx);
          assert {} - {tx} == {};
          ok := true;
      }
    }

    /** In a full pool, refuses an underpriced transaction or else drops the cheapest remote
        ones to make room for it. */
    method MakeRoom(tx: Tx, local: bool) returns (cheap: bool, ghost gone: set<Tx>)
      requires Core({}) && Tidy() && priced.Valid() && PriceFloor(lookup.all, locals, gasPrice)
      modifies this`pending, this`queue, this`beats, lookup, priced, noncer
      ensures Core({}) && Tidy() && priced.Valid() && (old(Contiguous()) ==> Contiguous())
      ensures PriceFloor(lookup.all, locals, gasPrice)
      ensures gone <= Remote(old(lookup.all), locals) && lookup.all == old(lookup.all) - gone
      ensures |old(lookup.all)| >= Capacity() && !cheap && Distinct(old(priced.items)) ==>
                && (SlotSum(lookup.all) + tx.Slots() <= Capacity() || Remote(lookup.all, locals) == {})
                && (gone != {} ==> exists d :: d in gone && SlotSum(lookup.all + {d}) + tx.Slots() > Capacity())
      ensures |old(lookup.all)| >= Capacity() && !cheap && gone == {} ==> Remote(old(lookup.all), locals) == {}
      ensures cheap || |old(lookup.all)| < Capacity() ==> pending == old(pending) && queue == old(queue) && gone == {}
      ensures cheap <==> |old(lookup.all)| >= Capacity() && !local && Underpays(old(lookup.all), locals, tx)
      ensures forall d :: d in gone ==> d.from !in locals
      ensures forall d, t :: d in gone && t in lookup.all && t.from !in locals ==>
                d.gasPrice < t.gasPrice || (d.gasPrice == t.gasPrice && d.nonce >= t.nonce)
    {
      hide Agree, IsHeap, NoEmptyList, Shaped, Shadows, SlotSum;
      cheap, gone := false, {};
      if |lookup.all| < Capacity() {
        return;
      }
      if !local {
        cheap := priced.Underpriced(tx, locals);
        if cheap {
          return;
        }
      }
      SlotSumBound(lookup.all);
      var drop := priced.Discard(lookup.slots - Capacity() + tx.Slots(), locals);
      gone := set t | t in drop;
      assert drop == [] ==> SlotsOf(drop) == 0;
      assert drop != [] ==> drop[0] in gone;
      if Distinct(old(priced.items)) {
        DistinctPart(drop, old(priced.items));
        RoomMade(lookup.all, drop);
      }
      RemoveDropped(drop);
    }

    /** Finds a place for a validated transaction. */
    method Insert(tx: Tx, local: bool) returns (r: AddOutcome)
      requires Core({}) && Tidy() && priced.Valid() && tx !in lookup.all
      requires PriceFloor(lookup.all, locals, gasPrice) && (local || tx.from in locals || tx.gasPrice >= gasPrice)
      modifies this`pending, this`queue, this`locals, lookup, priced
      ensures Core({}) && Tidy() && priced.Valid() && (old(Contiguous()) ==> Contiguous())
      ensures PriceFloor(lookup.all, locals, gasPrice)
      ensures lookup.all <= old(lookup.all) + {tx} && (r.Accepted? <==> tx in lookup.all)
      ensures r.Refused? ==> r.error == ReplaceUnderpriced
      ensures forall t :: t in old(lookup.all) && t !in lookup.all ==> t.from == tx.from && t.nonce == tx.nonce
      ensures old(Holds(pending, tx.from, tx.nonce)) ==>
                pending == Join(old(pending), true, tx, config.priceBump) && queue == old(queue)
      ensures !old(Holds(pending, tx.from, tx.nonce)) ==>
                pending == old(pending) && queue == Join(old(queue), false, tx, config.priceBump)
      ensures r.Accepted? ==> r.replaced == old(Holds(pending, tx.from, tx.nonce) || Holds(queue, tx.from, tx.nonce))
      ensures locals ==
              if r.Accepted? && local && !old(Holds(pending, tx.from, tx.nonce)) then old(locals) + {tx.from}
              else old(locals)
    {
      hide Agree, IsHeap, NoEmptyList, Shaped, Shadows, PriceFloor, Join, Replaced, ListState.Add;
      ghost var known := lookup.all;
      ReplacedSlot(pending, queue, lookup.all, tx);
      if Holds(pending, tx.from, tx.nonce) {
        HeldByOne(pending, queue, lookup.all, tx.from, tx.nonce);
        FloorOf(known, locals, gasPrice, pending[tx.from].txs[tx.nonce]);
        var ok := ReplacePending(tx);
        FloorAdd(known, locals, gasPrice, lookup.all, locals, tx);
        return if ok then Accepted(true) else Refused(ReplaceUnderpriced);
      }
      EnqueueTidy(pending, queue, lookup.all, tx, config.priceBump);
      var replaced, ok := EnqueueTx(tx, {});
      assert {} - {tx} == {};
      if ok && local {
        locals := locals + {tx.from};
      }
      FloorAdd(known, old(locals), gasPrice, lookup.all, locals, tx);
      r := if ok then Accepted(replaced) else Refused(ReplaceUnderpriced);
    }

    /** Validates a transaction and puts it into the pool, unless it is refused. */
    method Add(tx: Tx, local: bool) returns (r: AddOutcome)
      requires Valid()
      modifies this`pending, this`queue, this`beats, this`locals, lookup, priced, noncer
      ensures Valid() && (old(Contiguous()) ==> Contiguous())
      ensures tx in old(lookup.all) ==> r == Refused(KnownTransaction)
      ensures tx !in old(lookup.all) && old(ValidateTx(tx, local)).Some? ==>
                r == Refused(old(ValidateTx(tx, local)).value)
      ensures r.Refused? && r.error != ReplaceUnderpriced ==>
                lookup.all == old(lookup.all) && pending == old(pending) && queue == old(queue)
      ensures tx !in old(lookup.all) ==> (r.Accepted? <==> tx in lookup.all)
      ensures tx !in old(lookup.all) && tx.gas <= MAX_UINT64 && !old(Admissible(tx, local)) ==>
                r.Refused? && lookup.all == old(lookup.all) && pending == old(pending) && queue == old(queue)
      ensures tx !in old(lookup.all) && tx.gas <= MAX_UINT64 && old(Admissible(tx, local)) && r.Refused? ==>
                r.error in {Underpriced, ReplaceUnderpriced}
      ensures tx !in old(lookup.all) && old(ValidateTx(tx, local)).None? ==>
                (r == Refused(Underpriced) <==>
                 |old(lookup.all)| >= Capacity() && !local && Underpays(old(lookup.all), old(locals), tx))
      ensures forall t :: t in old(lookup.all) && t !in lookup.all ==>
                t.from !in old(locals) || (t.from == tx.from && t.nonce == tx.nonce)
      ensures tx !in old(lookup.all) && old(ValidateTx(tx, local)).None? && |old(lookup.all)| < Capacity() ==>
                if old(Holds(pending, tx.from, tx.nonce))
                then pending == Join(old(pending), true, tx, config.priceBump) && queue == old(queue)
                else pending == old(pending) && queue == Join(old(queue), false, tx, config.priceBump)
      ensures lookup.all <= old(lookup.all) + {tx}
      ensures locals == old(locals) || (r.Accepted? && local && locals == old(locals) + {tx.from})
    {
      hide Agree, IsHeap, NoEmptyList, Shaped, Shadows, WithinBounds, PriceFloor, Remote, Join, Underpays, SlotSum;
      hide TxPool.Admissible, TxPool.ValidateTx;
      if tx in lookup.all {
        return Refused(KnownTransaction);
      }
      PaysFloor(tx, local);
      if tx.gas <= MAX_UINT64 {
        ValidExactly(tx, local);
      }
      var verdict := ValidateTx(tx, local);
      if verdict.Some? {
        return Refused(verdict.value);
      }
      var cheap;
      ghost var gone;
      cheap, gone := MakeRoom(tx, local);
      if cheap {
        assert lookup.all == old(lookup.all);
        return Refused(Underpriced);
      }
      r := Insert(tx, local);
      assert lookup.all <= old(lookup.all) - gone + {tx};
      BoundsAdd(old(lookup.all), old(locals), Capacity(), gone, lookup.all, tx);
      BoundsShrink(lookup.all, old(locals), lookup.all, locals, Capacity());
    }

    // -------------------------------------------------------------- promotion

    /** Shrinks an account's queue and drops from the index what it lost. */
    method PruneQueue(a: Address, l: ListState) returns (n: nat)
      requires Core({}) && a in queue && Shrunk(queue[a], l)
      modifies this`queue, lookup
      ensures Core({}) && queue == old(queue)[a := l]
      ensures lookup.all <= old(lookup.all) && |lookup.all| == |old(lookup.all)| - n
    {
      hide Agree;
      PruneQueued(pending, queue, lookup.all, a, l);
      var gone := Without(queue[a].txs, l.txs);
      queue := queue[a := l];
      lookup.RemoveAll(gone);
      n := |gone|;
    }

    /** Promotes a run of consecutive nonces in flight. */
    method PromoteRun(a: Address, run: TxMap, lo: nat, hi: nat, now: nat)
      requires Core(run.Values) && Keyed(run) && lo <= hi && Interval(run, lo, hi)
      requires forall n :: n in run ==> run[n].from == a
      requires NoEmptyList(pending)
      modifies this`pending, this`beats, noncer
      ensures Core({}) && NoEmptyList(pending) && Gained(old(pending), pending, a, run)
      ensures noncer.Value(a) == if lo < hi then hi else old(noncer.Value(a))
      ensures forall b :: b != a ==> noncer.Value(b) == old(noncer.Value(b))
      ensures old(Contiguous()) && old(noncer.Value(a)) == lo ==> Contiguous()
    {
      hide Agree, Gained, Shaped, NoEmptyList, Added, Under, AtLeast, Keyed, Interval;
      var n := lo;
      NothingGained(pending, a);
      RunEnds(run, lo, hi);
      while n < hi
        invariant lo <= n <= hi && Core(AtLeast(run, n).Values) && NoEmptyList(pending)
        invariant Gained(old(pending), pending, a, Under(run, n))
        invariant noncer.Value(a) == if lo < n then n else old(noncer.Value(a))
        invariant forall b :: b != a ==> noncer.Value(b) == old(noncer.Value(b))
        invariant old(Contiguous()) && old(noncer.Value(a)) == lo ==> Contiguous()
      {
        RunStep(run, lo, hi, n);
        var tx := run[n];
        ghost var before, virtual := pending, noncer.nonces;
        PromoteTx(tx, now, AtLeast(run, n).Values);
        GainOnePending(old(pending), before, pending, a, Under(run, n), tx);
        if old(Contiguous()) && old(noncer.Value(a)) == lo {
          assert forall b :: VirtualNonce(noncer.fallback, noncer.nonces, b) == noncer.Value(b);
          ShapeExtend(before, pending, noncer.fallback, virtual, noncer.nonces, tx);
        }
        n := n + 1;
      }
    }

    /** Moves the executable run of an account from its queue to pending. */
    method PromoteReady(a: Address, now: nat)
      requires Core({}) && a in queue && NoEmptyList(pending)
      requires forall n :: n in queue[a].txs ==> BaseNonce(noncer.fallback, a) <= n
      modifies this`pending, this`queue, this`beats, noncer
      ensures Core({}) && NoEmptyList(pending) && (old(Contiguous()) ==> Contiguous())
      ensures queue == old(queue)[a := old(queue)[a].Ready(old(noncer.Value(a)))]
      ensures Gained(old(pending), pending, a, old(queue)[a].ReadyRun(old(noncer.Value(a))))
      ensures forall n :: n in queue[a].txs ==> n > noncer.Value(a)
      ensures Ahead(old(queue)[a].ReadyRun(old(noncer.Value(a))), old(noncer.Value(a)), BaseNonce(noncer.fallback, a),
                    noncer.Value(a))
      ensures forall b :: b != a ==> noncer.Value(b) == old(noncer.Value(b))
    {
      hide Agree, Gained, Shaped, NoEmptyList, ListState.Ready, ListState.ReadyRun, Interval, RunEnd;
      ghost var virtual := noncer.nonces;
      var start := noncer.Get(a);
      assert forall b :: VirtualNonce(noncer.fallback, noncer.nonces, b) == noncer.Value(b);
      var list := queue[a];
      TakeReady(pending, queue, lookup.all, a, start);
      if old(Contiguous()) {
        ShapeSameValues(pending, noncer.fallback, virtual, noncer.nonces);
      }
      var run := list.ReadyRun(start);
      if run == map[] {
        queue := queue[a := list.Ready(start)];
        assert run.Values == {};
        NothingGained(pending, a);
      } else {
        var lo := Min(list.txs.Keys);
        assert Holds(queue, a, lo);
        if old(Contiguous()) {
          ReadyStartsAtVirtual(pending, queue, lookup.all, noncer.fallback, noncer.nonces, a, lo);
        }
        queue := queue[a := list.Ready(start)];
        PromoteRun(a, run, lo, RunEnd(list.txs, lo), now);
      }
    }

    /** What promotion leaves in the queue of `a`. */
    ghost function StillQueued(l: ListState, a: Address, start: nat): ListState
      reads this`chain, this`maxGas, this`locals
    {
      var left := Unready(l, BaseNonce(chain.nonces, a), chain.CostLimit(a), maxGas, start);
      if a in locals then left else left.Cap(config.accountQueue)
    }

    /** Drops stale and unpayable transactions from an account's queue. */
    method DropUnpayable(a: Address) returns (gone: nat)
      requires Core({}) && a in queue
      modifies this`queue, lookup
      ensures Core({}) && lookup.all <= old(lookup.all) && |lookup.all| == |old(lookup.all)| - gone
      ensures var base := BaseNonce(chain.nonces, a);
              queue == old(queue)[a := old(queue)[a].Forward(base).Filter(chain.CostLimit(a), maxGas).list]
      ensures forall n :: n in queue[a].txs ==> BaseNonce(chain.nonces, a) <= n
    {
      hide Agree, ListState.Forward, ListState.Filter;
      var base := BaseNonce(chain.nonces, a);
      ListsCapped(pending, queue, lookup.all, {}, a);
      ForwardShrinks(queue[a], base);
      FilteredAbove(queue[a], base, chain.CostLimit(a), maxGas);
      var forwards := PruneQueue(a, queue[a].Forward(base));
      FilterShrinks(queue[a], chain.CostLimit(a), maxGas);
      var drops := PruneQueue(a, queue[a].Filter(chain.CostLimit(a), maxGas).list);
      gone := forwards + drops;
    }

    /** Caps the queue of a remote account. */
    method CapQueue(a: Address) returns (gone: nat)
      requires Core({}) && a in queue
      modifies this`queue, lookup
      ensures Core({}) && lookup.all <= old(lookup.all) && |lookup.all| == |old(lookup.all)| - gone
      ensures queue == old(queue)[a := if a in locals then old(queue)[a] else old(queue)[a].Cap(config.accountQueue)]
      ensures forall n :: n in queue[a].txs ==> n in old(queue)[a].txs
    {
      hide Agree, ListState.Cap;
      gone := 0;
      if a !in locals {
        ListsCapped(pending, queue, lookup.all, {}, a);
        CapShrinks(queue[a], config.accountQueue);
        CapKeeps(queue[a], config.accountQueue);
        gone := PruneQueue(a, queue[a].Cap(config.accountQueue));
      } else {
        assert queue == queue[a := queue[a]];
      }
    }

    /** Nothing is left in the queue of `a` that its virtual nonce has reached. */
    ghost predicate Promoted(a: Address)
      reads this, noncer
    {
      forall n: nat :: Holds(queue, a, n) ==> n > noncer.Value(a)
    }

    /** Drops what is stale or unpayable from an account's queue, moves the executable run to
        pending and caps what a remote account keeps waiting. */
    method RefreshQueue(a: Address, now: nat) returns (gone: nat)
      requires Core({}) && a in queue && NoEmptyList(pending) && noncer.fallback == chain.nonces
      modifies this`pending, this`queue, this`beats, lookup, noncer
      ensures Core({}) && NoEmptyList(pending) && (old(Contiguous()) ==> Contiguous())
      ensures lookup.all <= old(lookup.all) && |lookup.all| == |old(lookup.all)| - gone
      ensures queue == old(queue)[a := StillQueued(old(queue)[a], a, old(noncer.Value(a)))]
      ensures Gained(old(pending), pending, a,
                     Executable(old(queue)[a], BaseNonce(chain.nonces, a), chain.CostLimit(a), maxGas,
                                old(noncer.Value(a))))
      ensures forall n :: n in queue[a].txs ==> n > noncer.Value(a)
      ensures Ahead(Executable(old(queue)[a], BaseNonce(chain.nonces, a), chain.CostLimit(a), maxGas,
                               old(noncer.Value(a))),
                    old(noncer.Value(a)), BaseNonce(chain.nonces, a), noncer.Value(a))
      ensures forall b :: b != a ==> noncer.Value(b) == old(noncer.Value(b))
    {
      hide Agree, Gained, Shaped, NoEmptyList, ListState.Forward, ListState.Filter, ListState.Ready,
           ListState.ReadyRun, ListState.Cap, Ahead;
      gone := DropUnpayable(a);
      PromoteReady(a, now);
      var caps := CapQueue(a);
      gone := gone + caps;
    }

    /** Deletes the queue of `a` if it became empty. */
    method DeleteEmpty(a: Address, ghost was: Lists)
      requires Core({}) && NoEmptyList(pending) && NoEmptyList(was) && a in queue && queue == was[a := queue[a]]
      modifies this`queue
      ensures Core({}) && Tidy() && queue == Put(was, a, old(queue)[a])
    {
      hide Agree, NoEmptyList;
      PutTidy(pending, was, lookup.all, a, queue[a]);
      if queue[a].txs == map[] {
        assert queue - {a} == was - {a};
        queue := queue - {a};
      }
    }

    /** Account `a` is as it was in `p` and `q`, and its virtual nonce was `start`. */
    ghost predicate Untouched(p: Lists, q: Lists, a: Address, start: nat)
      reads this, noncer
    {
      && ListOf(pending, a, true) == ListOf(p, a, true) && ListOf(queue, a, false) == ListOf(q, a, false)
      && noncer.Value(a) == start
    }

    /** What account `a` had executable in `q` joined what it had pending in `p`, and its queue keeps
        the rest up to the cap. */
    ghost predicate Ripened(p: Lists, q: Lists, a: Address, start: nat)
      reads this, noncer
    {
      var run := Executable(ListOf(q, a, false), BaseNonce(chain.nonces, a), chain.CostLimit(a), maxGas, start);
      && ListOf(pending, a, true).txs == ListOf(p, a, true).txs + run
      && ListOf(queue, a, false).txs == StillQueued(ListOf(q, a, false), a, start).txs
      && Ahead(run, start, BaseNonce(chain.nonces, a), noncer.Value(a))
    }

    /** A transaction that promotion has a use for is in the pool, unless lower nonces crowded it
        out; any other is gone. */
    ghost predicate Judged(tx: Tx)
      reads this, lookup
    {
      JudgedIn(pending, queue, lookup.all, chain, maxGas,
               if tx.from in locals then None else Some(config.accountQueue), tx)
    }

    method PromoteAccount(a: Address, now: nat)
      requires Core({}) && Tidy() && priced.Valid() && noncer.fallback == chain.nonces
      modifies this`pending, this`queue, this`beats, lookup, priced, noncer
      ensures Core({}) && Tidy() && priced.Valid() && (old(Contiguous()) ==> Contiguous())
      ensures lookup.all <= old(lookup.all)
      ensures Counted(old(priced.stales), priced.stales, |old(lookup.all)| - |lookup.all|)
      ensures Promoted(a) && forall b :: b != a && old(Promoted(b)) ==> Promoted(b)
      ensures a !in old(queue) ==> pending == old(pending) && queue == old(queue)
      ensures a in old(queue) ==>
                && queue == Put(old(queue), a, StillQueued(old(queue)[a], a, old(noncer.Value(a))))
                && Gained(old(pending), pending, a,
                          Executable(old(queue)[a], BaseNonce(chain.nonces, a), chain.CostLimit(a), maxGas,
                                     old(noncer.Value(a))))
      ensures Ripened(old(pending), old(queue), a, old(noncer.Value(a)))
      ensures forall tx :: old(In(queue, tx)) && tx.from == a ==> Judged(tx)
      ensures forall b :: b != a ==> Untouched(old(pending), old(queue), b, old(noncer.Value(b)))
    {
      hide Agree, Gained, Shaped, NoEmptyList, IsHeap, Unready, Executable, ListState.Cap, Ahead, Put, SlotSum,
           JudgedIn;
      if a !in queue {
        NothingExecutable(pending, a, BaseNonce(chain.nonces, a), chain.CostLimit(a), maxGas, noncer.Value(a));
        NothingUnready(BaseNonce(chain.nonces, a), chain.CostLimit(a), maxGas, noncer.Value(a), config.accountQueue);
        return;
      }
      ghost var waiting: Lists := queue;
      var gone := RefreshQueue(a, now);
      priced.Removed(gone);
      DeleteEmpty(a, waiting);
      PutParts(waiting, a, StillQueued(waiting[a], a, old(noncer.Value(a))));
      GainedParts(old(pending), pending, a,
                  Executable(waiting[a], BaseNonce(chain.nonces, a), chain.CostLimit(a), maxGas, old(noncer.Value(a))),
                  true);
      forall tx | In(waiting, tx) && tx.from == a ensures Judged(tx) {
        RipeJudged(old(pending), waiting, old(lookup.all), old(noncer.Value(a)), tx);
      }
    }

    method PromoteExecutables(accounts: seq<Address>, now: nat)
      requires Core({}) && Tidy() && priced.Valid() && noncer.fallback == chain.nonces
      modifies this`pending, this`queue, this`beats, lookup, priced, noncer
      ensures Core({}) && Tidy() && priced.Valid() && (old(Contiguous()) ==> Contiguous())
      ensures lookup.all <= old(lookup.all) && forall a :: a in accounts ==> Promoted(a)
      ensures Distinct(accounts) ==>
                forall a :: a in accounts || a !in old(queue) ==>
                    Ripened(old(pending), old(queue), a, old(noncer.Value(a)))
      ensures Distinct(accounts) ==> forall tx :: old(In(queue, tx)) && tx.from in accounts ==> Judged(tx)
    {
      hide TxPool.Core, TxPool.Tidy, TxPool.Contiguous, TxPricedList.Valid, TxPool.Promoted, TxPool.StillQueued;
      hide Agree, Put, Gained, Executable, Ahead, Distinct, JudgedIn;
      ghost var p, q := pending, queue;
      CoreAgrees();
      for i := 0 to |accounts|
        invariant Core({}) && Tidy() && priced.Valid() && (old(Contiguous()) ==> Contiguous())
        invariant lookup.all <= old(lookup.all) && forall a :: a in accounts[..i] ==> Promoted(a)
        invariant forall a :: a !in accounts[..i] ==> Untouched(p, q, a, old(noncer.Value(a)))
        invariant Distinct(accounts) ==> forall a :: a in accounts[..i] ==> Ripened(p, q, a, old(noncer.Value(a)))
      {
        FirstSeen(accounts, i);
        PromoteAccount(accounts[i], now);
      }
      assert accounts[..|accounts|] == accounts;
      forall a | a !in accounts && a !in q ensures Ripened(p, q, a, old(noncer.Value(a))) {
        NothingRipe(p, q, a, old(noncer.Value(a)));
      }
      forall tx | Distinct(accounts) && In(q, tx) && tx.from in accounts ensures Judged(tx) {
        RipeJudged(p, q, old(lookup.all), old(noncer.Value(tx.from)), tx);
      }
    }

    lemma NothingRipe(p: Lists, q: Lists, a: Address, start: nat)
      requires a !in q && Untouched(p, q, a, start)
      ensures Ripened(p, q, a, start)
    {
      NothingExecutable(p, a, BaseNonce(chain.nonces, a), chain.CostLimit(a), maxGas, start);
      NothingUnready(BaseNonce(chain.nonces, a), chain.CostLimit(a), maxGas, start, config.accountQueue);
    }

    lemma CoreAgrees()
      requires Core({})
      ensures Agree(pending, queue, lookup.all, {})
    {
    }

    /** What promotion did to an account settles the fate of everything it had queued. */
    lemma RipeJudged(p: Lists, q: Lists, all: set<Tx>, start: nat, tx: Tx)
      requires Agree(p, q, all, {}) && Core({}) && In(q, tx) && Ripened(p, q, tx.from, start)
      ensures Judged(tx)
    {
      hide Agree, JudgedIn, Executable, Unready, ListState.Cap;
      QueueJudged(p, q, all, pending, queue, lookup.all, chain, maxGas,
                  if tx.from in locals then None else Some(config.accountQueue), start, tx);
    }

    // -------------------------------------------------------------- demotion

    /** Drops stale and unpayable transactions from an account's pending list and puts the
        ones above an unpayable one back into the queue. */
    method DropUnexecutable(a: Address) returns (gone: nat)
      requires Core({}) && a in pending && NoEmptyList(queue)
      modifies this`pending, this`queue, lookup, priced
      ensures Core({}) && NoEmptyList(queue) && unchanged(priced)
      ensures lookup.all <= old(lookup.all) && |lookup.all| == |old(lookup.all)| - gone
      ensures var r := old(pending)[a].Forward(BaseNonce(chain.nonces, a)).Filter(chain.Balance(a), maxGas);
              pending == old(pending)[a := r.list] && Gained(old(queue), queue, a, r.invalids)
    {
      hide Agree, Gained, ListState.Forward, ListState.Filter, NoEmptyList;
      var base := BaseNonce(chain.nonces, a);
      ListsCapped(pending, queue, lookup.all, {}, a);
      ForwardShrinks(pending[a], base);
      PrunePending(pending, queue, lookup.all, a, pending[a].Forward(base));
      var olds := Without(pending[a].txs, pending[a].Forward(base).txs);
      pending := pending[a := pending[a].Forward(base)];
      lookup.RemoveAll(olds);
      FilterPending(pending, queue, lookup.all, a, chain.Balance(a), maxGas);
      var r := pending[a].Filter(chain.Balance(a), maxGas);
      pending := pending[a := r.list];
      lookup.RemoveAll(r.removed);
      EnqueueAll(a, r.invalids);
      gone := |olds| + |r.removed|;
    }

    /** The pending list of `a` starts at its state nonce and is payable. */
    ghost predicate ExecutableAt(a: Address)
      reads this
    {
      a in pending ==>
        && Holds(pending, a, BaseNonce(chain.nonces, a))
        && Payable(pending[a], BaseNonce(chain.nonces, a), chain.Balance(a), maxGas)
    }

    /** Postpones a whole pending list that has a gap in front. */
    method CloseGap(a: Address)
      requires Core({}) && a in pending && NoEmptyList(queue)
      modifies this`pending, this`queue, lookup, priced
      ensures Core({}) && NoEmptyList(queue) && lookup.all == old(lookup.all) && unchanged(priced)
      ensures var l := old(pending)[a]; var gap := l.txs != map[] && BaseNonce(chain.nonces, a) !in l.txs;
              && pending == old(pending)[a := if gap then l.Cap(0) else l]
              && Gained(old(queue), queue, a, if gap then l.txs else map[])
    {
      hide Agree, Gained, ListState.Cap, NoEmptyList;
      if pending[a].txs != map[] && BaseNonce(chain.nonces, a) !in pending[a].txs {
        EmptyPending(pending, queue, lookup.all, a);
        var gapped := pending[a].txs;
        pending := pending[a := pending[a].Cap(0)];
        EnqueueAll(a, gapped);
      } else {
        assert pending == pending[a := pending[a]];
        NothingGained(queue, a);
      }
    }

    /** The pending list of an account after demotion, and what it loses to the queue. */
    ghost function DemotedAt(l: ListState, a: Address): ListState
      reads this`chain, this`maxGas
    {
      Demoted(l, BaseNonce(chain.nonces, a), chain.Balance(a), maxGas)
    }

    /** Deletes the pending list of `a` if it became empty. */
    method DeletePending(a: Address, ghost was: Lists)
      requires Core({}) && NoEmptyList(queue) && NoEmptyList(was) && a in pending && pending == was[a := pending[a]]
      modifies this`pending, this`beats
      ensures Core({}) && Tidy() && pending == Put(was, a, old(pending)[a])
    {
      hide Agree, NoEmptyList;
      PutPending(was, queue, lookup.all, {}, a, pending[a]);
      if pending[a].txs == map[] {
        assert pending - {a} == was - {a};
        pending, beats := pending - {a}, beats - {a};
      }
    }

    /** Demotes an account: exactly the postponed transactions move to its queue, and what stays is
        payable and starts at the state nonce. */
    method DemoteAccount(a: Address)
      requires Core({}) && Tidy() && priced.Valid() && a in pending
      modifies this`pending, this`queue, this`beats, lookup, priced
      ensures Core({}) && Tidy() && priced.Valid() && lookup.all <= old(lookup.all)
      ensures pending == Put(old(pending), a, DemotedAt(old(pending)[a], a))
      ensures Gained(old(queue), queue, a,
                     Postponed(old(pending)[a], BaseNonce(chain.nonces, a), chain.Balance(a), maxGas))
      ensures ExecutableAt(a) && Counted(old(priced.stales), priced.stales, |old(lookup.all)| - |lookup.all|)
    {
      hide Agree, ListState.Forward, ListState.Filter, ListState.Cap, NoEmptyList, IsHeap, Payable, SameElsewhere,
           Gained, SlotSum;
      ghost var before, base := pending, BaseNonce(chain.nonces, a);
      ListsCapped(pending, queue, lookup.all, {}, a);
      FilterPayable(pending[a], base, chain.Balance(a), maxGas);
      var gone := DropUnexecutable(a);
      priced.Removed(gone);
      CapToNone(pending[a]);
      ghost var waiting := queue;
      ghost var r := before[a].Forward(base).Filter(chain.Balance(a), maxGas);
      CloseGap(a);
      GainTwice(old(queue), waiting, queue, a, r.invalids,
                if r.list.txs != map[] && base !in r.list.txs then r.list.txs else map[]);
      assert pending == before[a := pending[a]];
      DeletePending(a, before);
    }

    /** Demotes every account. */
    method DemoteUnexecutables()
      requires Core({}) && Tidy() && priced.Valid()
      modifies this`pending, this`queue, this`beats, lookup, priced
      ensures Core({}) && Tidy() && priced.Valid() && lookup.all <= old(lookup.all)
      ensures forall a :: a in pending ==> ExecutableAt(a)
      ensures forall a :: a in pending <==> a in old(pending) && DemotedAt(old(pending)[a], a).txs != map[]
      ensures forall a :: a in pending ==> pending[a] == DemotedAt(old(pending)[a], a)
      ensures forall tx :: old(In(pending, tx)) ==> Retained(tx)
      ensures forall tx :: old(In(queue, tx)) ==> In(queue, tx)
    {
      hide TxPool.Core, TxPool.Tidy, TxPricedList.Valid, TxPool.ExecutableAt, TxPool.Retained;
      hide Agree, Payable, Demoted, Postponed, Gained, Put;
      ghost var was, waiting := pending, queue;
      var rest := pending.Keys;
      CoreAgrees();
      NothingPostponed(waiting);
      while rest != {}
        invariant Core({}) && Tidy() && priced.Valid() && lookup.all <= old(lookup.all)
        invariant rest <= pending.Keys && rest <= was.Keys
        invariant forall a :: a in rest ==> pending[a] == was[a] && ListOf(queue, a, false) == ListOf(waiting, a, false)
        invariant forall a :: a !in rest ==> DemotedFrom(was, waiting, a)
      {
        var a :| a in rest;
        ghost var ready, mid := pending, queue;
        label before:
        DemoteAccount(a);
        PutSame(ready, a, DemotedAt(was[a], a));
        GainedParts(mid, queue, a, PostponedAt(was, a), false);
        forall b | b !in rest ensures DemotedFrom(was, waiting, b) {
          assert b != a && old@before(DemotedFrom(was, waiting, b));
        }
        rest := rest - {a};
      }
      forall a ensures DemotedFrom(was, waiting, a) && (a in pending ==> ExecutableAt(a)) {
        if a in pending {
          DemotedRuns(was, waiting, old(lookup.all), a);
        }
      }
      forall tx ensures (In(was, tx) ==> Retained(tx)) && (In(waiting, tx) ==> In(queue, tx)) {
        assert DemotedFrom(was, waiting, tx.from);
        DemotedRetained(was, waiting, old(lookup.all), tx);
      }
    }

    ghost function PostponedAt(was: Lists, a: Address): TxMap
      reads this`chain, this`maxGas
    {
      if a in was then Postponed(was[a], BaseNonce(chain.nonces, a), chain.Balance(a), maxGas) else map[]
    }

    /** Account `a` kept its demoted list, and its queue gained exactly what was postponed. */
    ghost predicate DemotedFrom(was: Lists, waiting: Lists, a: Address)
      reads this
    {
      && (a in pending <==> a in was && DemotedAt(was[a], a).txs != map[])
      && (a in pending ==> pending[a] == DemotedAt(was[a], a))
      && ListOf(queue, a, false).txs == ListOf(waiting, a, false).txs + PostponedAt(was, a)
    }

    /** A transaction that can be executed and paid from the balance is still in the pool; any other
        is gone. */
    ghost predicate Retained(tx: Tx)
      reads this, lookup
    {
      var fit := Current(chain, tx) && tx.gas <= maxGas && Owned(chain, tx);
      if fit then In(pending, tx) || In(queue, tx) else tx !in lookup.all
    }

    lemma DemotedRuns(was: Lists, waiting: Lists, all: set<Tx>, a: Address)
      requires Agree(was, waiting, all, {}) && DemotedFrom(was, waiting, a)
      ensures ExecutableAt(a)
    {
      hide Agree, Payable, Demoted, ListState.Capped;
      if a in pending {
        ListsCapped(was, waiting, all, {}, a);
        DemotedExecutable(was, a, BaseNonce(chain.nonces, a), chain.Balance(a), maxGas);
      }
    }

    lemma DemotedRetained(was: Lists, waiting: Lists, all: set<Tx>, tx: Tx)
      requires Agree(was, waiting, all, {}) && Core({}) && DemotedFrom(was, waiting, tx.from)
      ensures In(was, tx) ==> Retained(tx)
      ensures In(waiting, tx) ==> In(queue, tx)
    {
      hide Agree, Current, Owned, Demoted, Postponed, ListState.Capped;
      ListedOnce(was, waiting, all, tx);
      ListedOnce(pending, queue, lookup.all, tx);
      ListsCapped(was, waiting, all, {}, tx.from);
      LimitsInNumbers(chain, tx);
      if Holds(was, tx.from, tx.nonce) {
        PendingFate(was[tx.from], BaseNonce(chain.nonces, tx.from), chain.Balance(tx.from), maxGas, tx.nonce);
      } else if tx.from in was {
        NotPostponed(was[tx.from], BaseNonce(chain.nonces, tx.from), chain.Balance(tx.from), maxGas, tx.nonce);
      }
    }

    // -------------------------------------------------------------- truncation

    /** Drops the highest nonce of a pending list and lowers the virtual nonce to it. */
    method CapOne(a: Address)
      requires Core({}) && Tidy() && priced.Valid() && a in pending && |pending[a].txs| >= 2
      modifies this`pending, lookup, priced, noncer
      ensures Core({}) && Tidy() && priced.Valid() && lookup.all <= old(lookup.all)
      ensures pending == old(pending)[a := old(pending)[a].Cap(|old(pending)[a].txs| - 1)]
      ensures Counted(old(priced.stales), priced.stales, 1)
      ensures old(Contiguous()) ==> Contiguous()
      ensures forall b :: noncer.Value(b) <= old(noncer.Value(b))
      ensures forall b :: b != a ==> noncer.Value(b) == old(noncer.Value(b))
    {
      hide Agree, Shaped, NoEmptyList, ListState.Cap, IsHeap, Under, SlotSum;
      var list := pending[a];
      var l, top := list.Cap(|list.txs| - 1), Max(list.txs.Keys);
      CapOneDrops(pending, queue, lookup.all, a);
      ghost var before, virtual := pending, noncer.nonces;
      pending := pending[a := l];
      lookup.Remove(list.txs[top]);
      noncer.SetIfLower(a, top);
      priced.Removed(1);
      if old(Contiguous()) {
        assert Holds(before, a, top);
        ShapeHolds(before, noncer.fallback, virtual, a, top);
        assert forall b :: VirtualNonce(noncer.fallback, noncer.nonces, b) == noncer.Value(b);
        ShapeCut(before, pending, noncer.fallback, virtual, noncer.nonces, a, l, top);
      }
    }

    /** One round of fair truncation: every offender drops one transaction. */
    method CapRound(offenders: seq<Address>, count: int, ghost lists: Lists, ghost c: nat) returns (left: int)
      requires Core({}) && Tidy() && priced.Valid()
      requires c >= 2 && Level(lists, locals, {}, c, pending) && count == Total(pending)
      requires Heavy(lists, locals, c) == set x | x in offenders
      requires Distinct(offenders)
      modifies this`pending, lookup, priced, noncer
      ensures Core({}) && Tidy() && priced.Valid() && lookup.all <= old(lookup.all)
      ensures Level(lists, locals, {}, c - 1, pending) && left == Total(pending)
      ensures old(Contiguous()) ==> Contiguous()
      ensures forall b :: noncer.Value(b) <= old(noncer.Value(b))
      ensures forall b :: b !in lists ==> noncer.Value(b) == old(noncer.Value(b))
    {
      hide Agree, Shaped, NoEmptyList, ListState.Cap, Shadows, Level, Total;
      left := count;
      ghost var done: set<Address> := {};
      for i := 0 to |offenders|
        invariant forall b :: noncer.Value(b) <= old(noncer.Value(b))
        invariant forall b :: b !in lists ==> noncer.Value(b) == old(noncer.Value(b))
        invariant Core({}) && Tidy() && priced.Valid() && lookup.all <= old(lookup.all)
        invariant Level(lists, locals, done, c, pending) && left == Total(pending)
        invariant forall x :: x in done <==> exists k :: 0 <= k < i && offenders[k] == x
        invariant old(Contiguous()) ==> Contiguous()
      {
        var a := offenders[i];
        assert a in Heavy(lists, locals, c) && a !in done;
        LevelStep(lists, locals, done, c, pending, a);
        LevelKeys(lists, locals, done, c, pending, a);
        CapOne(a);
        done := done + {a};
        left := left - 1;
      }
      assert done == Heavy(lists, locals, c);
      LevelDone(lists, locals, c, pending);
    }

    /** Rounds of truncation until the pool is small enough or the offenders, all of size `c`,
        are down to `bottom`. */
    method CapRounds(offenders: seq<Address>, probe: Address, bottom: nat, count: int, ghost lists: Lists, ghost c: nat)
      returns (left: int, ghost level: nat)
      requires Core({}) && Tidy() && priced.Valid()
      requires 1 <= bottom <= c && Level(lists, locals, {}, c, pending) && count == Total(pending)
      requires Offend(lists, locals, offenders, bottom, c) && Distinct(offenders)
      requires probe in lists && probe !in locals && |lists[probe].txs| >= c
      requires CapTotal(lists, locals, c + 1) > config.globalSlots
      modifies this`pending, lookup, priced, noncer
      ensures Core({}) && Tidy() && priced.Valid() && lookup.all <= old(lookup.all)
      ensures bottom <= level <= c && Level(lists, locals, {}, level, pending) && left == Total(pending)
      ensures CapTotal(lists, locals, level + 1) > config.globalSlots
      ensures left <= config.globalSlots || level == bottom
      ensures old(Contiguous()) ==> Contiguous()
      ensures forall b :: noncer.Value(b) <= old(noncer.Value(b))
      ensures forall b :: b !in lists ==> noncer.Value(b) == old(noncer.Value(b))
    {
      hide Agree, Shaped, NoEmptyList, Shadows, Level, Total, CapTotal, Heavy, Distinct;
      left, level := count, c;
      LevelSize(lists, locals, level, pending, probe);
      LevelKeys(lists, locals, {}, level, pending, probe);
      while left > config.globalSlots && |pending[probe].txs| > bottom
        invariant forall b :: noncer.Value(b) <= old(noncer.Value(b))
        invariant forall b :: b !in lists ==> noncer.Value(b) == old(noncer.Value(b))
        invariant Core({}) && Tidy() && priced.Valid() && lookup.all <= old(lookup.all)
        invariant bottom <= level <= c && Level(lists, locals, {}, level, pending) && left == Total(pending)
        invariant CapTotal(lists, locals, level + 1) > config.globalSlots
        invariant probe in pending && |pending[probe].txs| == level
        invariant old(Contiguous()) ==> Contiguous()
        decreases level
      {
        LevelTotal(lists, locals, level, pending);
        left := CapRound(offenders, left, lists, level);
        level := level - 1;
        LevelSize(lists, locals, level, pending, probe);
        LevelKeys(lists, locals, {}, level, pending, probe);
      }
    }

    /** Handles the next largest spammer: the first one only sets the level, a later one brings
        the earlier ones down to its own size. */
    method PenalizeNext(offenders: seq<Address>, spammers: map<Address, nat>, offender: Address, count: int,
                        ghost lists: Lists, ghost c: nat)
      returns (left: int, ghost level: nat)
      requires Core({}) && Tidy() && priced.Valid() && config.accountSlots >= 1
      requires Drained(lists, locals, config.accountSlots, offenders, spammers, c) && IsLargest(spammers, offender)
      requires Level(lists, locals, {}, c, pending) && count == Total(pending) > config.globalSlots
      requires CapTotal(lists, locals, c + 1) > config.globalSlots
      requires offenders == [] ==> pending == lists
      requires offenders != [] ==> c > config.accountSlots
      modifies this`pending, lookup, priced, noncer
      ensures Core({}) && Tidy() && priced.Valid() && lookup.all <= old(lookup.all)
      ensures Level(lists, locals, {}, level, pending) && left == Total(pending)
      ensures CapTotal(lists, locals, level + 1) > config.globalSlots && level > config.accountSlots
      ensures left > config.globalSlots ==>
                Drained(lists, locals, config.accountSlots, offenders + [offender], spammers - {offender}, level)
      ensures old(Contiguous()) ==> Contiguous()
      ensures forall b :: noncer.Value(b) <= old(noncer.Value(b))
      ensures forall b :: b !in lists ==> noncer.Value(b) == old(noncer.Value(b))
    {
      hide Agree, Shaped, NoEmptyList, Shadows, Level, Total, CapTotal, Heavy, Drained, Offend, Distinct;
      DrainPop(lists, locals, config.accountSlots, offenders, spammers, c, offender);
      if |offenders| > 0 {
        DrainedDistinct(lists, locals, config.accountSlots, offenders, spammers, c);
        LevelSize(lists, locals, c, pending, offender);
        LevelKeys(lists, locals, {}, c, pending, offender);
        var threshold := |pending[offender].txs|;
        left, level := CapRounds(offenders, offenders[|offenders| - 1], threshold, count, lists, c);
      } else {
        ghost var size := |lists[offender].txs|;
        FirstLevel(lists, locals, config.accountSlots, offender, size, spammers - {offender});
        left, level := count, size;
      }
    }

    /** Pops the largest spammers one by one, cutting the earlier ones down to the size of the
        latest, until the pool is small enough or no spammer is left. */
    method PenalizeSpammers(count: int, spammers0: map<Address, nat>, ghost lists: Lists, ghost top: nat)
      returns (left: int, offenders: seq<Address>, ghost level: nat)
      requires Core({}) && Tidy() && priced.Valid() && config.accountSlots >= 1
      requires pending == lists && count == Total(pending) > config.globalSlots
      requires Drained(lists, locals, config.accountSlots, [], spammers0, top)
      requires Level(lists, locals, {}, top, pending) && CapTotal(lists, locals, top + 1) > config.globalSlots
      modifies this`pending, lookup, priced, noncer
      ensures Core({}) && Tidy() && priced.Valid() && lookup.all <= old(lookup.all)
      ensures Level(lists, locals, {}, level, pending) && left == Total(pending)
      ensures CapTotal(lists, locals, level + 1) > config.globalSlots
      ensures offenders == [] ==> pending == lists && spammers0 == map[]
      ensures offenders != [] ==> level > config.accountSlots
      ensures left > config.globalSlots ==> Drained(lists, locals, config.accountSlots, offenders, map[], level)
      ensures old(Contiguous()) ==> Contiguous()
      ensures forall b :: noncer.Value(b) <= old(noncer.Value(b))
      ensures forall b :: b !in lists ==> noncer.Value(b) == old(noncer.Value(b))
    {
      hide TxPool.Core, TxPool.Tidy, TxPool.Contiguous, TxPricedList.Valid;
      hide Level, Total, CapTotal, Drained, IsLargest;
      left, offenders, level := count, [], top;
      var spammers := spammers0;
      while left > config.globalSlots && spammers != map[]
        invariant forall b :: noncer.Value(b) <= old(noncer.Value(b))
        invariant forall b :: b !in lists ==> noncer.Value(b) == old(noncer.Value(b))
        invariant Core({}) && Tidy() && priced.Valid() && lookup.all <= old(lookup.all)
        invariant Level(lists, locals, {}, level, pending) && left == Total(pending)
        invariant CapTotal(lists, locals, level + 1) > config.globalSlots
        invariant offenders == [] ==> pending == lists && spammers == spammers0 && left > config.globalSlots
        invariant offenders != [] ==> level > config.accountSlots
        invariant left > config.globalSlots ==> Drained(lists, locals, config.accountSlots, offenders, spammers, level)
        invariant old(Contiguous()) ==> Contiguous()
        decreases spammers.Keys
      {
        var offender, others := PopLargest(spammers);
        left, level := PenalizeNext(offenders, spammers, offender, left, lists, level);
        spammers, offenders := others, offenders + [offender];
      }
    }

    /** With every spammer an offender, cuts them all further if the pool is still too large. */
    method CutOffenders(offenders: seq<Address>, count: int, ghost lists: Lists, ghost c: nat)
      returns (ghost level: nat)
      requires Core({}) && Tidy() && priced.Valid() && offenders != [] && c > config.accountSlots >= 1
      requires Level(lists, locals, {}, c, pending) && count == Total(pending)
      requires CapTotal(lists, locals, c + 1) > config.globalSlots
      requires count > config.globalSlots ==> Drained(lists, locals, config.accountSlots, offenders, map[], c)
      modifies this`pending, lookup, priced, noncer
      ensures Core({}) && Tidy() && priced.Valid() && lookup.all <= old(lookup.all)
      ensures Level(lists, locals, {}, level, pending) && CapTotal(lists, locals, level + 1) > config.globalSlots
      ensures level >= config.accountSlots && (Total(pending) <= config.globalSlots || level == config.accountSlots)
      ensures old(Contiguous()) ==> Contiguous()
      ensures forall b :: noncer.Value(b) <= old(noncer.Value(b))
      ensures forall b :: b !in lists ==> noncer.Value(b) == old(noncer.Value(b))
    {
      hide TxPool.Core, TxPool.Tidy, TxPool.Contiguous, TxPricedList.Valid;
      hide Level, Total, CapTotal, Heavy, Drained, Offend, Distinct;
      level := c;
      if count > config.globalSlots {
        DrainedAll(lists, locals, config.accountSlots, offenders, c);
        DrainedDistinct(lists, locals, config.accountSlots, offenders, map[], c);
        var left;
        left, level := CapRounds(offenders, offenders[|offenders| - 1], config.accountSlots, count, lists, c);
      }
    }

    /** Cuts the spammers of a pool above its limit down to one common size. */
    method CutSpammers(count: int) returns (ghost level: nat)
      requires Core({}) && Tidy() && priced.Valid() && config.accountSlots >= 1
      requires count == Total(pending) > config.globalSlots
      modifies this`pending, lookup, priced, noncer
      ensures Core({}) && Tidy() && priced.Valid() && lookup.all <= old(lookup.all)
      ensures WaterLevel(old(pending), locals, config.accountSlots, config.globalSlots, level)
      ensures pending == CapLists(old(pending), locals, level)
      ensures old(Contiguous()) ==> Contiguous()
      ensures forall b :: noncer.Value(b) <= old(noncer.Value(b))
      ensures forall b :: b !in old(pending) ==> noncer.Value(b) == old(noncer.Value(b))
    {
      hide TxPool.Core, TxPool.Tidy, TxPool.Contiguous, TxPricedList.Valid;
      hide Level, Total, CapTotal, Heavy, Drained, CapLists, Spammers, WaterLevel, Offend, Distinct;
      ghost var lists := pending;
      var spammers := Spammers(pending, locals, config.accountSlots);
      ghost var top := TopLevel(lists, locals, config.accountSlots);
      var left, offenders;
      left, offenders, level := PenalizeSpammers(count, spammers, lists, top);
      if offenders == [] {
        level := config.accountSlots;
        NoSpammers(lists, locals, level);
      } else {
        level := CutOffenders(offenders, left, lists, level);
      }
      LevelReached(lists, locals, config.accountSlots, config.globalSlots, level, pending);
    }

    /** Truncates pending to its global limit by cutting the largest remote accounts down to
        one common size: the largest that fits, but no less than what is guaranteed. */
    method TruncatePending()
      requires Core({}) && Tidy() && priced.Valid() && config.accountSlots >= 1
      modifies this`pending, lookup, priced, noncer
      ensures Core({}) && Tidy() && priced.Valid() && lookup.all <= old(lookup.all)
      ensures Total(old(pending)) <= config.globalSlots ==> pending == old(pending)
      ensures Total(old(pending)) > config.globalSlots ==>
                exists c :: && WaterLevel(old(pending), locals, config.accountSlots, config.globalSlots, c)
                            && pending == CapLists(old(pending), locals, c)
      ensures old(Contiguous()) ==> Contiguous()
      ensures forall b :: noncer.Value(b) <= old(noncer.Value(b))
      ensures forall b :: b !in old(pending) ==> noncer.Value(b) == old(noncer.Value(b))
    {
      hide TxPool.Core, TxPool.Tidy, TxPool.Contiguous, TxPricedList.Valid, Total, CapLists, WaterLevel;
      var count := Count(pending);
      if count > config.globalSlots {
        ghost var level;
        level := CutSpammers(count);
      }
    }

    /** Removes the `k` highest nonces of an account's queue, one by one. */
    method DropQueued(a: Address, k: nat)
      requires Core({}) && Tidy() && priced.Valid() && a in queue && k <= |queue[a].txs|
      modifies this`pending, this`queue, this`beats, lookup, priced, noncer
      ensures Core({}) && Tidy() && priced.Valid() && lookup.all <= old(lookup.all)
      ensures pending == old(pending) && (old(Contiguous()) ==> Contiguous())
      ensures queue == Put(old(queue), a, old(queue)[a].Cap(|old(queue)[a].txs| - k))
      ensures unchanged(noncer)
    {
      hide Agree, Shaped, NoEmptyList, Shadows, ListState.Remove, ListState.Cap;
      ghost var list, was := queue[a], queue;
      CapAll(queue, a);
      for i := 0 to k
        invariant unchanged(noncer)
        invariant Core({}) && Tidy() && priced.Valid() && lookup.all <= old(lookup.all)
        invariant pending == old(pending) && (old(Contiguous()) ==> Contiguous())
        invariant queue == Put(was, a, list.Cap(|list.txs| - i))
      {
        DropTop(pending, was, queue, lookup.all, a, |list.txs| - i);
        var tx := queue[a].txs[Max(queue[a].txs.Keys)];
        RemoveTx(tx, true);
      }
    }

    /** Truncates the queue to its global limit, dropping whole accounts and finally the
        highest nonces of one, latest heartbeat first; locals are exempt. */
    method TruncateQueue()
      requires Core({}) && Tidy() && priced.Valid()
      modifies this`pending, this`queue, this`beats, lookup, priced, noncer
      ensures Core({}) && Tidy() && priced.Valid() && lookup.all <= old(lookup.all)
      ensures pending == old(pending) && (old(Contiguous()) ==> Contiguous())
      ensures Total(old(queue)) <= config.globalQueue ==> queue == old(queue)
      ensures Total(old(queue)) > config.globalQueue ==>
                && QueueCut(old(queue), queue, locals) && LatestFirst(old(queue), queue, old(beats), locals)
                && Total(queue) >= config.globalQueue
                && (Total(queue) == config.globalQueue || forall a :: a in queue ==> a in locals)
      ensures Total(old(queue)) > config.globalQueue ==> KeptOlder(old(queue), queue, old(beats), locals)
      ensures unchanged(noncer)
    {
      hide Agree, Shaped, NoEmptyList, Shadows, Sweeping, QueueCut, LatestFirst, Total, ListState.Cap, SortedBy,
           SlotSum;
      var queued := Count(queue);
      if queued <= config.globalQueue {
        return;
      }
      ghost var was, beats0 := queue, beats;
      var remote := set a | a in queue && a !in locals;
      ghost var rest := remote;
      var addresses := ByHeartbeat(remote, beats);
      SweepStarts(queue, beats, locals, rest);
      var drop := queued - config.globalQueue;
      while drop > 0 && |addresses| > 0
        invariant unchanged(noncer)
        invariant Core({}) && Tidy() && priced.Valid() && lookup.all <= old(lookup.all)
        invariant pending == old(pending) && (old(Contiguous()) ==> Contiguous())
        invariant Sweeping(was, queue, beats0, locals, rest, drop > 0)
        invariant HeartbeatOrder(addresses, rest, beats0)
        invariant drop >= 0 && Total(queue) == config.globalQueue + drop
        decreases |addresses|
      {
        var last := |addresses| - 1;
        var a := addresses[last];
        LatestOf(addresses, rest, beats0);
        RestQueued(was, queue, beats0, locals, rest, drop > 0, a);
        var size := |queue[a].txs|;
        var k := if size <= drop then size else drop;
        SweepStep(was, queue, beats0, locals, rest, a, size - k, drop > k);
        DropQueued(a, k);
        rest := rest - {a};
        addresses, drop := addresses[..last], drop - k;
      }
      SweepEnds(was, queue, beats0, locals, rest, drop > 0);
      CutKeys(was, queue, locals);
      LatestInNumbers(was, queue, beats0, locals);
      if drop > 0 {
        assert |addresses| == 0;
        OrderEmpty(addresses, rest, beats0);
      }
    }

    // -------------------------------------------------------------- public operations

    /** Raises or lowers the minimum price and drops every remote transaction below it. */
    method SetGasPrice(price: nat)
      requires Valid()
      modifies this`pending, this`queue, this`beats, this`gasPrice, lookup, priced, noncer
      ensures Valid() && gasPrice == price && (old(Contiguous()) ==> Contiguous())
      ensures lookup.all == set tx | tx in old(lookup.all) && (tx.from in locals || tx.gasPrice >= price)
    {
      hide Agree, NoEmptyList, Shadows, Shaped, WithinBounds, PriceFloor, SlotSum;
      gasPrice := price;
      var drop := priced.Cap(price, locals);
      RemoveDropped(drop);
      FloorCut(old(lookup.all), lookup.all, locals, price);
      BoundsShrink(old(lookup.all), locals, lookup.all, locals, Capacity());
    }

    /** Drops the queues of remote accounts that have been silent for too long. */
    method Evict(expired: set<Address>)
      requires Valid()
      modifies this`pending, this`queue, this`beats, lookup, priced, noncer
      ensures Valid() && pending == old(pending) && (old(Contiguous()) ==> Contiguous())
      ensures queue == old(queue) - (expired - locals)
    {
      hide Agree, NoEmptyList, Shadows, Shaped, WithinBounds, PriceFloor, ListState.Cap, SlotSum;
      var rest := expired - locals;
      while rest != {}
        invariant Core({}) && Tidy() && priced.Valid() && lookup.all <= old(lookup.all)
        invariant pending == old(pending) && (old(Contiguous()) ==> Contiguous())
        invariant rest <= expired - locals && queue == old(queue) - (expired - locals - rest)
      {
        var a :| a in rest;
        if a in queue {
          CapToNone(queue[a]);
          DropQueued(a, |queue[a].txs|);
        }
        rest := rest - {a};
      }
      assert expired - locals - rest == expired - locals;
      PolicedShrink(old(lookup.all), lookup.all, locals, gasPrice, Capacity());
    }

    /** Adds a batch and reports every outcome and the accounts that need promotion. */
    method AddAll(txs: seq<Tx>, local: bool) returns (outcomes: seq<AddOutcome>, dirty: set<Address>)
      requires Valid()
      modifies this`pending, this`queue, this`beats, this`locals, lookup, priced, noncer
      ensures Valid() && (old(Contiguous()) ==> Contiguous())
      ensures old(locals) <= locals && (!local ==> locals == old(locals))
      ensures |outcomes| == |txs| && dirty == DirtyOf(txs, outcomes)
      ensures forall tx :: tx in lookup.all ==> tx in old(lookup.all) || Admitted(txs, outcomes, tx)
      ensures txs != [] && outcomes[|txs| - 1].Accepted? ==> txs[|txs| - 1] in lookup.all
      ensures txs == [] ==> unchanged(this, lookup, priced, noncer)
      ensures !local ==> forall tx :: tx in lookup.all && tx !in old(lookup.all) && tx.gas <= MAX_UINT64 ==>
                Admissible(tx, false)
    {
      hide TxPool.Valid, TxPool.Contiguous, TxPool.ValidateTx, TxPool.Admissible, Join, Underpays, Admitted, DirtyOf;
      outcomes, dirty := [], {};
      AdmitNone(txs);
      for i := 0 to |txs|
        invariant Valid() && (old(Contiguous()) ==> Contiguous())
        invariant old(locals) <= locals && (!local ==> locals == old(locals))
        invariant |outcomes| == i && dirty == DirtyOf(txs, outcomes)
        invariant forall tx :: tx in lookup.all ==> tx in old(lookup.all) || Admitted(txs, outcomes, tx)
        invariant i > 0 && outcomes[i - 1].Accepted? ==> txs[i - 1] in lookup.all
        invariant i == 0 ==> unchanged(this, lookup, priced, noncer)
        invariant !local ==> forall tx :: tx in lookup.all && tx !in old(lookup.all) && tx.gas <= MAX_UINT64 ==>
                    Admissible(tx, false)
      {
        var r := Add(txs[i], local);
        if r.Accepted? && !r.replaced {
          dirty := dirty + {txs[i].from};
        }
        AdmitOne(txs, outcomes, r);
        outcomes := outcomes + [r];
      }
    }

    /** Moves the pool to the state of a new head and re-adds the transactions that the change of
        branch set free. Nothing changes when a block or the state of the new head is missing. */
    method Reset(request: ResetRequest) returns (applied: bool, ghost reinject: seq<Tx>)
      requires Valid() && request.WellFormed()
      modifies this, lookup, priced
      ensures Valid() && gasPrice == old(gasPrice) && locals == old(locals)
      ensures applied <==> request.state.Some? && Traceable(request)
      ensures !applied ==> unchanged(this, lookup, priced)
      ensures applied ==> && chain == request.state.value && fresh(noncer)
                          && maxGas == request.limit && istanbul == request.fork
                          && Reinjects(request, reinject)
      ensures forall tx :: tx in lookup.all ==> tx in old(lookup.all) || (applied && tx in reinject)
      ensures forall tx :: tx in lookup.all && tx !in old(lookup.all) && tx.gas <= MAX_UINT64 ==>
                Proper(tx, false) && (tx.from != 0 ==> Funded(chain, tx))
      ensures request.state.Some? && NothingDue(request.oldHead, request.newHead) ==>
                && applied && pending == old(pending) && queue == old(queue)
                && unchanged(lookup) && noncer.nonces == map[]
    {
      hide Agree, NoEmptyList, Shadows, Shaped, WithinBounds, PriceFloor, SlotSum, PartAt, Meet, Abandoned, Unbroken,
           IsHeap,
           Current, Funded;
      var found := Reinjected(request.oldHead, request.newHead, request.store);
      reinject := if found.Some? then found.value else [];
      if found.None? || request.state.None? {
        return false, reinject;
      }
      chain, maxGas := request.state.value, request.limit;
      noncer := new TxNoncer(chain.nonces);
      var outcomes, dirty := AddAll(found.value, false);
      istanbul := request.fork;
      applied := true;
    }

    /** Sets every account with pending transactions to the nonce after its last one. */
    method SyncNonces()
      requires NoEmptyList(pending)
      modifies noncer
      ensures forall a :: a in pending ==> noncer.Value(a) == Max(pending[a].txs.Keys) + 1
      ensures forall a :: a !in pending ==> noncer.Value(a) == old(noncer.Value(a))
      ensures old(Contiguous()) ==> Contiguous() && forall a :: noncer.Value(a) == old(noncer.Value(a))
    {
      hide Shaped;
      var rest := pending.Keys;
      while rest != {}
        invariant rest <= pending.Keys
        invariant forall a :: a in pending && a !in rest ==> noncer.Value(a) == Max(pending[a].txs.Keys) + 1
        invariant forall a :: a !in pending || a in rest ==> noncer.Value(a) == old(noncer.Value(a))
      {
        var a :| a in rest;
        noncer.Set(a, Max(pending[a].txs.Keys) + 1);
        rest := rest - {a};
      }
      if old(Contiguous()) {
        SyncKeepsShape(pending, noncer.fallback, old(noncer.nonces), noncer.nonces);
        assert forall a :: noncer.Value(a) == VirtualNonce(noncer.fallback, noncer.nonces, a);
      }
    }

    /** Both limits hold, as far as remote accounts can be cut. */
    ghost predicate WithinLimits()
      reads this
    {
      && (|| Total(pending) <= config.globalSlots
          || forall a :: a in pending && a !in locals ==> |pending[a].txs| <= config.accountSlots)
      && (Total(queue) <= config.globalQueue || forall a :: a in queue ==> a in locals)
    }

    /** The pending nonces of `a` are consecutive from its state nonce on, which is also its virtual
        nonce. */
    ghost predicate Afresh(a: Address)
      reads this, noncer
    {
      && Grounded(ListOf(pending, a, true).txs, BaseNonce(chain.nonces, a))
      && noncer.Value(a) == BaseNonce(chain.nonces, a)
    }

    /** The state of `a` after promotion and demotion: a run from the state nonce, or nothing with a
        virtual nonce that is ahead exactly when the account overspent. */
    ghost predicate Landed(p: Lists, q: Lists, a: Address)
      reads this, noncer
    {
      && (a in pending ==> RunFrom(pending[a].txs, BaseNonce(chain.nonces, a)))
      && (Overdrawn(p, q, chain, maxGas, a) <==> a !in pending && noncer.Value(a) != BaseNonce(chain.nonces, a))
    }

    /** Promotion and demotion under a new head. */
    method Turnover(accounts: seq<Address>, now: nat)
      requires Core({}) && Tidy() && priced.Valid() && noncer.fallback == chain.nonces
      modifies this`pending, this`queue, this`beats, lookup, priced, noncer
      ensures Core({}) && Tidy() && priced.Valid() && lookup.all <= old(lookup.all)
      ensures forall a :: ExecutableAt(a)
      ensures multiset(accounts) == multiset(old(queue).Keys) && (forall a :: old(Afresh(a))) ==>
                forall a :: Landed(old(pending), old(queue), a)
    {
      hide Agree, Tidy, Contiguous, Grounded, Executable, Demoted, RunFrom, Ahead, Overdrawn, SlotSum, IsHeap;
      ghost var p, q, all := pending, queue, lookup.all;
      PromoteExecutables(accounts, now);
      ghost var ripe, waiting, known := pending, queue, lookup.all;
      label ripened:
      DemoteUnexecutables();
      if multiset(accounts) == multiset(q.Keys) && (forall a :: old(Afresh(a))) {
        ListsOnce(accounts, q.Keys);
        forall a ensures Landed(p, q, a) {
          assert old(Afresh(a)) && old@ripened(Ripened(p, q, a, BaseNonce(chain.nonces, a)));
          LandsAt(p, q, all, ripe, waiting, known, chain, maxGas, a, noncer.Value(a));
        }
      }
    }

    /** Promotes some accounts, demotes if the head changed, truncates and sets the virtual nonces. */
    method Settle(accounts: seq<Address>, demote: bool, now: nat)
      requires Core({}) && Tidy() && priced.Valid() && noncer.fallback == chain.nonces && config.accountSlots >= 1
      modifies this`pending, this`queue, this`beats, lookup, priced, noncer
      ensures Core({}) && Tidy() && priced.Valid() && lookup.all <= old(lookup.all) && WithinLimits()
      ensures !demote && old(Contiguous()) ==> Contiguous() && forall a :: a in accounts ==> Promoted(a)
      ensures demote ==> forall a :: a in pending ==> ExecutableAt(a)
      ensures forall a :: a in pending ==> noncer.Value(a) == Max(pending[a].txs.Keys) + 1
      ensures demote && multiset(accounts) == multiset(old(queue).Keys) && (forall a :: old(Afresh(a))) ==>
                (Contiguous() <==> forall a :: !Overdrawn(old(pending), old(queue), chain, maxGas, a))
    {
      hide TxPool.Core, TxPool.Tidy, TxPool.Contiguous, TxPricedList.Valid, TxPool.Promoted, TxPool.ExecutableAt;
      hide TxPool.WithinLimits, TxPool.Landed, TxPool.Afresh, TxPool.Ripened, Overdrawn;
      ghost var p, q := pending, queue;
      if demote {
        Turnover(accounts, now);
      } else {
        PromoteExecutables(accounts, now);
      }
      Finish(p, q);
    }

    /** Truncation and the update of the virtual nonces. */
    method Finish(ghost p: Lists, ghost q: Lists)
      requires Core({}) && Tidy() && priced.Valid() && noncer.fallback == chain.nonces && config.accountSlots >= 1
      modifies this`pending, this`queue, this`beats, lookup, priced, noncer
      ensures Core({}) && Tidy() && priced.Valid() && lookup.all <= old(lookup.all) && WithinLimits()
      ensures old(Contiguous()) ==> Contiguous() && forall a :: old(Promoted(a)) ==> Promoted(a)
      ensures forall a :: old(ExecutableAt(a)) ==> ExecutableAt(a)
      ensures forall a :: a in pending ==> noncer.Value(a) == Max(pending[a].txs.Keys) + 1
      ensures (forall a :: old(Landed(p, q, a))) ==>
                (Contiguous() <==> forall a :: !Overdrawn(p, q, chain, maxGas, a))
    {
      hide TxPool.Core, NoEmptyList, Shaped, TxPricedList.Valid, TxPool.ExecutableAt;
      hide TxPool.WithinLimits, RunFrom, Overdrawn, Holds;
      ghost var mid := pending;
      Truncate();
      SyncNonces();
      if forall a :: old(Landed(p, q, a)) {
        forall a
          ensures a in pending ==> RunFrom(pending[a].txs, BaseNonce(chain.nonces, a))
          ensures Overdrawn(p, q, chain, maxGas, a) <==>
                    a !in pending && noncer.Value(a) != BaseNonce(chain.nonces, a)
        {
          assert old(Landed(p, q, a)) && (a in pending.Keys <==> a in mid.Keys);
        }
        RunsShaped(pending, chain.nonces, noncer.nonces);
        assert forall a :: noncer.Value(a) == VirtualNonce(chain.nonces, noncer.nonces, a);
      }
    }

    /** One run of the pool's background reorganisation, with or without a new chain head. */
    method RunReorg(reset: Option<ResetRequest>, dirty: seq<Address>, now: nat)
      requires Valid() && (reset.Some? ==> reset.value.WellFormed())
      modifies this, lookup, priced, noncer
      ensures Valid() && WithinLimits() && gasPrice == old(gasPrice)
      ensures reset.None? ==> chain == old(chain)
      ensures reset.None? && old(Contiguous()) ==> Contiguous() && forall a :: a in dirty ==> Promoted(a)
      ensures reset.Some? ==> forall a :: a in pending ==> ExecutableAt(a)
      ensures reset.Some? && reset.value.Advances(old(chain)) ==> chain == reset.value.state.value
      ensures reset.Some? && reset.value.Advances(old(chain)) && old(Contiguous()) ==>
                (Contiguous() <==> forall a :: !Overdrawn(old(pending), old(queue), chain, reset.value.limit, a))
      ensures forall a :: a in pending ==> noncer.Value(a) == Max(pending[a].txs.Keys) + 1
      ensures noncer == old(noncer) || fresh(noncer)
    {
      hide Agree, NoEmptyList, Shadows, WithinBounds, PriceFloor, Total, ShapedAt, Grounded, Overdrawn, SlotSum;
      ghost var due := reset.Some? && reset.value.Advances(chain) && Contiguous();
      var accounts := dirty;
      if reset.Some? {
        var applied;
        ghost var reinject;
        applied, reinject := Reset(reset.value);
        accounts := Listing(queue.Keys);
        if due {
          forall a ensures Afresh(a) {
            assert ShapedAt(old(pending), old(noncer.fallback), old(noncer.nonces), a);
            ShapedGrounded(pending, old(chain).nonces, old(noncer.nonces), a, BaseNonce(chain.nonces, a));
          }
        }
      }
      ghost var known := lookup.all;
      label renewed:
      Settle(accounts, reset.Some?, now);
      assert due ==> forall a :: old@renewed(Afresh(a));
      assert due ==> maxGas == reset.value.limit;
      assert due ==> (Contiguous() <==> forall a :: !Overdrawn(old(pending), old(queue), chain, maxGas, a));
      PolicedShrink(known, lookup.all, locals, gasPrice, Capacity());
    }

    method Truncate()
      requires Core({}) && Tidy() && priced.Valid() && config.accountSlots >= 1
      modifies this`pending, this`queue, this`beats, lookup, priced, noncer
      ensures Core({}) && Tidy() && priced.Valid() && lookup.all <= old(lookup.all) && WithinLimits()
      ensures old(Contiguous()) ==> Contiguous()
      ensures forall a :: old(Promoted(a)) ==> Promoted(a)
      ensures forall a :: old(ExecutableAt(a)) ==> ExecutableAt(a)
      ensures pending.Keys == old(pending).Keys && forall a :: a !in pending ==> noncer.Value(a) == old(noncer.Value(a))
      ensures forall a, base: nat :: a in pending && RunFrom(old(pending)[a].txs, base) ==>
                RunFrom(pending[a].txs, base)
    {
      hide TxPool.Core, TxPool.Tidy, TxPool.Contiguous, TxPricedList.Valid;
      hide Total, CapTotal, QueueCut, LatestFirst, CapLists, Payable, Holds, RunFrom;
      ghost var before, waiting := pending, queue;
      TruncatePending();
      if Total(before) > config.globalSlots {
        ghost var c :| && WaterLevel(before, locals, config.accountSlots, config.globalSlots, c)
                       && pending == CapLists(before, locals, c);
        WaterLevelBound(before, locals, config.accountSlots, config.globalSlots, c);
        CapListsRuns(before, locals, c);
        forall a | old(ExecutableAt(a)) ensures ExecutableAt(a) {
          CapExecutable(before, locals, c, a, BaseNonce(chain.nonces, a), chain.Balance(a), maxGas);
        }
      }
      TruncateQueue();
      if Total(waiting) > config.globalQueue {
        CutHolds(waiting, queue, locals);
      }
    }

    /** Any sequence of operations keeps the pool's invariant, and a steady one keeps the pending
        nonces contiguous. */
    method Run(ops: seq<PoolOp>)
      requires Valid() && forall op :: op in ops ==> op.WellFormed()
      modifies this, lookup, priced, noncer
      ensures Valid()
      ensures SteadyRun(ops, old(chain)) && old(Contiguous()) ==> Contiguous()
    {
      hide TxPool.Valid, TxPool.Contiguous, PoolOp.Steady, PoolOp.WellFormed;
      for i := 0 to |ops|
        invariant Valid() && (noncer == old(noncer) || fresh(noncer))
        invariant SteadyRun(ops, old(chain)) && old(Contiguous()) ==> SteadyRun(ops[i..], chain) && Contiguous()
      {
        assert ops[i..][0] == ops[i] && ops[i..][1..] == ops[i + 1..];
        Step(ops[i]);
      }
    }

    method Step(op: PoolOp)
      requires Valid() && op.WellFormed()
      modifies this, lookup, priced, noncer
      ensures Valid() && (noncer == old(noncer) || fresh(noncer))
      ensures op.Steady(old(chain)) ==> chain == op.Next(old(chain)) && (old(Contiguous()) ==> Contiguous())
      ensures op.AddBatch? && op.txs == [] ==> lookup.all == old(lookup.all)
      ensures op.ChangePrice? ==>
                && gasPrice == op.price
                && lookup.all == set tx | tx in old(lookup.all) && (tx.from in locals || tx.gasPrice >= op.price)
      ensures op.DropSilent? ==> pending == old(pending) && queue == old(queue) - (op.expired - locals)
      ensures op.Reorganise? ==> WithinLimits()
    {
      hide Agree, NoEmptyList, Shadows, Shaped, WithinBounds, PriceFloor, SlotSum, Overdrawn;
      match op {
        case AddBatch(txs, local) => var _, _ := AddAll(txs, local);
        case ChangePrice(price) => SetGasPrice(price);
        case DropSilent(expired) => Evict(expired);
        case Reorganise(reset, dirty, now) =>
          if reset.Some? && op.Steady(chain) {
            Solvent(pending, queue, reset.value.state.value, reset.value.limit);
          }
          RunReorg(reset, dirty, now);
      }
    }
  }

  /** A change of the chain head, with the blocks at hand, the state of the new head if it can be
      opened, its gas limit and whether the next block is past the fork. */
  datatype ResetRequest = ResetRequest(oldHead: Option<Block>, newHead: Block, store: set<Block>,
                                       state: Option<ChainState>, limit: nat, fork: bool)
  {
    /** The new head brings its state and no reinjection, and no state nonce falls. */
    ghost predicate Advances(chain: ChainState)
      requires WellFormed()
    {
      && state.Some? && NothingDue(oldHead, newHead)
      && forall a :: BaseNonce(chain.nonces, a) <= BaseNonce(state.value.nonces, a)
    }

    predicate WellFormed() {
      newHead.Block? && newHead in store && (oldHead.Some? ==> oldHead.value.Block?)
    }
  }

  /** The next transaction of `a` would be promoted on its delegatee's stamina although the balance
      does not cover it. */
  predicate Overdrawn(p: Lists, q: Lists, state: ChainState, limit: nat, a: Address) {
    Overspends(ListOf(p, a, true).txs, ListOf(q, a, false).txs, BaseNonce(state.nonces, a),
               state.CostLimit(a), state.Balance(a), limit)
  }

  lemma NothingPostponed(lists: Lists)
    ensures forall a :: ListOf(lists, a, false).txs + map[] == ListOf(lists, a, false).txs
  {
  }

  lemma NotPostponed(l: ListState, base: nat, costLimit: int, gasLimit: nat, n: nat)
    requires l.Capped() && n !in l.txs
    ensures n !in Postponed(l, base, costLimit, gasLimit)
  {
    hide ListState.Filter, ListState.Capped;
    ForwardShrinks(l, base);
    FilterFate(l.Forward(base), costLimit, gasLimit, n);
  }

  lemma NothingDemoted(base: nat, costLimit: int, gasLimit: nat)
    ensures Demoted(EmptyList(true), base, costLimit, gasLimit).txs == map[]
  {
    FilterShrinks(EmptyList(true).Forward(base), costLimit, gasLimit);
  }

  /** A plain transfer of nothing, the next of its sender, that only the delegatee's stamina covers. */
  predicate OnCredit(tx: Tx, state: ChainState) {
    && tx.signed && tx.size <= TX_MAX_SIZE && tx.value == 0 && tx.to.Some? && tx.data == []
    && tx.from != NULL_ADDRESS && tx.from !in state.unreachable && tx.nonce == BaseNonce(state.nonces, tx.from)
    && TX_GAS <= tx.gas && ToInt64(tx.gas) == tx.gas
    && state.Balance(tx.from) < tx.Cost() <= state.StaminaFor(tx.from)
  }

  lemma OnCreditExists()
    ensures exists tx, state :: OnCredit(tx, state)
  {
    var tx := Tx(1, true, 0, 1, TX_GAS, 0, Some(2), [], 100);
    var state := ChainState(map[], map[], map[1 := 2], map[2 := TX_GAS], {});
    assert OnCredit(tx, state);
  }

  /** A transaction on credit is accepted and, at the next block, promoted and dropped again: its
      sender is left with a virtual nonce above the state nonce and nothing pending. */
  method Stranded(config: Config, tx: Tx, state: ChainState, head: Block, now: nat) returns (pool: TxPool)
    requires OnCredit(tx, state) && head.Block? && head.parent.Block?
    ensures fresh(pool) && pool.Valid() && pool.chain == state && !pool.Contiguous()
  {
    hide TxPool.Valid, TxPool.Contiguous, Join, ListState.Add, Added, Underpays;
    pool := new TxPool(config, state, tx.gas, {});
    JoinCases(map[], false, tx, pool.config.priceBump);
    assert pool.ValidateTx(tx, true).None?;
    var r := pool.Add(tx, true);
    assert Overdrawn(pool.pending, pool.queue, state, tx.gas, tx.from) by {
      assert Added(EmptyList(false), tx, pool.queue[tx.from]);
    }
    var reset := ResetRequest(Some(head.parent), head, {head}, Some(state), tx.gas, false);
    pool.RunReorg(Some(reset), [], now);
  }

  lemma Solvent(p: Lists, q: Lists, state: ChainState, limit: nat)
    requires forall a :: state.StaminaFor(a) <= state.Balance(a)
    ensures forall a :: !Overdrawn(p, q, state, limit, a)
  {
  }

  /** Promotion has a use for a transaction that is not stale, fits into a block and is covered by its
      sender's balance or delegatee. Such a transaction is on a list, unless as many transactions of
      the sender as the cap allows have lower nonces; any other is gone. */
  ghost predicate JudgedIn(p: Lists, q: Lists, all: set<Tx>, state: ChainState, limit: nat, cap: Option<nat>, tx: Tx) {
    var fit := Current(state, tx) && tx.gas <= limit && (Owned(state, tx) || Staked(state, tx));
    var queued := ListOf(q, tx.from, false).txs;
    && (!fit ==> tx !in all)
    && (fit ==> || In(p, tx) || In(q, tx)
                || (cap.Some? && |queued| == cap.value && forall n :: n in queued ==> n < tx.nonce))
  }

  lemma ListedOnce(p: Lists, q: Lists, all: set<Tx>, tx: Tx)
    requires Agree(p, q, all, {})
    ensures tx in all <==> In(p, tx) || In(q, tx)
    ensures Holds(p, tx.from, tx.nonce) ==> !Holds(q, tx.from, tx.nonce)
    ensures tx.from in q ==> !q[tx.from].strict
    ensures tx.from in p ==> p[tx.from].strict
  {
    assert tx.from in q ==> ListOk(q[tx.from], tx.from, false);
    assert tx.from in p ==> ListOk(p[tx.from], tx.from, true);
  }

  /** The fate of a queued transaction, from the lists before and after the promotion of its sender. */
  lemma QueueJudged(p: Lists, q: Lists, all: set<Tx>, p': Lists, q': Lists, all': set<Tx>, state: ChainState,
                    limit: nat, cap: Option<nat>, start: nat, tx: Tx)
    requires Agree(p, q, all, {}) && Agree(p', q', all', {}) && In(q, tx)
    requires var base, most := BaseNonce(state.nonces, tx.from), state.CostLimit(tx.from);
             var left := Unready(q[tx.from], base, most, limit, start);
             && ListOf(q', tx.from, false).txs == (if cap.Some? then left.Cap(cap.value) else left).txs
             && ListOf(p', tx.from, true).txs ==
                  ListOf(p, tx.from, true).txs + Executable(q[tx.from], base, most, limit, start)
    ensures JudgedIn(p', q', all', state, limit, cap, tx)
  {
    hide Agree, ListState.Cap, ListState.Capped, Executable, Unready, Current, Owned, Staked;
    var a, n, base, most := tx.from, tx.nonce, BaseNonce(state.nonces, tx.from), state.CostLimit(tx.from);
    LimitsInNumbers(state, tx);
    ListsCapped(p, q, all, {}, a);
    ListedOnce(p, q, all, tx);
    ListedOnce(p', q', all', tx);
    QueueFate(q[a], base, most, limit, start, n);
    var left := Unready(q[a], base, most, limit, start);
    if cap.Some? && n in left.txs {
      CapFate(left, cap.value, n);
    }
    if cap.Some? {
      CapKeeps(left, cap.value);
    }
  }

  /** The fate of an account under a new head, from the lists before promotion and after it. */
  lemma LandsAt(p: Lists, q: Lists, all: set<Tx>, ripe: Lists, waiting: Lists, known: set<Tx>, state: ChainState,
                limit: nat, a: Address, virtual: nat)
    requires Agree(p, q, all, {}) && Agree(ripe, waiting, known, {})
    requires Grounded(ListOf(p, a, true).txs, BaseNonce(state.nonces, a))
    requires var base := BaseNonce(state.nonces, a);
             var run := Executable(ListOf(q, a, false), base, state.CostLimit(a), limit, base);
             ListOf(ripe, a, true).txs == ListOf(p, a, true).txs + run && Ahead(run, base, base, virtual)
    ensures var base := BaseNonce(state.nonces, a);
            var d := Demoted(ListOf(ripe, a, true), base, state.Balance(a), limit).txs;
            && (d != map[] ==> RunFrom(d, base)) && (a !in ripe ==> d == map[])
            && (Overdrawn(p, q, state, limit, a) <==> d == map[] && virtual != base)
  {
    hide Executable, RunFrom, Grounded, ListState.Filter, ListState.Forward, Overspends;
    ListsCapped(p, q, all, {}, a);
    ListsCapped(ripe, waiting, known, {}, a);
    var base := BaseNonce(state.nonces, a);
    assert Holds(p, a, base) ==> !Holds(q, a, base);
    NothingDemoted(base, state.Balance(a), limit);
    Lands(ListOf(p, a, true), ListOf(q, a, false), ListOf(ripe, a, true), base, state.CostLimit(a), state.Balance(a),
          limit);
  }

  /** The counter of dead heap entries grew by `n`, unless the heap was rebuilt without any. */
  predicate Counted(before: int, after: int, n: int) {
    after == before + n || after == 0
  }

  /** Promoting a run moves the virtual nonce past the state nonce. */
  predicate Ahead(run: TxMap, start: nat, base: nat, virtual: nat) {
    if run == map[] then virtual == start else virtual > base
  }

  lemma FirstSeen(accounts: seq<Address>, i: nat)
    requires i < |accounts|
    ensures Distinct(accounts) ==> accounts[i] !in accounts[..i]
    ensures accounts[..i + 1] == accounts[..i] + [accounts[i]]
  {
  }

  lemma ListsOnce(accounts: seq<Address>, elems: set<Address>)
    requires multiset(accounts) == multiset(elems)
    ensures Distinct(accounts) && forall a :: a in accounts <==> a in elems
  {
    forall i, j | 0 <= i < j < |accounts| ensures accounts[i] != accounts[j] {
      SetHasNoRepeats(accounts, elems, i, j);
    }
    forall a ensures a in accounts <==> a in elems {
      assert a in accounts <==> a in multiset(accounts);
    }
  }

  lemma NothingExecutable(p: Lists, a: Address, base: nat, costLimit: int, gasLimit: nat, start: nat)
    ensures var run := Executable(EmptyList(false), base, costLimit, gasLimit, start);
            run == map[] && ListOf(p, a, true).txs + run == ListOf(p, a, true).txs && Ahead(run, start, base, start)
  {
  }

  lemma PutParts(lists: Lists, a: Address, l: ListState)
    ensures var now := Put(lists, a, l);
            && (forall b :: b != a ==> ListOf(now, b, false) == ListOf(lists, b, false))
            && ListOf(now, a, false).txs == l.txs
            && (forall b, n: nat :: Holds(now, b, n) <==> if b == a then n in l.txs else Holds(lists, b, n))
  {
  }

  lemma NothingUnready(base: nat, costLimit: int, gasLimit: nat, start: nat, k: nat)
    ensures var left := Unready(EmptyList(false), base, costLimit, gasLimit, start);
            left.txs == map[] && left.Cap(k).txs == map[]
  {
    FilterShrinks(EmptyList(false).Forward(base), costLimit, gasLimit);
  }

  lemma GainedParts(was: Lists, now: Lists, a: Address, more: TxMap, strict: bool)
    requires Gained(was, now, a, more)
    ensures ListOf(now, a, strict).txs == ListOf(was, a, strict).txs + more
    ensures forall b :: b != a ==> ListOf(now, b, strict) == ListOf(was, b, strict)
  {
  }

  /** Nothing is due, or both branches can be walked back to where they part. */
  ghost predicate Traceable(request: ResetRequest)
    requires request.WellFormed()
  {
    || NothingDue(request.oldHead, request.newHead)
    || (&& request.oldHead.value in request.store
        && exists n: nat :: Meet(request.store, request.oldHead.value, request.newHead, n))
  }

  /** `txs` are the transactions that the old branch loses to the new one. */
  ghost predicate Reinjects(request: ResetRequest, txs: seq<Tx>)
    requires request.WellFormed()
  {
    if NothingDue(request.oldHead, request.newHead) then txs == []
    else exists n: nat :: && PartAt(request.oldHead.value, request.newHead, n)
                          && Abandoned(request.oldHead.value, request.newHead, n, txs)
  }

  datatype PoolOp = AddBatch(txs: seq<Tx>, local: bool)
                  | ChangePrice(price: nat)
                  | DropSilent(expired: set<Address>)
                  | Reorganise(reset: Option<ResetRequest>, dirty: seq<Address>, now: nat)
  {
    predicate WellFormed() {
      Reorganise? && reset.Some? ==> reset.value.WellFormed()
    }

    /** The operation leaves the chain state alone, or moves it to one that no state nonce falls in
        and in which nobody's delegatee has more stamina than they have balance. */
    ghost predicate Steady(chain: ChainState) {
      Reorganise? && reset.Some? ==>
        && reset.value.WellFormed() && reset.value.Advances(chain)
        && forall a :: reset.value.state.value.StaminaFor(a) <= reset.value.state.value.Balance(a)
    }

    ghost function Next(chain: ChainState): ChainState {
      if Reorganise? && reset.Some? && reset.value.state.Some? then reset.value.state.value else chain
    }
  }

  /** Every operation is steady in the chain state that the ones before it lead to. */
  ghost predicate SteadyRun(ops: seq<PoolOp>, chain: ChainState) {
    ops == [] || (ops[0].Steady(chain) && SteadyRun(ops[1..], ops[0].Next(chain)))
  }

  /** Dropping distinct transactions frees their slots, and all but the last would free fewer. */
  lemma RoomMade(all: set<Tx>, drop: seq<Tx>)
    requires Distinct(drop) && forall tx :: tx in drop ==> tx in all
    ensures SlotSum(all - set tx | tx in drop) == SlotSum(all) - SlotsOf(drop)
    ensures drop != [] ==>
              var last := drop[|drop| - 1];
              && last in drop
              && SlotSum(all - (set tx | tx in drop) + {last}) == SlotSum(all) - SlotsOf(drop[..|drop| - 1])
  {
    hide SlotSum;
    SlotsFreed(all, drop);
    if drop != [] {
      var m := |drop| - 1;
      var left := all - set tx | tx in drop;
      assert drop[m] in drop;
      SlotSumAdd(left, drop[m]);
    }
  }

  lemma PolicedShrink(all: set<Tx>, all': set<Tx>, locals: set<Address>, price: nat, capacity: nat)
    requires PriceFloor(all, locals, price) && WithinBounds(all, locals, capacity) && all' <= all
    ensures PriceFloor(all', locals, price) && WithinBounds(all', locals, capacity)
  {
    BoundsShrink(all, locals, all', locals, capacity);
  }

  /** In a contiguous pool the last pending nonce is one below the virtual nonce. */
  lemma SyncKeepsShape(p: Lists, state: map<Address, nat>, m: map<Address, nat>, n: map<Address, nat>)
    requires Shaped(p, state, m) && NoEmptyList(p)
    requires forall a :: a in p ==> VirtualNonce(state, n, a) == Max(p[a].txs.Keys) + 1
    requires forall a :: a !in p ==> VirtualNonce(state, n, a) == VirtualNonce(state, m, a)
    ensures Shaped(p, state, n) && forall a :: VirtualNonce(state, n, a) == VirtualNonce(state, m, a)
  {
    forall a ensures VirtualNonce(state, n, a) == VirtualNonce(state, m, a) {
      assert ShapedAt(p, state, m, a);
      if a in p {
        var top := Max(p[a].txs.Keys);
        assert Holds(p, a, top);
        var last := VirtualNonce(state, m, a) - 1;
        assert top <= last;
        assert Holds(p, a, last);
        assert last in p[a].txs.Keys;
      }
    }
    ShapeSameValues(p, state, m, n);
  }

  /** `addresses` lists the accounts in `rest` once each, by rising heartbeat. */
  ghost predicate HeartbeatOrder(addresses: seq<Address>, rest: set<Address>, beats: map<Address, nat>) {
    && Prelude.Lists(addresses, rest)
    && Distinct(addresses)
    && (forall i, j :: 0 <= i < j < |addresses| ==> Beat(beats, addresses[i]) <= Beat(beats, addresses[j]))
  }

  /** Some accounts, once each, in no particular order. */
  method Listing(accounts: set<Address>) returns (r: seq<Address>)
    ensures multiset(r) == multiset(accounts)
  {
    r := [];
    var rest := accounts;
    while rest != {}
      invariant rest <= accounts && multiset(r) == multiset(accounts - rest)
    {
      var a :| a in rest;
      r := r + [a];
      assert accounts - (rest - {a}) == accounts - rest + {a};
      rest := rest - {a};
    }
    assert accounts - rest == accounts;
  }

  method ByHeartbeat(accounts: set<Address>, beats: map<Address, nat>) returns (r: seq<Address>)
    ensures HeartbeatOrder(r, accounts, beats)
  {
    var s := Listing(accounts);
    r := Sort(s, (a: Address) => Rank(Beat(beats, a), 0));
    SortedByBeat(r, accounts, beats, (a: Address) => Rank(Beat(beats, a), 0));
  }

  lemma SortedByBeat(r: seq<Address>, accounts: set<Address>, beats: map<Address, nat>, rank: Address -> Rank)
    requires SortedBy(r, rank) && multiset(r) == multiset(accounts)
    requires forall a :: rank(a) == Rank(Beat(beats, a), 0)
    ensures HeartbeatOrder(r, accounts, beats)
  {
    forall i, j | 0 <= i < j < |r| ensures r[i] != r[j] && Beat(beats, r[i]) <= Beat(beats, r[j]) {
      SetHasNoRepeats(r, accounts, i, j);
      assert rank(r[i]).AtMost(rank(r[j]));
    }
    forall a ensures a in r <==> a in accounts {
      assert a in r <==> a in multiset(r);
    }
  }

  lemma ListsCapped(pending: Lists, queue: Lists, all: set<Tx>, flight: set<Tx>, a: Address)
    requires Agree(pending, queue, all, flight)
    ensures ListOf(queue, a, false).Capped() && ListOf(pending, a, true).Capped() && flight <= all
  {
    assert a in queue ==> ListOk(queue[a], a, false);
    assert a in pending ==> ListOk(pending[a], a, true);
  }

  lemma HeldNotFlying(pending: Lists, queue: Lists, all: set<Tx>, flight: set<Tx>, tx: Tx)
    requires Agree(pending, queue, all, flight)
    requires Holds(queue, tx.from, tx.nonce) || Holds(pending, tx.from, tx.nonce)
    ensures tx !in flight
  {
  }

  lemma NothingGained(lists: Lists, a: Address)
    ensures Gained(lists, lists, a, map[])
  {
    assert ListOf(lists, a, false).txs + map[] == ListOf(lists, a, false).txs;
  }

  lemma UnionMove(moved: TxMap, rest: TxMap, n: nat)
    requires n in rest
    ensures moved[n := rest[n]] + (rest - {n}) == moved + rest
  {
  }

  lemma NotListed(pending: Lists, queue: Lists, all: set<Tx>, tx: Tx)
    requires Agree(pending, queue, all, {}) && tx !in all
    ensures !In(pending, tx) && !In(queue, tx) && all - {tx} == all
  {
  }

  lemma ShapeHolds(p: Lists, state: map<Address, nat>, m: map<Address, nat>, a: Address, n: nat)
    requires Shaped(p, state, m) && Holds(p, a, n)
    ensures BaseNonce(state, a) <= n < VirtualNonce(state, m, a)
  {
    assert ShapedAt(p, state, m, a);
  }

  lemma FlightFree(pending: Lists, queue: Lists, all: set<Tx>, flight: set<Tx>, tx: Tx)
    requires Agree(pending, queue, all, flight) && tx in flight
    ensures !Holds(pending, tx.from, tx.nonce) && !Holds(queue, tx.from, tx.nonce) && tx in all
  {
  }

  lemma HeldByOne(pending: Lists, queue: Lists, all: set<Tx>, a: Address, n: nat)
    requires Agree(pending, queue, all, {}) && Holds(pending, a, n)
    ensures !Holds(queue, a, n) && pending[a].txs[n] in all && pending[a].txs[n].from == a
  {
    assert ListOk(pending[a], a, true);
    assert In(pending, pending[a].txs[n]);
  }

  lemma StaysTidy(lists: Lists, tx: Tx, l: ListState)
    requires NoEmptyList(lists) && Added(ListOf(lists, tx.from, l.strict), tx, l)
    ensures NoEmptyList(lists[tx.from := l])
  {
    assert tx.nonce in l.txs;
  }

  lemma EnqueueTidy(pending: Lists, queue: Lists, all: set<Tx>, tx: Tx, bump: nat)
    requires Agree(pending, queue, all, {}) && NoEmptyList(queue)
    ensures NoEmptyList(Join(queue, false, tx, bump))
  {
    ListsCapped(pending, queue, all, {}, tx.from);
    JoinCases(queue, false, tx, bump);
    match ListOf(queue, tx.from, false).Add(tx, bump)
    case Rejected =>
    case Inserted(l, _) => StaysTidy(queue, tx, l);
  }

  lemma FloorOf(all: set<Tx>, locals: set<Address>, price: nat, tx: Tx)
    requires PriceFloor(all, locals, price) && tx in all
    ensures tx.from in locals || tx.gasPrice >= price
  {
  }

  lemma GainOnePending(was: Lists, before: Lists, now: Lists, a: Address, more: TxMap, tx: Tx)
    requires Gained(was, before, a, more) && tx.from == a && a in now && SameElsewhere(before, now, a)
    requires Added(ListOf(before, a, true), tx, now[a]) && NoEmptyList(before)
    ensures Gained(was, now, a, more[tx.nonce := tx]) && NoEmptyList(now)
  {
    assert tx.nonce in now[a].txs;
    assert now == before[a := now[a]];
  }

  lemma RunEnds(run: TxMap, lo: nat, hi: nat)
    requires Interval(run, lo, hi)
    ensures AtLeast(run, lo) == run && Under(run, lo) == map[]
    ensures AtLeast(run, hi).Values == {} && Under(run, hi) == run
  {
    assert AtLeast(run, hi) == map[];
  }

  /** The next transaction of a run moves from the part still in flight to the part promoted. */
  lemma RunStep(run: TxMap, lo: nat, hi: nat, n: nat)
    requires Keyed(run) && Interval(run, lo, hi) && lo <= n < hi
    ensures n in run && run[n].nonce == n && run[n] in AtLeast(run, n).Values
    ensures AtLeast(run, n + 1).Values == AtLeast(run, n).Values - {run[n]}
    ensures Under(run, n + 1) == Under(run, n)[n := run[n]]
  {
    assert n in AtLeast(run, n);
    CutStep(run, n);
    ValuesLess(AtLeast(run, n), n);
  }

  lemma FilteredAbove(l: ListState, base: nat, costLimit: int, gasLimit: nat)
    requires l.Capped()
    ensures forall n :: n in l.Forward(base).Filter(costLimit, gasLimit).list.txs ==> base <= n
  {
    ForwardShrinks(l, base);
    FilterShrinks(l.Forward(base), costLimit, gasLimit);
  }

  lemma CapKeeps(l: ListState, k: nat)
    ensures forall n :: n in l.Cap(k).txs ==> n in l.txs
  {
  }

  lemma PutTidy(pending: Lists, queue: Lists, all: set<Tx>, a: Address, l: ListState)
    requires Agree(pending, queue[a := l], all, {}) && NoEmptyList(queue)
    ensures Agree(pending, Put(queue, a, l), all, {}) && NoEmptyList(Put(queue, a, l))
  {
    PutQueue(pending, queue, all, {}, a, l);
  }

  lemma LevelKeys(lists: Lists, locals: set<Address>, done: set<Address>, c: nat, now: Lists, a: Address)
    requires Level(lists, locals, done, c, now) && a in lists
    ensures a in now
  {
  }

  /** The number of transactions on some lists. */
  method Count(lists: Lists) returns (n: int)
    ensures n == Total(lists)
  {
    n := 0;
    var rest := lists;
    while rest != map[]
      invariant n + Total(rest) == Total(lists)
      decreases |rest|
    {
      hide Sum;
      var a :| a in rest;
      TotalUpdate(rest, a, rest[a]);
      n := n + |rest[a].txs|;
      rest := rest - {a};
    }
    assert Lengths(rest) == map[];
  }

  lemma LevelReached(lists: Lists, locals: set<Address>, floor: nat, limit: int, c: nat, now: Lists)
    requires Level(lists, locals, {}, c, now) && CapTotal(lists, locals, c + 1) > limit
    requires c >= floor && (Total(now) <= limit || c == floor)
    ensures WaterLevel(lists, locals, floor, limit, c) && now == CapLists(lists, locals, c)
  {
    LevelWhole(lists, locals, c, now);
  }

  lemma LevelTotal(lists: Lists, locals: set<Address>, c: nat, now: Lists)
    requires Level(lists, locals, {}, c, now)
    ensures Total(now) == CapTotal(lists, locals, c)
  {
    LevelWhole(lists, locals, c, now);
  }

  /** Takes the largest entry off the priority queue. */
  method PopLargest(spammers: map<Address, nat>) returns (a: Address, rest: map<Address, nat>)
    requires spammers != map[]
    ensures IsLargest(spammers, a) && rest == spammers - {a} && rest.Keys < spammers.Keys
  {
    LargestExists(spammers);
    a :| IsLargest(spammers, a);
    rest := spammers - {a};
  }

  lemma FloorCut(was: set<Tx>, all: set<Tx>, locals: set<Address>, price: nat)
    requires forall tx :: tx in all <==> tx in was && (tx.from in locals || tx.gasPrice >= price)
    ensures PriceFloor(all, locals, price)
  {
  }

  lemma CapListsRuns(lists: Lists, locals: set<Address>, c: nat)
    requires c >= 1
    ensures var now := CapLists(lists, locals, c);
            && now.Keys == lists.Keys
            && forall a, base: nat :: a in now && RunFrom(lists[a].txs, base) ==> RunFrom(now[a].txs, base)
  {
    hide RunFrom, ListState.Cap;
    var now := CapLists(lists, locals, c);
    forall a, base: nat | a in now && RunFrom(lists[a].txs, base) ensures RunFrom(now[a].txs, base) {
      if a !in locals {
        CappedRun(lists[a], c, base);
      }
    }
  }

  /** Cutting an executable list to at least one transaction leaves it executable. */
  lemma CapExecutable(was: Lists, locals: set<Address>, c: nat, a: Address, base: nat, costLimit: int, gasLimit: nat)
    requires c >= 1 && (a in was ==> Holds(was, a, base) && Payable(was[a], base, costLimit, gasLimit))
    ensures var now := CapLists(was, locals, c);
            a in now ==> a in was && Holds(now, a, base) && Payable(now[a], base, costLimit, gasLimit)
  {
    if a in was && a !in locals {
      var m := was[a].txs;
      var kept := CapTo(m, c);
      assert kept != map[];
      var n :| n in kept;
      assert base <= n;
    }
  }

  lemma CutKeys(was: Lists, now: Lists, locals: set<Address>)
    requires QueueCut(was, now, locals)
    ensures now.Keys <= was.Keys
  {
  }

  lemma CutHolds(was: Lists, now: Lists, locals: set<Address>)
    requires QueueCut(was, now, locals)
    ensures forall a, n: nat :: Holds(now, a, n) ==> Holds(was, a, n)
  {
  }

  /** What a transaction replaces has its sender and its nonce. */
  lemma ReplacedSlot(pending: Lists, queue: Lists, all: set<Tx>, tx: Tx)
    requires Agree(pending, queue, all, {})
    ensures forall t :: t in Replaced(pending, tx) || t in Replaced(queue, tx) ==>
              t.from == tx.from && t.nonce == tx.nonce
  {
  }

  /** The senders of accepted transactions that replaced nothing. */
  ghost function DirtyOf(txs: seq<Tx>, outcomes: seq<AddOutcome>): set<Address> {
    set i | 0 <= i < |outcomes| && i < |txs| && outcomes[i] == Accepted(false) :: txs[i].from
  }

  lemma AdmitNone(txs: seq<Tx>)
    ensures DirtyOf(txs, []) == {}
  {
  }

  /** The transaction is in the batch and was accepted there. */
  ghost predicate Admitted(txs: seq<Tx>, outcomes: seq<AddOutcome>, tx: Tx) {
    exists i :: 0 <= i < |outcomes| && i < |txs| && txs[i] == tx && outcomes[i].Accepted?
  }

  lemma AdmitOne(txs: seq<Tx>, outcomes: seq<AddOutcome>, r: AddOutcome)
    requires |outcomes| < |txs|
    ensures r.Accepted? ==> Admitted(txs, outcomes + [r], txs[|outcomes|])
    ensures forall tx :: Admitted(txs, outcomes, tx) ==> Admitted(txs, outcomes + [r], tx)
    ensures DirtyOf(txs, outcomes + [r]) ==
            DirtyOf(txs, outcomes) + if r == Accepted(false) then {txs[|outcomes|].from} else {}
  {
    var more := outcomes + [r];
    assert more[|outcomes|] == r;
    assert forall i :: 0 <= i < |outcomes| ==> more[i] == outcomes[i];
    forall a
      ensures a in DirtyOf(txs, more) <==>
                a in DirtyOf(txs, outcomes) || (r == Accepted(false) && a == txs[|outcomes|].from)
    {
      if a in DirtyOf(txs, outcomes) {
        var i :| 0 <= i < |outcomes| && i < |txs| && outcomes[i] == Accepted(false) && txs[i].from == a;
        assert more[i] == outcomes[i];
      }
    }
    forall tx | Admitted(txs, outcomes, tx) ensures Admitted(txs, more, tx) {
      var i :| 0 <= i < |outcomes| && i < |txs| && txs[i] == tx && outcomes[i].Accepted?;
      assert more[i] == outcomes[i];
    }
  }

  lemma PutSame(lists: Lists, a: Address, l: ListState)
    ensures forall b :: b != a ==>
              (b in Put(lists, a, l) <==> b in lists) && (b in lists ==> Put(lists, a, l)[b] == lists[b])
    ensures a in Put(lists, a, l) <==> l.txs != map[]
    ensures l.txs != map[] ==> Put(lists, a, l)[a] == l
  {
  }

  /** What demotion keeps is payable and starts at the state nonce. */
  lemma DemotedExecutable(was: Lists, a: Address, base: nat, costLimit: int, gasLimit: nat)
    requires a in was && was[a].Capped() && Demoted(was[a], base, costLimit, gasLimit).txs != map[]
    ensures base in Demoted(was[a], base, costLimit, gasLimit).txs
    ensures Payable(Demoted(was[a], base, costLimit, gasLimit), base, costLimit, gasLimit)
  {
    hide ListState.Forward, ListState.Filter, ListState.Cap, Payable;
    FilterPayable(was[a], base, costLimit, gasLimit);
    CapToNone(was[a].Forward(base).Filter(costLimit, gasLimit).list);
  }

  lemma DrainedDistinct(lists: Lists, locals: set<Address>, floor: nat, offenders: seq<Address>,
                        spammers: map<Address, nat>, c: nat)
    requires Drained(lists, locals, floor, offenders, spammers, c)
    ensures Distinct(offenders)
    ensures forall a :: a in offenders ==> a in lists && a !in locals && |lists[a].txs| >= c
  {
    forall a | a in offenders ensures a !in locals {
      assert a in Heavy(lists, locals, floor + 1);
    }
  }

  /** The largest spammer alone sets the first level, and nothing is cut yet. */
  lemma FirstLevel(lists: Lists, locals: set<Address>, floor: nat, a: Address, c: nat, rest: map<Address, nat>)
    requires Drained(lists, locals, floor, [a], rest, c) && a in lists && |lists[a].txs| == c && floor < c
    ensures Level(lists, locals, {}, c, lists) && CapTotal(lists, locals, c + 1) == Total(lists)
  {
    forall x | x in lists && x !in locals ensures |lists[x].txs| <= c {
      assert x in Heavy(lists, locals, floor + 1) <==> |lists[x].txs| >= floor + 1;
    }
    LevelTop(lists, locals, c);
  }

  lemma NoSpammers(lists: Lists, locals: set<Address>, floor: nat)
    requires Spammers(lists, locals, floor) == map[]
    ensures Level(lists, locals, {}, floor, lists) && CapTotal(lists, locals, floor + 1) == Total(lists)
  {
    forall a | a in lists && a !in locals ensures |lists[a].txs| <= floor {
      assert a !in Spammers(lists, locals, floor);
    }
    LevelTop(lists, locals, floor);
  }

  /** A level that no account reaches, to start from. */
  lemma TopLevel(lists: Lists, locals: set<Address>, floor: nat) returns (c: nat)
    ensures Drained(lists, locals, floor, [], Spammers(lists, locals, floor), c)
    ensures Level(lists, locals, {}, c, lists) && CapTotal(lists, locals, c + 1) == Total(lists)
  {
    SumNonNegative(Lengths(lists));
    c := Total(lists);
    forall a | a in lists ensures |lists[a].txs| <= c {
      assert Lengths(lists)[a] <= c;
    }
    assert Heavy(lists, locals, c + 1) == {};
    LevelTop(lists, locals, c);
    DrainStart(lists, locals, floor, Spammers(lists, locals, floor), c);
  }

  lemma LatestOf(addresses: seq<Address>, rest: set<Address>, beats: map<Address, nat>)
    requires HeartbeatOrder(addresses, rest, beats) && addresses != []
    ensures var last := |addresses| - 1;
            && addresses[last] in rest && (forall b :: b in rest ==> Beat(beats, b) <= Beat(beats, addresses[last]))
            && HeartbeatOrder(addresses[..last], rest - {addresses[last]}, beats)
  {
    var last := |addresses| - 1;
    var a := addresses[last];
    assert a in addresses;
    forall b | b in rest ensures Beat(beats, b) <= Beat(beats, a) && (b != a ==> b in addresses[..last]) {
      var i :| 0 <= i < |addresses| && addresses[i] == b;
      assert i < last ==> addresses[..last][i] == b;
    }
    forall b | b in addresses[..last] ensures b in rest && b != a {
      var i :| 0 <= i < last && addresses[..last][i] == b;
      assert addresses[i] in addresses;
    }
  }

  lemma OrderEmpty(addresses: seq<Address>, rest: set<Address>, beats: map<Address, nat>)
    requires HeartbeatOrder(addresses, rest, beats) && addresses == []
    ensures rest == {}
  {
    EmptyListing(addresses, rest);
  }

  lemma RestQueued(was: Lists, now: Lists, beats: map<Address, nat>, locals: set<Address>, rest: set<Address>,
                   more: bool, a: Address)
    requires Sweeping(was, now, beats, locals, rest, more) && a in rest
    ensures a in now
  {
  }

  lemma SweepEnds(was: Lists, now: Lists, beats: map<Address, nat>, locals: set<Address>, rest: set<Address>,
                  more: bool)
    requires Sweeping(was, now, beats, locals, rest, more)
    ensures QueueCut(was, now, locals) && LatestFirst(was, now, beats, locals)
    ensures more && rest == {} ==> forall a :: a in now ==> a in locals
  {
  }

  /** A remote account that keeps anything beside one that lost something was heard of no later. */
  ghost predicate KeptOlder(was: Lists, now: Lists, beats: map<Address, nat>, locals: set<Address>) {
    forall a, b :: Touched(was, now, a) && b in now && b !in locals && b in beats && beats[b] > 0 ==>
      a in beats && beats[b] <= beats[a]
  }

  lemma LatestInNumbers(was: Lists, now: Lists, beats: map<Address, nat>, locals: set<Address>)
    requires now.Keys <= was.Keys && LatestFirst(was, now, beats, locals)
    ensures KeptOlder(was, now, beats, locals)
  {
    hide Touched;
    forall a, b | Touched(was, now, a) && b in now && b !in locals && b in beats && beats[b] > 0
      ensures a in beats && beats[b] <= beats[a]
    {
      assert b in now.Keys;
      assert Beat(beats, b) <= Beat(beats, a);
    }
  }

  lemma CapAll(lists: Lists, a: Address)
    requires a in lists
    ensures NoEmptyList(lists) ==> Put(lists, a, lists[a].Cap(|lists[a].txs|)) == lists
  {
  }

  /** The highest nonce of a queue that was cut to `k` transactions. */
  lemma DropTop(pending: Lists, was: Lists, queue: Lists, all: set<Tx>, a: Address, k: nat)
    requires a in was && 0 < k <= |was[a].txs| && queue == Put(was, a, was[a].Cap(k))
    requires Agree(pending, queue, all, {})
    ensures a in queue && queue[a].txs != map[]
    ensures var top := Max(queue[a].txs.Keys);
            && In(queue, queue[a].txs[top]) && queue[a].txs[top].from == a && queue[a].txs[top].nonce == top
            && Put(queue, a, queue[a].Remove(top)) == Put(was, a, was[a].Cap(k - 1))
  {
    CapSize(was[a], k);
    assert ListOk(queue[a], a, false);
    CapTop(was[a], k);
  }

  lemma CapTop(l: ListState, k: nat)
    requires 0 < k <= |l.txs| && !l.strict
    ensures l.Cap(k).txs != map[] && l.Cap(k).Remove(Max(l.Cap(k).txs.Keys)) == l.Cap(k - 1)
  {
    var m := l.Cap(k).txs;
    assert m.Keys != {};
    var top := Max(m.Keys);
    assert Under(m, top) == m - {top};
    CapToUnique(m, top);
    CapToCompose(l.txs, k, k - 1);
  }
}

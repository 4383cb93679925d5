/** Processing the transactions of a block one after the other on one state and one gas pool. */
module StateProcessors {
  import opened Prelude
  import opened GasRules
  import opened Transactions
  import opened StateTransitions

  /** The ledgers and the gas left in the block. */
  datatype World = World(balances: Ledger, stamina: Ledger, nonces: Ledger, delegatees: map<Address, Address>,
                         pool: nat) {
    function DelegateeOf(from: Address): Address {
      if from in delegatees then delegatees[from] else NULL_ADDRESS
    }

    function Payer(msg: Message): Payer {
      PayerOf(stamina, DelegateeOf(msg.from), msg)
    }

    function Check(msg: Message, rules: Rules): Option<Failure> {
      Verdict(balances, stamina, Get(nonces, msg.from), DelegateeOf(msg.from), pool, msg, rules)
    }
  }

  datatype Env = Env(rules: Rules, coinbase: Address)

  datatype Tx = Tx(msg: Message, e: Execution)

  datatype Receipt = Receipt(cumulativeGasUsed: nat, gasUsed: nat, failed: bool)

  function GasOf(w: World, tx: Tx, env: Env): (used: nat)
    requires w.Check(tx.msg, env.rules).None?
    ensures used <= tx.msg.gas && (w.Payer(tx.msg) != Nobody ==> used <= w.pool)
  {
    FinalGas(tx.msg.gas, Intrinsic(tx.msg, env.rules), w.Payer(tx.msg), tx.e)
  }

  /** One accepted transaction. */
  function Next(w: World, tx: Tx, env: Env): World
    requires w.Check(tx.msg, env.rules).None?
  {
    var used, payer := GasOf(w, tx, env), w.Payer(tx.msg);
    World(BalancesAfter(w.balances, tx.msg, payer, used, tx.e, env.coinbase),
          StaminaAfter(w.stamina, w.DelegateeOf(tx.msg.from), tx.msg, payer, used, tx.e),
          w.nonces[tx.msg.from := Get(w.nonces, tx.msg.from) + 1], ExecutedDelegatees(w.delegatees, tx.e),
          w.pool - if payer == Nobody then 0 else used)
  }

  /** The world after a block, unless one of its transactions is refused. */
  function After(w: World, txs: seq<Tx>, env: Env): Option<World> {
    if txs == [] then Some(w)
    else
      var before := After(w, txs[..|txs| - 1], env);
      var tx := txs[|txs| - 1];
      if before.Some? && before.value.Check(tx.msg, env.rules).None? then Some(Next(before.value, tx, env)) else None
  }

  lemma {:induction false} AfterPrefix(w: World, txs: seq<Tx>, env: Env, k: nat)
    requires k <= |txs| && After(w, txs, env).Some?
    ensures After(w, txs[..k], env).Some?
    decreases |txs|
  {
    hide World.Check, Next;
    if k < |txs| {
      AfterPrefix(w, txs[..|txs| - 1], env, k);
      assert txs[..|txs| - 1][..k] == txs[..k];
    } else {
      assert txs[..k] == txs;
    }
  }

  /** The world in which a transaction of an accepted block runs. */
  function Before(w: World, txs: seq<Tx>, env: Env, i: nat): World
    requires i < |txs| && After(w, txs, env).Some?
  {
    AfterPrefix(w, txs, env, i);
    After(w, txs[..i], env).value
  }

  /** Gas used by the transactions, all of them or only those that somebody pays for. */
  ghost function GasSum(w: World, txs: seq<Tx>, env: Env, payingOnly: bool): nat
    requires After(w, txs, env).Some?
  {
    if txs == [] then 0
    else
      var before := After(w, txs[..|txs| - 1], env).value;
      var tx := txs[|txs| - 1];
      GasSum(w, txs[..|txs| - 1], env, payingOnly) +
      if payingOnly && before.Payer(tx.msg) == Nobody then 0 else GasOf(before, tx, env)
  }

  /** Ether created by the transactions. */
  ghost function MintedSum(w: World, txs: seq<Tx>, env: Env): nat
    requires After(w, txs, env).Some?
  {
    if txs == [] then 0
    else
      var before := After(w, txs[..|txs| - 1], env).value;
      var tx := txs[|txs| - 1];
      MintedSum(w, txs[..|txs| - 1], env) + Minted(tx.msg, before.Payer(tx.msg), GasOf(before, tx, env), tx.e)
  }

  /** What delegated transactions pay out of stamina. */
  ghost function DelegatedFees(w: World, txs: seq<Tx>, env: Env): nat
    requires After(w, txs, env).Some?
  {
    if txs == [] then 0
    else
      var before := After(w, txs[..|txs| - 1], env).value;
      var tx := txs[|txs| - 1];
      DelegatedFees(w, txs[..|txs| - 1], env) +
      if before.Payer(tx.msg) == Delegatee then Fee(GasOf(before, tx, env), tx.msg.gasPrice) else 0
  }

  /** What the executions themselves do to the stamina in existence. */
  ghost function DriftSum(w: World, txs: seq<Tx>, env: Env): int
    requires After(w, txs, env).Some?
  {
    if txs == [] then 0
    else
      var before := After(w, txs[..|txs| - 1], env).value;
      var tx := txs[|txs| - 1];
      DriftSum(w, txs[..|txs| - 1], env) +
      Drift(before.stamina, before.DelegateeOf(tx.msg.from), tx.msg, before.Payer(tx.msg), tx.e)
  }

  /** Over a block the stamina in existence falls by the fees of the delegated transactions, apart
      from what the executions themselves do to it. */
  lemma {:induction false} StaminaOverBlock(w: World, txs: seq<Tx>, env: Env)
    requires After(w, txs, env).Some?
    ensures Total(After(w, txs, env).value.stamina) ==
              Total(w.stamina) + DriftSum(w, txs, env) - DelegatedFees(w, txs, env)
    decreases |txs|
  {
    if txs != [] {
      var before := After(w, txs[..|txs| - 1], env).value;
      var tx := txs[|txs| - 1];
      StaminaOverBlock(w, txs[..|txs| - 1], env);
      StaminaSpent(before.balances, before.stamina, Get(before.nonces, tx.msg.from), before.DelegateeOf(tx.msg.from),
                   before.pool, tx.msg, env.rules, GasOf(before, tx, env), tx.e);
    }
  }

  /** The gas left in the pool and the gas paid for add up to the gas limit. */
  lemma {:induction false} PoolConserved(w: World, txs: seq<Tx>, env: Env)
    requires After(w, txs, env).Some?
    ensures After(w, txs, env).value.pool + GasSum(w, txs, env, true) == w.pool
    decreases |txs|
  {
    if txs != [] {
      PoolConserved(w, txs[..|txs| - 1], env);
    }
  }

  /** The ether in existence grows by what the transactions mint, and by nothing else. */
  lemma {:induction false} EtherOverBlock(w: World, txs: seq<Tx>, env: Env)
    requires After(w, txs, env).Some?
    ensures Total(After(w, txs, env).value.balances) == Total(w.balances) + MintedSum(w, txs, env)
    decreases |txs|
  {
    if txs != [] {
      var before := After(w, txs[..|txs| - 1], env).value;
      var tx := txs[|txs| - 1];
      EtherOverBlock(w, txs[..|txs| - 1], env);
      EtherConserved(before.balances, before.stamina, Get(before.nonces, tx.msg.from), before.DelegateeOf(tx.msg.from),
                     before.pool, tx.msg, env.rules, GasOf(before, tx, env), tx.e, env.coinbase);
    }
  }

  /** Every transaction of the block is paid by its sender. */
  ghost predicate SenderPaid(w: World, txs: seq<Tx>, env: Env)
    requires After(w, txs, env).Some?
  {
    forall i: nat :: i < |txs| ==> Before(w, txs, env, i).Payer(txs[i].msg) == Sender
  }

  /** A block of sender-paid transactions conserves ether, and its gas fits into the limit. */
  lemma {:induction false} SenderPaidBlock(w: World, txs: seq<Tx>, env: Env)
    requires After(w, txs, env).Some? && SenderPaid(w, txs, env)
    ensures Total(After(w, txs, env).value.balances) == Total(w.balances)
    ensures GasSum(w, txs, env, false) <= w.pool
  {
    NothingMinted(w, txs, env);
    EtherOverBlock(w, txs, env);
    PoolConserved(w, txs, env);
  }

  lemma {:induction false} NothingMinted(w: World, txs: seq<Tx>, env: Env)
    requires After(w, txs, env).Some? && SenderPaid(w, txs, env)
    ensures MintedSum(w, txs, env) == 0 && GasSum(w, txs, env, false) == GasSum(w, txs, env, true)
    decreases |txs|
  {
    hide World.Check, Next;
    if txs != [] {
      var most := txs[..|txs| - 1];
      forall i: nat | i < |most| ensures Before(w, most, env, i).Payer(most[i].msg) == Sender {
        assert most[..i] == txs[..i] && Before(w, txs, env, i).Payer(txs[i].msg) == Sender;
      }
      NothingMinted(w, most, env);
      assert Before(w, txs, env, |txs| - 1).Payer(txs[|txs| - 1].msg) == Sender;
    }
  }

  /** The world that a state and a gas pool stand for. */
  ghost function WorldOf(state: StateDB, gp: GasPool): World
    reads state, gp
  {
    World(state.balances, state.stamina, state.nonces, state.delegatees, gp.gas)
  }

  /** Applies one transaction and adds its gas to the running total, in 64-bit arithmetic. */
  method ApplyTransaction(state: StateDB, gp: GasPool, tx: Tx, env: Env, usedGas: nat)
    returns (receipt: Option<Receipt>)
    requires tx.msg.gas <= MAX_UINT64 && |tx.msg.data| <= MAX_UINT64 && gp.gas <= MAX_UINT64
    modifies state, gp
    ensures receipt.Some? <==> old(WorldOf(state, gp)).Check(tx.msg, env.rules).None?
    ensures receipt.Some? ==>
              && WorldOf(state, gp) == Next(old(WorldOf(state, gp)), tx, env)
              && receipt.value.gasUsed == GasOf(old(WorldOf(state, gp)), tx, env) && receipt.value.failed == tx.e.failed
              && receipt.value.cumulativeGasUsed == (usedGas + receipt.value.gasUsed) % TWO_64
  {
    hide BalancesAfter, StaminaAfter, ExecutedDelegatees, PayerOf, Verdict, Intrinsic, FinalGas;
    var st := new StateTransition(gp, state, tx.msg);
    var r := st.TransitionDb(env.rules, tx.e, env.coinbase);
    match r
    case Refused(_) => return None;
    case Applied(gas, failed) =>
      return Some(Receipt((usedGas + gas) % TWO_64, gas, failed));
  }

  /** Processes a block: it fails exactly when a transaction is refused; otherwise every receipt
      carries the gas of its transaction and the sum of gas up to it. */
  method Process(state: StateDB, txs: seq<Tx>, env: Env, gasLimit: nat)
    returns (gp: GasPool, receipts: Option<seq<Receipt>>, usedGas: nat)
    requires gasLimit <= MAX_UINT64
    requires forall i :: 0 <= i < |txs| ==> txs[i].msg.gas <= MAX_UINT64 && |txs[i].msg.data| <= MAX_UINT64
    modifies state
    ensures fresh(gp)
    ensures var w := World(old(state.balances), old(state.stamina), old(state.nonces), old(state.delegatees), gasLimit);
            && (receipts.Some? <==> After(w, txs, env).Some?) && (receipts.None? ==> usedGas == 0)
            && (receipts.Some? ==>
                  && WorldOf(state, gp) == After(w, txs, env).value && |receipts.value| == |txs|
                  && usedGas == GasSum(w, txs, env, false) % TWO_64
                  && (forall i: nat :: i < |txs| ==> ReceiptAt(w, txs, env, receipts.value, i)))
  {
    hide World.Check, Next, GasOf, After, GasSum, ReceiptAt;
    gp := new GasPool();
    gp.AddGas(gasLimit);
    ghost var w := WorldOf(state, gp);
    var done: seq<Receipt> := [];
    usedGas := 0;
    AfterNothing(w, txs, env);
    for i := 0 to |txs|
      invariant After(w, txs[..i], env) == Some(WorldOf(state, gp)) && gp.gas <= gasLimit && |done| == i && fresh(gp)
      invariant usedGas == GasSum(w, txs[..i], env, false) % TWO_64
      invariant forall j: nat :: j < i ==> ReceiptAt(w, txs, env, done, j)
    {
      AfterOne(w, txs, env, i);
      var receipt := ApplyTransaction(state, gp, txs[i], env, usedGas);
      if receipt.None? {
        if After(w, txs, env).Some? {
          AfterPrefix(w, txs, env, i + 1);
        }
        return gp, None, 0;
      }
      ReceiptAdded(w, txs, env, done, i, receipt.value, usedGas);
      usedGas := receipt.value.cumulativeGasUsed;
      done := done + [receipt.value];
    }
    assert txs[..|txs|] == txs;
    receipts := Some(done);
  }

  lemma AfterNothing(w: World, txs: seq<Tx>, env: Env)
    ensures After(w, txs[..0], env) == Some(w) && GasSum(w, txs[..0], env, false) == 0
  {
  }

  lemma AfterOne(w: World, txs: seq<Tx>, env: Env, i: nat)
    requires i < |txs| && After(w, txs[..i], env).Some?
    ensures var before := After(w, txs[..i], env).value;
            After(w, txs[..i + 1], env) ==
            if before.Check(txs[i].msg, env.rules).None? then Some(Next(before, txs[i], env)) else None
  {
    assert txs[..i + 1][..i] == txs[..i];
  }

  lemma ReceiptAdded(w: World, txs: seq<Tx>, env: Env, done: seq<Receipt>, i: nat, r: Receipt, usedGas: nat)
    requires i < |txs| && |done| == i && After(w, txs[..i], env).Some?
             && usedGas == GasSum(w, txs[..i], env, false) % TWO_64
    requires forall j: nat :: j < i ==> ReceiptAt(w, txs, env, done, j)
    requires var before := After(w, txs[..i], env).value;
             && before.Check(txs[i].msg, env.rules).None? && r.gasUsed == GasOf(before, txs[i], env)
             && r.failed == txs[i].e.failed && r.cumulativeGasUsed == (usedGas + r.gasUsed) % TWO_64
    ensures After(w, txs[..i + 1], env).Some? && After(w, txs[..i + 1], env).value.pool <= w.pool
    ensures r.cumulativeGasUsed == GasSum(w, txs[..i + 1], env, false) % TWO_64
    ensures forall j: nat :: j <= i ==> ReceiptAt(w, txs, env, done + [r], j)
  {
    hide World.Check, Next, GasOf;
    AfterOne(w, txs, env, i);
    assert txs[..i + 1][..i] == txs[..i];
    SumMod(GasSum(w, txs[..i], env, false), r.gasUsed);
    PoolConserved(w, txs[..i + 1], env);
    forall j: nat | j < i ensures ReceiptAt(w, txs, env, done + [r], j) {
      assert ReceiptAt(w, txs, env, done, j);
    }
  }

  /** A receipt of an accepted block: the gas of its transaction, and the gas used so far. */
  ghost predicate ReceiptAt(w: World, txs: seq<Tx>, env: Env, receipts: seq<Receipt>, i: nat) {
    && i < |receipts| && i < |txs| && After(w, txs[..i], env).Some? && After(w, txs[..i + 1], env).Some?
    && After(w, txs[..i], env).value.Check(txs[i].msg, env.rules).None?
    && receipts[i].gasUsed == GasOf(After(w, txs[..i], env).value, txs[i], env)
    && receipts[i].cumulativeGasUsed == GasSum(w, txs[..i + 1], env, false) % TWO_64
    && receipts[i].failed == txs[i].e.failed
  }

  lemma SumMod(a: nat, b: nat)
    ensures (a % TWO_64 + b) % TWO_64 == (a + b) % TWO_64
  {
    assert a == a / TWO_64 * TWO_64 + a % TWO_64;
  }
}

/** Applying a message: who pays for the gas, how much of it is used and given back, and what that
    does to balances, stamina and the gas pool of the block. */
module StateTransitions {
  import opened Prelude
  import opened GasRules
  import opened Transactions

  type Ledger = map<Address, nat>

  datatype Message = Message(from: Address, to: Option<Address>, nonce: nat, checkNonce: bool,
                             gas: nat, gasPrice: nat, value: nat, data: seq<Byte>)

  /** A transfer inside an execution. */
  datatype Move = Move(from: Address, to: Address, amount: nat)

  /** One possible execution of the virtual machine: transfers between accounts, new stamina
      values and delegatees, the gas left over and the refund counter. A failed execution is
      reverted, except for the code deposit of early contract creation, where `kept` stays true. */
  datatype Execution = Execution(moves: seq<Move>, stamina: seq<(Address, nat)>, delegatees: seq<(Address, Address)>,
                                 created: Address, gasLeft: nat, refund: nat, failed: bool, kept: bool)

  datatype Failure = NonceTooHigh | NonceTooLow | InsufficientBalanceForGas | GasLimitReached | OutOfGas
                   | InsufficientBalance

  datatype Outcome = Applied(gasUsed: nat, failed: bool) | Refused(failure: Failure)

  /** Who pays for the gas. */
  datatype Payer = Sender | Delegatee | Nobody

  datatype Rules = Rules(homestead: bool, istanbul: bool)

  function Get(l: Ledger, a: Address): nat {
    if a in l then l[a] else 0
  }

  function Credit(l: Ledger, a: Address, x: nat): Ledger {
    l[a := Get(l, a) + x]
  }

  function Debit(l: Ledger, a: Address, x: nat): Ledger
    requires Get(l, a) >= x
  {
    l[a := Get(l, a) - x]
  }

  ghost function Total(l: Ledger): int {
    Sum(l)
  }

  lemma TotalCredit(l: Ledger, a: Address, x: nat)
    ensures Total(Credit(l, a, x)) == Total(l) + x
  {
    SumUpdate(l, a, Get(l, a) + x);
  }

  lemma TotalDebit(l: Ledger, a: Address, x: nat)
    requires Get(l, a) >= x
    ensures Total(Debit(l, a, x)) == Total(l) - x
  {
    SumUpdate(l, a, Get(l, a) - x);
  }

  predicate CanTransfer(l: Ledger, sender: Address, amount: nat) {
    sender == NULL_ADDRESS || Get(l, sender) >= amount
  }

  /** Moves the amount to the recipient; the null address is not charged. */
  function Transfer(l: Ledger, sender: Address, recipient: Address, amount: nat): (r: Ledger)
    requires CanTransfer(l, sender, amount)
  {
    Credit(if sender != NULL_ADDRESS then Debit(l, sender, amount) else l, recipient, amount)
  }

  /** A transfer conserves ether, except that one from the null address creates it. */
  lemma TotalTransfer(l: Ledger, sender: Address, recipient: Address, amount: nat)
    requires CanTransfer(l, sender, amount)
    ensures Total(Transfer(l, sender, recipient, amount)) == Total(l) + if sender == NULL_ADDRESS then amount else 0
  {
    if sender != NULL_ADDRESS {
      TotalDebit(l, sender, amount);
      TotalCredit(Debit(l, sender, amount), recipient, amount);
    } else {
      TotalCredit(l, recipient, amount);
    }
  }

  /** A transfer account by account: the recipient gains the amount, the sender loses it unless it
      is the null address, and nobody else is touched. */
  lemma TransferredTo(l: Ledger, sender: Address, recipient: Address, amount: nat, a: Address)
    requires CanTransfer(l, sender, amount)
    ensures Get(Transfer(l, sender, recipient, amount), a) ==
            Get(l, a) + (if a == recipient then amount else 0) - (if a == sender && a != 0 then amount else 0)
  {
  }

  /** The transfers of an execution, each made only if it is covered. */
  function PlayMoves(l: Ledger, moves: seq<Move>): Ledger
    decreases |moves|
  {
    if moves == [] then l
    else
      var before := PlayMoves(l, moves[..|moves| - 1]);
      var m := moves[|moves| - 1];
      if Get(before, m.from) >= m.amount then Credit(Debit(before, m.from, m.amount), m.to, m.amount) else before
  }

  /** The next transfer of an execution moves its amount exactly when its sender has it. */
  lemma PlayedNext(l: Ledger, moves: seq<Move>, m: Move, a: Address)
    ensures var before, after := PlayMoves(l, moves), PlayMoves(l, moves + [m]);
            if Get(before, m.from) < m.amount then after == before
            else Get(after, a) == Get(before, a) + (if a == m.to then m.amount else 0)
                                                 - (if a == m.from then m.amount else 0)
  {
    assert (moves + [m])[..|moves|] == moves;
  }

  lemma {:induction false} TotalPlay(l: Ledger, moves: seq<Move>)
    ensures Total(PlayMoves(l, moves)) == Total(l)
    decreases |moves|
  {
    if moves != [] {
      var before := PlayMoves(l, moves[..|moves| - 1]);
      var m := moves[|moves| - 1];
      TotalPlay(l, moves[..|moves| - 1]);
      if Get(before, m.from) >= m.amount {
        TotalDebit(before, m.from, m.amount);
        TotalCredit(Debit(before, m.from, m.amount), m.to, m.amount);
      }
    }
  }

  /** The writes of an execution to a table, the later ones winning. */
  function PlayWrites(l: map<Address, nat>, writes: seq<(Address, nat)>): map<Address, nat>
    decreases |writes|
  {
    if writes == [] then l else PlayWrites(l, writes[..|writes| - 1])[writes[|writes| - 1].0 := writes[|writes| - 1].1]
  }

  ghost predicate Unwritten(writes: seq<(Address, nat)>, a: Address) {
    forall j :: 0 <= j < |writes| ==> writes[j].0 != a
  }

  /** The last write to an account stands, and an account without a write keeps its value. */
  lemma {:induction false} LastWrite(l: map<Address, nat>, writes: seq<(Address, nat)>, a: Address)
    ensures Unwritten(writes, a) ==>
              (a in PlayWrites(l, writes) <==> a in l) && Get(PlayWrites(l, writes), a) == Get(l, a)
    ensures forall i :: 0 <= i < |writes| && writes[i].0 == a && Unwritten(writes[i + 1..], a) ==>
              a in PlayWrites(l, writes) && PlayWrites(l, writes)[a] == writes[i].1
    decreases |writes|
  {
    if writes != [] {
      var m := |writes| - 1;
      var rest := writes[..m];
      LastWrite(l, rest, a);
      if writes[m].0 != a {
        forall i | 0 <= i < |writes| && writes[i].0 == a && Unwritten(writes[i + 1..], a)
          ensures a in PlayWrites(l, rest) && PlayWrites(l, rest)[a] == writes[i].1
        {
          assert rest[i] == writes[i] && rest[i + 1..] == writes[i + 1..m];
          var left, all := rest[i + 1..], writes[i + 1..];
          assert forall j :: 0 <= j < |left| ==> left[j] == all[j];
        }
      } else {
        forall i | 0 <= i < m && writes[i].0 == a ensures !Unwritten(writes[i + 1..], a) {
          assert writes[i + 1..][m - i - 1] == writes[m];
        }
      }
    }
  }

  /** Balances after the call: value transfer and execution, or nothing when it was reverted. */
  function Executed(l: Ledger, msg: Message, e: Execution): Ledger {
    if e.kept && CanTransfer(l, msg.from, msg.value)
    then PlayMoves(Transfer(l, msg.from, if msg.to.Some? then msg.to.value else e.created, msg.value), e.moves)
    else l
  }

  function ExecutedStamina(l: Ledger, e: Execution): Ledger {
    if e.kept then PlayWrites(l, e.stamina) else l
  }

  function ExecutedDelegatees(l: map<Address, Address>, e: Execution): map<Address, Address> {
    if e.kept then PlayWrites(l, e.delegatees) else l
  }

  /** Stamina pays when it covers the up-front cost as the source computes it, in signed 64 bits;
      otherwise the sender does, unless the sender is the null address. */
  function PayerOf(stamina: Ledger, delegatee: Address, msg: Message): Payer {
    if Get(stamina, delegatee) >= msg.gasPrice * ToInt64(msg.gas) then Delegatee
    else if msg.from == NULL_ADDRESS then Nobody
    else Sender
  }

  /** Used gas less the refund, which is capped to half of it. */
  function Refunded(used: nat, counter: nat): nat {
    if used / 2 > counter then used - counter else used - used / 2
  }

  /** The refund takes off the counter, but never more than leaves the upper half. */
  lemma RefundedExactly(used: nat, counter: nat)
    ensures var r := Refunded(used, counter);
            && r <= used && used <= r + counter && used <= 2 * r
            && (r + counter == used || 2 * r == used || 2 * r == used + 1)
  {
  }

  /** Gas used in the end; a free message gets no refund. */
  function FinalGas(gas: nat, intrinsic: nat, payer: Payer, e: Execution): nat
    requires intrinsic <= gas
  {
    var left := if e.gasLeft <= gas - intrinsic then e.gasLeft else gas - intrinsic;
    var used := gas - left;
    if payer == Nobody then used else Refunded(used, e.refund)
  }

  /** Ether that comes into being: stamina and free gas are paid out to the coinbase in ether, and
      the null address transfers value it does not have. */
  function Minted(msg: Message, payer: Payer, used: nat, e: Execution): nat {
    (if payer == Sender then 0 else Fee(used, msg.gasPrice))
      + (if msg.from == NULL_ADDRESS && e.kept then msg.value else 0)
  }

  /** What an amount of gas costs. */
  function Fee(gas: nat, price: nat): nat {
    gas * price
  }

  /** The ledger with the up-front cost taken from an account that covers it. */
  function Charged(l: Ledger, a: Address, cost: nat): Ledger {
    if Get(l, a) >= cost then Debit(l, a, cost) else l
  }

  /** Balances after the whole message: the sender buys gas up front and gets the rest back, and
      the coinbase is paid for what was used. */
  function BalancesAfter(l: Ledger, msg: Message, payer: Payer, used: nat, e: Execution, coinbase: Address): Ledger
    requires used <= msg.gas
  {
    var ran := Executed(Bought(l, msg, payer), msg, e);
    var refunded := if payer == Sender then Credit(ran, msg.from, Fee(msg.gas - used, msg.gasPrice)) else ran;
    Credit(refunded, coinbase, Fee(used, msg.gasPrice))
  }

  function StaminaAfter(l: Ledger, delegatee: Address, msg: Message, payer: Payer, used: nat, e: Execution): Ledger
    requires used <= msg.gas
  {
    if payer == Delegatee
    then Credit(ExecutedStamina(Charged(l, delegatee, Fee(msg.gas, msg.gasPrice)), e), delegatee,
                Fee(msg.gas - used, msg.gasPrice))
    else ExecutedStamina(l, e)
  }

  /** The first check that a message fails before it runs: its nonce, and who can pay for it. */
  function BuyVerdict(balances: Ledger, stamina: Ledger, nonce: nat, delegatee: Address, pool: nat,
                      msg: Message): Option<Failure> {
    var payer, cost := PayerOf(stamina, delegatee, msg), Fee(msg.gas, msg.gasPrice);
    if msg.checkNonce && nonce < msg.nonce then Some(NonceTooHigh)
    else if msg.checkNonce && nonce > msg.nonce then Some(NonceTooLow)
    else if payer == Delegatee && Get(stamina, delegatee) < cost then Some(InsufficientBalanceForGas)
    else if payer == Sender && Get(balances, msg.from) < cost then Some(InsufficientBalanceForGas)
    else if payer != Nobody && pool < msg.gas then Some(GasLimitReached)
    else None
  }

  /** Balances once the gas is bought. */
  function Bought(balances: Ledger, msg: Message, payer: Payer): Ledger {
    if payer == Sender then Charged(balances, msg.from, Fee(msg.gas, msg.gasPrice)) else balances
  }

  /** The first check that a message fails. */
  function Verdict(balances: Ledger, stamina: Ledger, nonce: nat, delegatee: Address, pool: nat, msg: Message,
                   rules: Rules): Option<Failure> {
    var early := BuyVerdict(balances, stamina, nonce, delegatee, pool, msg);
    if early.Some? then early
    else if Intrinsic(msg, rules) > msg.gas then Some(OutOfGas)
    else if !CanTransfer(Bought(balances, msg, PayerOf(stamina, delegatee, msg)), msg.from, msg.value)
    then Some(InsufficientBalance)
    else None
  }

  function Intrinsic(msg: Message, rules: Rules): nat {
    ExactIntrinsicGas(msg.data, msg.to.None?, rules.homestead, rules.istanbul)
  }

  /** The intrinsic gas of a message, in numbers. */
  lemma IntrinsicOf(msg: Message, rules: Rules)
    ensures var zeros := multiset(msg.data)[0];
            Intrinsic(msg, rules) ==
            (if msg.to.None? && rules.homestead then 53000 else 21000)
            + 4 * zeros + (if rules.istanbul then 16 else 68) * (|msg.data| - zeros)
  {
    IntrinsicInNumbers(msg.data, msg.to.None?, rules.homestead, rules.istanbul);
  }

  /** The gas used: what the execution does not leave over, out of what the intrinsic gas leaves
      it, less the refund when somebody pays. */
  lemma UsedExactly(gas: nat, intrinsic: nat, payer: Payer, e: Execution)
    requires intrinsic <= gas
    ensures var spent := if intrinsic + e.gasLeft <= gas then gas - e.gasLeft else intrinsic;
            var used := FinalGas(gas, intrinsic, payer, e);
            && (payer == Nobody ==> used == spent)
            && (payer != Nobody ==> used <= spent <= used + e.refund && spent <= 2 * used)
            && (payer != Nobody ==> used + e.refund == spent || 2 * used == spent || 2 * used == spent + 1)
  {
    RefundedExactly(if intrinsic + e.gasLeft <= gas then gas - e.gasLeft else intrinsic, e.refund);
  }

  lemma FeeSplit(gas: nat, used: nat, price: nat)
    requires used <= gas
    ensures Fee(gas - used, price) + Fee(used, price) == Fee(gas, price)
  {
    assert (gas - used) * price + used * price == gas * price;
  }

  lemma TotalExecuted(l: Ledger, msg: Message, e: Execution)
    requires CanTransfer(l, msg.from, msg.value)
    ensures Total(Executed(l, msg, e)) == Total(l) + if msg.from == NULL_ADDRESS && e.kept then msg.value else 0
  {
    if e.kept {
      var to := if msg.to.Some? then msg.to.value else e.created;
      TotalTransfer(l, msg.from, to, msg.value);
      TotalPlay(Transfer(l, msg.from, to, msg.value), e.moves);
    }
  }

  /** An accepted message changes the ether in existence by exactly what it mints: nothing when
      the sender pays. */
  lemma EtherConserved(l: Ledger, stamina: Ledger, nonce: nat, delegatee: Address, pool: nat, msg: Message,
                       rules: Rules, used: nat, e: Execution, coinbase: Address)
    requires Verdict(l, stamina, nonce, delegatee, pool, msg, rules).None? && used <= msg.gas
    ensures var payer := PayerOf(stamina, delegatee, msg);
            Total(BalancesAfter(l, msg, payer, used, e, coinbase)) == Total(l) + Minted(msg, payer, used, e)
  {
    hide Total, Executed, Fee, PayerOf, Intrinsic;
    var payer, cost := PayerOf(stamina, delegatee, msg), Fee(msg.gas, msg.gasPrice);
    var bought := Bought(l, msg, payer);
    var ran := Executed(bought, msg, e);
    TotalExecuted(bought, msg, e);
    if payer == Sender {
      TotalDebit(l, msg.from, cost);
      TotalCredit(ran, msg.from, Fee(msg.gas - used, msg.gasPrice));
      TotalCredit(Credit(ran, msg.from, Fee(msg.gas - used, msg.gasPrice)), coinbase, Fee(used, msg.gasPrice));
      FeeSplit(msg.gas, used, msg.gasPrice);
    } else {
      TotalCredit(ran, coinbase, Fee(used, msg.gasPrice));
    }
  }

  /** What an accepted message does to each balance, when its execution makes no transfers of its
      own: the value moves if the execution is kept, the sender who pays loses the price of the
      used gas, and the coinbase gains it. */
  lemma BalanceAfter(l: Ledger, stamina: Ledger, nonce: nat, delegatee: Address, pool: nat, msg: Message, rules: Rules,
                     used: nat, e: Execution, coinbase: Address, a: Address)
    requires Verdict(l, stamina, nonce, delegatee, pool, msg, rules).None? && used <= msg.gas && e.moves == []
    ensures var payer := PayerOf(stamina, delegatee, msg);
            var to := if msg.to.Some? then msg.to.value else e.created;
            Get(BalancesAfter(l, msg, payer, used, e, coinbase), a) ==
            Get(l, a) + (if e.kept && a == to then msg.value else 0)
                      - (if e.kept && a == msg.from && a != 0 then msg.value else 0)
                      - (if payer == Sender && a == msg.from then used * msg.gasPrice else 0)
                      + (if a == coinbase then used * msg.gasPrice else 0)
  {
    hide PayerOf, Intrinsic, Executed, Bought, Credit, Fee, Verdict, BuyVerdict;
    var payer := PayerOf(stamina, delegatee, msg);
    var bought := Bought(l, msg, payer);
    var ran, rest := Executed(bought, msg, e), Fee(msg.gas - used, msg.gasPrice);
    BoughtOf(l, stamina, nonce, delegatee, pool, msg, rules, a);
    ExecutedOf(bought, msg, e, a);
    CreditOf(ran, msg.from, rest, a);
    CreditOf(if payer == Sender then Credit(ran, msg.from, rest) else ran, coinbase, Fee(used, msg.gasPrice), a);
    FeeSplit(msg.gas, used, msg.gasPrice);
    FeeOf(used, msg.gasPrice);
  }

  lemma FeeOf(gas: nat, price: nat)
    ensures Fee(gas, price) == gas * price
  {
  }

  lemma CreditOf(l: Ledger, to: Address, x: nat, a: Address)
    ensures Get(Credit(l, to, x), a) == Get(l, a) + if a == to then x else 0
  {
  }

  lemma BoughtOf(l: Ledger, stamina: Ledger, nonce: nat, delegatee: Address, pool: nat, msg: Message, rules: Rules,
                 a: Address)
    requires Verdict(l, stamina, nonce, delegatee, pool, msg, rules).None?
    ensures var payer := PayerOf(stamina, delegatee, msg);
            && CanTransfer(Bought(l, msg, payer), msg.from, msg.value)
            && Get(Bought(l, msg, payer), a) ==
                 Get(l, a) - if payer == Sender && a == msg.from then Fee(msg.gas, msg.gasPrice) else 0
  {
    hide PayerOf, Intrinsic, Fee;
  }

  lemma ExecutedOf(l: Ledger, msg: Message, e: Execution, a: Address)
    requires CanTransfer(l, msg.from, msg.value) && e.moves == []
    ensures var to := if msg.to.Some? then msg.to.value else e.created;
            Get(Executed(l, msg, e), a) ==
            Get(l, a) + (if e.kept && a == to then msg.value else 0)
                      - (if e.kept && a == msg.from && a != 0 then msg.value else 0)
  {
    hide Transfer;
    if e.kept {
      TransferredTo(l, msg.from, if msg.to.Some? then msg.to.value else e.created, msg.value, a);
    }
  }

  /** What an accepted message does to the stamina of an account that its execution does not write:
      a delegatee who pays loses the price of the used gas, and nobody else is touched. */
  lemma StaminaOf(balances: Ledger, l: Ledger, nonce: nat, delegatee: Address, pool: nat, msg: Message, rules: Rules,
                  used: nat, e: Execution, a: Address)
    requires Verdict(balances, l, nonce, delegatee, pool, msg, rules).None? && used <= msg.gas
    requires Unwritten(e.stamina, a) || !e.kept
    ensures var payer := PayerOf(l, delegatee, msg);
            Get(StaminaAfter(l, delegatee, msg, payer, used, e), a) ==
            Get(l, a) - (if payer == Delegatee && a == delegatee then used * msg.gasPrice else 0)
  {
    hide PayerOf, Intrinsic, PlayWrites;
    var cost := Fee(msg.gas, msg.gasPrice);
    LastWrite(if PayerOf(l, delegatee, msg) == Delegatee then Charged(l, delegatee, cost) else l, e.stamina, a);
    FeeSplit(msg.gas, used, msg.gasPrice);
  }

  /** The stamina and the delegatee of an account that a kept execution writes are what it wrote
      last, and a paying delegatee gets back the price of the unused gas on top. */
  lemma WrittenOf(l: Ledger, delegatees: map<Address, Address>, delegatee: Address, msg: Message, payer: Payer,
                  used: nat, e: Execution, i: nat)
    requires used <= msg.gas && e.kept
    ensures i < |e.stamina| && Unwritten(e.stamina[i + 1..], e.stamina[i].0) ==>
              Get(StaminaAfter(l, delegatee, msg, payer, used, e), e.stamina[i].0) == e.stamina[i].1
              + if payer == Delegatee && e.stamina[i].0 == delegatee then (msg.gas - used) * msg.gasPrice else 0
    ensures i < |e.delegatees| && Unwritten(e.delegatees[i + 1..], e.delegatees[i].0) ==>
              Get(ExecutedDelegatees(delegatees, e), e.delegatees[i].0) == e.delegatees[i].1
  {
    hide PlayWrites;
    if i < |e.stamina| {
      LastWrite(if payer == Delegatee then Charged(l, delegatee, Fee(msg.gas, msg.gasPrice)) else l, e.stamina,
                e.stamina[i].0);
    }
    if i < |e.delegatees| {
      LastWrite(delegatees, e.delegatees, e.delegatees[i].0);
    }
  }

  /** A delegatee that no kept execution writes stays as it was. */
  lemma DelegateeKept(delegatees: map<Address, Address>, e: Execution, a: Address)
    requires Unwritten(e.delegatees, a) || !e.kept
    ensures var r := ExecutedDelegatees(delegatees, e);
            (a in r <==> a in delegatees) && Get(r, a) == Get(delegatees, a)
  {
    LastWrite(delegatees, e.delegatees, a);
  }

  /** Who pays, in numbers. */
  lemma PaidBy(stamina: Ledger, delegatee: Address, msg: Message)
    requires msg.gas <= MAX_UINT64
    ensures var payer := PayerOf(stamina, delegatee, msg);
            && (payer == Delegatee <==>
                  msg.gas >= 0x8000_0000_0000_0000 || Get(stamina, delegatee) >= msg.gas * msg.gasPrice)
            && (payer == Nobody <==> payer != Delegatee && msg.from == 0)
  {
    if msg.gas >= TWO_63 {
      assert msg.gasPrice * ToInt64(msg.gas) <= 0;
    }
  }

  /** A message is accepted exactly when its nonce fits, whoever pays has the price of the gas
      limit, the block has that gas left unless it is free, the limit covers the intrinsic gas and
      what is left covers the value. */
  lemma AcceptedExactly(balances: Ledger, stamina: Ledger, nonce: nat, delegatee: Address, pool: nat, msg: Message,
                        rules: Rules)
    ensures var payer := PayerOf(stamina, delegatee, msg);
            var cost := msg.gas * msg.gasPrice;
            Verdict(balances, stamina, nonce, delegatee, pool, msg, rules).None? <==>
              && (msg.checkNonce ==> nonce == msg.nonce)
              && (payer == Delegatee ==> cost <= Get(stamina, delegatee))
              && (payer == Sender ==> cost <= Get(balances, msg.from))
              && (payer != Nobody ==> msg.gas <= pool)
              && Intrinsic(msg, rules) <= msg.gas
              && (msg.from != 0 ==> msg.value + (if payer == Sender then cost else 0) <= Get(balances, msg.from))
  {
    hide Intrinsic;
  }

  /** The refusals, each at the first check that fails. */
  lemma RefusedBecause(balances: Ledger, stamina: Ledger, nonce: nat, delegatee: Address, pool: nat, msg: Message,
                       rules: Rules)
    ensures var payer, cost := PayerOf(stamina, delegatee, msg), msg.gas * msg.gasPrice;
            var funds := if payer == Delegatee then Get(stamina, delegatee) else Get(balances, msg.from);
            var inOrder := msg.checkNonce ==> msg.nonce == nonce;
            var bought := inOrder && (payer != Nobody ==> cost <= funds && msg.gas <= pool);
            var failure := Verdict(balances, stamina, nonce, delegatee, pool, msg, rules);
            && (failure == Some(NonceTooHigh) <==> msg.checkNonce && msg.nonce > nonce)
            && (failure == Some(NonceTooLow) <==> msg.checkNonce && msg.nonce < nonce)
            && (failure == Some(InsufficientBalanceForGas) <==> inOrder && payer != Nobody && funds < cost)
            && (failure == Some(GasLimitReached) <==> inOrder && payer != Nobody && cost <= funds && pool < msg.gas)
            && (failure == Some(OutOfGas) <==> bought && msg.gas < Intrinsic(msg, rules))
            && (failure == Some(InsufficientBalance) <==>
                  && bought && Intrinsic(msg, rules) <= msg.gas && msg.from != 0
                  && Get(balances, msg.from) < msg.value + if payer == Sender then cost else 0)
  {
    hide Intrinsic;
  }

  /** What the execution itself does to the stamina in existence. */
  ghost function Drift(l: Ledger, delegatee: Address, msg: Message, payer: Payer, e: Execution): int {
    var bought := if payer == Delegatee then Charged(l, delegatee, Fee(msg.gas, msg.gasPrice)) else l;
    Total(ExecutedStamina(bought, e)) - Total(bought)
  }

  /** A delegated message takes exactly the price of the used gas out of the stamina. */
  lemma StaminaSpent(balances: Ledger, l: Ledger, nonce: nat, delegatee: Address, pool: nat, msg: Message, rules: Rules,
                     used: nat, e: Execution)
    requires Verdict(balances, l, nonce, delegatee, pool, msg, rules).None? && used <= msg.gas
    ensures var payer := PayerOf(l, delegatee, msg);
            Total(StaminaAfter(l, delegatee, msg, payer, used, e)) ==
            Total(l) + Drift(l, delegatee, msg, payer, e) - if payer == Delegatee then Fee(used, msg.gasPrice) else 0
  {
    hide Total, Fee, PayerOf, Intrinsic;
    if PayerOf(l, delegatee, msg) == Delegatee {
      var bought := Charged(l, delegatee, Fee(msg.gas, msg.gasPrice));
      TotalDebit(l, delegatee, Fee(msg.gas, msg.gasPrice));
      TotalCredit(ExecutedStamina(bought, e), delegatee, Fee(msg.gas - used, msg.gasPrice));
      FeeSplit(msg.gas, used, msg.gasPrice);
    }
  }

  class GasPool {
    var gas: nat

    constructor ()
      ensures gas == 0
    {
      gas := 0;
    }

    /** Adds gas; the caller must stay within 64 bits, where the source panics. */
    method AddGas(amount: nat)
      requires gas <= MAX_UINT64 - amount
      modifies this
      ensures gas == old(gas) + amount
    {
      gas := gas + amount;
    }

    method SubGas(amount: nat) returns (ok: bool)
      modifies this
      ensures ok <==> old(gas) >= amount
      ensures gas == if ok then old(gas) - amount else old(gas)
    {
      if gas < amount {
        return false;
      }
      gas := gas - amount;
      return true;
    }
  }

  class StateDB {
    var balances: Ledger
    var stamina: Ledger
    var nonces: Ledger
    var delegatees: map<Address, Address>

    constructor ()
      ensures balances == map[] && stamina == map[] && nonces == map[] && delegatees == map[]
    {
      balances, stamina, nonces, delegatees := map[], map[], map[], map[];
    }

    function DelegateeOf(from: Address): Address
      reads this
    {
      if from in delegatees then delegatees[from] else NULL_ADDRESS
    }
  }

  /** The up-front cost is computed in signed 64 bits: the delegatee is chosen exactly when its
      stamina covers the cost, unless the gas limit does not fit and the cost is not covered. */
  lemma DelegatedWhenCovered(stamina: Ledger, delegatee: Address, msg: Message)
    requires msg.gas <= MAX_UINT64
    ensures var covered := Get(stamina, delegatee) >= Fee(msg.gas, msg.gasPrice);
            (PayerOf(stamina, delegatee, msg) == Delegatee <==> covered) <==> (covered || msg.gas < TWO_63)
  {
    if msg.gas >= TWO_63 {
      assert msg.gasPrice * ToInt64(msg.gas) <= 0;
    }
  }

  /** A message whose gas limit is one too many for signed 64 bits is refused for want of stamina,
      although its sender could pay; with one unit less it passes the purchase. */
  lemma DelegatedUncovered(msg: Message, balances: Ledger)
    requires msg.from != NULL_ADDRESS && msg.gas == TWO_63 && msg.gasPrice == 1 && !msg.checkNonce
    requires Get(balances, msg.from) == TWO_64
    ensures PayerOf(map[], NULL_ADDRESS, msg) == Delegatee
    ensures BuyVerdict(balances, map[], 0, NULL_ADDRESS, MAX_UINT64, msg) == Some(InsufficientBalanceForGas)
    ensures PayerOf(map[], NULL_ADDRESS, msg.(gas := TWO_63 - 1)) == Sender
    ensures BuyVerdict(balances, map[], 0, NULL_ADDRESS, MAX_UINT64, msg.(gas := TWO_63 - 1)) == None
  {
  }

  class StateTransition {
    const gp: GasPool
    const state: StateDB
    const msg: Message
    var gas: nat
    var initialGas: nat

    constructor (gp: GasPool, state: StateDB, msg: Message)
      ensures this.gp == gp && this.state == state && this.msg == msg && gas == 0 && initialGas == 0
    {
      this.gp, this.state, this.msg, gas, initialGas := gp, state, msg, 0, 0;
    }

    method UseGas(amount: nat) returns (ok: bool)
      modifies `gas
      ensures ok <==> old(gas) >= amount
      ensures gas == if ok then old(gas) - amount else old(gas)
    {
      if gas < amount {
        return false;
      }
      gas := gas - amount;
      return true;
    }

    method BuyGas() returns (failure: Option<Failure>)
      requires gas == 0
      modifies this, gp, state`balances
      ensures failure.None? ==> gas == msg.gas && initialGas == msg.gas
      ensures msg.from == NULL_ADDRESS ==>
                failure.None? && gp.gas == old(gp.gas) && state.balances == old(state.balances)
      ensures msg.from != NULL_ADDRESS ==>
                && failure ==
                     (if Get(old(state.balances), msg.from) < Fee(msg.gas, msg.gasPrice)
                      then Some(InsufficientBalanceForGas)
                      else if old(gp.gas) < msg.gas then Some(GasLimitReached) else None)
                && (failure.None? ==> gp.gas == old(gp.gas) - msg.gas)
                && (failure.None? ==>
                    state.balances == Charged(old(state.balances), msg.from, Fee(msg.gas, msg.gasPrice)))
    {
      if msg.from == NULL_ADDRESS {
        gas, initialGas := gas + msg.gas, msg.gas;
        return None;
      }
      var mgval := msg.gas * msg.gasPrice;
      if Get(state.balances, msg.from) < mgval {
        return Some(InsufficientBalanceForGas);
      }
      var ok := gp.SubGas(msg.gas);
      if !ok {
        return Some(GasLimitReached);
      }
      gas, initialGas := gas + msg.gas, msg.gas;
      state.balances := Debit(state.balances, msg.from, mgval);
      return None;
    }

    method BuyDelegateeGas(delegatee: Address) returns (failure: Option<Failure>)
      requires gas == 0
      modifies this, gp, state`stamina
      ensures failure ==
                (if Get(old(state.stamina), delegatee) < Fee(msg.gas, msg.gasPrice) then Some(InsufficientBalanceForGas)
                 else if old(gp.gas) < msg.gas then Some(GasLimitReached) else None)
      ensures failure.None? ==> gas == msg.gas && initialGas == msg.gas && gp.gas == old(gp.gas) - msg.gas
      ensures failure.None? ==> state.stamina == Charged(old(state.stamina), delegatee, Fee(msg.gas, msg.gasPrice))
    {
      var mgval := msg.gas * msg.gasPrice;
      if Get(state.stamina, delegatee) < mgval {
        return Some(InsufficientBalanceForGas);
      }
      var ok := gp.SubGas(msg.gas);
      if !ok {
        return Some(GasLimitReached);
      }
      gas, initialGas := gas + msg.gas, msg.gas;
      state.stamina := Debit(state.stamina, delegatee, mgval);
      return None;
    }

    method CheckNonce() returns (failure: Option<Failure>)
      ensures failure == if msg.checkNonce && Get(state.nonces, msg.from) < msg.nonce then Some(NonceTooHigh)
                         else if msg.checkNonce && Get(state.nonces, msg.from) > msg.nonce then Some(NonceTooLow)
                         else None
    {
      failure := None;
      if msg.checkNonce {
        var nonce := Get(state.nonces, msg.from);
        if nonce < msg.nonce {
          return Some(NonceTooHigh);
        } else if nonce > msg.nonce {
          return Some(NonceTooLow);
        }
      }
    }

    /** Pays the intrinsic gas and runs the message. */
    method Execute(rules: Rules, e: Execution) returns (failure: Option<Failure>)
      requires gas == initialGas == msg.gas <= MAX_UINT64 && |msg.data| <= MAX_UINT64
      modifies `gas, state
      ensures failure == if Intrinsic(msg, rules) > msg.gas then Some(OutOfGas)
                         else if !CanTransfer(old(state.balances), msg.from, msg.value) then Some(InsufficientBalance)
                         else None
      ensures failure.None? ==>
                && msg.gas - gas == FinalGas(msg.gas, Intrinsic(msg, rules), Nobody, e)
                && state.balances == Executed(old(state.balances), msg, e)
                && state.stamina == ExecutedStamina(old(state.stamina), e)
                && state.delegatees == ExecutedDelegatees(old(state.delegatees), e)
                && state.nonces == old(state.nonces)[msg.from := Get(old(state.nonces), msg.from) + 1]
    {
      var intrinsic := ComputeIntrinsicGas(msg.data, msg.to.None?, rules.homestead, rules.istanbul);
      if intrinsic.None? {
        return Some(OutOfGas);
      }
      var ok := UseGas(intrinsic.value);
      if !ok {
        return Some(OutOfGas);
      }
      state.nonces := state.nonces[msg.from := Get(state.nonces, msg.from) + 1];
      if !CanTransfer(state.balances, msg.from, msg.value) {
        return Some(InsufficientBalance);
      }
      state.balances, state.stamina := Executed(state.balances, msg, e), ExecutedStamina(state.stamina, e);
      state.delegatees := ExecutedDelegatees(state.delegatees, e);
      if e.gasLeft < gas {
        gas := e.gasLeft;
      }
      return None;
    }

    /** Adds the refund counter, capped to half of the used gas, to the remaining gas. */
    method ApplyRefund(refundCounter: nat)
      requires gas <= initialGas
      modifies `gas
      ensures gas <= initialGas && old(gas) <= gas <= old(gas) + refundCounter
      ensures initialGas - gas == Refunded(initialGas - old(gas), refundCounter)
      ensures gas == old(gas) + refundCounter || 2 * (initialGas - gas) - (initialGas - old(gas)) in {0, 1}
      ensures 2 * (initialGas - gas) >= initialGas - old(gas)
    {
      var refund := (initialGas - gas) / 2;
      if refund > refundCounter {
        refund := refundCounter;
      }
      gas := gas + refund;
    }

    method RefundGas(refundCounter: nat)
      requires gas <= initialGas && gp.gas + initialGas <= MAX_UINT64
      modifies `gas, gp, state`balances
      ensures gas <= initialGas
      ensures initialGas - gas == Refunded(initialGas - old(gas), refundCounter)
      ensures gp.gas == old(gp.gas) + gas
              && state.balances == Credit(old(state.balances), msg.from, Fee(gas, msg.gasPrice))
    {
      ApplyRefund(refundCounter);
      var remaining := gas * msg.gasPrice;
      state.balances := Credit(state.balances, msg.from, remaining);
      gp.AddGas(gas);
    }

    method RefundDelegateeGas(delegatee: Address, refundCounter: nat)
      requires gas <= initialGas && gp.gas + initialGas <= MAX_UINT64
      modifies `gas, gp, state`stamina
      ensures gas <= initialGas
      ensures initialGas - gas == Refunded(initialGas - old(gas), refundCounter)
      ensures gp.gas == old(gp.gas) + gas
              && state.stamina == Credit(old(state.stamina), delegatee, Fee(gas, msg.gasPrice))
    {
      ApplyRefund(refundCounter);
      var remaining := gas * msg.gasPrice;
      state.stamina := Credit(state.stamina, delegatee, remaining);
      gp.AddGas(gas);
    }

    /** Checks the nonce, decides who pays and buys the gas. */
    method Buy(delegatee: Address) returns (payer: Payer, failure: Option<Failure>)
      requires gas == 0
      modifies this, gp, state`balances, state`stamina
      ensures payer == PayerOf(old(state.stamina), delegatee, msg)
      ensures failure ==
                BuyVerdict(old(state.balances), old(state.stamina), Get(state.nonces, msg.from), delegatee, old(gp.gas),
                           msg)
      ensures failure.None? ==>
                && gas == msg.gas && initialGas == msg.gas
                && gp.gas == old(gp.gas) - (if payer == Nobody then 0 else msg.gas)
                && state.balances == Bought(old(state.balances), msg, payer)
                && state.stamina ==
                     if payer == Delegatee then Charged(old(state.stamina), delegatee, Fee(msg.gas, msg.gasPrice))
                     else old(state.stamina)
    {
      hide Fee, Charged;
      var availableStamina := Get(state.stamina, delegatee);
      var upfrontGasCost := msg.gasPrice * ToInt64(msg.gas);
      payer := if availableStamina >= upfrontGasCost then Delegatee
               else if msg.from == NULL_ADDRESS then Nobody
               else Sender;
      failure := CheckNonce();
      if failure.Some? {
        return;
      }
      if payer == Delegatee {
        failure := BuyDelegateeGas(delegatee);
      } else {
        failure := BuyGas();
      }
    }

    /** Gives back the remaining gas and pays the coinbase for the used gas. */
    method Settle(payer: Payer, delegatee: Address, refundCounter: nat, coinbase: Address) returns (used: nat)
      requires gas <= initialGas == msg.gas && gp.gas <= MAX_UINT64
               && (payer != Nobody ==> gp.gas + msg.gas <= MAX_UINT64)
      requires payer == Sender ==> msg.from != NULL_ADDRESS
      requires payer == Nobody ==> msg.from == NULL_ADDRESS
      modifies this, gp, state`balances, state`stamina
      ensures used == (if payer == Nobody then msg.gas - old(gas) else Refunded(msg.gas - old(gas), refundCounter))
              && used <= msg.gas
      ensures gp.gas == old(gp.gas) + if payer == Nobody then 0 else msg.gas - used
      ensures state.balances ==
              Credit(if payer == Sender then Credit(old(state.balances), msg.from, Fee(msg.gas - used, msg.gasPrice))
                     else old(state.balances),
                     coinbase, Fee(used, msg.gasPrice))
      ensures state.stamina ==
              if payer == Delegatee then Credit(old(state.stamina), delegatee, Fee(msg.gas - used, msg.gasPrice))
              else old(state.stamina)
    {
      hide Fee, Credit, Refunded;
      if payer == Delegatee {
        RefundDelegateeGas(delegatee, refundCounter);
      } else if msg.from != NULL_ADDRESS {
        RefundGas(refundCounter);
      }
      used := initialGas - gas;
      state.balances := Credit(state.balances, coinbase, Fee(used, msg.gasPrice));
    }

    /** Applies the message: refused exactly when a check fails, and otherwise with the gas, the
        balances, the stamina and the pool accounted for to the last unit. */
    method TransitionDb(rules: Rules, e: Execution, coinbase: Address) returns (r: Outcome)
      requires gas == 0 && msg.gas <= MAX_UINT64 && |msg.data| <= MAX_UINT64 && gp.gas <= MAX_UINT64
      modifies this, gp, state
      ensures var delegatee := if msg.from in old(state.delegatees) then old(state.delegatees)[msg.from] else 0;
              var payer := PayerOf(old(state.stamina), delegatee, msg);
              var verdict := Verdict(old(state.balances), old(state.stamina), Get(old(state.nonces), msg.from),
                                     delegatee, old(gp.gas), msg, rules);
              && (r.Refused? <==> verdict.Some?) && (r.Refused? ==> Some(r.failure) == verdict)
              && (r.Applied? ==>
                    && Intrinsic(msg, rules) <= msg.gas
                    && r.gasUsed == FinalGas(msg.gas, Intrinsic(msg, rules), payer, e) && r.failed == e.failed
                    && gp.gas == old(gp.gas) - (if payer == Nobody then 0 else r.gasUsed)
                    && state.balances == BalancesAfter(old(state.balances), msg, payer, r.gasUsed, e, coinbase)
                    && state.stamina == StaminaAfter(old(state.stamina), delegatee, msg, payer, r.gasUsed, e)
                    && state.nonces == old(state.nonces)[msg.from := Get(old(state.nonces), msg.from) + 1]
                    && state.delegatees == ExecutedDelegatees(old(state.delegatees), e))
    {
      hide Fee, Intrinsic, Executed, ExecutedStamina, ExecutedDelegatees, Charged, Credit, Bought, Refunded, BuyVerdict;
      var delegatee := state.DelegateeOf(msg.from);
      var payer, failure := Buy(delegatee);
      if failure.Some? {
        return Refused(failure.value);
      }
      failure := Execute(rules, e);
      if failure.Some? {
        return Refused(failure.value);
      }
      var gasUsed := Settle(payer, delegatee, e.refund, coinbase);
      return Applied(gasUsed, e.failed);
    }
  }
}

/** The views of the transaction pool as values, the relations that must hold between them,
    and how each elementary change keeps those relations. */
module PoolModel {
  import opened Prelude
  import opened Transactions

  type Lists = map<Address, ListState>

  /** Account `a` has a transaction with nonce `n` in `lists`. */
  predicate Holds(lists: Lists, a: Address, n: nat) {
    a in lists && n in lists[a].txs
  }

  predicate In(lists: Lists, tx: Tx) {
    Holds(lists, tx.from, tx.nonce) && lists[tx.from].txs[tx.nonce] == tx
  }

  ghost predicate ListOk(l: ListState, a: Address, strict: bool) {
    && l.strict == strict && l.Capped()
    && forall n :: n in l.txs ==> l.txs[n].from == a
  }

  ghost predicate ListsOk(lists: Lists, strict: bool) {
    forall a :: a in lists ==> ListOk(lists[a], a, strict)
  }

  ghost predicate NoEmptyList(lists: Lists) {
    forall a :: a in lists ==> lists[a].txs != map[]
  }

  /** Transactions in flight are between two lists: known to the index, on no list, and no
      list holds their nonce. */
  ghost predicate Airborne(pending: Lists, queue: Lists, flight: set<Tx>) {
    && (forall tx :: tx in flight ==> !Holds(pending, tx.from, tx.nonce) && !Holds(queue, tx.from, tx.nonce))
    && (forall t, u :: t in flight && u in flight && t.from == u.from && t.nonce == u.nonce ==> t == u)
  }

  /** The index is the disjoint union of pending, queue and the transactions in flight, and no
      account has one nonce on both lists. */
  ghost predicate Agree(pending: Lists, queue: Lists, all: set<Tx>, flight: set<Tx>) {
    && ListsOk(pending, true) && ListsOk(queue, false)
    && (forall tx :: tx in all <==> In(pending, tx) || In(queue, tx) || tx in flight)
    && (forall a, n :: Holds(pending, a, n) ==> !Holds(queue, a, n))
    && Airborne(pending, queue, flight)
  }

  function ListOf(lists: Lists, a: Address, strict: bool): ListState {
    if a in lists then lists[a] else EmptyList(strict)
  }

  /** `l` keeps part of the transactions of `was` and nothing else. */
  ghost predicate Shrunk(was: ListState, l: ListState) {
    && l.strict == was.strict && l.Capped()
    && forall n :: n in l.txs ==> n in was.txs && l.txs[n] == was.txs[n]
  }

  /** What a list lost. */
  ghost function Lost(was: ListState, l: ListState): set<Tx> {
    Without(was.txs, l.txs).Values
  }

  lemma LostMember(was: ListState, l: ListState, tx: Tx)
    requires Keyed(was.txs) && Shrunk(was, l)
    ensures tx in Lost(was, l) <==> tx.nonce in was.txs && was.txs[tx.nonce] == tx && tx.nonce !in l.txs
  {
    var gone := Without(was.txs, l.txs);
    if tx.nonce in gone && gone[tx.nonce] == tx {
      assert gone[tx.nonce] in gone.Values;
    }
  }

  /** Transactions that leave a pending list are in flight. */
  lemma ShrinkPending(pending: Lists, queue: Lists, all: set<Tx>, flight: set<Tx>, a: Address, l: ListState)
    requires Agree(pending, queue, all, flight) && a in pending && Shrunk(pending[a], l)
    ensures Agree(pending[a := l], queue, all, flight + Lost(pending[a], l))
  {
    var was, p, f := pending[a], pending[a := l], flight + Lost(pending[a], l);
    assert ListOk(was, a, true);
    forall tx ensures tx in all <==> In(p, tx) || In(queue, tx) || tx in f {
      LostMember(was, l, tx);
      assert tx in all <==> In(pending, tx) || In(queue, tx) || tx in flight;
    }
    forall tx | tx in f ensures !Holds(p, tx.from, tx.nonce) && !Holds(queue, tx.from, tx.nonce) {
      LostMember(was, l, tx);
    }
    forall t, u | t in f && u in f && t.from == u.from && t.nonce == u.nonce ensures t == u {
      LostMember(was, l, t);
      LostMember(was, l, u);
    }
    forall b | b in p ensures ListOk(p[b], b, true) {
      assert b != a ==> ListOk(pending[b], b, true);
    }
  }

  lemma ShrinkQueue(pending: Lists, queue: Lists, all: set<Tx>, flight: set<Tx>, a: Address, l: ListState)
    requires Agree(pending, queue, all, flight) && a in queue && Shrunk(queue[a], l)
    ensures Agree(pending, queue[a := l], all, flight + Lost(queue[a], l))
  {
    var was, q, f := queue[a], queue[a := l], flight + Lost(queue[a], l);
    assert ListOk(was, a, false);
    forall tx ensures tx in all <==> In(pending, tx) || In(q, tx) || tx in f {
      LostMember(was, l, tx);
      assert tx in all <==> In(pending, tx) || In(queue, tx) || tx in flight;
    }
    forall tx | tx in f ensures !Holds(pending, tx.from, tx.nonce) && !Holds(q, tx.from, tx.nonce) {
      LostMember(was, l, tx);
    }
    forall t, u | t in f && u in f && t.from == u.from && t.nonce == u.nonce ensures t == u {
      LostMember(was, l, t);
      LostMember(was, l, u);
    }
    forall b | b in q ensures ListOk(q[b], b, false) {
      assert b != a ==> ListOk(queue[b], b, false);
    }
  }

  /** Dropping transactions in flight from the index. */
  lemma Forget(pending: Lists, queue: Lists, all: set<Tx>, flight: set<Tx>, gone: set<Tx>)
    requires Agree(pending, queue, all, flight) && gone <= flight
    ensures Agree(pending, queue, all - gone, flight - gone) && gone <= all
  {
    assert forall tx :: tx in gone ==> !In(pending, tx) && !In(queue, tx);
  }

  /** Pruning an account's queue and forgetting what it lost. */
  lemma PruneQueued(pending: Lists, queue: Lists, all: set<Tx>, a: Address, l: ListState)
    requires Agree(pending, queue, all, {}) && a in queue && Shrunk(queue[a], l)
    ensures Lost(queue[a], l) <= all && Keyed(Without(queue[a].txs, l.txs))
    ensures Agree(pending, queue[a := l], all - Lost(queue[a], l), {})
  {
    var gone := Lost(queue[a], l);
    assert ListOk(queue[a], a, false);
    ShrinkQueue(pending, queue, all, {}, a, l);
    assert {} + gone == gone && gone - gone == {};
    Forget(pending, queue[a := l], all, gone, gone);
  }

  lemma PrunePending(pending: Lists, queue: Lists, all: set<Tx>, a: Address, l: ListState)
    requires Agree(pending, queue, all, {}) && a in pending && Shrunk(pending[a], l)
    ensures Lost(pending[a], l) <= all && Keyed(Without(pending[a].txs, l.txs))
    ensures Agree(pending[a := l], queue, all - Lost(pending[a], l), {})
  {
    var gone := Lost(pending[a], l);
    assert ListOk(pending[a], a, true);
    ShrinkPending(pending, queue, all, {}, a, l);
    assert {} + gone == gone && gone - gone == {};
    Forget(pending[a := l], queue, all, gone, gone);
  }

  /** Stores an account's list, or drops the account when the list is empty. */
  function Put(lists: Lists, a: Address, l: ListState): Lists {
    if l.txs == map[] then lists - {a} else lists[a := l]
  }

  lemma PutPending(pending: Lists, queue: Lists, all: set<Tx>, flight: set<Tx>, a: Address, l: ListState)
    requires Agree(pending[a := l], queue, all, flight)
    ensures Agree(Put(pending, a, l), queue, all, flight)
    ensures NoEmptyList(pending) ==> NoEmptyList(Put(pending, a, l))
  {
    var p, q := pending[a := l], Put(pending, a, l);
    assert forall b :: b in q ==> b in p && ListOk(p[b], b, true) && q[b] == p[b];
    assert forall b, n :: Holds(q, b, n) <==> Holds(p, b, n);
    assert forall tx :: In(q, tx) <==> In(p, tx);
  }

  lemma PutQueue(pending: Lists, queue: Lists, all: set<Tx>, flight: set<Tx>, a: Address, l: ListState)
    requires Agree(pending, queue[a := l], all, flight)
    ensures Agree(pending, Put(queue, a, l), all, flight)
    ensures NoEmptyList(queue) ==> NoEmptyList(Put(queue, a, l))
  {
    var p, q := queue[a := l], Put(queue, a, l);
    assert forall b :: b in q ==> b in p && ListOk(p[b], b, false) && q[b] == p[b];
    assert forall b, n :: Holds(q, b, n) <==> Holds(p, b, n);
    assert forall tx :: In(q, tx) <==> In(p, tx);
  }

  /** Deleting by nonce deletes the transaction that was asked for: in pending if some list
      there holds the nonce, otherwise in the queue. */
  lemma KnownByNonce(pending: Lists, queue: Lists, all: set<Tx>, tx: Tx)
    requires Agree(pending, queue, all, {}) && tx in all
    ensures Holds(pending, tx.from, tx.nonce) ==> In(pending, tx) && !Holds(queue, tx.from, tx.nonce)
    ensures !Holds(pending, tx.from, tx.nonce) ==> In(queue, tx)
  {
  }

  /** Removing a pending transaction leaves the ones above it in flight. */
  lemma RemovePending(pending: Lists, queue: Lists, all: set<Tx>, tx: Tx)
    requires Agree(pending, queue, all, {}) && In(pending, tx)
    ensures var l := pending[tx.from].Remove(tx.nonce);
            var above := pending[tx.from].Invalidated(tx.nonce);
            && Agree(Put(pending, tx.from, l), queue, all - {tx}, above.Values)
            && l.txs == Under(pending[tx.from].txs, tx.nonce)
            && Keyed(above) && (NoEmptyList(pending) ==> NoEmptyList(Put(pending, tx.from, l)))
            && forall n :: n in above ==> above[n].from == tx.from
  {
    var was := pending[tx.from];
    var l, above := was.Remove(tx.nonce), was.Invalidated(tx.nonce);
    assert ListOk(was, tx.from, true);
    ShrinkPending(pending, queue, all, {}, tx.from, l);
    LostMember(was, l, tx);
    var flight := {} + Lost(was, l);
    assert Without(was.txs, l.txs) == above[tx.nonce := tx];
    assert flight - {tx} == above.Values by {
      forall t ensures t in flight - {tx} <==> t in above.Values {
        LostMember(was, l, t);
        if t in flight - {tx} {
          assert above[t.nonce] == t;
        }
      }
    }
    Forget(pending[tx.from := l], queue, all, flight, {tx});
    PutPending(pending, queue, all - {tx}, above.Values, tx.from, l);
  }

  lemma RemoveQueued(pending: Lists, queue: Lists, all: set<Tx>, tx: Tx)
    requires Agree(pending, queue, all, {}) && In(queue, tx)
    ensures var l := queue[tx.from].Remove(tx.nonce);
            && Agree(pending, Put(queue, tx.from, l), all - {tx}, {})
            && (NoEmptyList(queue) ==> NoEmptyList(Put(queue, tx.from, l)))
  {
    var was := queue[tx.from];
    var l := was.Remove(tx.nonce);
    assert ListOk(was, tx.from, false);
    ShrinkQueue(pending, queue, all, {}, tx.from, l);
    assert Lost(was, l) == {tx} by {
      forall t ensures t in Lost(was, l) <==> t == tx {
        LostMember(was, l, t);
      }
    }
    Forget(pending, queue[tx.from := l], all, {} + Lost(was, l), {tx});
    assert {} + Lost(was, l) - {tx} == {};
    PutQueue(pending, queue, all - {tx}, {}, tx.from, l);
  }

  /** The result of adding `tx` to an account's list. */
  ghost predicate Added(was: ListState, tx: Tx, l: ListState) {
    l.strict == was.strict && l.Capped() && l.txs == was.txs[tx.nonce := tx]
  }

  /** The lists after an attempt to add `tx`. */
  function Join(lists: Lists, strict: bool, tx: Tx, bump: nat): Lists {
    match ListOf(lists, tx.from, strict).Add(tx, bump)
    case Rejected => lists
    case Inserted(l, _) => lists[tx.from := l]
  }

  /** What adding does: nothing, or the new transaction takes the place of a cheaper one. */
  lemma JoinCases(lists: Lists, strict: bool, tx: Tx, bump: nat)
    requires ListOf(lists, tx.from, strict).Capped()
    ensures match ListOf(lists, tx.from, strict).Add(tx, bump)
            case Rejected => Holds(lists, tx.from, tx.nonce) && Join(lists, strict, tx, bump) == lists
            case Inserted(l, prior) =>
              && Added(ListOf(lists, tx.from, strict), tx, l) && Join(lists, strict, tx, bump) == lists[tx.from := l]
              && Replaced(lists, tx) == (if prior.Some? then {prior.value} else {})
              && prior == (if Holds(lists, tx.from, tx.nonce) then Some(lists[tx.from].txs[tx.nonce]) else None)
              && (prior.Some? ==> prior.value.gasPrice < tx.gasPrice)
  {
  }

  ghost function Replaced(lists: Lists, tx: Tx): set<Tx> {
    if Holds(lists, tx.from, tx.nonce) then {lists[tx.from].txs[tx.nonce]} else {}
  }

  /** A transaction joins the queue, from flight or from outside, and may push one out. */
  lemma JoinQueue(pending: Lists, queue: Lists, all: set<Tx>, flight: set<Tx>, tx: Tx, l: ListState)
    requires Agree(pending, queue, all, flight)
    requires Added(ListOf(queue, tx.from, false), tx, l)
    requires !Holds(pending, tx.from, tx.nonce) && (tx in flight || (tx !in all && flight == {}))
    ensures Agree(pending, queue[tx.from := l], all - Replaced(queue, tx) + {tx}, flight - {tx})
    ensures Replaced(queue, tx) <= all && (tx in flight ==> Replaced(queue, tx) == {})
  {
    var a, q, f := tx.from, queue[tx.from := l], flight - {tx};
    var all' := all - Replaced(queue, tx) + {tx};
    assert a in queue ==> ListOk(queue[a], a, false);
    forall t ensures t in all' <==> In(pending, t) || In(q, t) || t in f {
      assert t in all <==> In(pending, t) || In(queue, t) || t in flight;
    }
    forall b | b in q ensures ListOk(q[b], b, false) {
      assert b != a ==> ListOk(queue[b], b, false);
    }
  }

  /** The queue of account `a` after the transactions of `more` joined it. */
  ghost predicate Gained(was: Lists, now: Lists, a: Address, more: TxMap) {
    && SameElsewhere(was, now, a)
    && ListOf(now, a, false).txs == ListOf(was, a, false).txs + more
    && (a in was || more != map[] ==> a in now)
  }

  lemma GainOne(was: Lists, now: Lists, a: Address, more: TxMap, tx: Tx, l: ListState)
    requires Gained(was, now, a, more) && tx.from == a && Added(ListOf(now, a, false), tx, l)
    ensures Gained(was, now[a := l], a, more[tx.nonce := tx])
    ensures NoEmptyList(now) ==> NoEmptyList(now[a := l])
  {
    assert tx.nonce in l.txs;
  }

  /** A transaction joins pending, from flight or in place of a pending one. */
  lemma JoinPending(pending: Lists, queue: Lists, all: set<Tx>, flight: set<Tx>, tx: Tx, l: ListState)
    requires Agree(pending, queue, all, flight)
    requires Added(ListOf(pending, tx.from, true), tx, l)
    requires !Holds(queue, tx.from, tx.nonce) && (tx in flight || (tx !in all && flight == {}))
    ensures Agree(pending[tx.from := l], queue, all - Replaced(pending, tx) + {tx}, flight - {tx})
    ensures Replaced(pending, tx) <= all && (tx in flight ==> Replaced(pending, tx) == {})
  {
    var a, p, f := tx.from, pending[tx.from := l], flight - {tx};
    var all' := all - Replaced(pending, tx) + {tx};
    assert a in pending ==> ListOk(pending[a], a, true);
    forall t ensures t in all' <==> In(p, t) || In(queue, t) || t in f {
      assert t in all <==> In(pending, t) || In(queue, t) || t in flight;
    }
    forall b | b in p ensures ListOk(p[b], b, true) {
      assert b != a ==> ListOk(pending[b], b, true);
    }
  }

  // ---------------------------------------------------------------- nonce shape

  function BaseNonce(state: map<Address, nat>, a: Address): nat {
    if a in state then state[a] else 0
  }

  function VirtualNonce(state: map<Address, nat>, nonces: map<Address, nat>, a: Address): nat {
    if a in nonces then nonces[a] else BaseNonce(state, a)
  }

  /** The pending nonces of `a` are the interval from its state nonce to its virtual nonce. */
  ghost predicate ShapedAt(pending: Lists, state: map<Address, nat>, nonces: map<Address, nat>, a: Address) {
    && BaseNonce(state, a) <= VirtualNonce(state, nonces, a)
    && forall n: nat :: Holds(pending, a, n) <==> BaseNonce(state, a) <= n < VirtualNonce(state, nonces, a)
  }

  ghost predicate Shaped(pending: Lists, state: map<Address, nat>, nonces: map<Address, nat>) {
    forall a :: ShapedAt(pending, state, nonces, a)
  }

  /** Only account `a` changed between two pools. */
  ghost predicate SameElsewhere(p: Lists, q: Lists, a: Address) {
    forall b :: b != a ==> (b in p <==> b in q) && (b in p ==> p[b] == q[b])
  }

  lemma ShapeChange(p: Lists, q: Lists, state: map<Address, nat>, m: map<Address, nat>, n: map<Address, nat>,
                    a: Address)
    requires Shaped(p, state, m) && SameElsewhere(p, q, a)
    requires forall b :: b != a ==> VirtualNonce(state, n, b) == VirtualNonce(state, m, b)
    requires ShapedAt(q, state, n, a)
    ensures Shaped(q, state, n)
  {
    forall b ensures ShapedAt(q, state, n, b) {
      if b != a {
        assert ShapedAt(p, state, m, b);
        assert forall k: nat :: Holds(q, b, k) <==> Holds(p, b, k);
      }
    }
  }

  /** Replacing a pending transaction keeps the nonces. */
  lemma ShapeReplace(p: Lists, state: map<Address, nat>, m: map<Address, nat>, tx: Tx, l: ListState)
    requires Shaped(p, state, m) && Holds(p, tx.from, tx.nonce) && Added(p[tx.from], tx, l)
    ensures Shaped(p[tx.from := l], state, m)
  {
    assert ShapedAt(p, state, m, tx.from);
    assert forall k: nat :: k in l.txs <==> k in p[tx.from].txs;
    var q := p[tx.from := l];
    assert forall k: nat :: Holds(q, tx.from, k) <==> Holds(p, tx.from, k);
    assert ShapedAt(q, state, m, tx.from);
    assert SameElsewhere(p, q, tx.from);
    ShapeChange(p, q, state, m, m, tx.from);
  }

  /** Appending the next nonce to an account's pending list. */
  lemma ShapeExtend(p: Lists, q: Lists, state: map<Address, nat>, m: map<Address, nat>, n: map<Address, nat>, tx: Tx)
    requires Shaped(p, state, m) && SameElsewhere(p, q, tx.from) && tx.from in q
    requires Added(ListOf(p, tx.from, true), tx, q[tx.from])
    requires VirtualNonce(state, m, tx.from) == tx.nonce && VirtualNonce(state, n, tx.from) == tx.nonce + 1
    requires forall b :: b != tx.from ==> VirtualNonce(state, n, b) == VirtualNonce(state, m, b)
    ensures Shaped(q, state, n)
  {
    assert ShapedAt(p, state, m, tx.from);
    assert forall k: nat :: Holds(q, tx.from, k) <==> Holds(p, tx.from, k) || k == tx.nonce;
    ShapeChange(p, q, state, m, n, tx.from);
  }

  lemma ShapeSameValues(p: Lists, state: map<Address, nat>, m: map<Address, nat>, n: map<Address, nat>)
    requires Shaped(p, state, m) && forall b :: VirtualNonce(state, n, b) == VirtualNonce(state, m, b)
    ensures Shaped(p, state, n)
  {
    forall b ensures ShapedAt(p, state, n, b) {
      assert ShapedAt(p, state, m, b);
    }
  }

  /** Cutting an account's pending list and lowering its virtual nonce to the cut. */
  lemma ShapeCut(p: Lists, q: Lists, state: map<Address, nat>, m: map<Address, nat>, n: map<Address, nat>, a: Address,
                 l: ListState, cut: nat)
    requires Shaped(p, state, m) && a in p && q == Put(p, a, l) && l.txs == Under(p[a].txs, cut)
    requires BaseNonce(state, a) <= cut <= VirtualNonce(state, m, a) && VirtualNonce(state, n, a) == cut
    requires forall b :: b != a ==> VirtualNonce(state, n, b) == VirtualNonce(state, m, b)
    ensures Shaped(q, state, n)
  {
    assert ShapedAt(p, state, m, a);
    assert forall k: nat :: k in l.txs <==> k in p[a].txs && k < cut;
    assert forall k: nat :: Holds(q, a, k) <==> Holds(p, a, k) && k < cut;
    ShapeChange(p, q, state, m, n, a);
  }

  // ---------------------------------------------------------------- sizes

  ghost function Lengths(lists: Lists): map<Address, int> {
    map a | a in lists :: |lists[a].txs|
  }

  ghost function Total(lists: Lists): int {
    Sum(Lengths(lists))
  }

  lemma TotalUpdate(lists: Lists, a: Address, l: ListState)
    requires a in lists
    ensures Total(lists[a := l]) == Total(lists) - |lists[a].txs| + |l.txs|
    ensures Total(lists - {a}) == Total(lists) - |lists[a].txs|
  {
    hide Sum;
    var m := Lengths(lists);
    SumUpdate(m, a, |l.txs|);
    SumRemove(m, a);
    assert Lengths(lists[a := l]) == m[a := |l.txs|];
    assert Lengths(lists - {a}) == m - {a};
  }

  /** The transactions of accounts that enjoy no local protection. */
  function Remote(all: set<Tx>, locals: set<Address>): set<Tx> {
    set tx | tx in all && tx.from !in locals
  }

  /** Remote transactions pay at least `price`. */
  ghost predicate PriceFloor(all: set<Tx>, locals: set<Address>, price: nat) {
    forall tx :: tx in all ==> tx.from in locals || tx.gasPrice >= price
  }

  /** A remote transaction priced no higher than anything in the pool. */
  ghost predicate Underpays(all: set<Tx>, locals: set<Address>, tx: Tx) {
    tx.from !in locals && all != {} && forall t :: t in all ==> tx.gasPrice <= t.gasPrice
  }

  lemma FloorAdd(all: set<Tx>, locals: set<Address>, price: nat, all': set<Tx>, locals': set<Address>, tx: Tx)
    requires PriceFloor(all, locals, price) && all' <= all + {tx} && locals <= locals'
    requires tx in all' ==> tx.from in locals' || tx.gasPrice >= price
    ensures PriceFloor(all', locals', price)
  {
  }

  /** A pool above its capacity holds at most one remote transaction. */
  ghost predicate WithinBounds(all: set<Tx>, locals: set<Address>, capacity: nat) {
    |all| > capacity ==> |Remote(all, locals)| <= 1
  }

  lemma BoundsShrink(all: set<Tx>, locals: set<Address>, all': set<Tx>, locals': set<Address>, capacity: nat)
    requires WithinBounds(all, locals, capacity) && all' <= all && locals <= locals'
    ensures WithinBounds(all', locals', capacity)
  {
    SubsetSize(all', all);
    SubsetSize(Remote(all', locals'), Remote(all, locals));
  }

  /** Making room before an addition keeps the bound: some remote transaction is dropped if
      there is one, so a full pool that still grows has no other remote transaction left. */
  lemma BoundsAdd(all: set<Tx>, locals: set<Address>, capacity: nat, drop: set<Tx>, all': set<Tx>, tx: Tx)
    requires WithinBounds(all, locals, capacity)
    requires drop <= Remote(all, locals) && all' <= all - drop + {tx}
    requires |all| >= capacity && drop == {} ==> Remote(all, locals) == {}
    ensures WithinBounds(all', locals, capacity)
  {
    SubsetSize(all', all - drop + {tx});
    assert |all - drop + {tx}| <= |all - drop| + 1;
    assert |all - drop| == |all| - |drop|;
    var r, r' := Remote(all, locals), Remote(all', locals);
    SubsetSize(r', r - drop + {tx});
    SubsetSize(drop, r);
    assert |r - drop| == |r| - |drop|;
    assert drop != {} ==> |drop| >= 1;
  }

  lemma SubsetSize<T>(a: set<T>, b: set<T>)
    requires a <= b
    ensures |a| <= |b|
  {
    assert |b| == |a| + |b - a|;
  }

  // ---------------------------------------------------------------- fair truncation

  /** Every remote account cut down to its `c` lowest nonces. */
  ghost function CapLists(lists: Lists, locals: set<Address>, c: nat): Lists {
    map a | a in lists :: if a in locals then lists[a] else lists[a].Cap(c)
  }

  ghost function CapTotal(lists: Lists, locals: set<Address>, c: nat): int {
    Total(CapLists(lists, locals, c))
  }

  /** The remote accounts with at least `c` transactions. */
  ghost function Heavy(lists: Lists, locals: set<Address>, c: nat): set<Address> {
    set a | a in lists && a !in locals && |lists[a].txs| >= c
  }

  /** Halfway from cap `c` to cap `c - 1`: the accounts in `done` are already there. */
  ghost predicate Level(lists: Lists, locals: set<Address>, done: set<Address>, c: nat, now: Lists) {
    && now.Keys == lists.Keys && done <= Heavy(lists, locals, c) && (done != {} ==> c > 0)
    && forall a :: a in lists ==>
         now[a] == if a in locals then lists[a]
                   else if a in done then lists[a].Cap(c - 1)
                   else lists[a].Cap(c)
  }

  lemma LevelWhole(lists: Lists, locals: set<Address>, c: nat, now: Lists)
    ensures Level(lists, locals, {}, c, now) <==> now == CapLists(lists, locals, c)
  {
  }

  /** At a level above every remote account nothing is cut. */
  lemma LevelTop(lists: Lists, locals: set<Address>, c: nat)
    requires Heavy(lists, locals, c + 1) == {}
    ensures Level(lists, locals, {}, c, lists)
    ensures CapTotal(lists, locals, c + 1) == Total(lists)
  {
    forall a | a in lists && a !in locals ensures lists[a].Cap(c) == lists[a] && lists[a].Cap(c + 1) == lists[a] {
      assert a !in Heavy(lists, locals, c + 1);
    }
    assert CapLists(lists, locals, c + 1) == lists;
  }

  /** One more account steps down from `c` to `c - 1`. */
  lemma LevelStep(lists: Lists, locals: set<Address>, done: set<Address>, c: nat, now: Lists, a: Address)
    requires Level(lists, locals, done, c, now) && c > 0
    requires a in Heavy(lists, locals, c) && a !in done
    ensures |now[a].txs| == c
    ensures Level(lists, locals, done + {a}, c, now[a := now[a].Cap(c - 1)])
    ensures Total(now[a := now[a].Cap(c - 1)]) == Total(now) - 1
  {
    hide Total;
    CapToCompose(lists[a].txs, c, c - 1);
    TotalUpdate(now, a, now[a].Cap(c - 1));
  }

  /** When every heavy account has stepped down, the whole pool is at the lower level. */
  lemma LevelDone(lists: Lists, locals: set<Address>, c: nat, now: Lists)
    requires c > 0 && Level(lists, locals, Heavy(lists, locals, c), c, now)
    ensures Level(lists, locals, {}, c - 1, now)
  {
    forall a | a in lists && a !in locals && a !in Heavy(lists, locals, c)
      ensures lists[a].Cap(c) == lists[a].Cap(c - 1)
    {
    }
  }

  /** The number kept grows with the cap. */
  lemma {:induction false} CapTotalMonotone(lists: Lists, locals: set<Address>, c: nat, d: nat)
    requires c <= d
    ensures CapTotal(lists, locals, c) <= CapTotal(lists, locals, d)
    decreases lists.Keys
  {
    if lists == map[] {
      assert CapLists(lists, locals, c) == CapLists(lists, locals, d);
    } else {
      hide CapTotal;
      var a :| a in lists;
      CapTotalMonotone(lists - {a}, locals, c, d);
      CapTotalSplit(lists, locals, c, a);
      CapTotalSplit(lists, locals, d, a);
    }
  }

  lemma CapTotalSplit(lists: Lists, locals: set<Address>, c: nat, a: Address)
    requires a in lists
    ensures CapTotal(lists, locals, c) == CapTotal(lists - {a}, locals, c) + |CapLists(lists, locals, c)[a].txs|
  {
    hide Total, ListState.Cap;
    var now := CapLists(lists, locals, c);
    TotalUpdate(now, a, now[a]);
    assert now - {a} == CapLists(lists - {a}, locals, c);
  }

  /** `c` is the largest cap from `floor` on that fits under `limit`, or `floor` if none does. */
  ghost predicate WaterLevel(lists: Lists, locals: set<Address>, floor: nat, limit: int, c: nat) {
    && c >= floor
    && (CapTotal(lists, locals, c) <= limit || c == floor)
    && CapTotal(lists, locals, c + 1) > limit
  }

  /** The water level is determined by the pool. */
  lemma WaterLevelUnique(lists: Lists, locals: set<Address>, floor: nat, limit: int, c: nat, d: nat)
    requires WaterLevel(lists, locals, floor, limit, c) && WaterLevel(lists, locals, floor, limit, d)
    ensures c == d
  {
    hide CapTotal;
    if c < d {
      CapTotalMonotone(lists, locals, c + 1, d);
    } else if d < c {
      CapTotalMonotone(lists, locals, d + 1, c);
    }
  }

  /** No larger cap fits. */
  lemma WaterLevelMaximal(lists: Lists, locals: set<Address>, floor: nat, limit: int, c: nat, d: nat)
    requires WaterLevel(lists, locals, floor, limit, c) && CapTotal(lists, locals, d) <= limit
    ensures d <= c
  {
    hide CapTotal;
    if c < d {
      CapTotalMonotone(lists, locals, c + 1, d);
    }
  }

  /** The remote accounts above the floor are split into offenders, which have been popped in
      order of falling size down to `c`, and spammers still queued, none larger than `c`. */
  ghost predicate Drained(lists: Lists, locals: set<Address>, floor: nat, offenders: seq<Address>,
                          spammers: map<Address, nat>, c: nat) {
    && (forall a :: a in Heavy(lists, locals, floor + 1) <==> a in offenders || a in spammers)
    && (forall a :: a in spammers ==> a !in offenders && a in lists && spammers[a] == |lists[a].txs|)
    && Distinct(offenders)
    && (forall a :: a in offenders ==> a in lists && |lists[a].txs| >= c)
    && (forall a :: a in spammers ==> |lists[a].txs| <= c)
  }

  /** The remote accounts above the floor, by size. */
  function Spammers(lists: Lists, locals: set<Address>, floor: nat): map<Address, nat> {
    map a | a in lists && a !in locals && |lists[a].txs| > floor :: |lists[a].txs|
  }

  predicate IsLargest(spammers: map<Address, nat>, a: Address) {
    a in spammers && forall b :: b in spammers ==> spammers[b] <= spammers[a]
  }

  lemma {:induction false} LargestExists(spammers: map<Address, nat>)
    requires spammers != map[]
    ensures exists a :: IsLargest(spammers, a)
    decreases |spammers|
  {
    var x :| x in spammers;
    var rest := spammers - {x};
    if rest == map[] {
      assert IsLargest(spammers, x) by {
        assert forall b :: b in spammers ==> b == x || b in rest;
      }
    } else {
      LargestExists(rest);
      var y :| IsLargest(rest, y);
      var z := if spammers[x] < spammers[y] then y else x;
      assert IsLargest(spammers, z) by {
        assert forall b :: b in spammers ==> b == x || b in rest;
      }
    }
  }

  /** The offenders are all remote accounts of every size above `lo`, up to `hi`. */
  ghost predicate Offend(lists: Lists, locals: set<Address>, offenders: seq<Address>, lo: nat, hi: nat) {
    forall d :: lo < d <= hi ==> Heavy(lists, locals, d) == set x | x in offenders
  }

  lemma DrainStart(lists: Lists, locals: set<Address>, floor: nat, spammers: map<Address, nat>, c: nat)
    requires spammers.Keys == Heavy(lists, locals, floor + 1)
    requires forall a :: a in spammers ==> spammers[a] == |lists[a].txs| <= c
    ensures Drained(lists, locals, floor, [], spammers, c)
  {
    assert forall a :: a in spammers ==> a in spammers.Keys;
  }

  /** Popping the largest spammer. */
  lemma DrainPop(lists: Lists, locals: set<Address>, floor: nat, offenders: seq<Address>, spammers: map<Address, nat>,
                 c: nat, a: Address)
    requires Drained(lists, locals, floor, offenders, spammers, c) && IsLargest(spammers, a)
    ensures floor < |lists[a].txs| <= c && a in lists && a !in locals
    ensures Drained(lists, locals, floor, offenders + [a], spammers - {a}, |lists[a].txs|)
    ensures Offend(lists, locals, offenders, |lists[a].txs|, c)
  {
    var t := |lists[a].txs|;
    assert a in Heavy(lists, locals, floor + 1);
    forall d | t < d <= c ensures Heavy(lists, locals, d) == set x | x in offenders {
      forall x ensures x in Heavy(lists, locals, d) <==> x in offenders {
        assert x in Heavy(lists, locals, d) ==> x in Heavy(lists, locals, floor + 1);
        assert x in offenders ==> x in Heavy(lists, locals, floor + 1);
      }
    }
  }

  /** With no spammers left the offenders are all accounts above the floor. */
  lemma DrainedAll(lists: Lists, locals: set<Address>, floor: nat, offenders: seq<Address>, c: nat)
    requires Drained(lists, locals, floor, offenders, map[], c)
    ensures Offend(lists, locals, offenders, floor, c)
  {
    forall d | floor < d <= c ensures Heavy(lists, locals, d) == set x | x in offenders {
      forall x ensures x in Heavy(lists, locals, d) <==> x in offenders {
        assert x in Heavy(lists, locals, d) ==> x in Heavy(lists, locals, floor + 1);
        assert x in offenders ==> x in Heavy(lists, locals, floor + 1);
      }
    }
  }

  /** Capping a pending list by one drops exactly its highest nonce. */
  lemma CapOneDrops(pending: Lists, queue: Lists, all: set<Tx>, a: Address)
    requires Agree(pending, queue, all, {}) && a in pending && |pending[a].txs| >= 2
    ensures var list := pending[a];
            var l, top := list.Cap(|list.txs| - 1), Max(list.txs.Keys);
            && list.txs[top] in all && list.txs[top].nonce == top
            && Agree(pending[a := l], queue, all - {list.txs[top]}, {})
            && l.txs == Under(list.txs, top) && l.txs != map[]
            && (NoEmptyList(pending) ==> NoEmptyList(pending[a := l]))
  {
    var list := pending[a];
    var l, top := list.Cap(|list.txs| - 1), Max(list.txs.Keys);
    assert ListOk(list, a, true);
    assert Under(list.txs, top) == list.txs - {top};
    CapToUnique(list.txs, top);
    CapShrinks(list, |list.txs| - 1);
    PrunePending(pending, queue, all, a, l);
    assert Lost(list, l) == {list.txs[top]} by {
      forall tx ensures tx in Lost(list, l) <==> tx == list.txs[top] {
        LostMember(list, l, tx);
      }
    }
  }

  /** An account no smaller than the level is cut down to it. */
  lemma LevelSize(lists: Lists, locals: set<Address>, c: nat, now: Lists, a: Address)
    requires Level(lists, locals, {}, c, now) && a in lists && a !in locals
    ensures |now[a].txs| == if |lists[a].txs| <= c then |lists[a].txs| else c
  {
  }

  /** At the water level the pool fits, or every remote account is down to the floor. */
  lemma WaterLevelBound(lists: Lists, locals: set<Address>, floor: nat, limit: int, c: nat)
    requires WaterLevel(lists, locals, floor, limit, c)
    ensures var now := CapLists(lists, locals, c);
            Total(now) <= limit || forall a :: a in now && a !in locals ==> |now[a].txs| <= floor
  {
    hide Total;
    if c == floor {
      forall a | a in lists && a !in locals ensures |lists[a].Cap(c).txs| <= floor {
      }
    }
  }

  // ---------------------------------------------------------------- queue truncation

  /** `now` is `was` with some remote accounts cut down to their lowest nonces. */
  ghost predicate QueueCut(was: Lists, now: Lists, locals: set<Address>) {
    && now.Keys <= was.Keys
    && forall a :: a in was ==>
         && (a in locals ==> a in now && now[a] == was[a])
         && (a in now ==> now[a] == was[a].Cap(|now[a].txs|))
  }

  /** Whether account `a` lost anything. */
  predicate Touched(was: Lists, now: Lists, a: Address) {
    a in was && (a !in now || now[a] != was[a])
  }

  function Beat(beats: map<Address, nat>, a: Address): nat {
    if a in beats then beats[a] else 0
  }

  /** Accounts with a later heartbeat give up everything before one with an earlier heartbeat
      gives up anything. */
  ghost predicate LatestFirst(was: Lists, now: Lists, beats: map<Address, nat>, locals: set<Address>) {
    forall a, b :: Touched(was, now, a) && b in was && b !in locals && Beat(beats, a) < Beat(beats, b) ==> b !in now
  }

  /** The state of the sweep: the accounts in `rest` are untouched, and while there is more to
      drop every other remote account is gone. */
  ghost predicate Sweeping(was: Lists, now: Lists, beats: map<Address, nat>, locals: set<Address>, rest: set<Address>,
                           more: bool) {
    && QueueCut(was, now, locals) && LatestFirst(was, now, beats, locals)
    && (forall a :: a in rest ==> a in was && a in now && a !in locals && now[a] == was[a])
    && (more ==> forall a :: a in now && a !in locals ==> a in rest)
  }

  lemma SweepStarts(queue: Lists, beats: map<Address, nat>, locals: set<Address>, rest: set<Address>)
    requires rest == set a | a in queue && a !in locals
    ensures Sweeping(queue, queue, beats, locals, rest, true)
  {
    forall a | a in queue ensures queue[a] == queue[a].Cap(|queue[a].txs|) {
    }
  }

  /** Cutting the account with the latest heartbeat to `k` transactions, or dropping it. */
  lemma SweepStep(was: Lists, now: Lists, beats: map<Address, nat>, locals: set<Address>, rest: set<Address>,
                  a: Address, k: nat, more: bool)
    requires Sweeping(was, now, beats, locals, rest, true) && a in rest && k <= |now[a].txs|
    requires forall b :: b in rest ==> Beat(beats, b) <= Beat(beats, a)
    requires more ==> k == 0
    ensures Sweeping(was, Put(now, a, now[a].Cap(k)), beats, locals, rest - {a}, more)
    ensures Total(Put(now, a, now[a].Cap(k))) == Total(now) - |now[a].txs| + k
  {
    hide Total, QueueCut, LatestFirst, ListState.Cap;
    var l := now[a].Cap(k);
    TotalUpdate(now, a, l);
    CapSize(now[a], k);
    SweepCut(was, now, locals, a, k);
    SweepOrder(was, now, Put(now, a, l), beats, locals, rest, a);
  }

  lemma SweepCut(was: Lists, now: Lists, locals: set<Address>, a: Address, k: nat)
    requires QueueCut(was, now, locals) && a in was && a in now && a !in locals && now[a] == was[a] && k <= |now[a].txs|
    ensures QueueCut(was, Put(now, a, now[a].Cap(k)), locals)
  {
    hide CapTo;
    CapSize(now[a], k);
  }

  lemma SweepOrder(was: Lists, now: Lists, q: Lists, beats: map<Address, nat>, locals: set<Address>, rest: set<Address>,
                   a: Address)
    requires Sweeping(was, now, beats, locals, rest, true) && a in rest
             && (forall x :: x != a ==> (x in q <==> x in now))
    requires forall x :: x in q && x != a ==> q[x] == now[x]
    requires forall b :: b in rest ==> Beat(beats, b) <= Beat(beats, a)
    ensures LatestFirst(was, q, beats, locals)
  {
    forall x, b | Touched(was, q, x) && b in was && b !in locals && Beat(beats, x) < Beat(beats, b) ensures b !in q {
      assert x != a ==> Touched(was, now, x);
    }
  }

  lemma CapSize(l: ListState, k: nat)
    requires k <= |l.txs|
    ensures |l.Cap(k).txs| == k && (k == 0 <==> l.Cap(k).txs == map[])
  {
  }

  // ---------------------------------------------------------------- promotion

  /** An account's queue after stale, unpayable and executable transactions left it. */
  function Unready(l: ListState, base: nat, costLimit: int, gasLimit: nat, start: nat): ListState {
    l.Forward(base).Filter(costLimit, gasLimit).list.Ready(start)
  }

  /** The run of transactions that promotion takes from an account's queue. */
  function Executable(l: ListState, base: nat, costLimit: int, gasLimit: nat, start: nat): TxMap {
    l.Forward(base).Filter(costLimit, gasLimit).list.ReadyRun(start)
  }

  lemma ForwardShrinks(l: ListState, t: nat)
    requires l.Capped()
    ensures Shrunk(l, l.Forward(t))
  {
  }

  lemma FilterShrinks(l: ListState, costLimit: int, gasLimit: nat)
    requires l.Capped()
    ensures Shrunk(l, l.Filter(costLimit, gasLimit).list)
  {
    FilterShortCircuit(l, costLimit, gasLimit);
    FilterPartitions(l, costLimit, gasLimit);
  }

  lemma CapShrinks(l: ListState, k: nat)
    requires l.Capped()
    ensures Shrunk(l, l.Cap(k))
  {
  }

  /** Taking the ready run out of a queue puts exactly that run in flight; what stays is
      above the nonce at which the run stopped. */
  lemma TakeReady(pending: Lists, queue: Lists, all: set<Tx>, a: Address, start: nat)
    requires Agree(pending, queue, all, {}) && a in queue
    ensures var run, l := queue[a].ReadyRun(start), queue[a].Ready(start);
            && Agree(pending, queue[a := l], all, run.Values) && Keyed(run) && l.Capped()
            && (forall n :: n in run ==> run[n].from == a)
            && if run == map[] then forall n :: n in l.txs ==> n > start
               else var lo, hi := Min(queue[a].txs.Keys), RunEnd(queue[a].txs, Min(queue[a].txs.Keys));
                 && queue[a].txs != map[] && lo < hi && lo <= start && Interval(run, lo, hi)
                 && forall n :: n in l.txs ==> n > hi
  {
    var was := queue[a];
    var run, l := was.ReadyRun(start), was.Ready(start);
    assert ListOk(was, a, false);
    ShrinkQueue(pending, queue, all, {}, a, l);
    assert Without(was.txs, l.txs) == run;
    assert {} + run.Values == run.Values;
    if run != map[] {
      ReadyIsMaximalRun(was, start);
    } else if was.txs != map[] {
      assert Min(was.txs.Keys) in was.txs;
      if Min(was.txs.Keys) <= start {
        ReadyIsMaximalRun(was, start);
      }
    }
  }

  /** In a contiguous pool a ready run starts exactly at the virtual nonce. */
  lemma ReadyStartsAtVirtual(pending: Lists, queue: Lists, all: set<Tx>, state: map<Address, nat>, m: map<Address, nat>,
                             a: Address, lo: nat)
    requires Agree(pending, queue, all, {}) && Shaped(pending, state, m)
    requires Holds(queue, a, lo) && BaseNonce(state, a) <= lo <= VirtualNonce(state, m, a)
    ensures lo == VirtualNonce(state, m, a)
  {
    assert ShapedAt(pending, state, m, a);
    assert !Holds(pending, a, lo);
  }

  // ---------------------------------------------------------------- demotion

  /** Filtering a pending list: unpayable transactions are forgotten, the ones above them are
      in flight. */
  lemma FilterPending(pending: Lists, queue: Lists, all: set<Tx>, a: Address, costLimit: int, gasLimit: nat)
    requires Agree(pending, queue, all, {}) && a in pending
    ensures var r := pending[a].Filter(costLimit, gasLimit);
            && Agree(pending[a := r.list], queue, all - r.removed.Values, r.invalids.Values)
            && r.removed.Values <= all && Keyed(r.removed) && Keyed(r.invalids)
            && (forall n :: n in r.invalids ==> r.invalids[n].from == a)
            && (forall tx :: tx in r.removed.Values ==> tx.from == a && (tx.Cost() > costLimit || tx.gas > gasLimit))
  {
    var was := pending[a];
    var r := was.Filter(costLimit, gasLimit);
    assert ListOk(was, a, true);
    FilterShrinks(was, costLimit, gasLimit);
    FilterPartitions(was, costLimit, gasLimit);
    ShrinkPending(pending, queue, all, {}, a, r.list);
    var flight := {} + Lost(was, r.list);
    forall tx ensures tx in flight <==> tx in r.removed.Values || tx in r.invalids.Values {
      LostMember(was, r.list, tx);
      MemberOf(r.removed, tx);
      MemberOf(r.invalids, tx);
    }
    assert flight - r.removed.Values == r.invalids.Values by {
      forall tx | tx in r.invalids.Values ensures tx !in r.removed.Values {
        MemberOf(r.removed, tx);
        MemberOf(r.invalids, tx);
      }
    }
    Forget(pending[a := r.list], queue, all, flight, r.removed.Values);
  }

  lemma MemberOf(m: TxMap, tx: Tx)
    requires Keyed(m)
    ensures tx in m.Values <==> tx.nonce in m && m[tx.nonce] == tx
  {
    if tx.nonce in m && m[tx.nonce] == tx {
      assert m[tx.nonce] in m.Values;
    }
  }

  /** Emptying a pending list puts all of it in flight. */
  lemma EmptyPending(pending: Lists, queue: Lists, all: set<Tx>, a: Address)
    requires Agree(pending, queue, all, {}) && a in pending
    ensures Agree(pending[a := pending[a].Cap(0)], queue, all, pending[a].txs.Values)
    ensures pending[a].Cap(0).txs == map[] && Keyed(pending[a].txs)
    ensures forall n :: n in pending[a].txs ==> pending[a].txs[n].from == a
  {
    var l := pending[a];
    assert ListOk(l, a, true);
    CapToNone(l);
    assert Without(l.txs, map[]) == l.txs && {} + l.txs.Values == l.txs.Values;
    hide Agree, Without, ListState.Cap, ListOk;
    ShrinkPending(pending, queue, all, {}, a, l.Cap(0));
  }

  lemma CapToNone(l: ListState)
    ensures l.Cap(0).txs == map[]
  {
  }

  /** A pending list after demotion: stale and unpayable transactions left it, and all of it is
      postponed when a gap opened in front. */
  function Demoted(l: ListState, base: nat, costLimit: int, gasLimit: nat): ListState {
    var kept := l.Forward(base).Filter(costLimit, gasLimit).list;
    if kept.txs != map[] && base !in kept.txs then kept.Cap(0) else kept
  }

  /** What demotion moves back to the queue. */
  function Postponed(l: ListState, base: nat, costLimit: int, gasLimit: nat): TxMap {
    var r := l.Forward(base).Filter(costLimit, gasLimit);
    r.invalids + if r.list.txs != map[] && base !in r.list.txs then r.list.txs else map[]
  }

  lemma GainTwice(was: Lists, mid: Lists, now: Lists, a: Address, x: TxMap, y: TxMap)
    requires Gained(was, mid, a, x) && Gained(mid, now, a, y)
    ensures Gained(was, now, a, x + y)
  {
    if x + y != map[] {
      assert x != map[] || y != map[];
    }
  }

  /** A list that can be executed from nonce `base` on with the given limits. */
  ghost predicate Payable(l: ListState, base: nat, costLimit: int, gasLimit: nat) {
    forall n :: n in l.txs ==> base <= n && l.txs[n].Cost() <= costLimit && l.txs[n].gas <= gasLimit
  }

  lemma FilterPayable(l: ListState, base: nat, costLimit: int, gasLimit: nat)
    requires l.Capped()
    ensures Payable(l.Forward(base).Filter(costLimit, gasLimit).list, base, costLimit, gasLimit)
  {
    ForwardShrinks(l, base);
    FilterShrinks(l.Forward(base), costLimit, gasLimit);
    FilterPartitions(l.Forward(base), costLimit, gasLimit);
  }
}

/** One-to-many event feeds: a send delivers to every subscribed channel while subscriptions come
    and go. The cases to select on are kept in one list whose first entry is the channel that
    removals arrive on; a send works on a shrinking prefix of the list. */
module Feeds {
  import opened Prelude

  datatype Chan = RemoveSub | Sub(id: nat)

  type Cases = seq<Chan>

  const FIRST_SUB_SEND_CASE: nat := 1

  /** The list without the case at `index`. */
  function Delete(cs: Cases, index: nat): Cases
    requires index < |cs|
  {
    cs[..index] + cs[index + 1..]
  }

  /** The list with the case at `index` moved behind the prefix of length `n - 1`. */
  function Deactivate(cs: Cases, index: nat, n: nat): Cases
    requires index < n <= |cs|
  {
    cs[index := cs[n - 1]][n - 1 := cs[index]]
  }

  /** The first index of a channel, or -1. */
  method Find(cs: Cases, ch: Chan) returns (index: int)
    ensures index == -1 <==> ch !in cs
    ensures index != -1 ==> 0 <= index < |cs| && cs[index] == ch && forall i :: 0 <= i < index ==> cs[i] != ch
  {
    for i := 0 to |cs|
      invariant forall j :: 0 <= j < i ==> cs[j] != ch
    {
      if cs[i] == ch {
        return i;
      }
    }
    return -1;
  }

  /** How a send stands: slot 0 is in place, the first `n` cases are still to be served, and every
      channel of the start is served, to be served, or was removed before it was served. */
  ghost predicate Progress(cs: Cases, n: nat, initial: multiset<Chan>, delivered: multiset<Chan>, early: multiset<Chan>,
                           late: multiset<Chan>) {
    && FIRST_SUB_SEND_CASE <= n <= |cs| && cs[0] == RemoveSub && (forall i :: 0 < i < |cs| ==> cs[i].Sub?)
    && delivered + early + multiset(cs[1..n]) == initial
    && delivered == multiset(cs[n..]) + late
  }

  lemma SwapPrefix(cs: Cases, n: nat, index: nat)
    requires 1 <= index < n <= |cs|
    ensures multiset(cs[1..n]) == multiset(Deactivate(cs, index, n)[1..n - 1]) + multiset{cs[index]}
  {
    var d, p := Deactivate(cs, index, n)[1..n - 1], cs[1..n - 1];
    assert cs[1..n] == p + [cs[n - 1]];
    if index < n - 1 {
      assert p[index - 1] == cs[index] && d == p[index - 1 := cs[n - 1]];
    } else {
      assert d == p;
    }
  }

  lemma SwapSuffix(cs: Cases, n: nat, index: nat)
    requires 1 <= index < n <= |cs|
    ensures multiset(Deactivate(cs, index, n)[n - 1..]) == multiset(cs[n..]) + multiset{cs[index]}
    ensures multiset(Deactivate(cs, index, n)[1..]) == multiset(cs[1..])
  {
    var d, last := Deactivate(cs, index, n), n - 1;
    assert d[last..] == [cs[index]] + cs[n..];
    assert d[1..] == d[1..last] + d[last..] && cs[1..] == cs[1..n] + cs[n..];
    SwapPrefix(cs, n, index);
  }

  /** Serving a case moves it out of the prefix. */
  lemma Served(cs: Cases, n: nat, initial: multiset<Chan>, delivered: multiset<Chan>, early: multiset<Chan>,
               late: multiset<Chan>, index: nat)
    requires Progress(cs, n, initial, delivered, early, late) && 1 <= index < n
    ensures Progress(Deactivate(cs, index, n), n - 1, initial, delivered + multiset{cs[index]}, early, late)
    ensures multiset(Deactivate(cs, index, n)[1..]) == multiset(cs[1..])
  {
    SwapPrefix(cs, n, index);
    SwapSuffix(cs, n, index);
  }

  lemma DeleteSlice(cs: Cases, index: nat, lo: nat)
    requires lo <= index < |cs|
    ensures multiset(cs[lo..]) == multiset(Delete(cs, index)[lo..]) + multiset{cs[index]}
  {
    assert cs[lo..] == cs[lo..index] + [cs[index]] + cs[index + 1..];
    assert Delete(cs, index)[lo..] == cs[lo..index] + cs[index + 1..];
  }

  /** Removing a case: an active one shrinks the prefix, a served one does not. */
  lemma Dropped(cs: Cases, n: nat, initial: multiset<Chan>, delivered: multiset<Chan>, early: multiset<Chan>,
                late: multiset<Chan>, index: nat)
    requires Progress(cs, n, initial, delivered, early, late) && 1 <= index < |cs|
    ensures index < n ==> Progress(Delete(cs, index), n - 1, initial, delivered, early + multiset{cs[index]}, late)
    ensures index >= n ==> Progress(Delete(cs, index), n, initial, delivered, early, late + multiset{cs[index]})
    ensures multiset(cs[1..]) == multiset(Delete(cs, index)[1..]) + multiset{cs[index]}
  {
    DeleteSlice(cs, index, 1);
    DeletePrefix(cs, index, n);
    if index >= n {
      DeleteSlice(cs, index, n);
    }
  }

  lemma DeletePrefix(cs: Cases, index: nat, n: nat)
    requires 1 <= index < |cs| && 1 <= n <= |cs|
    ensures index < n ==>
              && Delete(cs, index)[n - 1..] == cs[n..]
              && multiset(cs[1..n]) == multiset(Delete(cs, index)[1..n - 1]) + multiset{cs[index]}
    ensures index >= n ==> Delete(cs, index)[1..n] == cs[1..n]
  {
    if index < n {
      assert cs[1..n] == cs[1..index] + [cs[index]] + cs[index + 1..n];
      assert Delete(cs, index)[1..n - 1] == cs[1..index] + cs[index + 1..n];
    }
  }

  /** The bookkeeping of subscriptions: `subs` are live, `pending` are removals that wait to be
      answered, and together they are exactly what the two lists hold. */
  ghost predicate Balanced(sendCases: Cases, inbox: Cases, subs: multiset<Chan>, pending: multiset<Chan>) {
    && sendCases != [] && sendCases[0] == RemoveSub && (forall i :: 0 < i < |sendCases| ==> sendCases[i].Sub?)
    && (forall i :: 0 <= i < |inbox| ==> inbox[i].Sub?)
    && subs + pending == multiset(inbox) + multiset(sendCases[1..])
    && pending <= multiset(sendCases[1..])
  }

  lemma BalanceSubscribe(sendCases: Cases, inbox: Cases, subs: multiset<Chan>, pending: multiset<Chan>, ch: Chan)
    requires Balanced(sendCases, inbox, subs, pending) && ch.Sub?
    ensures Balanced(sendCases, inbox + [ch], subs + multiset{ch}, pending)
  {
    var held := multiset(sendCases[1..]);
    assert multiset(inbox + [ch]) == multiset(inbox) + multiset{ch};
    Shuffle(subs, pending, ch);
    Shuffle(multiset(inbox), held, ch);
  }

  lemma Shuffle(a: multiset<Chan>, b: multiset<Chan>, ch: Chan)
    ensures a + multiset{ch} + b == a + b + multiset{ch} == a + (b + multiset{ch})
  {
  }

  lemma BalanceLeave(sendCases: Cases, inbox: Cases, subs: multiset<Chan>, pending: multiset<Chan>, index: nat)
    requires Balanced(sendCases, inbox, subs, pending) && index < |inbox| && inbox[index] in subs
    ensures Balanced(sendCases, Delete(inbox, index), subs - multiset{inbox[index]}, pending)
    ensures multiset(Delete(inbox, index)) == multiset(inbox) - multiset{inbox[index]}
  {
    DeleteSlice(inbox, index, 0);
    assert inbox[0..] == inbox && Delete(inbox, index)[0..] == Delete(inbox, index);
    var ch, held, rest := inbox[index], multiset(sendCases[1..]), multiset(Delete(inbox, index));
    assert subs == subs - multiset{ch} + multiset{ch};
    Shuffle(subs - multiset{ch}, pending, ch);
    Shuffle(rest, held, ch);
    Cancel(subs - multiset{ch} + pending, rest + held, ch);
  }

  lemma BalanceAsk(sendCases: Cases, inbox: Cases, subs: multiset<Chan>, pending: multiset<Chan>, ch: Chan)
    requires Balanced(sendCases, inbox, subs, pending) && ch in subs && ch !in inbox
    ensures Balanced(sendCases, inbox, subs - multiset{ch}, pending + multiset{ch})
  {
    var p, held := pending + multiset{ch}, multiset(sendCases[1..]);
    assert multiset(inbox)[ch] == 0;
    assert (subs + pending)[ch] == subs[ch] + pending[ch];
    assert (subs - multiset{ch}) + p == subs + pending;
    forall x ensures p[x] <= held[x] {
      assert pending[x] <= held[x];
    }
  }

  lemma BalanceAnswer(sendCases: Cases, inbox: Cases, subs: multiset<Chan>, pending: multiset<Chan>, index: nat)
    requires Balanced(sendCases, inbox, subs, pending) && 1 <= index < |sendCases| && sendCases[index] in pending
    ensures Balanced(Delete(sendCases, index), inbox, subs, pending - multiset{sendCases[index]})
    ensures multiset(Delete(sendCases, index)[1..]) == multiset(sendCases[1..]) - multiset{sendCases[index]}
  {
    var ch, d := sendCases[index], Delete(sendCases, index);
    DeleteSlice(sendCases, index, 1);
    assert pending == (pending - multiset{ch}) + multiset{ch};
    assert subs + (pending - multiset{ch}) + multiset{ch} == subs + pending;
    assert multiset(inbox) + multiset(d[1..]) + multiset{ch} == multiset(inbox) + multiset(sendCases[1..]);
    Cancel(subs + (pending - multiset{ch}), multiset(inbox) + multiset(d[1..]), ch);
    forall x ensures (pending - multiset{ch})[x] <= multiset(d[1..])[x] {
      assert pending[x] <= multiset(sendCases[1..])[x];
    }
  }

  lemma Cancel(a: multiset<Chan>, b: multiset<Chan>, ch: Chan)
    requires a + multiset{ch} == b + multiset{ch}
    ensures a == b
  {
    forall x ensures a[x] == b[x] {
      assert (a + multiset{ch})[x] == (b + multiset{ch})[x];
    }
  }

  /** Every removal asked of the active list is waiting or was answered. */
  ghost predicate Settled(asked: multiset<Chan>, pending: multiset<Chan>, answered: multiset<Chan>) {
    asked == pending + answered
  }

  lemma Asked(asked: multiset<Chan>, pending: multiset<Chan>, answered: multiset<Chan>, ch: Chan)
    requires Settled(asked, pending, answered)
    ensures Settled(asked + multiset{ch}, pending + multiset{ch}, answered)
  {
  }

  lemma Answered(asked: multiset<Chan>, pending: multiset<Chan>, answered: multiset<Chan>, ch: Chan)
    requires Settled(asked, pending, answered) && ch in pending
    ensures Settled(asked, pending - multiset{ch}, answered + multiset{ch})
  {
  }

  class Feed {
    var sendCases: Cases
    var inbox: Cases
    var pending: multiset<Chan>
    ghost var subs: multiset<Chan>
    /** Removals asked of the active list so far, and those answered. */
    ghost var asked: multiset<Chan>
    ghost var answered: multiset<Chan>

    ghost predicate Valid()
      reads this
    {
      Balanced(sendCases, inbox, subs, pending) && Settled(asked, pending, answered)
    }

    constructor ()
      ensures Valid() && sendCases == [RemoveSub] && inbox == [] && subs == multiset{} && pending == multiset{}
    {
      sendCases, inbox, subs, pending := [RemoveSub], [], multiset{}, multiset{};
      asked, answered := multiset{}, multiset{};
    }

    method Subscribe(ch: Chan)
      requires Valid() && ch.Sub?
      modifies `inbox, `subs
      ensures Valid() && inbox == old(inbox) + [ch] && subs == old(subs) + multiset{ch}
    {
      hide Settled, Balanced;
      BalanceSubscribe(sendCases, inbox, subs, pending, ch);
      inbox := inbox + [ch];
      subs := subs + multiset{ch};
    }

    /** Unsubscribes a live subscription: it leaves the inbox at once, or asks to be removed from
        the active list. */
    method BeginRemove(ch: Chan)
      requires Valid() && ch in subs
      modifies `inbox, `pending, `subs, `asked
      ensures Valid() && subs == old(subs) - multiset{ch}
      ensures ch in old(inbox) ==> multiset(inbox) == multiset(old(inbox)) - multiset{ch} && pending == old(pending)
      ensures ch !in old(inbox) ==> inbox == old(inbox) && pending == old(pending) + multiset{ch}
    {
      hide Settled, Balanced, Delete;
      var index := Find(inbox, ch);
      ghost var live := subs - multiset{ch};
      if index != -1 {
        var rest := Delete(inbox, index);
        assert Balanced(sendCases, rest, live, pending) && multiset(rest) == multiset(inbox) - multiset{ch} by {
          BalanceLeave(sendCases, inbox, subs, pending, index);
        }
        inbox := rest;
      } else {
        var waiting := pending + multiset{ch};
        assert Balanced(sendCases, inbox, live, waiting) by {
          BalanceAsk(sendCases, inbox, subs, pending, ch);
        }
        Asked(asked, pending, answered, ch);
        pending, asked := waiting, asked + multiset{ch};
      }
      subs := live;
    }

    /** Answers a removal while no send is in progress. */
    method FinishRemove(ch: Chan)
      requires Valid() && ch in pending
      modifies `sendCases, `pending, `answered
      ensures Valid() && pending == old(pending) - multiset{ch}
      ensures multiset(sendCases[1..]) == multiset(old(sendCases)[1..]) - multiset{ch}
    {
      hide Settled, Balanced;
      var index := Locate(ch);
      BalanceAnswer(sendCases, inbox, subs, pending, index);
      sendCases := Delete(sendCases, index);
      Answered(asked, pending, answered, ch);
      pending, answered := pending - multiset{ch}, answered + multiset{ch};
    }

    /** A channel that waits to be removed is found, and never in slot 0. */
    method Locate(ch: Chan) returns (index: nat)
      requires Valid() && ch in pending
      ensures 1 <= index < |sendCases| && sendCases[index] == ch && forall i :: 0 <= i < index ==> sendCases[i] != ch
    {
      var i := Find(sendCases, ch);
      assert ch in multiset(sendCases[1..]);
      assert ch in sendCases[1..];
      index := i;
    }

    /** Whatever other goroutines do to the feed while a send is in progress. */
    method Interfere()
      requires Valid()
      modifies `inbox, `pending, `subs, `asked
      ensures Valid()
    {
      hide Settled, Balanced;
      var n :| n >= 0;
      for i := 0 to n
        invariant Valid()
      {
        Counted(sendCases, inbox, subs, pending);
        var ch: Chan := *;
        if * {
          if ch.Sub? {
            Subscribe(ch);
          }
        } else if ch in multiset(inbox) + multiset(sendCases[1..]) - pending {
          BeginRemove(ch);
        }
      }
    }

    /** The fast path: tries every open case once without blocking. */
    method TrySends(n0: nat, nsent0: nat, delivered0: multiset<Chan>,
                    ghost initial: multiset<Chan>, ghost early: multiset<Chan>, ghost late: multiset<Chan>)
      returns (n: nat, nsent: nat, delivered: multiset<Chan>)
      requires Valid() && Progress(sendCases, n0, initial, delivered0, early, late) && nsent0 == |delivered0|
      modifies `sendCases
      ensures Valid() && Progress(sendCases, n, initial, delivered, early, late) && nsent == |delivered|
      ensures |sendCases| == |old(sendCases)| && n <= n0
    {
      hide Settled, Balanced, Progress;
      n, nsent, delivered := n0, nsent0, delivered0;
      var i := FIRST_SUB_SEND_CASE;
      while i < n
        invariant Valid() && Progress(sendCases, n, initial, delivered, early, late) && nsent == |delivered|
        invariant |sendCases| == |old(sendCases)| && n <= n0 && 1 <= i
        decreases n - i
      {
        if * {
          n, nsent, delivered := Deliver(i, n, nsent, delivered, initial, early, late);
        } else {
          i := i + 1;
        }
      }
    }

    /** The receiver of the case at `index` took the value. */
    method Deliver(index: nat, n0: nat, nsent0: nat, delivered0: multiset<Chan>,
                   ghost initial: multiset<Chan>, ghost early: multiset<Chan>, ghost late: multiset<Chan>)
      returns (n: nat, nsent: nat, delivered: multiset<Chan>)
      requires Valid() && Progress(sendCases, n0, initial, delivered0, early, late) && nsent0 == |delivered0|
               && 1 <= index < n0
      modifies `sendCases
      ensures Valid() && Progress(sendCases, n, initial, delivered, early, late) && nsent == |delivered|
      ensures |sendCases| == |old(sendCases)| && n == n0 - 1
    {
      Served(sendCases, n0, initial, delivered0, early, late, index);
      delivered := delivered0 + multiset{sendCases[index]};
      sendCases := Deactivate(sendCases, index, n0);
      n, nsent := n0 - 1, nsent0 + 1;
    }

    /** Removes a channel in the middle of a send. */
    method Answer(ch: Chan, n0: nat, ghost initial: multiset<Chan>, ghost delivered: multiset<Chan>,
                  ghost early0: multiset<Chan>, ghost late0: multiset<Chan>)
      returns (n: nat, ghost early: multiset<Chan>, ghost late: multiset<Chan>)
      requires Valid() && Progress(sendCases, n0, initial, delivered, early0, late0) && ch in pending
      modifies `sendCases, `pending, `answered
      ensures Valid() && Progress(sendCases, n, initial, delivered, early, late)
      ensures early + late == early0 + late0 + multiset{ch} && answered == old(answered) + multiset{ch}
      ensures |sendCases| == |old(sendCases)| - 1 && n <= n0
    {
      hide Settled, Balanced, Progress;
      n, early, late := n0, early0, late0;
      var index := Locate(ch);
      ghost var before := sendCases;
      assert Balanced(Delete(sendCases, index), inbox, subs, pending - multiset{ch}) by {
        BalanceAnswer(sendCases, inbox, subs, pending, index);
      }
      Answered(asked, pending, answered, ch);
      Shuffle(early, late, ch);
      sendCases, pending, answered := Delete(sendCases, index), pending - multiset{ch}, answered + multiset{ch};
      assert if index < n then Progress(sendCases, n - 1, initial, delivered, early + multiset{ch}, late)
        else Progress(sendCases, n, initial, delivered, early, late + multiset{ch}) by {
        Dropped(before, n, initial, delivered, early, late, index);
      }
      if index < n {
        n := n - 1;
        early := early + multiset{ch};
      } else {
        late := late + multiset{ch};
      }
    }

    /** Delivers to every channel subscribed at the start, in any order the receivers allow, while
        subscriptions are added and removed: each is served exactly once unless it is removed
        before (`early`); `late` are the served ones that are removed before the send ends. */
    method Send()
      returns (nsent: nat, delivered: multiset<Chan>, ghost early: multiset<Chan>, ghost late: multiset<Chan>)
      requires Valid()
      modifies this
      ensures Valid() && nsent == |delivered|
      ensures delivered + early == old(multiset(sendCases[1..]) + multiset(inbox))
      ensures delivered == multiset(sendCases[1..]) + late
      ensures answered == old(answered) + (early + late)
    {
      hide Settled, Balanced, Progress;
      Merge(sendCases, inbox, subs, pending);
      ghost var initial := multiset(sendCases[1..]) + multiset(inbox);
      sendCases, inbox := sendCases + inbox, [];
      nsent, delivered, early, late := 0, multiset{}, multiset{}, multiset{};
      var n: nat := |sendCases|;
      while true
        invariant Valid() && Progress(sendCases, n, initial, delivered, early, late) && nsent == |delivered|
        invariant answered == old(answered) + (early + late)
        decreases |sendCases| + n
      {
        n, nsent, delivered := TrySends(n, nsent, delivered, initial, early, late);
        if n == FIRST_SUB_SEND_CASE {
          AllServed(sendCases, initial, delivered, early, late);
          return;
        }
        Interfere();
        Open(sendCases, n, initial, delivered, early, late);
        var removal: bool := *;
        if removal && pending != multiset{} {
          var ch :| ch in pending;
          n, early, late := Answer(ch, n, initial, delivered, early, late);
        } else {
          var chosen :| 1 <= chosen < n;
          n, nsent, delivered := Deliver(chosen, n, nsent, delivered, initial, early, late);
        }
      }
    }
  }

  /** A send starts with everything subscribed so far still to be served. */
  lemma Merge(sendCases: Cases, inbox: Cases, subs: multiset<Chan>, pending: multiset<Chan>)
    requires Balanced(sendCases, inbox, subs, pending)
    ensures |sendCases| >= 1
    ensures var cs := sendCases + inbox;
            && Balanced(cs, [], subs, pending)
            && Progress(cs, |cs|, multiset(sendCases[1..]) + multiset(inbox), multiset{}, multiset{}, multiset{})
  {
    var cs := sendCases + inbox;
    assert cs[1..] == sendCases[1..] + inbox && cs[1..|cs|] == cs[1..] && cs[|cs|..] == [];
    assert multiset(cs[1..]) == multiset(sendCases[1..]) + multiset(inbox) ==
             multiset(inbox) + multiset(sendCases[1..]);
  }

  lemma Open(cs: Cases, n: nat, initial: multiset<Chan>, delivered: multiset<Chan>, early: multiset<Chan>,
             late: multiset<Chan>)
    requires Progress(cs, n, initial, delivered, early, late)
    ensures 1 <= n <= |cs|
  {
  }

  lemma AllServed(cs: Cases, initial: multiset<Chan>, delivered: multiset<Chan>, early: multiset<Chan>,
                  late: multiset<Chan>)
    requires Progress(cs, 1, initial, delivered, early, late)
    ensures delivered + early == initial && delivered == multiset(cs[1..]) + late
  {
    assert cs[1..1] == [];
  }

  lemma Counted(sendCases: Cases, inbox: Cases, subs: multiset<Chan>, pending: multiset<Chan>)
    requires Balanced(sendCases, inbox, subs, pending)
    ensures |sendCases| >= 1 && multiset(inbox) + multiset(sendCases[1..]) - pending == subs
  {
    assert subs + pending - pending == subs;
  }
}

/** Headers, hashes and ancestry. Hashes are injective, so a hash is modelled as the free
    constructor over its header; a header commits to its transactions. A set of headers is the
    database table that is keyed by hash. */
module Headers {
  import opened Prelude

  type TxId = nat

  /** Where a written header or block ended up. */
  datatype WriteStatus = CanonStat | SideStat | UnknownAncestor

  datatype Hash = ZeroHash | HashOf(header: Header)

  datatype Header = Header(parent: Hash, number: nat, difficulty: nat, txs: seq<TxId>, extra: nat)
  {
    /** A header sits one above its parent. */
    predicate FollowsParent() {
      parent.HashOf? ==> number == parent.header.number + 1
    }
  }

  type Canon = map<nat, Hash>

  /** The canonical hash at a number, or the zero hash. */
  function CanonicalHash(canon: Canon, n: nat): Hash {
    if n in canon then canon[n] else ZeroHash
  }

  /** The `n`-th ancestor by the naive walk along parents. */
  function Ancestor(h: Hash, n: nat): Hash
    decreases n
  {
    if n == 0 then h else
      match h
      case ZeroHash => ZeroHash
      case HashOf(x) => Ancestor(x.parent, n - 1)
  }

  /** Every stored header descends from the genesis header within the store. */
  ghost predicate Rooted(headers: set<Header>, genesis: Header) {
    && genesis in headers && genesis.number == 0 && genesis.parent.ZeroHash?
    && forall x :: x in headers && x != genesis ==>
         x.parent.HashOf? && x.parent.header in headers && x.number == x.parent.header.number + 1
  }

  /** The canonical map from 0 up to `head` is the path of parents that ends in `head`. */
  ghost predicate LinkedTo(canon: Canon, head: Header) {
    && (forall n :: 0 <= n <= head.number ==> n in canon && canon[n].HashOf? && canon[n].header.number == n)
    && canon[head.number] == HashOf(head)
    && (forall n :: 0 < n <= head.number ==> canon[n].header.parent == canon[n - 1])
  }

  /** Nothing above `head` is mapped. */
  ghost predicate EndsAt(canon: Canon, head: Header) {
    forall n :: n in canon ==> n <= head.number
  }

  lemma {:induction false} AncestorStep(h: Hash, n: nat)
    ensures Ancestor(Ancestor(h, n), 1) == Ancestor(h, n + 1)
    decreases n
  {
    if n > 0 && h.HashOf? {
      AncestorStep(h.header.parent, n - 1);
    } else if n > 0 {
      AncestorZero(n + 1);
      AncestorZero(n);
    }
  }

  lemma {:induction false} AncestorZero(n: nat)
    ensures Ancestor(ZeroHash, n) == ZeroHash
    decreases n
  {
  }

  /** The canonical hash below a canonical block is its ancestor. */
  lemma {:induction false} LinkedAncestor(canon: Canon, head: Header, top: nat, k: nat)
    requires LinkedTo(canon, head) && k <= top <= head.number
    ensures Ancestor(canon[top], k) == canon[top - k]
    decreases k
  {
    if k > 0 {
      LinkedAncestor(canon, head, top - 1, k - 1);
    }
  }

  /** Stored headers have stored ancestors down to genesis. */
  lemma {:induction false} RootedAncestor(headers: set<Header>, genesis: Header, x: Header, n: nat)
    requires Rooted(headers, genesis) && x in headers && n <= x.number
    ensures var a := Ancestor(HashOf(x), n); a.HashOf? && a.header in headers && a.header.number == x.number - n
    decreases n
  {
    if n > 0 {
      RootedAncestor(headers, genesis, x.parent.header, n - 1);
    }
  }

  lemma OnlyGenesisAtZero(headers: set<Header>, genesis: Header, x: Header)
    requires Rooted(headers, genesis) && x in headers && x.number == 0
    ensures x == genesis
  {
  }
}

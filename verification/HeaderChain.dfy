/** The header chain: headers, total difficulties, the canonical number index and the current
    head, kept in step while headers are written, walked and rewound. */
module HeaderChains {
  import opened Prelude
  import opened Headers

  /** The sum of difficulties from genesis to `x`. */
  ghost function TotalDifficulty(genesis: Header, x: Header): nat {
    if x == genesis || x.parent.ZeroHash? then x.difficulty
    else x.difficulty + TotalDifficulty(genesis, x.parent.header)
  }

  /** The steps a walk takes before it meets the canonical chain or has gone `n` steps. */
  ghost function NonCanonicalSteps(canon: Canon, h: Hash, number: nat, n: nat): nat
    requires n <= number
    decreases n
  {
    if n == 0 || CanonicalHash(canon, number) == h || h.ZeroHash? then 0
    else 1 + NonCanonicalSteps(canon, h.header.parent, number - 1, n - 1)
  }

  /** The walk stops at the first canonical ancestor, if that is not past `n` steps. */
  lemma {:induction false} StepsExactly(canon: Canon, h: Hash, number: nat, n: nat)
    requires n <= number
    ensures var steps := NonCanonicalSteps(canon, h, number, n);
            && steps <= n
            && (steps < n ==> Ancestor(h, steps) in {ZeroHash, CanonicalHash(canon, number - steps)})
            && forall k: nat :: k < steps ==> Ancestor(h, k) != CanonicalHash(canon, number - k)
    decreases n
  {
    if n > 0 && h.HashOf? && CanonicalHash(canon, number) != h {
      var parent := h.header.parent;
      StepsExactly(canon, parent, number - 1, n - 1);
      forall k: nat | 0 < k <= NonCanonicalSteps(canon, parent, number - 1, n - 1)
        ensures Ancestor(h, k) == Ancestor(parent, k - 1)
      {
      }
      forall k: nat | k < NonCanonicalSteps(canon, h, number, n)
        ensures Ancestor(h, k) != CanonicalHash(canon, number - k)
      {
        if k > 0 {
          assert Ancestor(parent, k - 1) != CanonicalHash(canon, number - 1 - (k - 1));
        }
      }
    }
  }

  /** Cached entries repeat the database. */
  ghost predicate TdCached(cache: map<Hash, nat>, tds: map<Header, nat>) {
    forall h :: h in cache ==> h.HashOf? && h.header in tds && cache[h] == tds[h.header]
  }

  ghost predicate HeaderCached(cache: map<Hash, Header>, headers: set<Header>) {
    forall h :: h in cache ==> h.HashOf? && h.header in headers && cache[h] == h.header
  }

  /** Every stored total difficulty is the sum along its ancestry, and no stored header beats
      the head. */
  ghost predicate Heaviest(tds: map<Header, nat>, genesis: Header, head: Header) {
    head in tds && forall x :: x in tds ==> tds[x] == TotalDifficulty(genesis, x) && tds[x] <= tds[head]
  }

  lemma HeaviestWrite(headers: set<Header>, tds: map<Header, nat>, genesis: Header, head: Header, x: Header)
    requires Rooted(headers, genesis) && tds.Keys == headers && Heaviest(tds, genesis, head)
    requires x.parent.HashOf? && x.parent.header in headers && x.FollowsParent()
    ensures var td := x.difficulty + tds[x.parent.header];
            var all := tds[x := td];
            && td == TotalDifficulty(genesis, x) && x != genesis && (x in tds ==> tds[x] == td)
            && Rooted(headers + {x}, genesis)
            && (td <= tds[head] ==> Heaviest(all, genesis, head))
            && (td >= tds[head] ==> Heaviest(all, genesis, x))
  {
  }

  /** `writes` holds the path from just above `lo`, where it rests on `below`, to `top` just
      below `hi`. */
  ghost predicate Segment(writes: Canon, lo: nat, hi: nat, below: Hash, top: Hash) {
    && lo < hi
    && (forall n :: n in writes <==> lo < n < hi)
    && (forall n :: n in writes ==> writes[n].HashOf? && writes[n].header.number == n)
    && (forall n :: n in writes ==> writes[n].header.parent == Resting(writes, lo, below, n))
    && top == Resting(writes, lo, below, hi)
  }

  /** The hash that number `n` rests on in a segment above `lo`. */
  ghost function Resting(writes: Canon, lo: nat, below: Hash, n: int): Hash {
    if n <= lo + 1 then below else CanonicalHash(writes, n - 1)
  }

  lemma SegmentExtend(writes: Canon, lo: nat, hi: nat, x: Header, top: Hash)
    requires Segment(writes, lo, hi, HashOf(x), top) && x.number == lo > 0
    ensures Segment(writes[lo := HashOf(x)], lo - 1, hi, x.parent, top)
  {
    var w := writes[lo := HashOf(x)];
    forall n | n in w ensures w[n].header.parent == Resting(w, lo - 1, x.parent, n) {
      SegmentExtendAt(writes, lo, hi, x, top, n);
    }
    assert top == Resting(w, lo - 1, x.parent, hi) by {
      assert lo + 1 < hi ==> hi - 1 in writes;
    }
    hide Resting;
  }

  lemma SegmentExtendAt(writes: Canon, lo: nat, hi: nat, x: Header, top: Hash, n: nat)
    requires Segment(writes, lo, hi, HashOf(x), top) && x.number == lo > 0 && n in writes[lo := HashOf(x)]
    ensures var w := writes[lo := HashOf(x)];
            w[n].HashOf? && w[n].header.parent == Resting(w, lo - 1, x.parent, n)
  {
    if n > lo {
      assert n in writes && writes[n].header.parent == Resting(writes, lo, HashOf(x), n);
      assert n > lo + 1 ==> n - 1 in writes;
    }
  }

  /** Cutting the canonical chain at `lo` and continuing along the segment leads to `x`. */
  lemma SegmentJoin(canon: Canon, head: Header, writes: Canon, lo: nat, x: Header, below: Hash, gone: set<nat>)
    requires LinkedTo(canon, head) && EndsAt(canon, head) && below.HashOf? && CanonicalHash(canon, lo) == below
    requires Segment(writes, lo, x.number, below, x.parent)
    requires gone == set n | n in canon && n > x.number
    ensures var now := canon - gone + writes[x.number := HashOf(x)];
            LinkedTo(now, x) && EndsAt(now, x)
  {
    hide Segment;
    var now := canon - gone + writes[x.number := HashOf(x)];
    forall n: nat | n <= x.number
      ensures n in now && now[n].HashOf? && now[n].header.number == n
      ensures n > 0 ==> n - 1 in now && now[n].header.parent == now[n - 1]
    {
      SegmentAt(canon, head, writes, lo, x, below, gone, n);
      if n > 0 {
        SegmentAt(canon, head, writes, lo, x, below, gone, n - 1);
        SegmentLink(writes, lo, x, below, n);
      }
    }
    SegmentRange(writes, lo, x.number, below, x.parent);
  }

  lemma SegmentRange(writes: Canon, lo: nat, hi: nat, below: Hash, top: Hash)
    requires Segment(writes, lo, hi, below, top)
    ensures lo < hi && forall n :: n in writes <==> lo < n < hi
  {
  }

  lemma SegmentAt(canon: Canon, head: Header, writes: Canon, lo: nat, x: Header, below: Hash, gone: set<nat>, n: nat)
    requires LinkedTo(canon, head) && EndsAt(canon, head) && below.HashOf? && CanonicalHash(canon, lo) == below
    requires Segment(writes, lo, x.number, below, x.parent) && n <= x.number
    requires gone == set n | n in canon && n > x.number
    ensures lo <= head.number && lo in canon && canon[lo] == below
    ensures var w := writes[x.number := HashOf(x)];
            var now := canon - gone + w;
            && n in now && now[n].HashOf? && now[n].header.number == n
            && (n > lo ==> n in w && now[n] == w[n])
            && (n <= lo ==> n in canon && now[n] == canon[n] && (n > 0 ==> canon[n].header.parent == canon[n - 1]))
  {
    assert lo <= head.number;
    assert lo < n < x.number ==> n in writes;
  }

  lemma SegmentLink(writes: Canon, lo: nat, x: Header, below: Hash, n: nat)
    requires Segment(writes, lo, x.number, below, x.parent) && n <= x.number
    ensures lo < n ==>
              var w := writes[x.number := HashOf(x)];
              && n in w && w[n].HashOf? && w[n].header.parent == if n == lo + 1 then below else w[n - 1]
  {
    var w := writes[x.number := HashOf(x)];
    if lo < n < x.number {
      assert n in writes;
      assert w[n] == writes[n];
      assert writes[n].header.parent == Resting(writes, lo, below, n);
      assert lo + 1 < n ==> n - 1 in writes;
      assert lo + 1 < n ==> w[n - 1] == writes[n - 1];
    } else if lo + 1 < n == x.number {
      assert n - 1 in writes;
    }
  }

  class HeaderChain {
    const genesis: Header
    var headers: set<Header>
    var tds: map<Header, nat>
    var canon: Canon
    var current: Header
    var tdCache: map<Hash, nat>
    var headerCache: map<Hash, Header>

    ghost predicate Valid()
      reads this
    {
      && Rooted(headers, genesis) && tds.Keys == headers && Heaviest(tds, genesis, current)
      && TdCached(tdCache, tds) && HeaderCached(headerCache, headers)
      && LinkedTo(canon, current) && EndsAt(canon, current)
    }

    constructor (genesis: Header)
      requires genesis.number == 0 && genesis.parent.ZeroHash?
      ensures Valid() && this.genesis == genesis && current == genesis && headers == {genesis}
    {
      this.genesis, current, headers := genesis, genesis, {genesis};
      tds, canon := map[genesis := genesis.difficulty], map[0 := HashOf(genesis)];
      tdCache, headerCache := map[], map[];
    }

    /** Reads a total difficulty through the cache, which ignores the number and may evict
        anything at any time. */
    method GetTd(hash: Hash, number: nat) returns (td: Option<nat>)
      requires TdCached(tdCache, tds)
      modifies `tdCache
      ensures TdCached(tdCache, tds)
      ensures td.Some? ==> hash.HashOf? && hash.header in tds && td.value == tds[hash.header]
      ensures td.None? ==> !(hash.HashOf? && hash.header in tds && hash.header.number == number)
    {
      if hash in tdCache {
        return Some(tdCache[hash]);
      }
      if !(hash.HashOf? && hash.header in tds && hash.header.number == number) {
        return None;
      }
      td := Some(tds[hash.header]);
      var victims: set<Hash> := *;
      tdCache := tdCache[hash := tds[hash.header]] - victims;
    }

    method GetHeader(hash: Hash, number: nat) returns (header: Option<Header>)
      requires HeaderCached(headerCache, headers)
      modifies `headerCache
      ensures HeaderCached(headerCache, headers)
      ensures header.Some? ==> hash.HashOf? && hash.header in headers && header.value == hash.header
      ensures header.None? ==> !(hash.HashOf? && hash.header in headers && hash.header.number == number)
    {
      if hash in headerCache {
        return Some(headerCache[hash]);
      }
      if !(hash.HashOf? && hash.header in headers && hash.header.number == number) {
        return None;
      }
      header := Some(hash.header);
      var victims: set<Hash> := *;
      headerCache := headerCache[hash := hash.header] - victims;
    }

    /** The canonical numbers from `from` up to the first unmapped one. */
    method CollectAbove(from: nat) returns (gone: set<nat>)
      requires EndsAt(canon, current)
      requires forall n :: from <= n <= current.number ==> n in canon
      ensures gone == set n | n in canon && n >= from
    {
      gone := {};
      var i := from;
      while i in canon
        invariant from <= i <= current.number + 1 || i == from
        invariant gone == set n | n in canon && from <= n < i
        decreases current.number + 1 - i
      {
        gone, i := gone + {i}, i + 1;
      }
    }

    /** Routes the canonical markers onto the branch of `header`. */
    method Reroute(header: Header)
      requires Rooted(headers, genesis) && HeaderCached(headerCache, headers)
      requires LinkedTo(canon, current) && EndsAt(canon, current)
      requires current in headers && header in headers && header != genesis
      modifies `canon, `current, `headerCache
      ensures current == header && LinkedTo(canon, current) && EndsAt(canon, current)
              && HeaderCached(headerCache, headers)
    {
      hide Rooted, LinkedTo, EndsAt, HeaderCached, Segment;
      var number := header.number;
      LinkedPresent(canon, current, number + 1);
      var deletes := CollectAbove(number + 1);
      var writes: Canon := map[];
      RootedParent(headers, genesis, header);
      var headHash, headNumber := header.parent, number - 1;
      var headHeader := GetHeader(headHash, headNumber);
      EmptySegment(number, headHash);
      OnlyCanonicalGenesis(headers, genesis, canon, current);
      while CanonicalHash(canon, headNumber) != headHash
        invariant 0 <= headNumber && headHash.HashOf? && headHash.header in headers
        invariant headHash.header.number == headNumber && headHeader == Some(headHash.header)
        invariant HeaderCached(headerCache, headers) && canon == old(canon) && current == old(current)
        invariant Segment(writes, headNumber, number, headHash, header.parent)
        decreases headNumber
      {
        var x := headHeader.value;
        RootedParent(headers, genesis, x);
        SegmentExtend(writes, headNumber, number, x, header.parent);
        writes := writes[headNumber := headHash];
        headHash, headNumber := x.parent, x.number - 1;
        headHeader := GetHeader(headHash, headNumber);
      }
      SegmentJoin(canon, current, writes, headNumber, header, headHash, deletes);
      writes := writes[number := HashOf(header)];
      canon := canon - deletes + writes;
      current := header;
    }

    /** The total difficulties of a new header, unless its parent is unknown, and of the head. */
    method Weigh(header: Header) returns (externTd: Option<nat>, localTd: nat)
      requires Valid() && header.FollowsParent()
      modifies `tdCache
      ensures Valid()
      ensures externTd.None? <==> !(header.parent.HashOf? && header.parent.header in headers)
      ensures externTd.Some? ==>
                externTd.value == header.difficulty + tds[header.parent.header] == TotalDifficulty(genesis, header)
      ensures current in tds && localTd == tds[current] == TotalDifficulty(genesis, current)
    {
      hide Rooted, LinkedTo, EndsAt, Heaviest, TotalDifficulty, HeaderCached, TdCached;
      HeadStored(tds, genesis, current);
      var number := header.number;
      var ptd := GetTd(header.parent, if number == 0 then MAX_UINT64 else number - 1);
      var known := GetTd(HashOf(current), current.number);
      localTd := known.value;
      if ptd.None? {
        return None, localTd;
      }
      HeaviestWrite(headers, tds, genesis, current, header);
      externTd := Some(header.difficulty + ptd.value);
    }

    /** Writes a header and its total difficulty; the heavier of it and the head is then heaviest. */
    method Store(header: Header, td: nat)
      requires Valid() && header.FollowsParent() && header.parent.HashOf? && header.parent.header in headers
      requires td == header.difficulty + tds[header.parent.header] && current in tds
      modifies `tds, `headers
      ensures headers == old(headers) + {header} && tds.Keys == headers && tds == old(tds)[header := td]
      ensures header != genesis
      ensures Rooted(headers, genesis) && HeaderCached(headerCache, headers) && TdCached(tdCache, tds)
      ensures td <= old(tds)[current] ==> Heaviest(tds, genesis, current)
      ensures td >= old(tds)[current] ==> Heaviest(tds, genesis, header)
    {
      hide Rooted, LinkedTo, EndsAt, Heaviest, TotalDifficulty, HeaderCached, TdCached;
      HeaviestWrite(headers, tds, genesis, current, header);
      CachesGrow(headers, tds, headerCache, tdCache, header, td);
      tds, headers := tds[header := td], headers + {header};
    }

    method Remember(header: Header, td: nat)
      requires HeaderCached(headerCache, headers) && TdCached(tdCache, tds) && header in headers && header in tds
      requires tds[header] == td
      modifies `tdCache, `headerCache
      ensures HeaderCached(headerCache, headers) && TdCached(tdCache, tds)
      ensures HashOf(header) in headerCache && HashOf(header) in tdCache
    {
      hide HeaderCached, TdCached;
      CachesAdd(headers, tds, headerCache, tdCache, header);
      tdCache, headerCache := tdCache[HashOf(header) := td], headerCache[HashOf(header) := header];
    }

    /** Writes a header and makes it the head if it is heavier, or as heavy and the coin says so. */
    method WriteHeader(header: Header, coin: bool) returns (status: WriteStatus)
      requires Valid() && header.FollowsParent()
      modifies this
      ensures Valid()
      ensures status == UnknownAncestor <==> !(header.parent.HashOf? && header.parent.header in old(headers))
      ensures status == UnknownAncestor ==> headers == old(headers) && current == old(current) && canon == old(canon)
      ensures status != UnknownAncestor ==> headers == old(headers) + {header}
      ensures status != UnknownAncestor ==>
                tds == old(tds)[header := old(tds)[header.parent.header] + header.difficulty]
      ensures status == CanonStat ==> current == header
      ensures status == SideStat ==> current == old(current) && canon == old(canon)
      ensures status != UnknownAncestor ==>
                var extern, local := TotalDifficulty(genesis, header), TotalDifficulty(genesis, old(current));
                status == CanonStat <==> extern > local || (extern == local && coin)
    {
      hide Rooted, LinkedTo, EndsAt, Heaviest, TotalDifficulty, HeaderCached, TdCached;
      var externTd, localTd := Weigh(header);
      if externTd.None? {
        return UnknownAncestor;
      }
      var td := externTd.value;
      HeadStored(tds, genesis, current);
      Store(header, td);
      if td > localTd || (td == localTd && coin) {
        Reroute(header);
        status := CanonStat;
      } else {
        status := SideStat;
      }
      Remember(header, td);
    }

    /** Imports a batch of headers, skipping known ones that are not heavier than the head. The
        import stops at the first header whose parent is missing. */
    method InsertHeaderChain(chain: seq<Header>, coins: seq<bool>) returns (failed: Option<nat>)
      requires Valid() && |coins| == |chain| && forall i :: 0 <= i < |chain| ==> chain[i].FollowsParent()
      modifies this
      ensures Valid()
      ensures failed.None? ==>
                && headers == old(headers) + Elements(chain)
                && current == HeadAfter(genesis, old(current), old(headers), chain, coins)
      ensures failed.Some? ==>
                && failed.value < |chain| && headers == old(headers) + Elements(chain[..failed.value])
                && !(chain[failed.value].parent.HashOf? && chain[failed.value].parent.header in headers)
                && chain[failed.value] !in headers
    {
      hide Rooted, LinkedTo, EndsAt, Heaviest, TotalDifficulty, HeaderCached, TdCached, HeadAfter;
      HeadStored(tds, genesis, current);
      NoneAdded(genesis, current, headers, chain, coins);
      for i := 0 to |chain|
        invariant Valid() && headers == old(headers) + Elements(chain[..i])
        invariant current == HeadAfter(genesis, old(current), old(headers), chain[..i], coins[..i])
      {
        OneAdded(genesis, old(current), old(headers), chain, coins, i);
        var known := false;
        if chain[i] in headers {
          KnownLighter(tds, genesis, current, chain[i]);
          var externTd := GetTd(HashOf(chain[i]), chain[i].number);
          HeadStored(tds, genesis, current);
          var localTd := GetTd(HashOf(current), current.number);
          known := externTd.None? || externTd.value <= localTd.value;
        }
        if !known {
          var status := WriteHeader(chain[i], coins[i]);
          if status == UnknownAncestor {
            return Some(i);
          }
        }
      }
      assert chain[..|chain|] == chain && coins[..|coins|] == coins;
      failed := None;
    }

    /** Rewinds the chain to `head`, deleting the canonical headers above it. What remains is a
        valid chain exactly if nothing was built on a deleted header and no side header
        outweighs the new head. */
    method SetHead(head: nat)
      requires Valid()
      modifies this
      ensures current.number == if head < old(current).number then head else old(current).number
      ensures HashOf(current) == old(canon)[current.number]
      ensures headers == old(headers) - CanonicalAbove(old(canon), head)
      ensures LinkedTo(canon, current) && EndsAt(canon, current)
      ensures forall n :: n in canon ==> canon[n] == old(canon)[n]
      ensures Valid() <==>
                var number := if head < old(current).number then head else old(current).number;
                forall x :: x in old(headers) && CanonicalHash(old(canon), x.number) != HashOf(x) ==>
                  Unharmed(old(canon), genesis, head, old(canon)[number].header, x)
    {
      hide Rooted, HeaderCached, TdCached, TotalDifficulty, Heaviest, LinkedTo, EndsAt, CanonicalAbove, Unharmed;
      var gone, numbers := {}, {};
      ghost var tip := current;
      HeadStored(tds, genesis, current);
      LinkedHead(canon, current);
      NothingAbove(canon, current);
      OnlyCanonicalGenesis(headers, genesis, canon, current);
      while current.number > head
        invariant canon == old(canon) && headers == old(headers) && tds == old(tds)
        invariant HeaderCached(headerCache, headers) && current in headers && current.number <= tip.number
        invariant current.number in canon && canon[current.number] == HashOf(current)
        invariant gone == CanonicalAbove(canon, current.number)
        invariant numbers == set n | n in canon && n > current.number
        invariant current.number < head ==> current == tip
        decreases current.number
      {
        var hdr := current;
        RootedParent(headers, genesis, hdr);
        LinkedAt(canon, tip, hdr.number - 1);
        CanonicalAboveStep(canon, tip, hdr);
        var parent := GetHeader(hdr.parent, hdr.number - 1);
        current := if parent.Some? then parent.value else genesis;
        gone, numbers := gone + {hdr}, numbers + {hdr.number};
        assert forall n :: n in canon && n > current.number <==> n in canon && (n > hdr.number || n == hdr.number);
      }
      AboveSame(canon, tip, current.number, head);
      GenesisKnown(headers, genesis);
      GenesisStays(canon, tip, genesis, current.number);
      RewoundRooted(headers, genesis, gone);
      HeadKept(canon, tip, current);
      RewoundHeaviest(tds, genesis, tip, current, gone);
      SideHeaders(headers, genesis, canon, tip, head, current);
      headers, tds, canon := headers - gone, tds - gone, canon - numbers;
      tdCache, headerCache := map[], map[];
      EmptyCaches(headers, tds);
    }

    /** The `ancestor`-th ancestor of a header, jumping along the canonical index as soon as the
        walk meets it; `budget` limits the steps off the canonical chain. */
    method GetAncestor(hash: Hash, number: nat, ancestor: nat, budget: nat) returns (h: Hash, n: nat, left: nat)
      requires Valid() && hash.HashOf? && hash.header.number == number
      modifies `headerCache
      ensures Valid()
      ensures h != ZeroHash ==> h == Ancestor(hash, ancestor) && n == number - ancestor && ancestor <= number
      ensures h == ZeroHash ==> n == 0
      ensures hash.header in headers && ancestor <= number && ancestor != 1 ==>
                var steps := NonCanonicalSteps(canon, hash, number, ancestor);
                && (h != ZeroHash <==> steps <= budget)
                && left == (if steps <= budget then budget - steps else 0)
      ensures hash.header in headers && ancestor == 1 <= number ==> h != ZeroHash && left == budget
      ensures ancestor > number ==> h == ZeroHash && left == budget
    {
      hide Rooted, LinkedTo, EndsAt, Heaviest, HeaderCached, TdCached;
      left := budget;
      if ancestor > number {
        return ZeroHash, 0, left;
      }
      if ancestor == 1 {
        var header := GetHeader(hash, number);
        if header.None? {
          return ZeroHash, 0, left;
        }
        RootedParent(headers, genesis, header.value);
        assert Ancestor(hash, 1) == Ancestor(header.value.parent, 0);
        return header.value.parent, number - 1, left;
      }
      h, n := hash, number;
      var togo := ancestor;
      while togo != 0
        invariant Valid() && 0 <= togo <= ancestor && n == number - (ancestor - togo) && togo <= n
        invariant h.HashOf? && h.header.number == n && Ancestor(hash, ancestor) == Ancestor(h, togo)
        invariant hash.header in headers ==> h.header in headers
        invariant left <= budget
                  && NonCanonicalSteps(canon, hash, number, ancestor) ==
                       budget - left + NonCanonicalSteps(canon, h, n, togo)
        decreases togo
      {
        if CanonicalHash(canon, n) == h {
          CanonicalBelow(canon, current, h, n, togo);
          LinkedAncestor(canon, current, n, togo);
          h, n := CanonicalHash(canon, n - togo), n - togo;
          return;
        }
        if left == 0 {
          return ZeroHash, 0, left;
        }
        left, togo := left - 1, togo - 1;
        var header := GetHeader(h, n);
        if header.None? {
          return ZeroHash, 0, left;
        }
        RootedParent(headers, genesis, header.value);
        h, n := header.value.parent, n - 1;
      }
    }
  }

  /** A side header that a rewind to `head` leaves sound: it does not stand on a canonical header
      above `head`, and it does not outweigh the new head. */
  ghost predicate Unharmed(canon: Canon, genesis: Header, head: nat, target: Header, x: Header) {
    && !(x.number > head + 1 && CanonicalHash(canon, x.number - 1) == x.parent)
    && TotalDifficulty(genesis, x) <= TotalDifficulty(genesis, target)
  }

  /** Along the canonical chain the total difficulty does not fall. */
  lemma {:induction false} HeavierAbove(canon: Canon, genesis: Header, tip: Header, n: nat, m: nat)
    requires LinkedTo(canon, tip) && genesis.number == 0 && n <= m <= tip.number
    ensures TotalDifficulty(genesis, canon[n].header) <= TotalDifficulty(genesis, canon[m].header)
    decreases m
  {
    if n < m {
      HeavierAbove(canon, genesis, tip, n, m - 1);
      assert canon[m].header.parent == canon[m - 1];
    }
  }

  lemma AboveMember(canon: Canon, tip: Header, head: nat, x: Header)
    requires LinkedTo(canon, tip) && EndsAt(canon, tip)
    ensures x in CanonicalAbove(canon, head) <==> x.number > head && CanonicalHash(canon, x.number) == HashOf(x)
  {
    if x.number > head && CanonicalHash(canon, x.number) == HashOf(x) {
      assert canon[x.number].header == x;
    }
  }

  /** Whether a rewind keeps every kept header rooted and lighter than the new head is decided by
      the side headers alone. */
  lemma SideHeaders(headers: set<Header>, genesis: Header, canon: Canon, tip: Header, head: nat, target: Header)
    requires Rooted(headers, genesis) && LinkedTo(canon, tip) && EndsAt(canon, tip)
    requires target.number == (if head < tip.number then head else tip.number) && canon[target.number] == HashOf(target)
    ensures var gone := CanonicalAbove(canon, head);
            && (forall x :: x in headers && x !in gone && x.parent.HashOf? ==> x.parent.header !in gone)
            && (forall x :: x in headers - gone ==> TotalDifficulty(genesis, x) <= TotalDifficulty(genesis, target))
            <==>
            forall x :: x in headers && CanonicalHash(canon, x.number) != HashOf(x) ==>
                Unharmed(canon, genesis, head, target, x)
  {
    hide CanonicalAbove, TotalDifficulty, Rooted, LinkedTo, EndsAt, Unharmed;
    var gone := CanonicalAbove(canon, head);
    if forall x :: x in headers && CanonicalHash(canon, x.number) != HashOf(x) ==>
            Unharmed(canon, genesis, head, target, x)
    {
      forall x | x in headers && x !in gone
        ensures x.parent.HashOf? ==> x.parent.header !in gone
        ensures TotalDifficulty(genesis, x) <= TotalDifficulty(genesis, target)
      {
        SideHeader(headers, genesis, canon, tip, head, target, x);
      }
    }
    if && (forall x :: x in headers && x !in gone && x.parent.HashOf? ==> x.parent.header !in gone)
       && (forall x :: x in headers - gone ==> TotalDifficulty(genesis, x) <= TotalDifficulty(genesis, target)) {
      forall x | x in headers && CanonicalHash(canon, x.number) != HashOf(x)
        ensures Unharmed(canon, genesis, head, target, x)
      {
        SideHeader(headers, genesis, canon, tip, head, target, x);
      }
    }
  }

  lemma SideHeader(headers: set<Header>, genesis: Header, canon: Canon, tip: Header, head: nat, target: Header,
                   x: Header)
    requires Rooted(headers, genesis) && LinkedTo(canon, tip) && EndsAt(canon, tip) && x in headers
    requires target.number == (if head < tip.number then head else tip.number) && canon[target.number] == HashOf(target)
    ensures var gone := CanonicalAbove(canon, head);
            var sound := (x.parent.HashOf? ==> x.parent.header !in gone)
                         && TotalDifficulty(genesis, x) <= TotalDifficulty(genesis, target);
            if CanonicalHash(canon, x.number) != HashOf(x)
            then x !in gone && (Unharmed(canon, genesis, head, target, x) <==> sound)
            else x in gone || sound
  {
    hide CanonicalAbove, TotalDifficulty;
    AboveMember(canon, tip, head, x);
    if x.parent.HashOf? {
      AboveMember(canon, tip, head, x.parent.header);
    }
    if CanonicalHash(canon, x.number) == HashOf(x) && x.number <= head {
      HeavierAbove(canon, genesis, tip, x.number, target.number);
    }
  }

  /** The canonical headers above a number. */
  ghost function CanonicalAbove(canon: Canon, number: nat): set<Header> {
    set n | n in canon && n > number && canon[n].HashOf? :: canon[n].header
  }

  lemma CanonicalAboveStep(canon: Canon, head: Header, x: Header)
    requires LinkedTo(canon, head) && 0 < x.number <= head.number && canon[x.number] == HashOf(x)
    ensures CanonicalAbove(canon, x.number - 1) == CanonicalAbove(canon, x.number) + {x}
    ensures canon[x.number - 1] == x.parent
  {
    var below, above := CanonicalAbove(canon, x.number - 1), CanonicalAbove(canon, x.number);
    assert canon[x.number].header in below;
    forall y ensures y in below <==> y in above || y == x {
      if y in below && y != x {
        var n :| n in canon && n > x.number - 1 && canon[n].HashOf? && canon[n].header == y;
        assert n > x.number;
      }
      if y in above {
        var n :| n in canon && n > x.number && canon[n].HashOf? && canon[n].header == y;
        assert n > x.number - 1;
      }
    }
  }

  /** After a rewind the remaining headers are rooted exactly if no remaining header was built on
      a removed one. */
  lemma RewoundRooted(headers: set<Header>, genesis: Header, gone: set<Header>)
    requires Rooted(headers, genesis) && genesis !in gone
    ensures Rooted(headers - gone, genesis) <==>
            forall x :: x in headers && x !in gone && x.parent.HashOf? ==> x.parent.header !in gone
  {
  }

  lemma OnlyCanonicalGenesis(headers: set<Header>, genesis: Header, canon: Canon, head: Header)
    requires Rooted(headers, genesis) && LinkedTo(canon, head) && head in headers
    ensures CanonicalHash(canon, 0) == HashOf(genesis)
  {
    LinkedAncestor(canon, head, head.number, head.number);
    RootedAncestor(headers, genesis, head, head.number);
  }

  lemma CanonicalBelow(canon: Canon, head: Header, h: Hash, n: nat, k: nat)
    requires LinkedTo(canon, head) && EndsAt(canon, head) && h.HashOf? && CanonicalHash(canon, n) == h && k <= n
    ensures n <= head.number && n - k in canon && canon[n - k] != ZeroHash
  {
  }

  lemma LinkedPresent(canon: Canon, head: Header, from: nat)
    requires LinkedTo(canon, head)
    ensures forall n :: from <= n <= head.number ==> n in canon
  {
  }

  lemma RootedParent(headers: set<Header>, genesis: Header, x: Header)
    requires Rooted(headers, genesis) && x in headers
    ensures x != genesis ==> x.parent.HashOf? && x.parent.header in headers && x.number == x.parent.header.number + 1
    ensures x.number == 0 <==> x == genesis
    ensures x == genesis ==> x.parent.ZeroHash?
  {
  }

  lemma EmptySegment(hi: nat, below: Hash)
    requires hi > 0
    ensures Segment(map[], hi - 1, hi, below, below)
  {
  }

  lemma HeadStored(tds: map<Header, nat>, genesis: Header, head: Header)
    requires Heaviest(tds, genesis, head)
    ensures head in tds && tds[head] == TotalDifficulty(genesis, head)
  {
  }

  ghost function Elements(chain: seq<Header>): set<Header> {
    set x | x in chain
  }

  /** The head after a batch: each new header replaces it when it is heavier, or as heavy and the
      coin says so. */
  ghost function HeadAfter(genesis: Header, head: Header, headers: set<Header>, chain: seq<Header>,
                           coins: seq<bool>): Header
    requires |coins| == |chain|
    decreases |chain|
  {
    if chain == [] then head
    else
      var m := |chain| - 1;
      var before, x := HeadAfter(genesis, head, headers, chain[..m], coins[..m]), chain[m];
      var extern, local := TotalDifficulty(genesis, x), TotalDifficulty(genesis, before);
      if x !in headers && x !in chain[..m] && (extern > local || (extern == local && coins[m])) then x else before
  }

  lemma NoneAdded(genesis: Header, head: Header, headers: set<Header>, chain: seq<Header>, coins: seq<bool>)
    requires |coins| == |chain|
    ensures HeadAfter(genesis, head, headers, chain[..0], coins[..0]) == head
    ensures headers + Elements(chain[..0]) == headers
  {
  }

  lemma OneAdded(genesis: Header, head: Header, headers: set<Header>, chain: seq<Header>, coins: seq<bool>, i: nat)
    requires |coins| == |chain| && i < |chain|
    ensures Elements(chain[..i + 1]) == Elements(chain[..i]) + {chain[i]}
    ensures var before, x := HeadAfter(genesis, head, headers, chain[..i], coins[..i]), chain[i];
            var extern, local := TotalDifficulty(genesis, x), TotalDifficulty(genesis, before);
            HeadAfter(genesis, head, headers, chain[..i + 1], coins[..i + 1]) ==
            if x !in headers && x !in chain[..i] && (extern > local || (extern == local && coins[i])) then x else before
  {
    assert chain[..i + 1][..i] == chain[..i] && coins[..i + 1][..i] == coins[..i];
    assert chain[..i + 1] == chain[..i] + [chain[i]];
  }

  lemma KnownLighter(tds: map<Header, nat>, genesis: Header, head: Header, x: Header)
    requires Heaviest(tds, genesis, head) && x in tds
    ensures head in tds && tds[x] <= tds[head]
  {
  }

  lemma CachesGrow(headers: set<Header>, tds: map<Header, nat>, hc: map<Hash, Header>, tc: map<Hash, nat>, x: Header,
                   td: nat)
    requires HeaderCached(hc, headers) && TdCached(tc, tds) && (x in tds ==> tds[x] == td)
    ensures HeaderCached(hc, headers + {x}) && TdCached(tc, tds[x := td])
  {
  }

  lemma CachesAdd(headers: set<Header>, tds: map<Header, nat>, hc: map<Hash, Header>, tc: map<Hash, nat>, x: Header)
    requires HeaderCached(hc, headers) && TdCached(tc, tds) && x in headers && x in tds
    ensures HeaderCached(hc[HashOf(x) := x], headers) && TdCached(tc[HashOf(x) := tds[x]], tds)
  {
  }

  lemma NothingAbove(canon: Canon, head: Header)
    requires EndsAt(canon, head)
    ensures CanonicalAbove(canon, head.number) == {}
    ensures (set n | n in canon && n > head.number) == {}
  {
  }

  lemma AboveSame(canon: Canon, tip: Header, number: nat, head: nat)
    requires EndsAt(canon, tip) && number <= tip.number && (number == head || (number == tip.number && number <= head))
    ensures CanonicalAbove(canon, number) == CanonicalAbove(canon, head)
  {
    if number != head {
      assert forall n :: n in canon ==> n <= number <= head;
    }
  }

  lemma GenesisKnown(headers: set<Header>, genesis: Header)
    requires Rooted(headers, genesis)
    ensures genesis in headers && genesis.number == 0
  {
  }

  lemma GenesisStays(canon: Canon, tip: Header, genesis: Header, number: nat)
    requires LinkedTo(canon, tip) && EndsAt(canon, tip) && genesis.number == 0
    ensures genesis !in CanonicalAbove(canon, number)
  {
  }

  lemma HeadKept(canon: Canon, tip: Header, head: Header)
    requires LinkedTo(canon, tip) && EndsAt(canon, tip) && head.number <= tip.number
             && canon[head.number] == HashOf(head)
    ensures head !in CanonicalAbove(canon, head.number)
    ensures LinkedTo(canon - (set n | n in canon && n > head.number), head)
    ensures EndsAt(canon - (set n | n in canon && n > head.number), head)
  {
  }

  lemma EmptyCaches(headers: set<Header>, tds: map<Header, nat>)
    ensures HeaderCached(map[], headers) && TdCached(map[], tds)
  {
  }

  lemma LinkedHead(canon: Canon, head: Header)
    requires LinkedTo(canon, head)
    ensures head.number in canon && canon[head.number] == HashOf(head)
  {
  }

  lemma LinkedAt(canon: Canon, head: Header, n: nat)
    requires LinkedTo(canon, head) && n <= head.number
    ensures n in canon && canon[n].HashOf? && canon[n].header.number == n
  {
  }

  lemma RewoundHeaviest(tds: map<Header, nat>, genesis: Header, tip: Header, head: Header, gone: set<Header>)
    requires Heaviest(tds, genesis, tip) && head in tds && head !in gone
    ensures Heaviest(tds - gone, genesis, head) <==>
            forall x :: x in tds.Keys - gone ==> TotalDifficulty(genesis, x) <= TotalDifficulty(genesis, head)
  {
    var rest := tds - gone;
    assert forall x :: x in rest <==> x in tds.Keys - gone;
    assert forall x :: x in rest ==> rest[x] == TotalDifficulty(genesis, x);
  }

  /** Two children of one block, the second no heavier than the first. */
  ghost predicate TwoChildren(g: Header, a1: Header, a2: Header, b2: Header) {
    && g.parent == ZeroHash && g.number == 0 && a1.parent == HashOf(g) && a1.number == 1
    && a2.parent == b2.parent == HashOf(a1) && a2.number == b2.number == 2
    && a2 != b2 && a1.difficulty > 0 && a2.difficulty >= b2.difficulty > 0
  }

  lemma TwoChildrenExist()
    ensures exists g, a1, a2, b2 :: TwoChildren(g, a1, a2, b2)
  {
    var g := Header(ZeroHash, 0, 1, [], 0);
    var a1 := Header(HashOf(g), 1, 1, [], 0);
    var a2, b2 := Header(HashOf(a1), 2, 1, [], 0), Header(HashOf(a1), 2, 1, [], 1);
    assert TwoChildren(g, a1, a2, b2);
  }

  /** A rewind below the block that a side header stands on breaks the invariant. */
  method LostAncestor(g: Header, a1: Header, a2: Header, b2: Header) returns (chain: HeaderChain)
    requires TwoChildren(g, a1, a2, b2)
    ensures fresh(chain) && !chain.Valid() && chain.current == g && b2 in chain.headers && a1 !in chain.headers
  {
    hide HeaderChain.Valid, TotalDifficulty;
    Weights(g, a1, a2, b2);
    chain := new HeaderChain(g);
    var status := chain.WriteHeader(a1, false);
    status := chain.WriteHeader(a2, false);
    status := chain.WriteHeader(b2, false);
    assert chain.current == a2;
    CanonicalPath(chain, g, a1);
    ghost var canon := chain.canon;
    assert !Unharmed(canon, g, 0, g, b2) && CanonicalHash(canon, 2) != HashOf(b2);
    chain.SetHead(0);
    AboveMember(canon, a2, 0, a1);
    AboveMember(canon, a2, 0, b2);
  }

  lemma Weights(g: Header, a1: Header, a2: Header, b2: Header)
    requires TwoChildren(g, a1, a2, b2)
    ensures TotalDifficulty(g, g) < TotalDifficulty(g, a1) < TotalDifficulty(g, b2) <= TotalDifficulty(g, a2)
  {
    assert TotalDifficulty(g, a1) == a1.difficulty + TotalDifficulty(g, g);
    assert TotalDifficulty(g, a2) == a2.difficulty + TotalDifficulty(g, a1);
    assert TotalDifficulty(g, b2) == b2.difficulty + TotalDifficulty(g, a1);
  }

  lemma CanonicalPath(chain: HeaderChain, g: Header, a1: Header)
    requires chain.Valid() && chain.current.number == 2 && chain.current.parent == HashOf(a1) && a1.parent == HashOf(g)
    ensures LinkedTo(chain.canon, chain.current) && EndsAt(chain.canon, chain.current)
    ensures chain.canon == map[0 := HashOf(g), 1 := HashOf(a1), 2 := HashOf(chain.current)]
  {
    var c := chain.canon;
    assert c[2].header.parent == c[1] && c[1].header.parent == c[0];
    assert forall n :: n in c ==> n == 0 || n == 1 || n == 2;
  }
}

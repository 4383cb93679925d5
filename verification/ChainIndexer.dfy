/** The chain indexer: sections of the canonical chain are processed in the background, header by
    header, while the chain reorganises and head events arrive. Each locked region and each
    header read is one atomic step; a run is any sequence of steps. */
module ChainIndexers {
  import opened Prelude
  import opened Headers
  import BlockChains

  type Heads = map<nat, Hash>

  /** A section being processed: `number` is the next header to read, `lastHead` the hash it has
      to continue. */
  datatype Job = Job(section: nat, oldHead: Hash, number: nat, lastHead: Hash, failed: bool)

  datatype Event =
    | ChainChange(canon: Canon)
    | NewHead(head: nat, reorg: bool)
    | Update
    | ResetFails
    | Process(found: bool, processed: bool)
    | Finish(committed: bool)
    | Sections
    | Checkpoint(section: nat, shead: Hash)

  predicate Unstarted(job: Option<Job>, size: nat) {
    job.Some? && !job.value.failed && job.value.number == job.value.section * size
  }

  predicate Unfinished(job: Option<Job>, size: nat) {
    job.Some? && !job.value.failed && job.value.number < (job.value.section + 1) * size
  }

  predicate Concluded(job: Option<Job>, size: nat) {
    job.Some? && (job.value.failed || job.value.number == (job.value.section + 1) * size)
  }

  /** The canonical map after a run. */
  ghost function CanonAfter(canon: Canon, events: seq<Event>): Canon {
    if events == [] then canon
    else
      var last := events[|events| - 1];
      if last.ChainChange? then last.canon else CanonAfter(canon, events[..|events| - 1])
  }

  /** The recorded head of a section; the zero hash when there is none. */
  function SectionHead(heads: Heads, s: int): Hash {
    if s in heads then heads[s] else ZeroHash
  }

  /** The number of the last block of a section. */
  function LastOf(size: nat, s: nat): nat
    requires size > 0
  {
    s * size + (size - 1)
  }

  lemma LastStep(size: nat, s: nat)
    requires size > 0 && s > 0
    ensures LastOf(size, s) == LastOf(size, s - 1) + size
  {
    assert s * size == (s - 1) * size + size;
  }

  /** The heads of the sections from the checkpoint on form one hash chain, and no head is
      recorded past the stored sections. */
  ghost predicate HeadChain(heads: Heads, size: nat, checkpoint: nat, stored: nat) {
    && (forall s :: s in heads ==> s < stored)
    && (forall s: nat :: checkpoint <= s < stored ==> Continues(heads, size, s))
  }

  /** The head of a section is the hash `size` blocks above the head of the section before. */
  ghost predicate Continues(heads: Heads, size: nat, s: nat) {
    && s in heads && heads[s].HashOf?
    && Ancestor(heads[s], size) == SectionHead(heads, s - 1)
  }

  /** Every stored section above the checkpoint ends in the canonical block of its last number. */
  ghost predicate AllCanonical(heads: Heads, canon: Canon, size: nat, checkpoint: nat, stored: nat)
    requires size > 0
  {
    forall s: nat :: checkpoint <= s < stored ==> s in heads && CanonicalHash(canon, LastOf(size, s)) == heads[s]
  }

  /** The canonical blocks that end the stored sections descend from one another. This speaks of
      the canonical map alone; it holds of every map that leads to its head along parents. */
  ghost predicate SectionsLinked(canon: Canon, size: nat, checkpoint: nat, stored: nat)
    requires size > 0
  {
    forall s: nat :: checkpoint < s < stored ==> SectionLinked(canon, size, s)
  }

  ghost predicate SectionLinked(canon: Canon, size: nat, s: nat)
    requires size > 0 && s > 0
  {
    CanonicalHash(canon, LastOf(size, s - 1)) == Ancestor(CanonicalHash(canon, LastOf(size, s)), size)
  }

  /** What a section in flight satisfies, whatever happened since it began. */
  ghost predicate InFlight(j: Job, size: nat, checkpoint: nat) {
    && 0 <= j.number - j.section * size <= size
    && Ancestor(j.lastHead, j.number - j.section * size) == j.oldHead
    && (j.number > j.section * size ==> j.lastHead.HashOf?)
    && (j.section == 0 ==> j.oldHead == ZeroHash)
    && (j.section > checkpoint ==> j.oldHead.HashOf?)
  }

  /** When the last stored head is canonical, every stored section above the checkpoint is
      canonical exactly when the canonical map links their last blocks. */
  lemma {:induction false} OneComparison(heads: Heads, canon: Canon, size: nat, checkpoint: nat, stored: nat)
    requires size > 0 && HeadChain(heads, size, checkpoint, stored)
    requires stored > checkpoint ==> LastMatches(heads, canon, size, stored)
    ensures AllCanonical(heads, canon, size, checkpoint, stored) <==> SectionsLinked(canon, size, checkpoint, stored)
  {
    hide Ancestor;
    if AllCanonical(heads, canon, size, checkpoint, stored) {
      forall s: nat | checkpoint < s < stored ensures SectionLinked(canon, size, s) {
        assert Continues(heads, size, s) && Continues(heads, size, s - 1);
      }
    }
    if SectionsLinked(canon, size, checkpoint, stored) && stored > checkpoint {
      LinkedSections(heads, canon, size, checkpoint, stored);
    }
  }

  /** The comparison that is made: the last stored head against the canonical hash at its number. */
  ghost predicate LastMatches(heads: Heads, canon: Canon, size: nat, stored: nat)
    requires size > 0 && stored > 0
  {
    CanonicalHash(canon, LastOf(size, stored - 1)) == SectionHead(heads, stored - 1)
  }

  lemma {:induction false} LinkedSections(heads: Heads, canon: Canon, size: nat, checkpoint: nat, stored: nat)
    requires size > 0 && HeadChain(heads, size, checkpoint, stored) && stored > checkpoint
    requires LastMatches(heads, canon, size, stored) && SectionsLinked(canon, size, checkpoint, stored)
    ensures AllCanonical(heads, canon, size, checkpoint, stored)
  {
    hide Ancestor;
    var s := stored - 1;
    assert Continues(heads, size, s);
    while s > checkpoint
      invariant checkpoint <= s < stored
      invariant forall i: nat :: s <= i < stored ==> i in heads && CanonicalHash(canon, LastOf(size, i)) == heads[i]
    {
      assert Continues(heads, size, s) && Continues(heads, size, s - 1) && SectionLinked(canon, size, s);
      s := s - 1;
    }
  }

  /** A map that leads to its head along parents links every section that ends at or below it. */
  lemma LinkedBelowHead(canon: Canon, head: Header, size: nat, checkpoint: nat, stored: nat)
    requires size > 0 && LinkedTo(canon, head)
    requires stored > checkpoint ==> LastOf(size, stored - 1) <= head.number
    ensures SectionsLinked(canon, size, checkpoint, stored)
  {
    hide Ancestor;
    forall s: nat | checkpoint < s < stored ensures SectionLinked(canon, size, s) {
      LastStep(size, s);
      LastMonotone(size, s, stored - 1);
      LinkedAncestor(canon, head, LastOf(size, s), size);
    }
  }

  lemma LastMonotone(size: nat, s: nat, t: nat)
    requires size > 0 && s <= t
    ensures LastOf(size, s) <= LastOf(size, t)
  {
    assert s * size <= t * size;
  }

  function Lower(a: nat, b: nat): nat {
    if a < b then a else b
  }

  /** The complete sections of a chain of `blocks` blocks; none while the checkpoint is not reached. */
  function Complete(size: nat, checkpoint: nat, blocks: nat): nat
    requires size > 0
  {
    if blocks / size < checkpoint then 0 else blocks / size
  }

  /** The sections that survive a reorganisation at block `fork`: those complete below it, and
      never fewer than the checkpoint covers. */
  function Survivors(size: nat, checkpoint: nat, stored: nat, fork: nat): nat
    requires size > 0
  {
    var complete := (fork + 1) / size;
    var kept := if complete < checkpoint then checkpoint else complete;
    Lower(kept, stored)
  }

  /** Dropping the sections from `keep` on. */
  function Truncate(heads: Heads, keep: nat): Heads {
    map s | s in heads && s < keep :: heads[s]
  }

  lemma TruncateChain(heads: Heads, size: nat, checkpoint: nat, stored: nat, keep: nat)
    requires HeadChain(heads, size, checkpoint, stored) && keep <= stored
    ensures HeadChain(Truncate(heads, keep), size, checkpoint, keep)
  {
    forall s: nat | checkpoint <= s < keep ensures Continues(Truncate(heads, keep), size, s) {
      assert Continues(heads, size, s);
    }
  }

  class ChainIndexer {
    const sectionSize: nat
    const confirmsReq: nat
    var canon: Canon
    var heads: Heads
    var storedSections: nat
    var knownSections: nat
    var checkpointSections: nat
    var checkpointHead: Hash
    var job: Option<Job>

    ghost predicate Valid()
      reads this
    {
      && sectionSize > 0 && HeadChain(heads, sectionSize, checkpointSections, storedSections)
      && (job.Some? ==> InFlight(job.value, sectionSize, checkpointSections))
    }

    constructor (sectionSize: nat, confirmsReq: nat, canon: Canon)
      requires sectionSize > 0
      ensures Valid() && this.sectionSize == sectionSize && this.confirmsReq == confirmsReq && this.canon == canon
      ensures storedSections == 0 && knownSections == 0 && checkpointSections == 0 && heads == map[] && job.None?
    {
      this.sectionSize, this.confirmsReq, this.canon := sectionSize, confirmsReq, canon;
      heads, storedSections, knownSections, checkpointSections := map[], 0, 0, 0;
      checkpointHead, job := ZeroHash, None;
    }

    /** Records the head of a section that is trusted without being processed. A section in
        flight goes on. */
    method AddCheckpoint(section: nat, shead: Hash)
      requires Valid()
      modifies `heads, `storedSections, `checkpointSections, `checkpointHead
      ensures Valid()
      ensures section < old(storedSections) || section < old(checkpointSections) ==>
                && heads == old(heads) && storedSections == old(storedSections)
                && checkpointSections == old(checkpointSections) && checkpointHead == old(checkpointHead)
      ensures section >= old(storedSections) && section >= old(checkpointSections) ==>
                && storedSections == section + 1 && heads == old(heads)[section := shead]
                && checkpointSections == section + 1 && checkpointHead == shead
    {
      if checkpointSections >= section + 1 || section < storedSections {
        return;
      }
      checkpointSections, checkpointHead := section + 1, shead;
      heads := heads[section := shead];
      SetValidSections(section + 1);
      assert Truncate(heads, section + 1) == heads;
    }

    /** Removes the heads of the sections at and above `sections`, then sets the count. */
    method SetValidSections(sections: nat)
      requires forall s :: s in heads ==> s < storedSections || s < sections
      modifies `heads, `storedSections
      ensures storedSections == sections
      ensures heads == Truncate(old(heads), sections)
    {
      while storedSections > sections
        invariant heads == map s | s in old(heads) && (s < storedSections || s < sections) :: old(heads)[s]
      {
        storedSections := storedSections - 1;
        heads := map s | s in heads && s != storedSections :: heads[s];
      }
      storedSections := sections;
    }

    /** Drops stored sections from the end until the last one is canonical. No canonical section
        is dropped, and what stays is canonical throughout exactly when the map links it. */
    method VerifyLastHead()
      requires Valid()
      modifies `heads, `storedSections
      ensures Valid() && storedSections <= old(storedSections) && heads == Truncate(old(heads), storedSections)
      ensures Compared()
      ensures forall s: nat :: storedSections <= s < old(storedSections) ==>
                CanonicalHash(canon, LastOf(sectionSize, s)) != SectionHead(old(heads), s)
    {
      hide HeadChain, Ancestor, SectionsLinked, AllCanonical;
      TruncateAll(heads, sectionSize, checkpointSections, storedSections);
      while storedSections > 0 && storedSections > checkpointSections
        invariant Valid() && storedSections <= old(storedSections) && heads == Truncate(old(heads), storedSections)
        invariant forall s: nat :: storedSections <= s < old(storedSections) ==>
                    CanonicalHash(canon, LastOf(sectionSize, s)) != SectionHead(old(heads), s)
      {
        LastEnd(sectionSize, storedSections);
        if SectionHead(heads, storedSections - 1) == CanonicalHash(canon, storedSections * sectionSize - 1) {
          OneComparison(heads, canon, sectionSize, checkpointSections, storedSections);
          return;
        }
        TruncateChain(heads, sectionSize, checkpointSections, storedSections, storedSections - 1);
        SetValidSections(storedSections - 1);
        assert Truncate(Truncate(old(heads), storedSections + 1), storedSections) ==
                 Truncate(old(heads), storedSections);
      }
      OneComparison(heads, canon, sectionSize, checkpointSections, storedSections);
    }

    /** What the comparison of the last head establishes. */
    ghost predicate Compared()
      reads this
      requires sectionSize > 0
    {
      && (storedSections > checkpointSections ==> LastMatches(heads, canon, sectionSize, storedSections))
      && (AllCanonical(heads, canon, sectionSize, checkpointSections, storedSections) <==>
          SectionsLinked(canon, sectionSize, checkpointSections, storedSections))
    }

    /** The checkpoint does not end past a block. */
    ghost predicate Reached(block: int)
      reads this
      requires sectionSize > 0
    {
      checkpointSections > 0 ==> LastOf(sectionSize, checkpointSections - 1) <= block
    }

    /** A head event: a reorganisation invalidates the sections past the fork, a new head makes
        further confirmed sections known. */
    method NewHead(head: nat, reorg: bool)
      requires Valid()
      modifies `heads, `storedSections, `knownSections
      ensures Valid() && heads == Truncate(old(heads), storedSections)
      ensures storedSections ==
              if reorg then Survivors(sectionSize, checkpointSections, old(storedSections), head)
              else old(storedSections)
      ensures reorg ==> knownSections == Lower(Complete(sectionSize, checkpointSections, head + 1), old(knownSections))
      ensures !reorg ==> knownSections ==
                         if && head >= confirmsReq
                            && Complete(sectionSize, checkpointSections, head + 1 - confirmsReq) > old(knownSections)
                            && (old(knownSections) < checkpointSections ==>
                                  checkpointHead == CanonicalHash(canon, LastOf(sectionSize, checkpointSections - 1)))
                         then Complete(sectionSize, checkpointSections, head + 1 - confirmsReq)
                         else old(knownSections)
      ensures reorg ==>
                && knownSections <= old(knownSections) && storedSections <= old(storedSections)
                && (forall s: nat :: s < old(knownSections) ==>
                      (s < knownSections <==> LastOf(sectionSize, s) <= head && Reached(head)))
                && (forall s: nat :: s < old(storedSections) ==>
                      (s < storedSections <==> s < checkpointSections || LastOf(sectionSize, s) <= head))
      ensures !reorg ==>
                && (knownSections != old(knownSections) <==>
                      && LastOf(sectionSize, old(knownSections)) + confirmsReq <= head && Reached(head - confirmsReq)
                      && (old(knownSections) < checkpointSections ==>
                            checkpointHead == CanonicalHash(canon, LastOf(sectionSize, checkpointSections - 1))))
                && (knownSections != old(knownSections) ==>
                      forall s: nat :: s < knownSections <==> LastOf(sectionSize, s) + confirmsReq <= head)
    {
      hide HeadChain, Ancestor, LastOf;
      SurvivorsExactly(sectionSize, checkpointSections, storedSections, head);
      CompleteExactly(sectionSize, checkpointSections, head + 1);
      if head >= confirmsReq {
        CompleteExactly(sectionSize, checkpointSections, head + 1 - confirmsReq);
      }
      TruncateAll(heads, sectionSize, checkpointSections, storedSections);
      if reorg {
        var known := (head + 1) / sectionSize;
        var stored := known;
        if known < checkpointSections {
          known := 0;
        }
        if stored < checkpointSections {
          stored := checkpointSections;
        }
        if known < knownSections {
          knownSections := known;
        }
        if stored < storedSections {
          TruncateChain(heads, sectionSize, checkpointSections, storedSections, stored);
          SetValidSections(stored);
        }
        return;
      }
      if head >= confirmsReq {
        var sections := (head + 1 - confirmsReq) / sectionSize;
        if sections < checkpointSections {
          sections := 0;
        }
        if sections > knownSections {
          if knownSections < checkpointSections {
            LastEnd(sectionSize, checkpointSections);
            var syncedHead := CanonicalHash(canon, checkpointSections * sectionSize - 1);
            if syncedHead != checkpointHead {
              return;
            }
          }
          knownSections := sections;
        }
      }
    }

    /** The locked start of an update: the section to process and the head it has to continue. */
    method Begin()
      requires Valid() && job.None?
      modifies `heads, `storedSections, `job
      ensures Valid() && heads == Truncate(old(heads), storedSections) && storedSections <= old(storedSections)
      ensures job.Some? <==> knownSections > old(storedSections)
      ensures forall s: nat :: storedSections <= s < old(storedSections) ==>
                CanonicalHash(canon, LastOf(sectionSize, s)) != SectionHead(old(heads), s)
      ensures job.Some? ==>
                var head := SectionHead(heads, storedSections - 1);
                job.value == Job(storedSections, head, storedSections * sectionSize, head, false) && Compared()
    {
      hide HeadChain, Ancestor;
      if knownSections > storedSections {
        VerifyLastHead();
        var section := storedSections;
        var oldHead := ZeroHash;
        if section > 0 {
          oldHead := SectionHead(heads, section - 1);
        }
        job := Some(Job(section, oldHead, section * sectionSize, oldHead, false));
        Launched(job.value, heads, sectionSize, checkpointSections, storedSections);
      } else {
        TruncateAll(heads, sectionSize, checkpointSections, storedSections);
      }
    }

    /** The backend fails to start the section: the whole index is invalidated. */
    method FailReset()
      requires Valid() && job.Some? && !job.value.failed && job.value.number == job.value.section * sectionSize
      modifies `heads, `storedSections, `job
      ensures Valid() && storedSections == 0 && heads == map[] && job == Some(old(job).value.(failed := true))
    {
      hide Ancestor;
      SetValidSections(0);
      job := Some(job.value.(failed := true));
    }

    /** Reads and processes the next header of the section, without the lock. */
    method ProcessHeader(found: bool, processed: bool)
      requires Valid() && job.Some? && !job.value.failed && job.value.number < (job.value.section + 1) * sectionSize
      modifies `job
      ensures Valid() && job.Some? && job.value.section == old(job).value.section
              && job.value.oldHead == old(job).value.oldHead
      ensures var hash, j := CanonicalHash(canon, old(job).value.number), job.value;
              && (j.failed <==>
                  hash == ZeroHash || !found || hash.header.parent != old(job).value.lastHead || !processed)
              && (!j.failed ==> j.number == old(job).value.number + 1 && j.lastHead == hash)
    {
      hide HeadChain;
      var j := job.value;
      var hash := CanonicalHash(canon, j.number);
      if hash == ZeroHash || !found || hash.header.parent != j.lastHead || !processed {
        job := Some(j.(failed := true));
        return;
      }
      Advanced(j, sectionSize, checkpointSections, hash);
      job := Some(j.(number := j.number + 1, lastHead := hash));
    }

    /** The locked end of an update: the section counts only if the head it was built on is still
        the recorded one. */
    method Conclude(committed: bool)
      requires Valid() && job.Some? && (job.value.failed || job.value.number == (job.value.section + 1) * sectionSize)
      modifies `heads, `storedSections, `knownSections, `job
      ensures Valid() && job.None?
      ensures var j := old(job).value;
              if !j.failed && committed && (j.section == 0 || j.oldHead == SectionHead(old(heads), j.section - 1))
              then && storedSections == j.section + 1 && knownSections == old(knownSections)
                   && heads == Truncate(old(heads)[j.section := j.lastHead], j.section + 1)
              else && storedSections <= old(storedSections) && heads == Truncate(old(heads), storedSections)
                   && knownSections == storedSections && Compared()
    {
      hide HeadChain, Ancestor, InFlight;
      var j := job.value;
      var err := j.failed || !committed;
      if !err && (j.section == 0 || j.oldHead == SectionHead(heads, j.section - 1)) {
        Completed(j, heads, sectionSize, checkpointSections, storedSections);
        heads := heads[j.section := j.lastHead];
        assert forall s :: s in heads ==> s < storedSections || s < j.section + 1;
        SetValidSections(j.section + 1);
        job := None;
      } else {
        job := None;
        VerifyLastHead();
        knownSections := storedSections;
      }
    }

    /** The sections that are reported, with the head of the last one. */
    method GetSections() returns (sections: nat, head: Hash)
      requires Valid()
      modifies `heads, `storedSections
      ensures Valid() && sections == storedSections <= old(storedSections) && heads == Truncate(old(heads), sections)
      ensures head == SectionHead(heads, sections - 1) && Compared()
      ensures forall s: nat :: storedSections <= s < old(storedSections) ==>
                CanonicalHash(canon, LastOf(sectionSize, s)) != SectionHead(old(heads), s)
    {
      VerifyLastHead();
      sections, head := storedSections, SectionHead(heads, storedSections - 1);
    }

    /** One step of a run. The canonical map may change to any other map at any time, linked or
        not; steps that are not enabled do nothing. */
    method Step(e: Event)
      requires Valid()
      modifies this
      ensures Valid() && (e.Sections? ==> Compared())
      ensures canon == if e.ChainChange? then e.canon else old(canon)
      ensures e.Update? && old(job).None? ==> (job.Some? <==> knownSections > old(storedSections))
      ensures e.ResetFails? && Unstarted(old(job), sectionSize) ==> storedSections == 0
      ensures e.Process? && Unfinished(old(job), sectionSize) ==>
                job.Some? && (job.value.failed || job.value.number == old(job).value.number + 1)
      ensures e.Finish? && Concluded(old(job), sectionSize) ==> job.None?
    {
      hide HeadChain, InFlight, AllCanonical, SectionsLinked, LastMatches;
      match e
      case ChainChange(c) => canon := c;
      case NewHead(head, reorg) => NewHead(head, reorg);
      case Update => if job.None? { Begin(); }
      case ResetFails =>
        if Unstarted(job, sectionSize) {
          FailReset();
        }
      case Process(found, processed) =>
        if Unfinished(job, sectionSize) {
          ProcessHeader(found, processed);
        }
      case Finish(committed) =>
        if Concluded(job, sectionSize) {
          Conclude(committed);
        }
      case Sections => var _, _ := GetSections();
      case Checkpoint(section, shead) => AddCheckpoint(section, shead);
    }

    /** Any interleaving of changes of the canonical map, head events, checkpoints and section
        processing: the section heads form one hash chain that stops at the stored count, and what
        is reported last is canonical if the map leads to a head. */
    method Run(events: seq<Event>)
      requires Valid()
      modifies this
      ensures Valid() && HeadChain(heads, sectionSize, checkpointSections, storedSections)
      ensures canon == CanonAfter(old(canon), events)
      ensures events != [] && events[|events| - 1].Sections? ==>
                forall head :: LinkedTo(canon, head) && EndsAt(canon, head) ==>
                  AllCanonical(heads, canon, sectionSize, checkpointSections, storedSections)
    {
      hide HeadChain, InFlight, AllCanonical, SectionsLinked, LastMatches, LinkedTo, EndsAt;
      for i := 0 to |events|
        invariant Valid() && canon == CanonAfter(old(canon), events[..i])
        invariant i > 0 && events[i - 1].Sections? ==> Compared()
      {
        assert events[..i + 1][..i] == events[..i];
        Step(events[i]);
      }
      assert events[..|events|] == events;
      if events != [] && events[|events| - 1].Sections? {
        forall head | LinkedTo(canon, head) && EndsAt(canon, head)
          ensures AllCanonical(heads, canon, sectionSize, checkpointSections, storedSections)
        {
          Settled(head);
        }
      }
      ChainOfHeads();
    }

    lemma ChainOfHeads()
      requires Valid()
      ensures HeadChain(heads, sectionSize, checkpointSections, storedSections)
    {
    }

    /** After the comparison every stored section above the checkpoint is canonical if the map
        leads to a head along parents and either ends there or reaches past the last section. */
    lemma Settled(head: Header)
      requires Valid() && Compared() && LinkedTo(canon, head)
      requires EndsAt(canon, head) || (storedSections > 0 ==> LastOf(sectionSize, storedSections - 1) <= head.number)
      ensures AllCanonical(heads, canon, sectionSize, checkpointSections, storedSections)
    {
      hide Ancestor;
      if storedSections > checkpointSections {
        assert Continues(heads, sectionSize, storedSections - 1);
      }
      LinkedBelowHead(canon, head, sectionSize, checkpointSections, storedSections);
    }
  }

  lemma LastEnd(size: nat, s: nat)
    requires size > 0 && s > 0
    ensures s * size >= 1 && LastOf(size, s - 1) == s * size - 1
  {
    assert s * size == (s - 1) * size + size;
  }

  /** A section is complete in the first `blocks` blocks exactly when it ends below them. */
  lemma CompleteEnds(size: nat, s: nat, blocks: nat)
    requires size > 0
    ensures s < blocks / size <==> LastOf(size, s) < blocks
  {
    var q := blocks / size;
    assert blocks == q * size + blocks % size;
    if s < q {
      assert (s + 1) * size <= q * size;
    } else {
      assert q * size <= s * size;
    }
    assert (s + 1) * size == s * size + size;
  }

  /** Sections count as complete when they and the checkpoint end below the given number of blocks. */
  lemma CompleteExactly(size: nat, checkpoint: nat, blocks: nat)
    requires size > 0
    ensures forall s: nat :: s < Complete(size, checkpoint, blocks) <==>
              LastOf(size, s) < blocks && (checkpoint > 0 ==> LastOf(size, checkpoint - 1) < blocks)
  {
    hide LastOf;
    forall s: nat
      ensures s < Complete(size, checkpoint, blocks) <==>
                LastOf(size, s) < blocks && (checkpoint > 0 ==> LastOf(size, checkpoint - 1) < blocks)
    {
      CompleteEnds(size, s, blocks);
      if checkpoint > 0 {
        CompleteEnds(size, checkpoint - 1, blocks);
      }
    }
  }

  /** The sections that survive are those of the checkpoint and those that end at or below the fork. */
  lemma SurvivorsExactly(size: nat, checkpoint: nat, stored: nat, fork: nat)
    requires size > 0
    ensures Survivors(size, checkpoint, stored, fork) <= stored
    ensures forall s: nat :: s < stored ==>
              (s < Survivors(size, checkpoint, stored, fork) <==> s < checkpoint || LastOf(size, s) <= fork)
  {
    hide LastOf;
    forall s: nat | s < stored
      ensures s < Survivors(size, checkpoint, stored, fork) <==> s < checkpoint || LastOf(size, s) <= fork
    {
      CompleteEnds(size, s, fork + 1);
    }
  }

  lemma TruncateAll(heads: Heads, size: nat, checkpoint: nat, stored: nat)
    requires HeadChain(heads, size, checkpoint, stored)
    ensures Truncate(heads, stored) == heads && (forall s :: s in heads ==> s < stored)
  {
  }

  lemma Launched(j: Job, heads: Heads, size: nat, checkpoint: nat, stored: nat)
    requires HeadChain(heads, size, checkpoint, stored)
    requires j.section == stored && j.number == stored * size
             && j.oldHead == j.lastHead == SectionHead(heads, stored - 1)
    ensures InFlight(j, size, checkpoint)
  {
    if stored > checkpoint {
      assert Continues(heads, size, stored - 1);
    }
  }

  lemma Advanced(j: Job, size: nat, checkpoint: nat, hash: Hash)
    requires InFlight(j, size, checkpoint) && j.number < (j.section + 1) * size
    requires hash.HashOf? && hash.header.parent == j.lastHead
    ensures InFlight(j.(number := j.number + 1, lastHead := hash), size, checkpoint)
  {
    assert (j.section + 1) * size == j.section * size + size;
  }

  /** A completed section whose base is still recorded extends the head chain by one. */
  lemma Completed(j: Job, heads: Heads, size: nat, checkpoint: nat, stored: nat)
    requires size > 0 && HeadChain(heads, size, checkpoint, stored) && InFlight(j, size, checkpoint)
    requires j.number == (j.section + 1) * size && (j.section == 0 || j.oldHead == SectionHead(heads, j.section - 1))
    ensures HeadChain(Truncate(heads[j.section := j.lastHead], j.section + 1), size, checkpoint, j.section + 1)
    ensures forall s :: s in heads ==> s < stored
  {
    assert (j.section + 1) * size == j.section * size + size;
    var h := Truncate(heads[j.section := j.lastHead], j.section + 1);
    forall s: nat | checkpoint <= s <= j.section ensures Continues(h, size, s) {
      if s < j.section {
        assert j.section - 1 in heads;
        assert Continues(heads, size, s);
      }
    }
  }

  /** Told the fork point of a reorganisation, the indexer keeps only canonical sections. */
  lemma ReorgSettles(heads: Heads, before: Canon, after: Canon, size: nat, checkpoint: nat, stored: nat, fork: nat,
                     keep: nat)
    requires size > 0 && AllCanonical(heads, before, size, checkpoint, stored)
    requires forall n: nat :: n <= fork ==> CanonicalHash(after, n) == CanonicalHash(before, n)
    requires keep == Survivors(size, checkpoint, stored, fork)
    ensures AllCanonical(Truncate(heads, keep), after, size, checkpoint, keep)
  {
    forall s: nat | checkpoint <= s < keep
      ensures s in Truncate(heads, keep) && CanonicalHash(after, LastOf(size, s)) == Truncate(heads, keep)[s]
    {
      CompleteEnds(size, s, fork + 1);
      assert s in heads && CanonicalHash(before, LastOf(size, s)) == heads[s];
    }
  }

  /** Processes the next section of size one, which the canonical map holds. */
  method IndexOne(c: ChainIndexer, x: Header)
    requires c.Valid() && c.sectionSize == 1 && c.checkpointSections == 0 && c.job.None?
             && c.knownSections > c.storedSections
    requires CanonicalHash(c.canon, c.storedSections) == HashOf(x)
             && x.parent == SectionHead(c.heads, c.storedSections - 1)
    requires c.storedSections > 0 ==>
               CanonicalHash(c.canon, c.storedSections - 1) == SectionHead(c.heads, c.storedSections - 1)
    modifies c
    ensures c.Valid() && c.checkpointSections == 0 && c.job.None? && c.knownSections == old(c.knownSections)
            && c.canon == old(c.canon)
    ensures c.storedSections == old(c.storedSections) + 1 && c.heads == old(c.heads)[old(c.storedSections) := HashOf(x)]
  {
    hide HeadChain, InFlight, AllCanonical, SectionsLinked, LastMatches;
    ghost var heads := c.heads;
    TruncateAll(c.heads, 1, 0, c.storedSections);
    c.Begin();
    c.ProcessHeader(true, true);
    c.Conclude(true);
    assert Truncate(heads[old(c.storedSections) := HashOf(x)], c.storedSections) ==
             heads[old(c.storedSections) := HashOf(x)];
  }

  method IndexThree(g: Header, a1: Header, a2: Header) returns (c: ChainIndexer)
    requires g.parent == ZeroHash && a1.parent == HashOf(g) && a2.parent == HashOf(a1)
    ensures fresh(c) && c.Valid() && c.sectionSize == 1 && c.storedSections == 3 && c.checkpointSections == 0
            && c.job.None?
    ensures c.heads == map[0 := HashOf(g), 1 := HashOf(a1), 2 := HashOf(a2)]
  {
    hide ChainIndexer.Valid;
    c := new ChainIndexer(1, 0, map[0 := HashOf(g), 1 := HashOf(a1), 2 := HashOf(a2)]);
    c.NewHead(2, false);
    IndexOne(c, g);
    IndexOne(c, a1);
    IndexOne(c, a2);
  }

  lemma StaleMiddle(heads: Heads, canon: Canon, g: Header, a1: Header, a2: Header, b1: Header)
    requires BlockChains.StaleFork(g, a1, a2, b1)
    requires heads == map[0 := HashOf(g), 1 := HashOf(a1), 2 := HashOf(a2)]
    requires canon == map[0 := HashOf(g), 1 := HashOf(b1), 2 := HashOf(a2)]
    ensures LinkedTo(canon, b1) && !AllCanonical(heads, canon, 1, 0, 3)
    ensures LastOf(1, 2) == 2 && CanonicalHash(canon, 2) == SectionHead(heads, 2)
  {
    assert heads[1] != canon[1] && LastOf(1, 1) == 1;
  }

  /** At the map with a stale number the comparison succeeds although a section is not canonical:
      the indexer reports three sections, of which the middle one is not on the chain of the head. */
  method StaleSections(g: Header, a1: Header, a2: Header, b1: Header) returns (c: ChainIndexer)
    requires BlockChains.StaleFork(g, a1, a2, b1)
    ensures fresh(c) && c.Valid() && c.Compared() && c.storedSections == 3 && c.checkpointSections == 0
    ensures LinkedTo(c.canon, b1) && !AllCanonical(c.heads, c.canon, c.sectionSize, 0, 3)
    ensures !SectionsLinked(c.canon, c.sectionSize, 0, 3)
  {
    hide AllCanonical, SectionsLinked, HeadChain, LinkedTo;
    var chain := BlockChains.StaleEntry(g, a1, a2, b1);
    c := IndexThree(g, a1, a2);
    c.canon := chain.canon;
    StaleMiddle(c.heads, c.canon, g, a1, a2, b1);
    TruncateAll(c.heads, 1, 0, 3);
    var sections, head := c.GetSections();
  }
}

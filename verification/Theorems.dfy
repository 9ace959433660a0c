/** What the invariant means, over every run of the protocol: any number of writers, readers and
    cleaners interleaved in any way. */
module Theorems {
  import opened Options
  import opened Arithmetic
  import opened Protocol
  import opened Invariant
  import opened Preservation

  /** A run: states joined by allowed steps, from a fresh area. */
  datatype Run = Run(states: seq<State>, labels: seq<Label>)

  ghost predicate Fresh(s: State)
  {
    exists capacity: nat, readers: nat, cleaners: nat, reservers: nat ::
      capacity > 0 && readers > 0 && s == InitialState(capacity, readers, cleaners, reservers)
  }

  ghost predicate IsRun(r: Run)
  {
    && |r.states| == |r.labels| + 1
    && Fresh(r.states[0])
    && forall i :: 0 <= i < |r.labels| ==> Step(r.states[i], r.labels[i], r.states[i + 1])
  }

  lemma FreshInv(s: State)
    requires Fresh(s)
    ensures Inv(s)
  {
    hide Inv;
    var capacity: nat, readers: nat, cleaners: nat, reservers: nat :|
      capacity > 0 && readers > 0 && s == InitialState(capacity, readers, cleaners, reservers);
    InitialInv(capacity, readers, cleaners, reservers);
  }

  /** The invariant holds in every state of every run. */
  lemma {:induction false} RunInv(r: Run, i: nat)
    requires IsRun(r) && i < |r.states|
    ensures Inv(r.states[i])
  {
    hide Inv, Step, Fresh;
    if i == 0 {
      FreshInv(r.states[0]);
    } else {
      RunInv(r, i - 1);
      StepKeeps(r.states[i - 1], r.labels[i - 1], r.states[i]);
    }
  }

  // ---------------------------------------------------------------- counters

  /** The order of the four counters, and no more than a ring of generations in use, although a
      reserver decides from two separate loads. */
  lemma CountersOrdered(r: Run, i: nat)
    requires IsRun(r) && i < |r.states|
    ensures var a := r.states[i].area;
            a.free <= a.last <= a.read <= a.write <= a.free + a.capacity
  {
    RunInv(r, i);
    hide IsRun;
  }

  /** Two generations in use never share a ring slot, and every published, undropped generation still
      holds what its writer stored. */
  lemma OwnSlotAndValue(r: Run, i: nat, g: nat)
    requires IsRun(r) && i < |r.states|
    ensures var a, h := r.states[i].area, r.states[i].hist;
            && 0 < a.capacity == |a.ring|
            && (a.free <= g < a.write ==>
                  forall g': nat :: a.free <= g' < a.write && g' != g ==>
                    RingSlot(a.capacity, g') != RingSlot(a.capacity, g))
            && (g < a.read && h.dropped[g] == 0 ==> g in h.log && CellAt(a.ring, g) == Full(h.log[g]))
  {
    RunInv(r, i);
    hide IsRun;
    var a, h := r.states[i].area, r.states[i].hist;
    if a.free <= g < a.write {
      forall g': nat | a.free <= g' < a.write && g' != g
        ensures RingSlot(a.capacity, g') != RingSlot(a.capacity, g)
      {
        if g < g' { IndexSeparates(a.capacity, g, g'); } else { IndexSeparates(a.capacity, g', g); }
      }
    }
    if g < a.read && h.dropped[g] == 0 {
      if g < a.last {
        var t := WonBy(r.states[i], g);
        assert HoldsAll(a.ring, h.log, a.cleaners[t].last + a.cleaners[t].done, a.cleaners[t].min);
      }
      assert Holds(a.ring, h.log, g);
    }
  }

  /** The cleaner that has won generation g. */
  lemma WonBy(s: State, g: nat) returns (t: nat)
    requires Inv(s) && s.area.free <= g < s.area.last
    ensures t < |s.area.cleaners| && s.area.cleaners[t].CDrop? && s.area.cleaners[t].last <= g < s.area.cleaners[t].min
    ensures forall u :: 0 <= u < |s.area.cleaners| && s.area.cleaners[u].CDrop? && u != t ==>
                          !(s.area.cleaners[u].last <= g < s.area.cleaners[u].min)
  {
    hide CleanersOK, SlotsOK, ReserversOK, LogOK, HoldsAll, UndroppedOK, DropsOK, DeliveriesOK, WritersOK;
    var a, h := s.area, s.hist;
    var rs := WonRanges(h.pending, a.cleaners);
    var i := TilesCover(rs, a.free, a.last, g);
    t := h.pending[i];
    assert rs[i] == WonRange(a.cleaners[t]);
    forall u | 0 <= u < |a.cleaners| && a.cleaners[u].CDrop? && u != t
      ensures !(a.cleaners[u].last <= g < a.cleaners[u].min)
    {
      WonApart(h.pending, a.cleaners, a.free, a.last, t, u);
    }
  }

  // ---------------------------------------------------------------- readers

  /** last_valid_gen is never past any slot, keyed or not; and what an active reader has not passed is
      neither dropped nor won by a cleaner that will drop it. */
  lemma NoActiveReaderLosesAMessage(r: Run, i: nat, j: nat, g: nat)
    requires IsRun(r) && i < |r.states| && j < |r.states[i].area.slots|
    ensures var a, h, slot := r.states[i].area, r.states[i].hist, r.states[i].area.slots[j];
            && a.last <= slot.word.gen <= a.read
            && (!slot.word.suspended && slot.word.gen <= g < a.read ==>
                  && h.dropped[g] == 0
                  && (forall t :: 0 <= t < |a.cleaners| && a.cleaners[t].CDrop? ==> a.cleaners[t].min <= g)
                  && g in h.log && |a.ring| > 0 && CellAt(a.ring, g) == Full(h.log[g]))
  {
    RunInv(r, i);
    hide IsRun;
    var a, h, slot := r.states[i].area, r.states[i].hist, r.states[i].area.slots[j];
    assert SlotOK(slot, a.last, a.read);
    forall t | 0 <= t < |a.cleaners| && a.cleaners[t].CDrop?
      ensures a.cleaners[t].min <= a.last
    {
      WonApart(h.pending, a.cleaners, a.free, a.last, t, t);
    }
    if slot.word.gen <= g < a.read {
      assert Holds(a.ring, h.log, g);
    }
  }

  predicate NotActivated(slot: Slot)
  {
    || !slot.occupied
    || slot.pc.Claimed?
    || (slot.pc.EnterTop? && slot.pc.goal.Register?)
    || (slot.pc.EnterCas? && slot.pc.goal.Register?)
  }

  /** A slot without an activated reader is suspended: key EMPTY, key just claimed, or registering. */
  lemma SuspendedUntilActivated(r: Run, i: nat, j: nat)
    requires IsRun(r) && i < |r.states| && j < |r.states[i].area.slots|
    ensures var slot := r.states[i].area.slots[j];
            && (slot.occupied <==> slot.pc != Nobody)
            && (NotActivated(slot) ==> slot.word.suspended)
  {
    RunInv(r, i);
    hide IsRun;
    var a := r.states[i].area;
    assert SlotOK(a.slots[j], a.last, a.read);
  }

  /** A step that turns a suspended slot active is the CAS of its own owner's register or resume
      loop, and enters between last_valid_gen and read_gen as they are at that moment. */
  lemma EntersInsideTheWindow(r: Run, i: nat, j: nat)
    requires IsRun(r) && i < |r.labels| && j < |r.states[i].area.slots|
    requires j < |r.states[i + 1].area.slots|
    requires r.states[i].area.slots[j].word.suspended && !r.states[i + 1].area.slots[j].word.suspended
    ensures var a, slot' := r.states[i].area, r.states[i + 1].area.slots[j];
            && r.labels[i] == Reader(j, Go) && a.slots[j].pc.EnterCas?
            && a.last <= a.slots[j].word.gen <= slot'.word.gen <= a.read
            && slot'.word.gen == (if a.slots[j].pc.goal.ResumeAt? then a.slots[j].pc.goal.entry
                else a.slots[j].word.gen)
            && r.states[i + 1].area.last == a.last && r.states[i + 1].area.read == a.read
            && |r.states[i + 1].hist.readers| == |a.slots|
            && r.states[i + 1].hist.readers[j] == ReaderHist(slot'.word.gen, [])
  {
    RunInv(r, i);
    RunInv(r, i + 1);
    hide Inv;
    EntryStep(r.states[i], r.labels[i], r.states[i + 1], j);
  }

  /** Nobody but a slot's owner clears its suspended bit: cleaners only force suspended slots. */
  lemma OnlyOwnerActivates(a: Area, l: Label, a': Area, j: nat)
    requires Sized(a) && Next(Natural, a, l) == Some(a') && j < |a.slots| && j < |a'.slots|
    requires a.slots[j].word.suspended && !a'.slots[j].word.suspended
    ensures l.Reader? && l.i == j
  {
    match l
    case Clean(_) =>
    case _ =>
  }

  /** An owner clears the bit by the CAS of its register or resume loop. */
  lemma ActivatesByCas(slot: Slot, op: ReaderOp, last: nat, read: nat, noWriters: bool, slot': Slot)
    requires SlotOK(slot, last, read) && ReaderNext(Natural, slot, op, read, noWriters) == Some(slot')
    requires slot.word.suspended && !slot'.word.suspended
    ensures op.Go? && slot.pc.EnterCas? && slot.word == slot.pc.seen
    ensures slot'.word == Word(EntryGen(slot.pc.goal, slot.pc.seen), false)
    ensures last <= slot.word.gen <= slot'.word.gen <= read
  {
  }

  lemma EntryStep(s: State, l: Label, s': State, j: nat)
    requires Inv(s) && Inv(s') && Step(s, l, s')
    requires j < |s.area.slots| && j < |s'.area.slots|
    requires s.area.slots[j].word.suspended && !s'.area.slots[j].word.suspended
    ensures var a, slot' := s.area, s'.area.slots[j];
            && l == Reader(j, Go) && a.slots[j].pc.EnterCas?
            && a.last <= a.slots[j].word.gen <= slot'.word.gen <= a.read
            && slot'.word.gen == (if a.slots[j].pc.goal.ResumeAt? then a.slots[j].pc.goal.entry
                else a.slots[j].word.gen)
            && s'.area.last == a.last && s'.area.read == a.read
            && |s'.hist.readers| == |a.slots|
            && s'.hist.readers[j] == ReaderHist(slot'.word.gen, [])
  {
    OnlyOwnerActivates(s.area, l, s'.area, j);
    assert SlotOK(s.area.slots[j], s.area.last, s.area.read);
    hide Inv, SlotsOK, SlotOK;
    ActivatesByCas(s.area.slots[j], l.op, s.area.last, s.area.read, s.area.writers == {}, s'.area.slots[j]);
  }

  /** Generations in the table only move forward, and nobody but its owner touches an active slot. */
  lemma GenerationsOnlyGrow(r: Run, i: nat, j: nat)
    requires IsRun(r) && i < |r.labels| && j < |r.states[i].area.slots|
    ensures j < |r.states[i + 1].area.slots|
    ensures var word, word' := r.states[i].area.slots[j].word, r.states[i + 1].area.slots[j].word;
            && word.gen <= word'.gen
            && (!word.suspended && !(r.labels[i].Reader? && r.labels[i].i == j) ==> word' == word)
  {
    RunInv(r, i);
    hide IsRun;
    SlotStep(r.states[i], r.labels[i], r.states[i + 1], j);
  }

  lemma OwnerMovesForward(slot: Slot, op: ReaderOp, last: nat, read: nat, noWriters: bool, slot': Slot)
    requires SlotOK(slot, last, read) && ReaderNext(Natural, slot, op, read, noWriters) == Some(slot')
    ensures slot.word.gen <= slot'.word.gen
  {
  }

  /** A cleaner only ever forces a suspended slot, and forwards. */
  lemma CleanersForceForward(s: State, t: nat, a': Area, j: nat)
    requires Inv(s) && t < |s.area.cleaners| && CleanerNext(Natural, s.area, t) == Some(a') && j < |s.area.slots|
    ensures |a'.slots| == |s.area.slots|
    ensures var word, word' := s.area.slots[j].word, a'.slots[j].word;
            && word.gen <= word'.gen && (!word.suspended ==> word' == word)
  {
    assert CleanerOK(s.area.cleaners[t], s.area.slots, s.area.last, s.area.read);
    hide Inv, SlotsOK, CleanersOK, Scanned, Inspect, RingSlot;
  }

  lemma OthersLeaveSlots(s: State, l: Label, s': State)
    requires Step(s, l, s') && !l.Clean? && !l.Reader?
    ensures s'.area.slots == s.area.slots
  {
    hide CleanerNext, ReaderNext, Record, Allowed, SplitAt;
  }

  lemma ReaderLeavesOthers(s: State, i: nat, op: ReaderOp, s': State)
    requires Step(s, Reader(i, op), s')
    ensures i < |s.area.slots| && |s'.area.slots| == |s.area.slots|
    ensures ReaderNext(Natural, s.area.slots[i], op, s.area.read, s.area.writers == {}) == Some(s'.area.slots[i])
    ensures forall j :: 0 <= j < |s.area.slots| && j != i ==> s'.area.slots[j] == s.area.slots[j]
  {
    hide CleanerNext, ReaderNext, Record, Allowed;
  }

  lemma SlotStep(s: State, l: Label, s': State, j: nat)
    requires Inv(s) && Step(s, l, s') && j < |s.area.slots|
    ensures j < |s'.area.slots|
    ensures var word, word' := s.area.slots[j].word, s'.area.slots[j].word;
            && word.gen <= word'.gen
            && (!word.suspended && !(l.Reader? && l.i == j) ==> word' == word)
  {
    if l.Clean? {
      assert l.t < |s.area.cleaners| && CleanerNext(Natural, s.area, l.t) == Some(s'.area);
      hide Step, Inv, CleanerNext;
      CleanersForceForward(s, l.t, s'.area, j);
    } else if l.Reader? {
      assert SlotOK(s.area.slots[j], s.area.last, s.area.read);
      hide Step, Inv, SlotOK, ReaderNext;
      ReaderLeavesOthers(s, l.i, l.op, s');
      if l.i == j {
        var a := s.area;
        OwnerMovesForward(a.slots[j], l.op, a.last, a.read, a.writers == {}, s'.area.slots[j]);
      }
    } else {
      hide Step, Inv;
      OthersLeaveSlots(s, l, s');
    }
  }

  /** From its entry on, what an active reader's slices have handed it is exactly the contiguous
      stretch of the log from its entry generation to its current one: each message once, in
      generation order, with the value stored for it. */
  lemma ReaderGetsTheStretch(r: Run, i: nat, j: nat)
    requires IsRun(r) && i < |r.states| && j < |r.states[i].area.slots|
    requires !r.states[i].area.slots[j].word.suspended
    ensures var a, h := r.states[i].area, r.states[i].hist;
            && |h.readers| == |a.slots|
            && IsStretch(h.readers[j].delivered, h.log, h.readers[j].entry, a.slots[j].word.gen)
  {
    RunInv(r, i);
    hide IsRun;
  }

  /** While a slice is alive every index of it reads the value stored for that generation. */
  lemma SliceReadsTheLog(r: Run, i: nat, j: nat, k: nat)
    requires IsRun(r) && i < |r.states| && j < |r.states[i].area.slots|
    requires var pc := r.states[i].area.slots[j].pc; pc.Holding? && k < pc.end - pc.start
    ensures var a, h, pc := r.states[i].area, r.states[i].hist, r.states[i].area.slots[j].pc;
            && a.slots[j].word == Word(pc.start, false) && pc.end <= a.read
            && pc.start + k in h.log && |a.ring| > 0
            && CellAt(a.ring, pc.start + k) == Full(h.log[pc.start + k])
  {
    hide Inv, RingSlot, CellAt;
    RunInv(r, i);
    SliceIsTheReaders(r.states[i], j);
    NoActiveReaderLosesAMessage(r, i, j, r.states[i].area.slots[j].pc.start + k);
  }

  lemma SliceIsTheReaders(s: State, j: nat)
    requires Inv(s) && j < |s.area.slots| && s.area.slots[j].pc.Holding?
    ensures var slot := s.area.slots[j];
            slot.word == Word(slot.pc.start, false) && slot.pc.start <= slot.pc.end <= s.area.read
  {
    assert SlotOK(s.area.slots[j], s.area.last, s.area.read);
  }

  /** Dropping a slice finds the reader where the slice started: its panic is never reached. */
  lemma SliceDropFindsItsReader(r: Run, i: nat, j: nat)
    requires IsRun(r) && i < |r.states| && j < |r.states[i].area.slots| && r.states[i].area.slots[j].pc.SliceCheck?
    ensures Sized(r.states[i].area) && Next(Natural, r.states[i].area, Reader(j, Go)).Some?
  {
    RunInv(r, i);
    var a := r.states[i].area;
    assert SlotOK(a.slots[j], a.last, a.read);
    hide IsRun, Inv;
  }

  lemma PublishedStep(s: State, l: Label, s': State, g: nat)
    requires Inv(s) && Step(s, l, s') && g < s.area.read
    ensures g < s'.area.read && g in s.hist.log && g in s'.hist.log && s'.hist.log[g] == s.hist.log[g]
    ensures g < |s.hist.authors| && g < |s'.hist.authors| && s'.hist.authors[g] == s.hist.authors[g]
  {
    var a := s.area;
    hide SlotsOK, CleanersOK, ReserversOK, HoldsAll, UndroppedOK, DropsOK, DeliveriesOK, WritersOK, PendingOK;
    match l
    case Write(k, _, _) => TilesWithin(ReservationRanges(a.outstanding), a.read, a.write, k);
    case Publish(k) => TilesWithin(ReservationRanges(a.outstanding), a.read, a.write, k);
    case _ =>
  }

  /** Published messages never change, and stay published. */
  lemma {:induction false} PublishedIsFixed(r: Run, i: nat, j: nat, g: nat)
    requires IsRun(r) && i <= j < |r.states| && g < r.states[i].area.read
    ensures g < r.states[j].area.read && g in r.states[i].hist.log && g in r.states[j].hist.log
    ensures r.states[j].hist.log[g] == r.states[i].hist.log[g]
    ensures g < |r.states[i].hist.authors| && g < |r.states[j].hist.authors|
    ensures r.states[j].hist.authors[g] == r.states[i].hist.authors[g]
    decreases j - i
  {
    hide Inv, Step;
    if i < j {
      PublishedIsFixed(r, i, j - 1, g);
      RunInv(r, j - 1);
      PublishedStep(r.states[j - 1], r.labels[j - 1], r.states[j], g);
    } else {
      RunInv(r, i);
      PublishedIsLogged(r.states[i], g);
    }
  }

  lemma PublishedIsLogged(s: State, g: nat)
    requires Inv(s) && g < s.area.read
    ensures g in s.hist.log && g < |s.hist.authors|
  {
  }

  // ---------------------------------------------------------------- read_with_check

  /** The step on which `read_with_check` gives up with ReadError. */
  ghost predicate ReturnsReadError(r: Run, i: nat, j: nat)
    requires IsRun(r) && i < |r.labels|
  {
    && r.labels[i] == Reader(j, Go)
    && j < |r.states[i].area.slots| && r.states[i].area.slots[j].pc.ReadEndAgain?
    && j < |r.states[i + 1].area.slots| && r.states[i + 1].area.slots[j].pc == Ready
  }

  /** Without writers no reservation of a writer is left, so whatever is published next is not a
      writer's, and no writer comes back. */
  lemma NoWriterStep(s: State, l: Label, s': State)
    requires Inv(s) && Step(s, l, s') && s.area.writers == {}
    ensures s'.area.writers == {}
    ensures |s.hist.authors| <= |s'.hist.authors|
    ensures forall g :: |s.hist.authors| <= g < |s'.hist.authors| ==> !s'.hist.authors[g].ByWriter?
  {
    hide SlotsOK, CleanersOK, ReserversOK, HoldsAll, UndroppedOK, DropsOK, DeliveriesOK, PendingOK, LogOK;
  }

  lemma {:induction false} NoWritersStay(r: Run, i: nat, k: nat)
    requires IsRun(r) && i <= k < |r.states| && r.states[i].area.writers == {}
    ensures r.states[k].area.writers == {}
    decreases k - i
  {
    hide Step, Inv;
    if i < k {
      NoWritersStay(r, i, k - 1);
      RunInv(r, k - 1);
      NoWriterStep(r.states[k - 1], r.labels[k - 1], r.states[k]);
    }
  }

  /** A step without writers leaves every author that is on record, and puts no writer on record. */
  lemma AuthorStep(s: State, l: Label, s': State, g: nat)
    requires Inv(s) && Inv(s') && Step(s, l, s') && s.area.writers == {} && g < s'.area.read
    ensures g < |s'.hist.authors|
    ensures s'.hist.authors[g].ByWriter? ==>
              g < s.area.read && g < |s.hist.authors| && s.hist.authors[g] == s'.hist.authors[g]
  {
    AuthorsCounted(s);
    AuthorsCounted(s');
    NoWriterStep(s, l, s');
    if g < s.area.read { PublishedStep(s, l, s', g); }
    hide Inv, Step;
  }

  lemma {:induction false} NoWriterLater(r: Run, i: nat, k: nat, g: nat)
    requires IsRun(r) && i <= k < |r.states| && r.states[i].area.writers == {}
    requires g < r.states[k].area.read
    ensures g < |r.states[k].hist.authors|
    ensures r.states[k].hist.authors[g].ByWriter? ==> g < r.states[i].area.read
    decreases k - i
  {
    hide Step, Inv;
    RunInv(r, k);
    AuthorsCounted(r.states[k]);
    if i < k {
      RunInv(r, k - 1);
      NoWritersStay(r, i, k - 1);
      AuthorStep(r.states[k - 1], r.labels[k - 1], r.states[k], g);
      if g < r.states[k - 1].area.read { NoWriterLater(r, i, k - 1, g); }
    }
  }

  lemma AuthorsCounted(s: State)
    requires Inv(s)
    ensures |s.hist.authors| == s.area.read
  {
  }

  /** When `read_with_check` returns ReadError, every message an AreaWriter has published or ever will
      publish lies below the reader's generation, wherever publishes and writer drops fell between its
      loads. */
  lemma ReadErrorIsFinal(r: Run, i: nat, j: nat, k: nat, g: nat)
    requires IsRun(r) && i < |r.labels| && ReturnsReadError(r, i, j)
    requires i < k < |r.states| && g < r.states[k].area.read
    ensures g < |r.states[k].hist.authors| && j < |r.states[i + 1].area.slots|
    ensures !r.states[i + 1].area.slots[j].word.suspended
    ensures r.states[k].hist.authors[g].ByWriter? ==> g < r.states[i + 1].area.slots[j].word.gen
  {
    RunInv(r, i);
    var a, a' := r.states[i].area, r.states[i + 1].area;
    assert SlotOK(a.slots[j], a.last, a.read);
    assert a.writers == {} && a.slots[j].word.gen == a.read;
    NoWriterLater(r, i, k, g);
  }

  // ---------------------------------------------------------------- cleaners

  /** Half-finished scans: every slot a cleaner has passed, and after the scan every slot, is at or
      beyond the cleaner's minimum, however readers have registered, suspended, resumed and advanced
      since it was looked at. */
  lemma ScannedStayAhead(r: Run, i: nat, t: nat, j: nat)
    requires IsRun(r) && i < |r.states| && t < |r.states[i].area.cleaners| && j < |r.states[i].area.slots|
    ensures var gen := r.states[i].area.slots[j].word.gen;
            match r.states[i].area.cleaners[t]
            case CScan(_, pos, min) => j < pos ==> min <= gen
            case CForce(_, pos, min, _) => j < pos ==> min <= gen
            case CAdvance(_, min) => min <= gen
            case CDrop(_, min, _) => min <= gen
            case _ => true
  {
    RunInv(r, i);
    hide IsRun;
    var a := r.states[i].area;
    assert CleanerOK(a.cleaners[t], a.slots, a.last, a.read);
    assert SlotOK(a.slots[j], a.last, a.read);
    if a.cleaners[t].CDrop? { WonApart(r.states[i].hist.pending, a.cleaners, a.free, a.last, t, t); }
  }

  /** The ranges won and not yet freed tile [free_gen, last_valid_gen): each generation there has
      exactly one cleaner, and has been dropped exactly once or not yet, as that cleaner's progress
      says. Freed generations have been dropped exactly once, the others never. */
  lemma WonRangesTile(r: Run, i: nat, g: nat)
    requires IsRun(r) && i < |r.states|
    ensures var a, h := r.states[i].area, r.states[i].hist;
            && (g < a.free ==> h.dropped[g] == 1)
            && (a.last <= g ==> h.dropped[g] == 0)
            && (a.free <= g < a.last ==>
                  exists t :: 0 <= t < |a.cleaners| && a.cleaners[t].CDrop?
                      && a.cleaners[t].last <= g < a.cleaners[t].min
                              && h.dropped[g] == (if g < a.cleaners[t].last + a.cleaners[t].done then 1 else 0)
                              && (forall u :: 0 <= u < |a.cleaners| && u != t && a.cleaners[u].CDrop? ==>
                                    !(a.cleaners[u].last <= g < a.cleaners[u].min)))
  {
    RunInv(r, i);
    hide IsRun;
    var a, h := r.states[i].area, r.states[i].hist;
    assert DroppedEach(h.dropped, 0, a.free, 1);
    if a.free <= g < a.last {
      var t := WonBy(r.states[i], g);
      assert DroppedEach(h.dropped, a.cleaners[t].last, a.cleaners[t].last + a.cleaners[t].done, 1);
      assert DroppedEach(h.dropped, a.cleaners[t].last + a.cleaners[t].done, a.cleaners[t].min, 0);
    }
  }

  /** free_gen moves only over generations that have all been dropped by then. */
  lemma FreedAfterDropped(r: Run, i: nat, g: nat)
    requires IsRun(r) && i < |r.labels|
    requires r.states[i].area.free <= g < r.states[i + 1].area.free
    ensures r.states[i].hist.dropped[g] == 1
  {
    RunInv(r, i);
    FreeStep(r.states[i], r.labels[i], r.states[i + 1], g);
  }

  lemma FreeStep(s: State, l: Label, s': State, g: nat)
    requires Inv(s) && Step(s, l, s') && s.area.free <= g < s'.area.free
    ensures s.hist.dropped[g] == 1
  {
    hide SlotsOK, ReserversOK, HoldsAll, UndroppedOK, DeliveriesOK, PendingOK, WritersOK, Tiles, Scanned;
    match l
    case Clean(t) =>
      var pc := s.area.cleaners[t];
      assert CleanerOK(pc, s.area.slots, s.area.last, s.area.read);
      assert DroppedEach(s.hist.dropped, pc.last, pc.last + pc.done, 1);
    case _ =>
  }

  /** Whenever something won is not freed yet, the cleaner whose range comes first is not blocked: its
      next step drops a message, or its CAS on free_gen succeeds. */
  lemma SomeCleanerCanFree(r: Run, i: nat) returns (t: nat)
    requires IsRun(r) && i < |r.states| && r.states[i].area.free < r.states[i].area.last
    ensures var a := r.states[i].area;
            && Sized(a) && t < |a.cleaners| && a.cleaners[t].CDrop? && a.cleaners[t].last == a.free
            && var a' := Next(Natural, a, Clean(t));
               && a'.Some?
               && (if a.cleaners[t].done < a.cleaners[t].min - a.cleaners[t].last
                   then a'.value.cleaners[t] == a.cleaners[t].(done := a.cleaners[t].done + 1)
                   else a'.value.free == a.cleaners[t].min > a.free && a'.value.cleaners[t] == CIdle)
  {
    RunInv(r, i);
    hide IsRun;
    var a, h := r.states[i].area, r.states[i].hist;
    t := h.pending[0];
    assert WonRanges(h.pending, a.cleaners)[0] == WonRange(a.cleaners[t]);
    assert CleanerOK(a.cleaners[t], a.slots, a.last, a.read);
  }

  /** Nor can the loop that forces a suspended slot forward: after a failed CAS the slot is active, or its
      generation is strictly beyond the one seen before, so the gap up to the minimum shrinks. */
  lemma ForcingShrinksTheGap(r: Run, i: nat, t: nat)
    requires IsRun(r) && i < |r.labels| && r.labels[i] == Clean(t)
    requires t < |r.states[i].area.cleaners| && t < |r.states[i + 1].area.cleaners|
    requires r.states[i].area.cleaners[t].CForce? && r.states[i + 1].area.cleaners[t].CForce?
    ensures var pc, pc' := r.states[i].area.cleaners[t], r.states[i + 1].area.cleaners[t];
            && pc'.pos == pc.pos && pc'.min == pc.min
            && 0 < pc'.min - pc'.seen.gen < pc.min - pc.seen.gen
  {
    RunInv(r, i);
    var a := r.states[i].area;
    assert CleanerOK(a.cleaners[t], a.slots, a.last, a.read);
    assert Step(r.states[i], Clean(t), r.states[i + 1]);
    hide IsRun, Inv, Scanned, Record, Allowed;
  }

  /** The retry loop on last_valid_gen cannot go on forever: a failed CAS means the counter has grown,
      so the gap still to close shrinks, whatever the other cleaners do. */
  lemma RetryShrinksTheGap(r: Run, i: nat, t: nat)
    requires IsRun(r) && i < |r.labels| && r.labels[i] == Clean(t)
    requires t < |r.states[i].area.cleaners| && t < |r.states[i + 1].area.cleaners|
    requires r.states[i].area.cleaners[t].CAdvance? && r.states[i + 1].area.cleaners[t].CAdvance?
    ensures var pc, pc' := r.states[i].area.cleaners[t], r.states[i + 1].area.cleaners[t];
            && pc'.min == pc.min && pc.last < pc'.last == r.states[i].area.last
            && 0 < pc'.min - pc'.last < pc.min - pc.last
  {
    RunInv(r, i);
    var a := r.states[i].area;
    assert CleanerOK(a.cleaners[t], a.slots, a.last, a.read);
  }

  // ---------------------------------------------------------------- writers

  lemma OutstandingTile(outstanding: seq<Reservation>, read: nat, write: nat, g: nat)
    requires Tiles(ReservationRanges(outstanding), read, write)
    ensures forall k :: 0 <= k < |outstanding| ==> read <= outstanding[k].start < outstanding[k].end <= write
    ensures read <= g < write ==>
              exists k :: 0 <= k < |outstanding| && outstanding[k].start <= g < outstanding[k].end
                          && (forall j :: 0 <= j < |outstanding| && j != k ==>
                                !(outstanding[j].start <= g < outstanding[j].end))
  {
    hide Tiles;
    var rs := ReservationRanges(outstanding);
    forall k | 0 <= k < |outstanding|
      ensures read <= outstanding[k].start < outstanding[k].end <= write
    {
      TilesWithin(rs, read, write, k);
    }
    if read <= g < write {
      var k := TilesCover(rs, read, write, g);
      forall j | 0 <= j < |outstanding| && j != k
        ensures !(outstanding[j].start <= g < outstanding[j].end)
      {
        assert rs[j] == ReservationRange(outstanding[j]);
      }
      assert outstanding[k].start <= g < outstanding[k].end;
    }
  }

  /** The reservations alive tile [read_gen, write_gen). */
  lemma ReservationsTile(r: Run, i: nat, g: nat)
    requires IsRun(r) && i < |r.states|
    ensures var a := r.states[i].area;
            && (forall k :: 0 <= k < |a.outstanding| ==>
                  a.read <= a.outstanding[k].start < a.outstanding[k].end <= a.write)
            && (a.read <= g < a.write ==>
                  exists k :: 0 <= k < |a.outstanding| && a.outstanding[k].start <= g < a.outstanding[k].end
                              && (forall j :: 0 <= j < |a.outstanding| && j != k ==>
                                    !(a.outstanding[j].start <= g < a.outstanding[j].end)))
  {
    hide IsRun, Tiles, ReservationRanges;
    RunInv(r, i);
    var a := r.states[i].area;
    assert Tiles(ReservationRanges(a.outstanding), a.read, a.write);
    hide Inv;
    OutstandingTile(a.outstanding, a.read, a.write, g);
  }

  /** Whenever anything is unpublished exactly one reservation can publish: publishing it moves
      read_gen to its end, and an attempt on any other changes nothing. */
  lemma ExactlyOneCanPublish(r: Run, i: nat) returns (k: nat)
    requires IsRun(r) && i < |r.states| && r.states[i].area.read < r.states[i].area.write
    ensures var a := r.states[i].area;
            && Sized(a) && k < |a.outstanding|
            && (var a' := Next(Natural, a, Publish(k)); a'.Some? && a'.value.read == a.outstanding[k].end > a.read)
            && (forall j :: 0 <= j < |a.outstanding| && j != k ==> Next(Natural, a, Publish(j)) == Some(a))
  {
    RunInv(r, i);
    hide IsRun, CleanersOK, PendingOK, SlotsOK, DropsOK, UndroppedOK, ReserversOK, WritersOK, DeliveriesOK, HoldsAll,
         LogOK;
    var a := r.states[i].area;
    k := 0;
    var rs := ReservationRanges(a.outstanding);
    assert rs[0] == ReservationRange(a.outstanding[0]);
    forall j | 0 <= j < |a.outstanding| && j != k
      ensures Next(Natural, a, Publish(j)) == Some(a)
    {
      TilesWithin(rs, a.read, a.write, j);
      if a.outstanding[j].start == a.read { HeadPublishes(a.outstanding, a.read, a.write, j); }
    }
  }

  /** A reservation whose CAS can still succeed fits the ring, and the free_gen a reserver works with
      never exceeds write_gen. */
  lemma ReservationsFit(r: Run, i: nat, t: nat)
    requires IsRun(r) && i < |r.states| && t < |r.states[i].area.reservers|
    ensures var a, pc := r.states[i].area, r.states[i].area.reservers[t];
            && (pc.RGotFree? ==> pc.free <= a.write)
            && (pc.RCas? && pc.write == a.write ==> 0 < pc.n && a.write + pc.n <= a.free + a.capacity)
  {
    RunInv(r, i);
    hide IsRun;
    var a := r.states[i].area;
    assert ReserverOK(a.reservers[t], a.free, a.write, a.capacity);
  }
}

/** The protocol on the masked W-bit generations the code uses does, step for step, what the protocol
    on unbounded generations does: every comparison, distance, addition and CAS outcome agrees, as
    long as no thread sits on a snapshot a quarter of the word range behind. */
module Simulation {
  import opened Options
  import opened Arithmetic
  import opened Protocol
  import opened Invariant
  import opened Preservation
  import opened Theorems

  // ---------------------------------------------------------------- masked states

  function MaskWord(w: Width, x: Word): Word { Word(Mask(w, x.gen), x.suspended) }

  function MaskGoal(w: Width, goal: Goal): Goal
  {
    if goal.ResumeAt? then ResumeAt(Mask(w, goal.entry)) else goal
  }

  function MaskReaderPc(w: Width, pc: ReaderPc): ReaderPc
  {
    match pc
    case EnterTop(goal) => EnterTop(MaskGoal(w, goal))
    case EnterCas(goal, seen) => EnterCas(MaskGoal(w, goal), MaskWord(w, seen))
    case SuspendStore(seen) => SuspendStore(MaskWord(w, seen))
    case ReadEnd(mode, start) => ReadEnd(mode, Mask(w, start))
    case ReadEndAgain(start) => ReadEndAgain(Mask(w, start))
    case Holding(start, end) => Holding(Mask(w, start), Mask(w, end))
    case SliceCheck(start, end) => SliceCheck(Mask(w, start), Mask(w, end))
    case SliceLoad(end) => SliceLoad(Mask(w, end))
    case SliceStore(end, seen) => SliceStore(Mask(w, end), MaskWord(w, seen))
    case LeaveStore(seen) => LeaveStore(MaskWord(w, seen))
    case _ => pc
  }

  function MaskSlot(w: Width, slot: Slot): Slot
  {
    Slot(slot.occupied, MaskWord(w, slot.word), MaskReaderPc(w, slot.pc))
  }

  function MaskCleaner(w: Width, pc: CleanerPc): CleanerPc
  {
    match pc
    case CIdle => CIdle
    case CGotLast(last) => CGotLast(Mask(w, last))
    case CScan(last, pos, min) => CScan(Mask(w, last), pos, Mask(w, min))
    case CForce(last, pos, min, seen) => CForce(Mask(w, last), pos, Mask(w, min), MaskWord(w, seen))
    case CAdvance(last, min) => CAdvance(Mask(w, last), Mask(w, min))
    case CDrop(last, min, done) => CDrop(Mask(w, last), Mask(w, min), done)
  }

  function MaskReserver(w: Width, pc: ReserverPc): ReserverPc
  {
    match pc
    case RIdle => RIdle
    case RGotFree(author, n, bestEffort, free) => RGotFree(author, n, bestEffort, Mask(w, free))
    case RCas(author, write, n) => RCas(author, Mask(w, write), n)
  }

  function MaskReservation(w: Width, r: Reservation): Reservation
  {
    Reservation(Mask(w, r.start), Mask(w, r.end), r.author)
  }

  function MaskSlots(w: Width, slots: seq<Slot>): seq<Slot>
  {
    seq(|slots|, i requires 0 <= i < |slots| => MaskSlot(w, slots[i]))
  }

  function MaskCleaners(w: Width, cs: seq<CleanerPc>): seq<CleanerPc>
  {
    seq(|cs|, i requires 0 <= i < |cs| => MaskCleaner(w, cs[i]))
  }

  function MaskReservers(w: Width, rs: seq<ReserverPc>): seq<ReserverPc>
  {
    seq(|rs|, i requires 0 <= i < |rs| => MaskReserver(w, rs[i]))
  }

  function MaskReservations(w: Width, rs: seq<Reservation>): seq<Reservation>
  {
    seq(|rs|, i requires 0 <= i < |rs| => MaskReservation(w, rs[i]))
  }

  /** The area as the code stores it. */
  function MaskArea(w: Width, a: Area): Area
  {
    Area(a.capacity, Mask(w, a.write), Mask(w, a.read), Mask(w, a.last), Mask(w, a.free), a.writers,
         MaskSlots(w, a.slots), MaskCleaners(w, a.cleaners), MaskReservers(w, a.reservers),
         MaskReservations(w, a.outstanding), a.ring)
  }

  /** `v` is the area as the code stores it, whatever is in the ring. */
  ghost predicate ImageOf(w: Width, v: Area, a: Area)
  {
    |v.ring| == |a.ring| && v == MaskArea(w, a).(ring := v.ring)
  }

  ghost predicate ImageOfNext(w: Width, v: Option<Area>, a: Option<Area>)
  {
    (v.Some? <==> a.Some?) && (v.Some? ==> ImageOf(w, v.value, a.value))
  }

  function MaskOp(w: Width, op: ReaderOp): ReaderOp
  {
    if op.ResumingAt? then ResumingAt(Mask(w, op.entry)) else op
  }

  function MaskLabel(w: Width, l: Label): Label
  {
    if l.Reader? then Reader(l.i, MaskOp(w, l.op)) else l
  }

  function MaskNext(w: Width, a: Option<Area>): Option<Area>
  {
    if a.Some? then Some(MaskArea(w, a.value)) else None
  }

  // ---------------------------------------------------------------- the window

  /** `g` lies in the window [lo, lo + 2^(W-2)). */
  predicate In(w: Width, lo: nat, g: nat) { lo <= g < lo + Quarter(w) }

  predicate GoalIn(w: Width, lo: nat, goal: Goal) { goal.ResumeAt? ==> In(w, lo, goal.entry) }

  predicate SlotIn(w: Width, lo: nat, slot: Slot)
  {
    && In(w, lo, slot.word.gen)
    && match slot.pc
       case EnterTop(goal) => GoalIn(w, lo, goal)
       case EnterCas(goal, seen) => GoalIn(w, lo, goal) && In(w, lo, seen.gen)
       case SuspendStore(seen) => In(w, lo, seen.gen)
       case ReadEnd(_, start) => In(w, lo, start)
       case ReadEndAgain(start) => In(w, lo, start)
       case Holding(start, end) => In(w, lo, start) && In(w, lo, end)
       case SliceCheck(start, end) => In(w, lo, start) && In(w, lo, end)
       case SliceLoad(end) => In(w, lo, end)
       case SliceStore(end, seen) => In(w, lo, end) && In(w, lo, seen.gen)
       case LeaveStore(seen) => In(w, lo, seen.gen)
       case _ => true
  }

  predicate CleanerIn(w: Width, lo: nat, pc: CleanerPc)
  {
    match pc
    case CIdle => true
    case CGotLast(last) => In(w, lo, last)
    case CScan(last, _, min) => In(w, lo, last) && In(w, lo, min)
    case CForce(last, _, min, seen) => In(w, lo, last) && In(w, lo, min) && In(w, lo, seen.gen)
    case CAdvance(last, min) => In(w, lo, last) && In(w, lo, min)
    case CDrop(last, min, _) => In(w, lo, last) && In(w, lo, min)
  }

  predicate ReserverIn(w: Width, lo: nat, pc: ReserverPc)
  {
    match pc
    case RIdle => true
    case RGotFree(_, _, _, free) => In(w, lo, free)
    case RCas(_, write, _) => In(w, lo, write)
  }

  /** All live counters, generations and snapshots lie in one window narrower than 2^(W-2). */
  ghost predicate AreaIn(w: Width, lo: nat, a: Area)
  {
    && In(w, lo, a.write) && In(w, lo, a.read) && In(w, lo, a.last) && In(w, lo, a.free)
    && (forall i :: 0 <= i < |a.slots| ==> SlotIn(w, lo, a.slots[i]))
    && (forall t :: 0 <= t < |a.cleaners| ==> CleanerIn(w, lo, a.cleaners[t]))
    && (forall t :: 0 <= t < |a.reservers| ==> ReserverIn(w, lo, a.reservers[t]))
    && (forall k :: 0 <= k < |a.outstanding| ==> In(w, lo, a.outstanding[k].start) && In(w, lo, a.outstanding[k].end))
  }

  // ---------------------------------------------------------------- arithmetic

  lemma InCompare(w: Width, lo: nat, a: nat, b: nat)
    requires In(w, lo, a) && In(w, lo, b)
    ensures Gte(Wrapped(w), Mask(w, a), Mask(w, b)) <==> a >= b
    ensures Gt(Wrapped(w), Mask(w, a), Mask(w, b)) <==> a > b
    ensures Lte(Wrapped(w), Mask(w, a), Mask(w, b)) <==> a <= b
    ensures Lt(Wrapped(w), Mask(w, a), Mask(w, b)) <==> a < b
    ensures Mask(w, a) == Mask(w, b) <==> a == b
    ensures a >= b ==> Dist(Wrapped(w), Mask(w, a), Mask(w, b)) == a - b
  {
    CompareExact(w, a, b);
    WidthFacts(w);
    if a >= b { DistExact(w, a, b); }
  }

  lemma AddAgrees(w: Width, a: nat, n: nat)
    ensures Add(Wrapped(w), Mask(w, a), n) == Mask(w, a + n)
  {
    AddExact(w, a, n);
  }

  // ---------------------------------------------------------------- readers

  lemma CallSimulates(w: Width, slot: Slot, op: ReaderOp)
    ensures ReaderCall(MaskSlot(w, slot), MaskOp(w, op)) ==
            (var s' := ReaderCall(slot, op); if s'.Some? then Some(MaskSlot(w, s'.value)) else None)
  {
  }

  /** The step of a read that loads read_gen and sizes the slice. */
  lemma ReadEndSimulates(w: Width, lo: nat, slot: Slot, read: nat, noWriters: bool)
    requires slot.pc.ReadEnd? && slot.pc.start <= read && SlotIn(w, lo, slot) && In(w, lo, read)
    ensures ReaderGo(Wrapped(w), MaskSlot(w, slot), Mask(w, read), noWriters) ==
            (var s' := ReaderGo(Natural, slot, read, noWriters); if s'.Some? then Some(MaskSlot(w, s'.value)) else None)
  {
    hide GenGte, GenDist, GenAdd, Mask;
    var mode, start := slot.pc.mode, slot.pc.start;
    var end := SliceEnd(Natural, mode, start, read);
    InCompare(w, lo, read, start);
    InCompare(w, lo, end, start);
    AddAgrees(w, start, Min(read - start, if mode.ReadAtMost? then mode.n else 0));
  }

  /** A reader's step on the masked word, for a slot as the invariant leaves it. */
  lemma GoSimulates(w: Width, lo: nat, slot: Slot, last: nat, read: nat, noWriters: bool)
    requires SlotOK(slot, last, read) && SlotIn(w, lo, slot) && In(w, lo, read)
    ensures ReaderGo(Wrapped(w), MaskSlot(w, slot), Mask(w, read), noWriters) ==
            (var s' := ReaderGo(Natural, slot, read, noWriters); if s'.Some? then Some(MaskSlot(w, s'.value)) else None)
  {
    hide GenGte, GenDist, GenAdd, Mask, In, HasMsb, SetMsb, ClearMsb, SliceEnd;
    var g := slot.word.gen;
    match slot.pc
    case EnterTop(goal) => if goal.ResumeAt? { InCompare(w, lo, goal.entry, g); }
    case EnterCas(goal, seen) => InCompare(w, lo, g, seen.gen);
    case ReadEnd(_, _) => ReadEndSimulates(w, lo, slot, read, noWriters);
    case ReadEndAgain(start) => InCompare(w, lo, read, start);
    case SliceCheck(start, end) => InCompare(w, lo, g, start);
    case SliceLoad(end) => InCompare(w, lo, end, g);
    case _ =>
  }

  // ---------------------------------------------------------------- cleaners

  lemma RetrySimulates(w: Width, lo: nat, last: nat, min: nat)
    requires In(w, lo, last) && In(w, lo, min)
    ensures Retry(Wrapped(w), Mask(w, last), Mask(w, min)) == MaskCleaner(w, Retry(Natural, last, min))
  {
    InCompare(w, lo, min, last);
  }

  lemma InspectSimulates(w: Width, lo: nat, n: nat, last: nat, pos: nat, min: nat, seen: Word)
    requires In(w, lo, last) && In(w, lo, min) && In(w, lo, seen.gen)
    ensures Inspect(Wrapped(w), n, Mask(w, last), pos, Mask(w, min), MaskWord(w, seen)) ==
            MaskCleaner(w, Inspect(Natural, n, last, pos, min, seen))
  {
    InCompare(w, lo, min, seen.gen);
    RetrySimulates(w, lo, last, min);
    RetrySimulates(w, lo, last, if min >= seen.gen then seen.gen else min);
  }

  lemma CleanersUpdate(w: Width, cs: seq<CleanerPc>, t: nat, pc: CleanerPc)
    requires t < |cs|
    ensures MaskCleaners(w, cs[t := pc]) == MaskCleaners(w, cs)[t := MaskCleaner(w, pc)]
  {
  }

  lemma SlotsUpdate(w: Width, slots: seq<Slot>, i: nat, slot: Slot)
    requires i < |slots|
    ensures MaskSlots(w, slots[i := slot]) == MaskSlots(w, slots)[i := MaskSlot(w, slot)]
  {
  }

  lemma ReservationsAppend(w: Width, rs: seq<Reservation>, r: Reservation)
    ensures MaskReservations(w, rs + [r]) == MaskReservations(w, rs) + [MaskReservation(w, r)]
  {
  }

  lemma ReservationsCut(w: Width, rs: seq<Reservation>, k: nat, mid: seq<Reservation>)
    requires k < |rs|
    ensures MaskReservations(w, rs[..k] + mid + rs[k + 1..]) ==
            MaskReservations(w, rs)[..k] + MaskReservations(w, mid) + MaskReservations(w, rs)[k + 1..]
  {
  }

  lemma ReserversUpdate(w: Width, rs: seq<ReserverPc>, t: nat, pc: ReserverPc)
    requires t < |rs|
    ensures MaskReservers(w, rs[t := pc]) == MaskReservers(w, rs)[t := MaskReserver(w, pc)]
  {
  }

  lemma RingSlotSimulates(w: Width, a: Area, g: nat, n: nat)
    requires a.capacity > 0 && IndicesKept(w, a.capacity, a.write) && g + n < a.write
    ensures RingSlot(a.capacity, Add(Wrapped(w), Mask(w, g), n)) == RingSlot(a.capacity, g + n)
  {
    AddAgrees(w, g, n);
    IndexOfMasked(w, a.capacity, a.write, g + n);
  }

  lemma DropSimulates(w: Width, lo: nat, a: Area, t: nat)
    requires Sized(a) && t < |a.cleaners| && AreaIn(w, lo, a) && a.cleaners[t].CDrop?
    requires a.cleaners[t].last < a.cleaners[t].min <= a.write
    ensures Sized(MaskArea(w, a))
    ensures ImageOfNext(w, CleanerNext(Wrapped(w), MaskArea(w, a), t), CleanerNext(Natural, a, t))
    ensures IndicesKept(w, a.capacity, a.write) ==>
              CleanerNext(Wrapped(w), MaskArea(w, a), t) == MaskNext(w, CleanerNext(Natural, a, t))
  {
    hide GenGte, GenDist, GenAdd, Mask, RingSlot, IndicesKept;
    var last, min, done := a.cleaners[t].last, a.cleaners[t].min, a.cleaners[t].done;
    assert CleanerIn(w, lo, a.cleaners[t]);
    InCompare(w, lo, min, last);
    InCompare(w, lo, a.free, last);
    if done < min - last && IndicesKept(w, a.capacity, a.write) { RingSlotSimulates(w, a, last, done); }
    CleanersUpdate(w, a.cleaners, t, CDrop(last, min, done + 1));
    CleanersUpdate(w, a.cleaners, t, CIdle);
  }

  lemma CleanSimulates(w: Width, lo: nat, a: Area, t: nat)
    requires Sized(a) && t < |a.cleaners| && AreaIn(w, lo, a)
    requires CleanerOK(a.cleaners[t], a.slots, a.last, a.read)
    requires a.cleaners[t].CDrop? ==> a.cleaners[t].min <= a.write
    ensures Sized(MaskArea(w, a))
    ensures ImageOfNext(w, CleanerNext(Wrapped(w), MaskArea(w, a), t), CleanerNext(Natural, a, t))
    ensures IndicesKept(w, a.capacity, a.write) ==>
              CleanerNext(Wrapped(w), MaskArea(w, a), t) == MaskNext(w, CleanerNext(Natural, a, t))
  {
    hide GenGte, GenDist, GenAdd, Mask, RingSlot;
    var pc := a.cleaners[t];
    assert CleanerIn(w, lo, pc);
    match pc {
      case CIdle => CleanersUpdate(w, a.cleaners, t, CGotLast(a.last));
      case CGotLast(last) =>
        InCompare(w, lo, last, a.read);
        CleanersUpdate(w, a.cleaners, t, if last >= a.read then CIdle else CScan(last, 0, a.read));
      case CScan(last, pos, min) =>
        assert SlotIn(w, lo, a.slots[pos]);
        InspectSimulates(w, lo, |a.slots|, last, pos, min, a.slots[pos].word);
        CleanersUpdate(w, a.cleaners, t, Inspect(Natural, |a.slots|, last, pos, min, a.slots[pos].word));
      case CForce(last, pos, min, seen) =>
        assert SlotIn(w, lo, a.slots[pos]);
        InCompare(w, lo, a.slots[pos].word.gen, seen.gen);
        InspectSimulates(w, lo, |a.slots|, last, pos, min, a.slots[pos].word);
        RetrySimulates(w, lo, last, min);
        CleanersUpdate(w, a.cleaners, t, Inspect(Natural, |a.slots|, last, pos, min, a.slots[pos].word));
        CleanersUpdate(w, a.cleaners, t, ScanFrom(Natural, |a.slots|, last, pos + 1, min));
        SlotsUpdate(w, a.slots, pos, a.slots[pos].(word := Word(min, true)));
      case CAdvance(last, min) =>
        InCompare(w, lo, a.last, last);
        RetrySimulates(w, lo, a.last, min);
        CleanersUpdate(w, a.cleaners, t, CDrop(last, min, 0));
        CleanersUpdate(w, a.cleaners, t, Retry(Natural, a.last, min));
      case CDrop(_, _, _) => DropSimulates(w, lo, a, t);
    }
  }

  // ---------------------------------------------------------------- writers

  lemma ReserverSimulates(w: Width, lo: nat, a: Area, t: nat)
    requires Sized(a) && t < |a.reservers| && AreaIn(w, lo, a)
    requires ReserverOK(a.reservers[t], a.free, a.write, a.capacity) && a.free <= a.write
    ensures ReserverNext(Wrapped(w), MaskArea(w, a), t) == MaskNext(w, ReserverNext(Natural, a, t))
  {
    hide GenGte, GenDist, GenAdd, Mask;
    var pc := a.reservers[t];
    assert ReserverIn(w, lo, pc);
    match pc {
      case RIdle =>
      case RGotFree(author, n, bestEffort, free) =>
        InCompare(w, lo, a.write, free);
        var k := Granted(Available(Natural, a.capacity, free, a.write), n, bestEffort);
        ReserversUpdate(w, a.reservers, t, if k == 0 then RIdle else RCas(author, a.write, k));
      case RCas(author, write, n) =>
        InCompare(w, lo, a.write, write);
        AddAgrees(w, write, n);
        ReserversUpdate(w, a.reservers, t, RIdle);
        ReservationsAppend(w, a.outstanding, Reservation(write, write + n, author));
    }
  }

  lemma ReserveSimulates(w: Width, a: Area, l: Label)
    requires Sized(a) && l.Reserve?
    ensures Sized(MaskArea(w, a)) && Next(Wrapped(w), MaskArea(w, a), MaskLabel(w, l)) ==
        MaskNext(w, Next(Natural, a, l))
  {
    if l.t < |a.reservers| {
      ReserversUpdate(w, a.reservers, l.t, RGotFree(l.author, l.n, l.bestEffort, a.free));
    }
  }

  /** What masking does to the ends of a reservation. */
  lemma ReservationMasked(w: Width, lo: nat, a: Area, k: nat)
    requires AreaIn(w, lo, a) && k < |a.outstanding|
    requires Tiles(ReservationRanges(a.outstanding), a.read, a.write)
    ensures var r, m := a.outstanding[k], MaskReservation(w, a.outstanding[k]);
            && a.read <= r.start < r.end <= a.write && Length(Wrapped(w), m) == r.end - r.start
            && !Gte(Wrapped(w), m.start, m.end) && (Mask(w, a.read) == m.start <==> a.read == r.start)
  {
    hide GenGte, GenDist, Mask, Tiles;
    var r := a.outstanding[k];
    assert ReservationRanges(a.outstanding)[k] == ReservationRange(r);
    TilesWithin(ReservationRanges(a.outstanding), a.read, a.write, k);
    InCompare(w, lo, r.end, r.start);
    InCompare(w, lo, r.start, r.end);
    InCompare(w, lo, a.read, r.start);
  }

  lemma WriteSimulates(w: Width, lo: nat, a: Area, l: Label)
    requires Sized(a) && AreaIn(w, lo, a) && l.Write?
    requires Tiles(ReservationRanges(a.outstanding), a.read, a.write)
    ensures Sized(MaskArea(w, a))
    ensures ImageOfNext(w, Next(Wrapped(w), MaskArea(w, a), MaskLabel(w, l)), Next(Natural, a, l))
    ensures IndicesKept(w, a.capacity, a.write) ==>
              Next(Wrapped(w), MaskArea(w, a), MaskLabel(w, l)) == MaskNext(w, Next(Natural, a, l))
  {
    hide GenDist, GenAdd, Mask, RingSlot, Tiles, AreaIn, IndicesKept;
    if l.k < |a.outstanding| {
      ReservationMasked(w, lo, a, l.k);
      var r := a.outstanding[l.k];
      if l.index < r.end - r.start && IndicesKept(w, a.capacity, a.write) { RingSlotSimulates(w, a, r.start, l.index); }
    }
  }

  lemma SplitStepSimulates(w: Width, lo: nat, a: Area, l: Label)
    requires Sized(a) && AreaIn(w, lo, a) && l.Split?
    requires Tiles(ReservationRanges(a.outstanding), a.read, a.write)
    ensures Sized(MaskArea(w, a))
    ensures Next(Wrapped(w), MaskArea(w, a), MaskLabel(w, l)) == MaskNext(w, Next(Natural, a, l))
  {
    hide GenDist, GenAdd, Mask, Tiles, AreaIn, SplitAt;
    if l.k < |a.outstanding| {
      ReservationMasked(w, lo, a, l.k);
      SplitSimulates(w, a, l.k, l.at);
    }
  }

  lemma PublishSimulates(w: Width, lo: nat, a: Area, l: Label)
    requires Sized(a) && AreaIn(w, lo, a) && l.Publish?
    requires Tiles(ReservationRanges(a.outstanding), a.read, a.write)
    ensures Sized(MaskArea(w, a))
    ensures Next(Wrapped(w), MaskArea(w, a), MaskLabel(w, l)) == MaskNext(w, Next(Natural, a, l))
  {
    hide GenGte, Mask, Tiles, AreaIn;
    if l.k < |a.outstanding| {
      ReservationMasked(w, lo, a, l.k);
      PublishCut(w, a.outstanding, l.k);
    }
  }

  lemma SplitSimulates(w: Width, a: Area, k: nat, at: nat)
    requires k < |a.outstanding|
    ensures SplitAt(Wrapped(w), MaskArea(w, a), k, at) == MaskReservations(w, SplitAt(Natural, a, k, at))
  {
    hide GenAdd, Mask;
    var r := a.outstanding[k];
    AddAgrees(w, r.start, at);
    var halves := [r.(end := r.start + at), r.(start := r.start + at)];
    ReservationsCut(w, a.outstanding, k, halves);
    assert MaskReservations(w, halves) == [MaskReservation(w, halves[0]), MaskReservation(w, halves[1])];
  }

  lemma PublishCut(w: Width, rs: seq<Reservation>, k: nat)
    requires k < |rs|
    ensures MaskReservations(w, rs[..k] + rs[k + 1..]) ==
            MaskReservations(w, rs)[..k] + MaskReservations(w, rs)[k + 1..]
  {
  }

  lemma BorrowedSimulates(w: Width, a: Area, id: nat)
    ensures Borrowed(MaskArea(w, a), id) <==> Borrowed(a, id)
  {
    var m := MaskArea(w, a);
    forall k | 0 <= k < |a.outstanding|
      ensures m.outstanding[k].author == a.outstanding[k].author
    {
    }
    forall t | 0 <= t < |a.reservers|
      ensures m.reservers[t].RIdle? == a.reservers[t].RIdle?
      ensures !a.reservers[t].RIdle? ==> m.reservers[t].author == a.reservers[t].author
    {
    }
    if Borrowed(a, id) {
      if k :| 0 <= k < |a.outstanding| && a.outstanding[k].author == ByWriter(id) {
        assert m.outstanding[k].author == ByWriter(id);
      } else {
        var t :| 0 <= t < |a.reservers| && !a.reservers[t].RIdle? && a.reservers[t].author == ByWriter(id);
        assert !m.reservers[t].RIdle? && m.reservers[t].author == ByWriter(id);
      }
    }
  }

  lemma ReaderSimulates(w: Width, lo: nat, a: Area, i: nat, op: ReaderOp)
    requires Sized(a) && AreaIn(w, lo, a) && SlotsOK(a.slots, a.last, a.read)
    ensures Sized(MaskArea(w, a))
    ensures Next(Wrapped(w), MaskArea(w, a), Reader(i, MaskOp(w, op))) == MaskNext(w, Next(Natural, a, Reader(i, op)))
  {
    hide ReaderGo, ReaderCall, Mask;
    if i < |a.slots| {
      var slot := a.slots[i];
      assert SlotOK(slot, a.last, a.read) && SlotIn(w, lo, slot);
      CallSimulates(w, slot, op);
      GoSimulates(w, lo, slot, a.last, a.read, a.writers == {});
      var slot' := ReaderNext(Natural, slot, op, a.read, a.writers == {});
      if slot'.Some? { SlotsUpdate(w, a.slots, i, slot'.value); }
    }
  }

  // ---------------------------------------------------------------- the simulation

  /** Nothing but the ring's contents depends on the ring's contents. */
  lemma RingDoesNotMatter(ar: Arith, a: Area, b: Area, l: Label)
    requires Sized(a) && |b.ring| == |a.ring| && b == a.(ring := b.ring)
    ensures Next(ar, b, l).Some? <==> Next(ar, a, l).Some?
    ensures Next(ar, a, l).Some? ==>
              var a', b' := Next(ar, a, l).value, Next(ar, b, l).value;
              |b'.ring| == |a'.ring| && b' == a'.(ring := b'.ring)
  {
    hide RingSlot, Add, Gte, Dist, ReaderNext, CleanerNext, ReserverNext;
    match l
    case Clean(t) => if t < |a.cleaners| { RingDoesNotMatterToCleaners(ar, a, b, t); }
    case ReserveGo(t) => if t < |a.reservers| { RingDoesNotMatterToReservers(ar, a, b, t); }
    case Split(k, at) => if k < |a.outstanding| { assert SplitAt(ar, b, k, at) == SplitAt(ar, a, k, at); }
    case _ => hide SplitAt;
  }

  lemma RingDoesNotMatterToCleaners(ar: Arith, a: Area, b: Area, t: nat)
    requires Sized(a) && |b.ring| == |a.ring| && b == a.(ring := b.ring) && t < |a.cleaners|
    ensures CleanerNext(ar, b, t).Some? <==> CleanerNext(ar, a, t).Some?
    ensures CleanerNext(ar, a, t).Some? ==>
              var a', b' := CleanerNext(ar, a, t).value, CleanerNext(ar, b, t).value;
              |b'.ring| == |a'.ring| && b' == a'.(ring := b'.ring)
  {
    hide RingSlot, Add, Gte, Dist, Inspect, Retry, ScanFrom;
  }

  lemma RingDoesNotMatterToReservers(ar: Arith, a: Area, b: Area, t: nat)
    requires b == a.(ring := b.ring) && t < |a.reservers|
    ensures ReserverNext(ar, b, t).Some? <==> ReserverNext(ar, a, t).Some?
    ensures ReserverNext(ar, a, t).Some? ==>
              var a', b' := ReserverNext(ar, a, t).value, ReserverNext(ar, b, t).value;
              a'.ring == a.ring && b'.ring == b.ring && b' == a'.(ring := b'.ring)
  {
    hide Add, Dist, Granted, Available;
  }

  /** One step: the code on masked generations takes it exactly when the protocol on unbounded ones does,
      and to an image of the same state; with ring indices that survive masking, to the same ring too. */
  lemma StepSimulates(w: Width, lo: nat, s: State, l: Label, v: Area)
    requires Inv(s) && AreaIn(w, lo, s.area) && ImageOf(w, v, s.area)
    ensures Sized(s.area) && Sized(v)
    ensures ImageOfNext(w, Next(Wrapped(w), v, MaskLabel(w, l)), Next(Natural, s.area, l))
    ensures IndicesKept(w, s.area.capacity, s.area.write) && v.ring == s.area.ring ==>
              Next(Wrapped(w), v, MaskLabel(w, l)) == MaskNext(w, Next(Natural, s.area, l))
  {
    InvSizes(s);
    MaskSimulates(w, lo, s, l);
    hide Inv, AreaIn, Next;
    RingDoesNotMatter(Wrapped(w), MaskArea(w, s.area), v, MaskLabel(w, l));
  }

  lemma MaskSimulates(w: Width, lo: nat, s: State, l: Label)
    requires Inv(s) && AreaIn(w, lo, s.area)
    ensures Sized(s.area) && Sized(MaskArea(w, s.area))
    ensures ImageOfNext(w, Next(Wrapped(w), MaskArea(w, s.area), MaskLabel(w, l)), Next(Natural, s.area, l))
    ensures IndicesKept(w, s.area.capacity, s.area.write) ==>
              Next(Wrapped(w), MaskArea(w, s.area), MaskLabel(w, l)) == MaskNext(w, Next(Natural, s.area, l))
  {
    var a := s.area;
    hide LogOK, HoldsAll, UndroppedOK, DropsOK, DeliveriesOK, WritersOK, PendingOK, SlotsOK, Tiles, Mask;
    match l
    case Reserve(_, _, _, _) => ReserveSimulates(w, a, l);
    case ReserveGo(t) => if t < |a.reservers| { ReserverSimulates(w, lo, a, t); }
    case Write(_, _, _) => WriteSimulates(w, lo, a, l);
    case Split(_, _) => SplitStepSimulates(w, lo, a, l);
    case Publish(_) => PublishSimulates(w, lo, a, l);
    case NewWriter(_, _) =>
    case DropWriter(id) => BorrowedSimulates(w, a, id);
    case Reader(i, op) => ReaderSimulates(w, lo, a, i, op);
    case Clean(t) =>
      if t < |a.cleaners| {
        assert CleanerOK(a.cleaners[t], a.slots, a.last, a.read);
        if a.cleaners[t].CDrop? { WonApart(s.hist.pending, a.cleaners, a.free, a.last, t, t); }
        CleanSimulates(w, lo, a, t);
      }
  }

  // ---------------------------------------------------------------- where the window comes from

  /** `g` is less than a quarter of the word range behind write_gen. */
  predicate Recent(w: Width, a: Area, g: nat) { a.write < g + Quarter(w) }

  predicate GoalRecent(w: Width, a: Area, goal: Goal) { goal.ResumeAt? ==> Recent(w, a, goal.entry) }

  /** The values a thread holds from earlier loads, or was given by its caller, are recent. */
  ghost predicate SnapshotsRecent(w: Width, a: Area)
  {
    && (forall i :: 0 <= i < |a.slots| && a.slots[i].pc.EnterTop? ==> GoalRecent(w, a, a.slots[i].pc.goal))
    && (forall i :: 0 <= i < |a.slots| && a.slots[i].pc.EnterCas? ==>
          GoalRecent(w, a, a.slots[i].pc.goal) && Recent(w, a, a.slots[i].pc.seen.gen))
    && (forall t :: 0 <= t < |a.cleaners| && !a.cleaners[t].CIdle? ==> Recent(w, a, a.cleaners[t].last))
    && (forall t :: 0 <= t < |a.cleaners| && !a.cleaners[t].CIdle? && !a.cleaners[t].CGotLast? ==>
          Recent(w, a, a.cleaners[t].min))
    && (forall t :: 0 <= t < |a.cleaners| && a.cleaners[t].CForce? ==> Recent(w, a, a.cleaners[t].seen.gen))
    && (forall t :: 0 <= t < |a.reservers| && a.reservers[t].RGotFree? ==> Recent(w, a, a.reservers[t].free))
    && (forall t :: 0 <= t < |a.reservers| && a.reservers[t].RCas? ==> Recent(w, a, a.reservers[t].write))
  }

  /** Lower end of the window that ends at write_gen. */
  function WindowStart(w: Width, a: Area): nat
  {
    if a.write < Quarter(w) then 0 else a.write - Quarter(w) + 1
  }

  /** Shared memory always fits the window, as it spans at most one ring; so recent snapshots are all
      it takes. */
  lemma RecentIsEnough(w: Width, s: State)
    requires Inv(s) && s.area.capacity < Quarter(w) && SnapshotsRecent(w, s.area)
    ensures AreaIn(w, WindowStart(w, s.area), s.area)
  {
    var a, lo := s.area, WindowStart(w, s.area);
    hide LogOK, HoldsAll, UndroppedOK, DropsOK, DeliveriesOK, WritersOK, Tiles, Quarter;
    forall i | 0 <= i < |a.slots|
      ensures SlotIn(w, lo, a.slots[i])
    {
      assert SlotOK(a.slots[i], a.last, a.read);
    }
    forall t | 0 <= t < |a.cleaners|
      ensures CleanerIn(w, lo, a.cleaners[t])
    {
      assert CleanerOK(a.cleaners[t], a.slots, a.last, a.read);
      if a.cleaners[t].CDrop? { WonApart(s.hist.pending, a.cleaners, a.free, a.last, t, t); }
    }
    forall t | 0 <= t < |a.reservers|
      ensures ReserverIn(w, lo, a.reservers[t])
    {
      assert ReserverOK(a.reservers[t], a.free, a.write, a.capacity);
    }
    var rs := ReservationRanges(a.outstanding);
    forall k | 0 <= k < |a.outstanding|
      ensures In(w, lo, a.outstanding[k].start) && In(w, lo, a.outstanding[k].end)
    {
      assert rs[k] == ReservationRange(a.outstanding[k]);
      TilesWithin(rs, a.read, a.write, k);
    }
  }

  // ---------------------------------------------------------------- whole runs

  /** The state the unbounded protocol is in after the steps `ls`. */
  function After(s: State, ls: seq<Label>): Option<State>
    decreases |ls|
  {
    if ls == [] then Some(s) else
      var m := After(s, ls[..|ls| - 1]);
      if m.None? || !Sized(m.value.area) || |m.value.hist.readers| != |m.value.area.slots| then None else
        var a' := Next(Natural, m.value.area, ls[|ls| - 1]);
        if a'.None? then None else Some(State(a'.value, Record(m.value, ls[|ls| - 1])))
  }

  /** The callers keep their side in the state the run has reached, and no thread has fallen a quarter
      of the word range behind. */
  ghost predicate Disciplined(w: Width, s: State, l: Label)
  {
    Allowed(s, l) && SnapshotsRecent(w, s.area)
  }

  ghost predicate DisciplinedRun(w: Width, s0: State, ls: seq<Label>)
  {
    forall q :: 0 <= q < |ls| && After(s0, ls[..q]).Some? ==> Disciplined(w, After(s0, ls[..q]).value, ls[q])
  }

  /** Ring indices survive masking all along the run. */
  ghost predicate RingKept(w: Width, s0: State, ls: seq<Label>)
    requires s0.area.capacity > 0
  {
    forall q :: 0 <= q < |ls| && After(s0, ls[..q]).Some? ==>
      IndicesKept(w, s0.area.capacity, After(s0, ls[..q]).value.area.write)
  }

  /** A run of the code on W-bit words, by the steps `ls`. */
  ghost predicate WrappedRun(w: Width, ws: seq<Area>, ls: seq<Label>)
  {
    && |ws| == |ls| + 1
    && forall p :: 0 <= p < |ls| ==> Sized(ws[p]) && Next(Wrapped(w), ws[p], MaskLabel(w, ls[p])) == Some(ws[p + 1])
  }

  /** Every run of the code on W-bit words is, state for state, the image of the run of the unbounded
      protocol by the same steps: all counters, reader words, snapshots and outcomes. Where ring indices
      survive masking, the rings are the same as well. */
  lemma {:induction false} WrappedRunRefines(w: Width, s0: State, ws: seq<Area>, ls: seq<Label>, p: nat)
    requires Inv(s0) && s0.area.capacity < Quarter(w)
    requires WrappedRun(w, ws, ls) && ImageOf(w, ws[0], s0.area) && DisciplinedRun(w, s0, ls)
    requires p <= |ls|
    ensures After(s0, ls[..p]).Some? && s0.area.capacity > 0
    ensures Inv(After(s0, ls[..p]).value) && After(s0, ls[..p]).value.area.capacity == s0.area.capacity
    ensures ImageOf(w, ws[p], After(s0, ls[..p]).value.area)
    ensures RingKept(w, s0, ls) && ws[0].ring == s0.area.ring ==> ws[p].ring == After(s0, ls[..p]).value.area.ring
  {
    hide Inv, Next, Record, ImageOf, Disciplined, IndicesKept, Sized;
    PositiveCapacity(s0);
    if p > 0 {
      WrappedRunRefines(w, s0, ws, ls, p - 1);
      var s, l := After(s0, ls[..p - 1]).value, ls[p - 1];
      assert ls[..p][..p - 1] == ls[..p - 1] && ls[..p][p - 1] == l;
      InvSizes(s);
      var s' := RefineStep(w, s, l, ws[p - 1], ws[p]);
    }
  }

  lemma PositiveCapacity(s: State)
    requires Inv(s)
    ensures s.area.capacity > 0
  {
  }

  lemma RefineStep(w: Width, s: State, l: Label, v: Area, v': Area) returns (s': State)
    requires Inv(s) && s.area.capacity < Quarter(w) && Disciplined(w, s, l)
    requires ImageOf(w, v, s.area) && Sized(v) && Next(Wrapped(w), v, MaskLabel(w, l)) == Some(v')
    ensures Sized(s.area) && |s.hist.readers| == |s.area.slots|
    ensures Next(Natural, s.area, l) == Some(s'.area) && s'.hist == Record(s, l)
    ensures Inv(s') && s'.area.capacity == s.area.capacity && ImageOf(w, v', s'.area)
    ensures IndicesKept(w, s.area.capacity, s.area.write) && v.ring == s.area.ring ==> v'.ring == s'.area.ring
  {
    hide Inv, Record, ImageOf, SnapshotsRecent, IndicesKept, AreaIn, Next, Sized;
    RecentIsEnough(w, s);
    StepSimulates(w, WindowStart(w, s.area), s, l, v);
    InvSizes(s);
    s' := State(Next(Natural, s.area, l).value, Record(s, l));
    StepKeeps(s, l, s');
    CapacityFixed(s.area, l);
  }

  lemma CapacityFixed(a: Area, l: Label)
    requires Sized(a) && Next(Natural, a, l).Some?
    ensures Next(Natural, a, l).value.capacity == a.capacity
  {
  }

  /** A fresh area is the masked form of itself, so the code's runs start where the refinement does. */
  lemma FreshIsMasked(w: Width, s: State)
    requires Fresh(s)
    ensures MaskArea(w, s.area) == s.area
  {
    WidthFacts(w);
    RemainderUnique(0, 0, 0, Half(w));
    assert MaskSlots(w, s.area.slots) == s.area.slots;
    assert MaskCleaners(w, s.area.cleaners) == s.area.cleaners;
    assert MaskReservers(w, s.area.reservers) == s.area.reservers;
    assert MaskReservations(w, s.area.outstanding) == s.area.outstanding;
  }

  /** On W-bit words: in every state of every run of the code, the slot an active reader computes for a
      message it has not passed holds the value stored for that message. */
  lemma WrappedReadersKeepTheirMessages(w: Width, s0: State, ws: seq<Area>, ls: seq<Label>, p: nat, j: nat, g: nat)
    requires Inv(s0) && s0.area.capacity < Quarter(w)
    requires WrappedRun(w, ws, ls) && ws[0] == MaskArea(w, s0.area) && DisciplinedRun(w, s0, ls)
    requires p <= |ls| && j < |ws[p].slots| && !ws[p].slots[j].word.suspended
    requires Half(w) % s0.area.capacity == 0
    ensures After(s0, ls[..p]).Some? && Sized(ws[p])
    ensures var s := After(s0, ls[..p]).value;
            && j < |s.area.slots| && ws[p].slots[j].word == MaskWord(w, s.area.slots[j].word)
            && (s.area.slots[j].word.gen <= g < s.area.read ==>
                  g in s.hist.log && ws[p].ring[RingSlot(ws[p].capacity, Mask(w, g))] == Full(s.hist.log[g]))
  {
    WrappedRunRefines(w, s0, ws, ls, p);
    var s := After(s0, ls[..p]).value;
    hide WrappedRun, DisciplinedRun, After, Mask;
    assert SlotOK(s.area.slots[j], s.area.last, s.area.read);
    if s.area.slots[j].word.gen <= g < s.area.read {
      assert Holds(s.area.ring, s.hist.log, g);
      IndexOfMasked(w, s.area.capacity, g + 1, g);
    }
  }

  /** `ws` are images of the states of run `r`. */
  ghost predicate ImageRun(w: Width, r: Run, ws: seq<Area>)
  {
    && IsRun(r) && |ws| == |r.states| == |r.labels| + 1
    && forall p :: 0 <= p < |ws| ==> ImageOf(w, ws[p], r.states[p].area)
  }

  /** `ws` are the states of run `r` as the code stores them, rings included. */
  ghost predicate MaskedRun(w: Width, r: Run, ws: seq<Area>)
  {
    ImageRun(w, r, ws) && forall p :: 0 <= p < |ws| ==> ws[p].ring == r.states[p].area.ring
  }

  /** The code's run on W-bit words, from a fresh area, is the image of a run in the sense of module
      `Theorems`, so whatever is proved there of `r` is proved of the code; of what is in its ring, where
      ring indices survive masking. */
  lemma WrappedRunIsARun(w: Width, s0: State, ws: seq<Area>, ls: seq<Label>) returns (r: Run)
    requires Fresh(s0) && s0.area.capacity < Quarter(w)
    requires WrappedRun(w, ws, ls) && ws[0] == s0.area && DisciplinedRun(w, s0, ls)
    ensures ImageRun(w, r, ws) && r.labels == ls && r.states[0] == s0 && s0.area.capacity > 0
    ensures (forall q :: 0 <= q < |ls| ==> IndicesKept(w, s0.area.capacity, r.states[q].area.write)) ==>
               MaskedRun(w, r, ws)
  {
    hide Inv, Step, ImageOf, After, WrappedRun, Disciplined, IndicesKept, Fresh;
    FreshInv(s0);
    PositiveCapacity(s0);
    FreshIsMasked(w, s0);
    MaskIsImage(w, s0.area);
    assert |ws| == |ls| + 1 by { RunLength(w, ws, ls); }
    forall p | 0 <= p <= |ls|
      ensures After(s0, ls[..p]).Some? && ImageOf(w, ws[p], After(s0, ls[..p]).value.area)
      ensures RingKept(w, s0, ls) ==> ws[p].ring == After(s0, ls[..p]).value.area.ring
    {
      WrappedRunRefines(w, s0, ws, ls, p);
    }
    r := Run(seq(|ls| + 1, p requires 0 <= p <= |ls| => After(s0, ls[..p]).value), ls);
    AfterNothing(s0);
    assert ls[..0] == [];
    forall i | 0 <= i < |ls|
      ensures Step(r.states[i], ls[i], r.states[i + 1])
    {
      AfterOneMore(w, s0, ls, i);
    }
  }

  lemma MaskIsImage(w: Width, a: Area)
    ensures ImageOf(w, MaskArea(w, a), a)
  {
  }

  lemma RunLength(w: Width, ws: seq<Area>, ls: seq<Label>)
    requires WrappedRun(w, ws, ls)
    ensures |ws| == |ls| + 1
  {
  }

  lemma AfterNothing(s: State)
    ensures After(s, []) == Some(s)
  {
  }

  lemma AfterOneMore(w: Width, s0: State, ls: seq<Label>, i: nat)
    requires i < |ls| && After(s0, ls[..i]).Some? && After(s0, ls[..i + 1]).Some?
    requires Disciplined(w, After(s0, ls[..i]).value, ls[i])
    ensures Step(After(s0, ls[..i]).value, ls[i], After(s0, ls[..i + 1]).value)
  {
    hide Next, Record, Allowed, SnapshotsRecent;
    assert ls[..i + 1][..i] == ls[..i] && ls[..i + 1][i] == ls[i];
  }

  /** On W-bit words: an active reader's word stands exactly at the end of the contiguous stretch of the
      log it has been handed. */
  lemma WrappedReaderGetsTheStretch(w: Width, r: Run, ws: seq<Area>, p: nat, j: nat)
    requires MaskedRun(w, r, ws) && p < |ws| && j < |ws[p].slots| && !ws[p].slots[j].word.suspended
    ensures j < |r.states[p].hist.readers|
    ensures var h, rh := r.states[p].hist, r.states[p].hist.readers[j];
            && ws[p].slots[j].word.gen == Mask(w, rh.entry + |rh.delivered|)
            && IsStretch(rh.delivered, h.log, rh.entry, rh.entry + |rh.delivered|)
  {
    hide IsRun, Mask, IsStretch;
    var h := r.states[p].hist;
    ReaderGetsTheStretch(r, p, j);
    StretchLength(h.readers[j].delivered, h.log, h.readers[j].entry, r.states[p].area.slots[j].word.gen);
  }

  /** On W-bit words: behind free_gen every generation has been dropped exactly once, from last_valid_gen
      on none has, and none ever twice. */
  lemma WrappedDropsOnce(w: Width, r: Run, ws: seq<Area>, p: nat, g: nat)
    requires ImageRun(w, r, ws) && p < |ws|
    ensures ws[p].free == Mask(w, r.states[p].area.free) && ws[p].last == Mask(w, r.states[p].area.last)
    ensures var a, h := r.states[p].area, r.states[p].hist;
            h.dropped[g] <= 1 && (g < a.free ==> h.dropped[g] == 1) && (g >= a.last ==> h.dropped[g] == 0)
  {
    hide IsRun, Mask;
    WonRangesTile(r, p, g);
  }

  /** On W-bit words: once `read_with_check` has returned ReadError, no generation from the reader's on
      is ever published by an AreaWriter. */
  lemma WrappedReadErrorIsFinal(w: Width, r: Run, ws: seq<Area>, i: nat, j: nat, k: nat, g: nat)
    requires ImageRun(w, r, ws) && i < k < |ws| && r.labels[i] == Reader(j, Go)
    requires j < |ws[i].slots| && ws[i].slots[j].pc.ReadEndAgain?
    requires j < |ws[i + 1].slots| && ws[i + 1].slots[j].pc.Ready?
    ensures j < |r.states[i + 1].area.slots|
    ensures ws[i + 1].slots[j].word == MaskWord(w, r.states[i + 1].area.slots[j].word)
    ensures r.states[i + 1].area.slots[j].word.gen <= g < |r.states[k].hist.authors| ==>
              !r.states[k].hist.authors[g].ByWriter?
  {
    hide IsRun, Mask, Inv;
    RunInv(r, k);
    AuthorsCounted(r.states[k]);
    assert ReturnsReadError(r, i, j);
    if g < |r.states[k].hist.authors| { ReadErrorIsFinal(r, i, j, k, g); }
  }

  lemma StretchLength(delivered: seq<Cell>, log: map<nat, Value>, entry: nat, gen: nat)
    requires IsStretch(delivered, log, entry, gen)
    ensures gen == entry + |delivered|
  {
  }
}

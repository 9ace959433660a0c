/** The protocol and the drop tournament never get stuck: from every state in the life of an area the
    calls under way can be finished, the reservations filled and published, the handles dropped and the
    area freed. */
module Completion {
  import opened Options
  import opened Protocol
  import opened Invariant
  import opened Preservation
  import opened Theorems
  import opened Exclusive
  import opened Tournament
  import opened DropProgress
  import opened Teardown

  // ---------------------------------------------------------------- sums

  function Sum(ns: seq<nat>): nat
  {
    if ns == [] then 0 else Sum(ns[..|ns| - 1]) + ns[|ns| - 1]
  }

  lemma {:induction false} SumUpdate(ns: seq<nat>, i: nat, n: nat)
    requires i < |ns|
    ensures Sum(ns[i := n]) + ns[i] == Sum(ns) + n
  {
    var last := |ns| - 1;
    if i < last {
      assert ns[i := n][..last] == ns[..last][i := n];
      SumUpdate(ns[..last], i, n);
    } else {
      assert ns[i := n][..last] == ns[..last];
    }
  }

  // ---------------------------------------------------------------- what is left to do

  function ReserverLoad(pc: ReserverPc): nat
  {
    match pc case RIdle => 0 case RGotFree(_, _, _, _) => 2 case RCas(_, _, _) => 1
  }

  function ReserverLoads(rs: seq<ReserverPc>): seq<nat>
  {
    seq(|rs|, i requires 0 <= i < |rs| => ReserverLoad(rs[i]))
  }

  /** Steps until the owner of a slot is at rest, if nobody else touches the slot. */
  function SlotLoad(slot: Slot): nat
  {
    match slot.pc
    case Nobody => 0
    case Claimed => 4
    case EnterTop(_) => 2
    case EnterCas(_, seen) => if slot.word == seen then 1 else 3
    case Ready => 0
    case SuspendLoad => 2
    case SuspendStore(_) => 1
    case ReadGen(_) => 9
    case ReadEnd(_, _) => 8
    case CountCheck => 7
    case ReadAgain => 6
    case ReadEndAgain(_) => 5
    case Holding(_, _) => 4
    case SliceCheck(_, _) => 3
    case SliceLoad(_) => 2
    case SliceStore(_, _) => 1
    case LeaveLoad => 3
    case LeaveStore(_) => 2
    case LeaveRemove => 1
  }

  function SlotLoads(slots: seq<Slot>): seq<nat>
  {
    seq(|slots|, i requires 0 <= i < |slots| => SlotLoad(slots[i]))
  }

  /** Winning a range, and freeing it, is progress; so is every message dropped. */
  function CleanerLoad(pc: CleanerPc, capacity: nat): nat
  {
    if pc.CIdle? then 0
    else if pc.CDrop? then 1 + (if pc.last + pc.done < pc.min then pc.min - pc.last - pc.done else 0)
    else capacity + 2
  }

  function CleanerLoads(cs: seq<CleanerPc>, capacity: nat): seq<nat>
  {
    seq(|cs|, i requires 0 <= i < |cs| => CleanerLoad(cs[i], capacity))
  }

  /** Steps until a cleanup call wins or gives up, if nobody else moves. */
  function CallLoad(pc: CleanerPc, slots: seq<Slot>, last: nat): nat
  {
    var n := |slots|;
    match pc
    case CIdle => 0
    case CDrop(_, _, _) => 0
    case CGotLast(_) => 3 * n + 4
    case CScan(_, pos, _) => if pos < n then 3 * (n - pos) + 3 else 3
    case CForce(_, pos, _, seen) => if pos < n then 3 * (n - pos) + (if slots[pos].word == seen then 1 else 2) else 3
    case CAdvance(seen, _) => if seen == last then 1 else 2
  }

  /** The first cleanup call under way; the number of calls if there is none. */
  function FirstBusy(cs: seq<CleanerPc>): (c: nat)
    ensures c <= |cs| && (c < |cs| ==> !cs[c].CIdle?)
    ensures forall i :: 0 <= i < c ==> cs[i].CIdle?
  {
    if cs == [] || !cs[0].CIdle? then 0 else 1 + FirstBusy(cs[1..])
  }

  function Unfilled(log: map<nat, Value>, from: nat, to: nat): nat
    decreases if from < to then to - from else 0
  {
    if from >= to then 0 else (if from in log then 0 else 1) + Unfilled(log, from + 1, to)
  }

  lemma {:induction false} UnfilledAfterWrite(log: map<nat, Value>, from: nat, to: nat, g: nat, v: Value)
    requires g !in log
    ensures Unfilled(log[g := v], from, to) + (if from <= g < to then 1 else 0) == Unfilled(log, from, to)
    decreases if from < to then to - from else 0
  {
    if from < to { UnfilledAfterWrite(log, from + 1, to, g, v); }
  }

  /** Everything left to do, the most important first. */
  datatype Rank = Rank(
    energy: nat,         // steps of handles and destructors
    reserving: nat,
    unpublished: nat,
    unfilled: nat,
    reading: nat,        // steps inside reader slots
    cleaning: nat,
    calling: nat)        // steps of the first cleanup call

  function RankOf(w: Whole): Rank
  {
    var a := w.s.area;
    var c := FirstBusy(a.cleaners);
    Rank(Energy(|w.d.keys|, w.d.threads),
         Sum(ReserverLoads(a.reservers)),
         if a.read < a.write then a.write - a.read else 0,
         Unfilled(w.s.hist.log, a.read, a.write),
         Sum(SlotLoads(a.slots)),
         Sum(CleanerLoads(a.cleaners, a.capacity)),
         if c < |a.cleaners| then CallLoad(a.cleaners[c], a.slots, a.last) else 0)
  }

  predicate Lower(x: Rank, y: Rank)
  {
    || x.energy < y.energy
    || (x.energy == y.energy && x.reserving < y.reserving)
    || (x.energy == y.energy && x.reserving == y.reserving && x.unpublished < y.unpublished)
    || (x.energy == y.energy && x.reserving == y.reserving && x.unpublished == y.unpublished && x.unfilled < y.unfilled)
    || (x.energy == y.energy && x.reserving == y.reserving && x.unpublished == y.unpublished && x.unfilled == y.unfilled
        && (x.reading < y.reading || (x.reading == y.reading &&
           (x.cleaning < y.cleaning || (x.cleaning == y.cleaning && x.calling < y.calling)))))
  }

  // ---------------------------------------------------------------- calls of live handles

  function StateAfter(s: State, l: Label): State
    requires Sized(s.area) && |s.hist.readers| == |s.area.slots| && Next(Natural, s.area, l).Some?
  {
    State(Next(Natural, s.area, l).value, Record(s, l))
  }

  /** The live handle that a reservation or reserving call belongs to. */
  lemma AuthorsHandle(w: Whole, author: Author) returns (t: nat)
    requires WritersMatch(w.d, w.s.area.writers)
    requires author.ByWriter? ==> author.id in w.s.area.writers
    requires author.ByReader? ==> ReaderAlive(w.d, author.slot)
    ensures t < |w.d.threads| && Live(w.d.threads[t].pc) && Handle(w.d, t) == author
  {
    if author.ByWriter? {
      t := author.id + 1;
    } else {
      t :| 0 <= t < |w.d.threads| && w.d.threads[t].pc.LiveReader? && w.d.threads[t].slot == author.slot;
    }
  }

  lemma WorkHappens(w: Whole, via: nat, l: Label) returns (w': Whole)
    requires Inv(w.s) && Allowed(w.s, l) && Sized(w.s.area) && Next(Natural, w.s.area, l).Some?
    requires via < |w.d.threads| && Live(w.d.threads[via].pc) && Owns(w, via, l) && (l.Clean? ==> l.t < |w.users|)
    ensures Happens(w, Work(via, l), w') && |w.s.hist.readers| == |w.s.area.slots|
    ensures w'.d == w.d && w'.s == StateAfter(w.s, l)
  {
    hide Inv, Allowed, Next, Record, Owns;
    InvSizes(w.s);
    w' := w.(s := StateAfter(w.s, l), users := if l.Clean? then w.users[l.t := via] else w.users);
  }

  /** A reserving call under way can go on. */
  lemma ReservingGoesOn(w: Whole, u: nat) returns (x: Deed, w': Whole)
    requires Together(w) && u < |w.s.area.reservers| && !w.s.area.reservers[u].RIdle?
    ensures Happens(w, x, w') && Lower(RankOf(w'), RankOf(w))
  {
    hide Inv, DropInv, KeysMatch, ReadersMatch, WritersMatch, UsersMatch, SweepOK, Record, ReaderAlive, Sum;
    WritersAlive(w.s);
    InvSizes(w.s);
    var a := w.s.area;
    var via := AuthorsHandle(w, a.reservers[u].author);
    w' := WorkHappens(w, via, ReserveGo(u));
    x := Work(via, ReserveGo(u));
    var pc' := w'.s.area.reservers[u];
    SumUpdate(ReserverLoads(a.reservers), u, ReserverLoad(pc'));
    assert ReserverLoads(w'.s.area.reservers) == ReserverLoads(a.reservers)[u := ReserverLoad(pc')];
  }

  lemma WritersAlive(s: State)
    requires Inv(s)
    ensures WritersOK(s.area.writers, s.area.outstanding, s.area.reservers, s.area.slots)
    ensures Tiles(ReservationRanges(s.area.outstanding), s.area.read, s.area.write) && s.area.read <= s.area.write
  {
  }

  /** The first reservation can be filled, and then published. */
  lemma PublishingGoesOn(w: Whole) returns (x: Deed, w': Whole)
    requires Together(w) && w.s.area.outstanding != []
    ensures Happens(w, x, w') && Lower(RankOf(w'), RankOf(w))
  {
    hide Inv, DropInv, KeysMatch, ReadersMatch, WritersMatch, UsersMatch, SweepOK, ReaderAlive, Sum, ReserverLoads,
         SlotLoads, Filled;
    WritersAlive(w.s);
    InvSizes(w.s);
    var a, h := w.s.area, w.s.hist;
    var r := a.outstanding[0];
    assert ReservationRanges(a.outstanding)[0] == ReservationRange(r);
    TilesWithin(ReservationRanges(a.outstanding), a.read, a.write, 0);
    var via := AuthorsHandle(w, r.author);
    if Filled(h.log, r) {
      w' := WorkHappens(w, via, Publish(0));
      x := Work(via, Publish(0));
    } else {
      var g := NotFilled(h.log, r);
      w' := WorkHappens(w, via, Write(0, g - r.start, 0));
      x := Work(via, Write(0, g - r.start, 0));
      UnfilledAfterWrite(h.log, a.read, a.write, g, 0);
    }
  }

  lemma NotFilled(log: map<nat, Value>, r: Reservation) returns (g: nat)
    requires !Filled(log, r)
    ensures r.start <= g < r.end && g !in log
  {
    g :| r.start <= g < r.end && g !in log;
  }

  /** A slot whose owner is in the middle of something, or holds a slice. */
  lemma OwnerMoves(slot: Slot, last: nat, read: nat, noWriters: bool) returns (op: ReaderOp)
    requires SlotOK(slot, last, read) && !slot.pc.Nobody? && !slot.pc.Ready?
    ensures op.Go? || op.DropSlice?
    ensures ReaderNext(Natural, slot, op, read, noWriters).Some?
    ensures SlotLoad(ReaderNext(Natural, slot, op, read, noWriters).value) < SlotLoad(slot)
  {
    op := if slot.pc.Holding? then DropSlice else Go;
  }

  lemma SlotSum(slots: seq<Slot>, i: nat, slot': Slot)
    requires i < |slots|
    ensures Sum(SlotLoads(slots[i := slot'])) + SlotLoad(slots[i]) == Sum(SlotLoads(slots)) + SlotLoad(slot')
  {
    hide Sum, SlotLoad;
    SumUpdate(SlotLoads(slots), i, SlotLoad(slot'));
    assert SlotLoads(slots[i := slot']) == SlotLoads(slots)[i := SlotLoad(slot')];
  }

  lemma ReadingGoesOn(w: Whole, t: nat) returns (x: Deed, w': Whole)
    requires Together(w) && t < |w.d.threads| && w.d.threads[t].pc.LiveReader?
    requires w.d.threads[t].slot < |w.s.area.slots| && !w.s.area.slots[w.d.threads[t].slot].pc.Ready?
    ensures Happens(w, x, w') && Lower(RankOf(w'), RankOf(w))
  {
    hide Inv, DropInv, KeysMatch, ReadersMatch, WritersMatch, UsersMatch, AuthorsAlive, SweepOK, ReaderNext, SlotOK,
         Sum, ReserverLoads, SlotLoads, SlotLoad, RecordReader, CleanerLoads, CallLoad;
    var a, i := w.s.area, w.d.threads[t].slot;
    InvSizes(w.s);
    SlotFacts(w, t);
    var op := OwnerMoves(a.slots[i], a.last, a.read, a.writers == {});
    w' := WorkHappens(w, t, Reader(i, op));
    x := Work(t, Reader(i, op));
    SlotSum(a.slots, i, w'.s.area.slots[i]);
  }

  /** A keyed thread's slot is occupied. */
  lemma SlotFacts(w: Whole, t: nat)
    requires Together(w) && t < |w.d.threads| && Is(KKeyed, w.d.threads[t].pc)
    ensures w.d.threads[t].slot < |w.s.area.slots| && w.d.threads[t].slot < |w.d.keys| && w.d.keys[w.d.threads[t].slot]
    ensures SlotOK(w.s.area.slots[w.d.threads[t].slot], w.s.area.last, w.s.area.read)
    ensures !w.s.area.slots[w.d.threads[t].slot].pc.Nobody?
    ensures w.d.threads[t].pc.Unregistering? <==> Leaving(w.s.area.slots[w.d.threads[t].slot].pc)
  {
    hide DropInv, CleanersOK, PendingOK, ReserversOK, LogOK, HoldsAll, UndroppedOK, DropsOK, DeliveriesOK, WritersOK,
         Tiles;
    KeyedFacts(w.d, t);
    assert SlotOK(w.s.area.slots[w.d.threads[t].slot], w.s.area.last, w.s.area.read);
  }

  /** A reader that has begun to leave the table gets out of it. */
  lemma LeavingGoesOn(w: Whole, t: nat) returns (x: Deed, w': Whole)
    requires Together(w) && t < |w.d.threads| && w.d.threads[t].pc.Unregistering?
    ensures Happens(w, x, w') && Lower(RankOf(w'), RankOf(w))
  {
    hide Inv, DropInv, KeysMatch, ReadersMatch, WritersMatch, UsersMatch, AuthorsAlive, SweepOK, ReaderNext, SlotOK,
         Sum, ReserverLoads, SlotLoads, SlotLoad, RecordReader, CleanerLoads, CallLoad, Energy;
    var a, i := w.s.area, w.d.threads[t].slot;
    InvSizes(w.s);
    SlotFacts(w, t);
    var op := OwnerMoves(a.slots[i], a.last, a.read, a.writers == {});
    NoDropSlice(a.slots[i], a.read, a.writers == {}, op);
    var s' := StateAfter(w.s, Reader(i, Go));
    x := Destruct(t);
    if a.slots[i].pc.LeaveRemove? {
      var d' := Play(w.d, Proceed(t)).value;
      w' := w.(s := s', d := d');
      assert d'.threads[t].pc != w.d.threads[t].pc;
      EnergyFalls(w.d, Proceed(t), d');
    } else {
      w' := w.(s := s');
      SlotSum(a.slots, i, s'.area.slots[i]);
    }
    assert DestructStep(w, t, w');
  }

  lemma NoDropSlice(slot: Slot, read: nat, noWriters: bool, op: ReaderOp)
    requires Leaving(slot.pc) && ReaderNext(Natural, slot, op, read, noWriters).Some? && (op.Go? || op.DropSlice?)
    ensures op.Go?
  {
  }

  // ---------------------------------------------------------------- cleanups

  /** Every owner is at rest. */
  predicate AtRest(slots: seq<Slot>)
  {
    forall i :: 0 <= i < |slots| ==> slots[i].pc.Ready? || slots[i].pc.Nobody?
  }

  lemma {:induction false} SumOfZeros(ns: seq<nat>)
    requires forall i :: 0 <= i < |ns| ==> ns[i] == 0
    ensures Sum(ns) == 0
  {
    if ns != [] { SumOfZeros(ns[..|ns| - 1]); }
  }

  lemma CleanerSum(cs: seq<CleanerPc>, capacity: nat, c: nat, pc: CleanerPc)
    requires c < |cs|
    ensures Sum(CleanerLoads(cs[c := pc], capacity)) + CleanerLoad(cs[c], capacity) ==
            Sum(CleanerLoads(cs, capacity)) + CleanerLoad(pc, capacity)
  {
    hide Sum, CleanerLoad;
    SumUpdate(CleanerLoads(cs, capacity), c, CleanerLoad(pc, capacity));
    assert CleanerLoads(cs[c := pc], capacity) == CleanerLoads(cs, capacity)[c := CleanerLoad(pc, capacity)];
  }

  /** The call to go on with: the first in the queue of those that have won a range, or else the first. */
  lemma CallToGoOn(s: State) returns (c: nat)
    requires Inv(s) && exists u :: 0 <= u < |s.area.cleaners| && !s.area.cleaners[u].CIdle?
    ensures c < |s.area.cleaners| && !s.area.cleaners[c].CIdle?
    ensures s.area.cleaners[c].CDrop? ==> s.area.cleaners[c].last == s.area.free
    ensures !s.area.cleaners[c].CDrop? ==> c == FirstBusy(s.area.cleaners)
  {
    hide CleanersOK, SlotsOK, ReserversOK, LogOK, HoldsAll, UndroppedOK, DropsOK, DeliveriesOK, WritersOK;
    var a, pending := s.area, s.hist.pending;
    if pending != [] {
      c := pending[0];
      assert WonRanges(pending, a.cleaners)[0] == WonRange(a.cleaners[c]);
    } else {
      c := FirstBusy(a.cleaners);
    }
  }

  /** What the step of a call is worth. */
  ghost predicate CallGoesOn(a: Area, c: nat, a': Area)
    requires c < |a.cleaners|
  {
    && |a'.cleaners| == |a.cleaners| && a'.cleaners == a.cleaners[c := a'.cleaners[c]] && a'.capacity == a.capacity
    && var x, x' := a.cleaners[c], a'.cleaners[c];
       || CleanerLoad(x', a.capacity) < CleanerLoad(x, a.capacity)
       || (CleanerLoad(x', a.capacity) == CleanerLoad(x, a.capacity) && !x.CDrop? && !x'.CIdle?
           && CallLoad(x', a'.slots, a'.last) < CallLoad(x, a.slots, a.last))
  }

  lemma CallDrops(s: State, c: nat)
    requires Inv(s) && Sized(s.area) && c < |s.area.cleaners| && s.area.cleaners[c].CDrop?
    requires s.area.cleaners[c].last == s.area.free
    ensures CleanerNext(Natural, s.area, c).Some? && CallGoesOn(s.area, c, CleanerNext(Natural, s.area, c).value)
  {
    assert CleanerOK(s.area.cleaners[c], s.area.slots, s.area.last, s.area.read);
    hide Inv, SlotsOK, CleanersOK, Scanned, RingSlot, CallLoad;
  }

  lemma CallScans(s: State, c: nat)
    requires Inv(s) && Sized(s.area) && c < |s.area.cleaners|
    requires s.area.cleaners[c].CGotLast? || s.area.cleaners[c].CScan?
    ensures CleanerNext(Natural, s.area, c).Some? && CallGoesOn(s.area, c, CleanerNext(Natural, s.area, c).value)
  {
    assert CleanerOK(s.area.cleaners[c], s.area.slots, s.area.last, s.area.read);
    hide Inv, SlotsOK, CleanersOK, Scanned, RingSlot;
  }

  lemma CallForces(s: State, c: nat)
    requires Inv(s) && Sized(s.area) && c < |s.area.cleaners| && s.area.cleaners[c].CForce?
    ensures CleanerNext(Natural, s.area, c).Some? && CallGoesOn(s.area, c, CleanerNext(Natural, s.area, c).value)
  {
    assert CleanerOK(s.area.cleaners[c], s.area.slots, s.area.last, s.area.read);
    hide Inv, SlotsOK, CleanersOK, Scanned, RingSlot;
  }

  lemma CallAdvances(s: State, c: nat)
    requires Inv(s) && Sized(s.area) && c < |s.area.cleaners| && s.area.cleaners[c].CAdvance?
    ensures CleanerNext(Natural, s.area, c).Some? && CallGoesOn(s.area, c, CleanerNext(Natural, s.area, c).value)
  {
    assert CleanerOK(s.area.cleaners[c], s.area.slots, s.area.last, s.area.read) && CountersOK(s.area);
    hide Inv, SlotsOK, CleanersOK, Scanned, RingSlot;
  }

  /** Its next step drops a message, frees its range, or brings the call nearer to winning or giving up. */
  lemma CallMoves(s: State, c: nat)
    requires Inv(s) && Sized(s.area) && c < |s.area.cleaners| && !s.area.cleaners[c].CIdle?
    requires s.area.cleaners[c].CDrop? ==> s.area.cleaners[c].last == s.area.free
    ensures CleanerNext(Natural, s.area, c).Some? && CallGoesOn(s.area, c, CleanerNext(Natural, s.area, c).value)
  {
    hide Inv, CallGoesOn, CleanerNext;
    if s.area.cleaners[c].CDrop? {
      CallDrops(s, c);
    } else if s.area.cleaners[c].CAdvance? {
      CallAdvances(s, c);
    } else if s.area.cleaners[c].CForce? {
      CallForces(s, c);
    } else {
      CallScans(s, c);
    }
  }

  lemma StillFirst(cs: seq<CleanerPc>, pc: CleanerPc)
    requires FirstBusy(cs) < |cs| && !pc.CIdle?
    ensures FirstBusy(cs[FirstBusy(cs) := pc]) == FirstBusy(cs)
  {
    var c, cs' := FirstBusy(cs), cs[FirstBusy(cs) := pc];
    assert !cs'[c].CIdle? && forall i :: 0 <= i < c ==> cs'[i].CIdle?;
  }

  /** With all owners at rest, a cleanup under way goes on. */
  lemma CleaningGoesOn(w: Whole, u: nat) returns (x: Deed, w': Whole)
    requires Together(w) && w.sweep.NotYet? && AtRest(w.s.area.slots)
    requires u < |w.s.area.cleaners| && !w.s.area.cleaners[u].CIdle?
    ensures Happens(w, x, w') && Lower(RankOf(w'), RankOf(w))
  {
    hide Inv, DropInv, KeysMatch, ReadersMatch, WritersMatch, AuthorsAlive, SweepOK, CleanerNext, Sum, ReserverLoads,
         SlotLoads, CleanerLoads, CallLoad, CleanerLoad, RecordCleaner;
    var a := w.s.area;
    InvSizes(w.s);
    var c := CallToGoOn(w.s);
    CallMoves(w.s, c);
    var via := w.users[c];
    w' := WorkHappens(w, via, Clean(c));
    x := Work(via, Clean(c));
    var a' := w'.s.area;
    CleanStepTouches(w.s, c, w'.s);
    RestingLoads(a.slots);
    RestingLoads(a'.slots);
    CleanerSum(a.cleaners, a.capacity, c, a'.cleaners[c]);
    CleaningKeepsLog(w.s, c);
    if CleanerLoad(a'.cleaners[c], a.capacity) == CleanerLoad(a.cleaners[c], a.capacity) {
      StillFirst(a.cleaners, a'.cleaners[c]);
    }
  }

  lemma RestingLoads(slots: seq<Slot>)
    requires AtRest(slots)
    ensures Sum(SlotLoads(slots)) == 0
  {
    SumOfZeros(SlotLoads(slots));
  }

  lemma CleaningKeepsLog(s: State, c: nat)
    requires Sized(s.area) && |s.hist.readers| == |s.area.slots|
    ensures Record(s, Clean(c)).log == s.hist.log
  {
  }

  // ---------------------------------------------------------------- dropping the handles

  /** Nothing is under way and nothing reserved: what is left are handles and destructors. */
  ghost predicate Quiet(w: Whole)
  {
    && w.s.area.outstanding == [] && AtRest(w.s.area.slots)
    && (forall u :: 0 <= u < |w.s.area.reservers| ==> w.s.area.reservers[u].RIdle?)
    && (forall c :: 0 <= c < |w.s.area.cleaners| ==> w.s.area.cleaners[c].CIdle?)
    && (forall t :: 0 <= t < |w.d.threads| ==> !w.d.threads[t].pc.Unregistering?)
  }

  lemma DroppingGoesOn(w: Whole) returns (x: Deed, w': Whole)
    requires Together(w) && Quiet(w)
    requires forall t :: 0 <= t < |w.d.threads| ==> !w.d.threads[t].pc.Freed? && !w.d.threads[t].pc.Destroying?
    ensures Happens(w, x, w') && Lower(RankOf(w'), RankOf(w))
  {
    hide Inv, DropInv, KeysMatch, ReadersMatch, WritersMatch, UsersMatch, AuthorsAlive, SweepOK, Energy, RankOf, Play;
    var u := Unfinished(w.d);
    var m := ThreadThatMoves(w.d, u);
    var d' := Play(w.d, m).value;
    EnergyFalls(w.d, m, d');
    if m.Drop? {
      DropTouches(w.d, m.t, d');
      w' := HandleDropped(w, m.t, d');
      x := DropHandle(m.t);
    } else {
      w' := w.(d := d');
      x := Destruct(m.t);
      assert DestructStep(w, m.t, w');
    }
    RankEnergy(w);
    RankEnergy(w');
  }

  lemma RankEnergy(w: Whole)
    ensures RankOf(w).energy == Energy(|w.d.keys|, w.d.threads)
  {
  }

  lemma HandleDropped(w: Whole, t: nat, d': Drops) returns (w': Whole)
    requires Together(w) && Quiet(w) && t < |w.d.threads| && Live(w.d.threads[t].pc) && Play(w.d, Drop(t)) == Some(d')
    ensures Happens(w, DropHandle(t), w') && w'.d == d'
  {
    hide Inv, DropInv, UsersMatch, AuthorsAlive, SweepOK, Play, Record;
    InvSizes(w.s);
    var l;
    if w.d.threads[t].pc.LiveReader? {
      SlotFacts(w, t);
      l := Reader(w.d.threads[t].slot, Leave);
    } else {
      l := DropWriter(WriterId(t));
    }
    w' := w.(s := StateAfter(w.s, l), d := d');
  }

  // ---------------------------------------------------------------- all of it

  /** Some deed brings the area nearer to its end. */
  lemma SomethingToDo(w: Whole) returns (x: Deed, w': Whole)
    requires Together(w)
    requires forall t :: 0 <= t < |w.d.threads| ==> !w.d.threads[t].pc.Freed? && !w.d.threads[t].pc.Destroying?
    ensures Happens(w, x, w') && Lower(RankOf(w'), RankOf(w))
  {
    hide Inv, DropInv, KeysMatch, ReadersMatch, WritersMatch, UsersMatch, AuthorsAlive, Happens, RankOf, Lower, Leaving;
    var a := w.s.area;
    if u :| 0 <= u < |a.reservers| && !a.reservers[u].RIdle? {
      x, w' := ReservingGoesOn(w, u);
    } else if a.outstanding != [] {
      x, w' := PublishingGoesOn(w);
    } else if t :| 0 <= t < |w.d.threads| && w.d.threads[t].pc.Unregistering? {
      x, w' := LeavingGoesOn(w, t);
    } else if !AtRest(a.slots) {
      var t := Restless(w);
      x, w' := ReadingGoesOn(w, t);
    } else if c :| 0 <= c < |a.cleaners| && !a.cleaners[c].CIdle? {
      NoSweepYet(w);
      x, w' := CleaningGoesOn(w, c);
    } else {
      x, w' := DroppingGoesOn(w);
    }
  }

  lemma NoSweepYet(w: Whole)
    requires SweepOK(w.d, w.s.area, w.sweep)
    requires forall t :: 0 <= t < |w.d.threads| ==> !w.d.threads[t].pc.Freed? && !w.d.threads[t].pc.Destroying?
    ensures w.sweep.NotYet?
  {
  }

  /** A slot that is not at rest belongs to a live reader, if nobody is leaving. */
  lemma Restless(w: Whole) returns (t: nat)
    requires Together(w) && !AtRest(w.s.area.slots)
    requires forall t :: 0 <= t < |w.d.threads| ==> !w.d.threads[t].pc.Unregistering?
    ensures t < |w.d.threads| && w.d.threads[t].pc.LiveReader?
    ensures w.d.threads[t].slot < |w.s.area.slots| && !w.s.area.slots[w.d.threads[t].slot].pc.Ready?
  {
    var i :| 0 <= i < |w.s.area.slots| && !w.s.area.slots[i].pc.Ready? && !w.s.area.slots[i].pc.Nobody?;
    assert SlotOK(w.s.area.slots[i], w.s.area.last, w.s.area.read);
    assert KeysOK(w.d.keys, w.d.threads) && w.d.keys[i];
    hide Inv, DropInv;
    t :| 0 <= t < |w.d.threads| && Is(KKeyed, w.d.threads[t].pc) && w.d.threads[t].slot == i;
  }

  ghost predicate IsPath(ws: seq<Whole>, xs: seq<Deed>)
  {
    |ws| == |xs| + 1 && forall i :: 0 <= i < |xs| ==> Happens(ws[i], xs[i], ws[i + 1])
  }

  lemma PathFrom(w: Whole, x: Deed, ws: seq<Whole>, xs: seq<Deed>)
    requires IsPath(ws, xs) && Happens(w, x, ws[0])
    ensures IsPath([w] + ws, [x] + xs)
  {
    hide Happens;
    forall i | 0 <= i < |xs| + 1
      ensures Happens(([w] + ws)[i], ([x] + xs)[i], ([w] + ws)[i + 1])
    {
      if i > 0 { assert Happens(ws[i - 1], xs[i - 1], ws[i]); }
    }
  }

  predicate IsFreed(d: Drops) { exists t :: 0 <= t < |d.threads| && d.threads[t].pc.Freed? }

  lemma {:induction false} DestroyerEnds(w: Whole, t: nat) returns (ws: seq<Whole>, xs: seq<Deed>)
    requires Together(w) && t < |w.d.threads| && w.d.threads[t].pc.Destroying?
    ensures IsPath(ws, xs) && ws[0] == w && IsFreed(ws[|xs|].d)
    decreases Effort(w.s.area, w.sweep)
  {
    hide Together, Effort, Happens;
    if w.sweep.Swept? {
      FreeingHappens(w, t);
      var w' :| Happens(w, Destruct(t), w') && t < |w'.d.threads| && w'.d.threads[t].pc.Freed?;
      ws, xs := [w, w'], [Destruct(t)];
    } else {
      var c := CallToUse(w, t);
      FinalGoesOn(w, t, c);
      var w' :| Happens(w, FinalCleanup(t, c), w');
      SameTournament(w, t, c, w');
      DeedKeeps(w, FinalCleanup(t, c), w');
      EffortFalls(w, t, c, w');
      ws, xs := DestroyerEnds(w', t);
      PathFrom(w, FinalCleanup(t, c), ws, xs);
      ws, xs := [w] + ws, [FinalCleanup(t, c)] + xs;
    }
  }

  lemma SameTournament(w: Whole, t: nat, c: nat, w': Whole)
    requires Happens(w, FinalCleanup(t, c), w')
    ensures w'.d == w.d
  {
  }

  /** From every state in which the two machines are together some deeds lead to the freed area. */
  lemma {:induction false} EveryAreaCanEnd(w: Whole) returns (ws: seq<Whole>, xs: seq<Deed>)
    requires Together(w)
    ensures IsPath(ws, xs) && ws[0] == w && IsFreed(ws[|xs|].d)
    decreases RankOf(w).energy, RankOf(w).reserving, RankOf(w).unpublished, RankOf(w).unfilled,
              RankOf(w).reading, RankOf(w).cleaning, RankOf(w).calling
  {
    hide Together, Happens, RankOf;
    if IsFreed(w.d) {
      ws, xs := [w], [];
    } else if t :| 0 <= t < |w.d.threads| && w.d.threads[t].pc.Destroying? {
      ws, xs := DestroyerEnds(w, t);
    } else {
      var x, w' := SomethingToDo(w);
      DeedKeeps(w, x, w');
      ws, xs := EveryAreaCanEnd(w');
      PathFrom(w, x, ws, xs);
      ws, xs := [w] + ws, [x] + xs;
    }
  }

  /** Whatever has happened so far: the life of every area can go on to its end. */
  lemma EveryLifeCanEnd(ws: seq<Whole>, xs: seq<Deed>) returns (ws': seq<Whole>, xs': seq<Deed>)
    requires IsLife(ws, xs)
    ensures IsLife(ws', xs') && ws <= ws' && xs <= xs' && IsFreed(ws'[|xs'|].d)
  {
    hide Together, Happens, Begins;
    LifeTogether(ws, xs, |xs|);
    var vs, ys := EveryAreaCanEnd(ws[|xs|]);
    ws', xs' := ws + vs[1..], xs + ys;
    var s0: State, home: nat :| Begins(ws[0], s0, home);
    assert Begins(ws'[0], s0, home);
    forall i | 0 <= i < |xs'|
      ensures Happens(ws'[i], xs'[i], ws'[i + 1])
    {
      if i < |xs| {
        assert Happens(ws[i], xs[i], ws[i + 1]);
      } else {
        assert Happens(vs[i - |xs|], ys[i - |xs|], vs[i - |xs| + 1]);
      }
    }
  }

  /** And there are such lives, for every ring and table size and any number of concurrent calls. */
  lemma SomeLifeBegins(capacity: nat, readers: nat, cleaners: nat, reservers: nat, home: nat) returns (w: Whole)
    requires capacity > 0 && cleaners > 0 && home < readers
    ensures IsLife([w], []) && w.s.area.capacity == capacity && |w.s.area.slots| == readers
    ensures |w.s.area.cleaners| == cleaners && |w.s.area.reservers| == reservers
  {
    var s0 := InitialState(capacity, readers, cleaners, reservers);
    var l := Reader(home, Claim);
    w := Whole(StateAfter(s0, l), Start(readers, home), seq(cleaners, _ => 0), NotYet);
    assert Step(s0, l, w.s);
    assert Fresh(s0);
    assert Begins([w][0], s0, home);
  }
}

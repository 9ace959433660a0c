/** Every allowed step keeps the invariant. One lemma per kind of step; the reader and cleaner steps
    are proved on the slot or thread they move and then lifted. */
module Preservation {
  import opened Options
  import opened Arithmetic
  import opened Protocol
  import opened Invariant

  // ---------------------------------------------------------------- stability

  /** Slot generations only move forward. */
  ghost predicate Forward(slots: seq<Slot>, slots': seq<Slot>)
  {
    && |slots'| == |slots|
    && forall j :: 0 <= j < |slots| ==> slots[j].word.gen <= slots'[j].word.gen
  }

  lemma SlotsStable(slots: seq<Slot>, last: nat, read: nat, last': nat, read': nat)
    requires SlotsOK(slots, last, read)
    requires read <= read' && (last' <= last || Scanned(slots, |slots|, last'))
    ensures SlotsOK(slots, last', read')
  {
    forall i | 0 <= i < |slots|
      ensures SlotOK(slots[i], last', read')
    {
      assert SlotOK(slots[i], last, read);
    }
  }

  /** What a cleaner knows survives the counters and the slots moving forward. */
  lemma CleanerStable(pc: CleanerPc, slots: seq<Slot>, last: nat, read: nat, slots': seq<Slot>, last': nat, read': nat)
    requires CleanerOK(pc, slots, last, read)
    requires Forward(slots, slots') && last <= last' && read <= read'
    ensures CleanerOK(pc, slots', last', read')
  {
  }

  lemma CleanersStable(cleaners: seq<CleanerPc>, slots: seq<Slot>, last: nat, read: nat, slots': seq<Slot>,
      last': nat, read': nat)
    requires CleanersOK(cleaners, slots, last, read)
    requires Forward(slots, slots') && last <= last' && read <= read'
    ensures CleanersOK(cleaners, slots', last', read')
  {
    forall t | 0 <= t < |cleaners|
      ensures CleanerOK(cleaners[t], slots', last', read')
    {
      CleanerStable(cleaners[t], slots, last, read, slots', last', read');
    }
  }

  /** Storing into one slot of the ring touches no other generation of a window of ring length. */
  lemma RingUpdate(ring: seq<Cell>, lo: nat, g0: nat, c: Cell, g: nat)
    requires |ring| > 0 && lo <= g0 < lo + |ring| && lo <= g < lo + |ring|
    ensures CellAt(ring[RingSlot(|ring|, g0) := c], g) == if g == g0 then c else CellAt(ring, g)
  {
    if g < g0 {
      IndexSeparates(|ring|, g, g0);
    } else if g0 < g {
      IndexSeparates(|ring|, g0, g);
    }
  }

  // ---------------------------------------------------------------- readers

  lemma ReaderSlotOK(slot: Slot, op: ReaderOp, last: nat, read: nat, noWriters: bool, slot': Slot)
    requires SlotOK(slot, last, read)
    requires op.Read? ==> !slot.word.suspended
    requires op.ResumingAt? ==> op.entry <= read
    requires ReaderNext(Natural, slot, op, read, noWriters) == Some(slot')
    ensures SlotOK(slot', last, read)
    ensures slot.word.gen <= slot'.word.gen
    ensures slot'.pc.ReadAgain? || slot'.pc.ReadEndAgain? ==> slot.pc.ReadAgain? || noWriters
  {
    if op.Go? {
      match slot.pc
      case ReadEnd(mode, start) => assert SliceEnd(Natural, mode, start, read) <= read;
      case _ =>
    }
  }

  lemma DeliveryKept(a: Area, h: Hist, i: nat, op: ReaderOp, slot': Slot)
    requires Sized(a) && i < |a.slots| && |h.readers| == |a.slots|
    requires SlotOK(a.slots[i], a.last, a.read) && LogOK(h.log, a.read, a.write)
        && HoldsAll(a.ring, h.log, a.last, a.write)
    requires !a.slots[i].word.suspended ==>
               IsStretch(h.readers[i].delivered, h.log, h.readers[i].entry, a.slots[i].word.gen)
    requires a.read <= a.write
    requires ReaderNext(Natural, a.slots[i], op, a.read, a.writers == {}) == Some(slot')
    ensures var rh := RecordReader(a, i, op, h.readers[i]);
            !slot'.word.suspended ==> IsStretch(rh.delivered, h.log, rh.entry, slot'.word.gen)
  {
    var slot, was := a.slots[i], h.readers[i];
    var rh := RecordReader(a, i, op, was);
    if op.Go? && slot.pc.SliceStore? {
      var from, to := slot.word.gen, slot.pc.end;
      var more := CellsAt(a.ring, from, to);
      forall k | 0 <= k < |rh.delivered|
        ensures IsMessage(rh.delivered[k], h.log, was.entry + k)
      {
        if k >= |was.delivered| {
          var g := was.entry + k;
          assert rh.delivered[k] == more[k - |was.delivered|] == CellAt(a.ring, g);
          assert Holds(a.ring, h.log, g);
        }
      }
    }
  }

  lemma DeliveriesUpdated(a: Area, h: Hist, i: nat, op: ReaderOp, slot': Slot)
    requires Sized(a) && i < |a.slots| && DeliveriesOK(a.slots, h.readers, h.log)
    requires SlotOK(a.slots[i], a.last, a.read) && LogOK(h.log, a.read, a.write)
        && HoldsAll(a.ring, h.log, a.last, a.write)
    requires a.read <= a.write
    requires ReaderNext(Natural, a.slots[i], op, a.read, a.writers == {}) == Some(slot')
    ensures DeliveriesOK(a.slots[i := slot'], h.readers[i := RecordReader(a, i, op, h.readers[i])], h.log)
  {
    DeliveryKept(a, h, i, op, slot');
  }

  lemma SlotsUpdated(slots: seq<Slot>, last: nat, read: nat, i: nat, slot': Slot)
    requires SlotsOK(slots, last, read) && i < |slots| && SlotOK(slot', last, read)
    requires slots[i].word.gen <= slot'.word.gen
    ensures SlotsOK(slots[i := slot'], last, read) && Forward(slots, slots[i := slot'])
  {
  }

  lemma WritersAfterSlot(writers: set<nat>, outstanding: seq<Reservation>, reservers: seq<ReserverPc>,
      slots: seq<Slot>, i: nat, slot': Slot)
    requires WritersOK(writers, outstanding, reservers, slots) && i < |slots|
    requires slot'.pc.ReadAgain? || slot'.pc.ReadEndAgain? ==>
               slots[i].pc.ReadAgain? || slots[i].pc.ReadEndAgain? || writers == {}
    ensures WritersOK(writers, outstanding, reservers, slots[i := slot'])
  {
  }

  lemma ReaderKeeps(s: State, i: nat, op: ReaderOp, s': State)
    requires Inv(s) && Step(s, Reader(i, op), s')
    ensures Inv(s')
  {
    var a, h, a' := s.area, s.hist, s'.area;
    assert SlotOK(a.slots[i], a.last, a.read);
    hide SlotsOK, CleanersOK, PendingOK, ReserversOK, Tiles, LogOK, HoldsAll, UndroppedOK, DropsOK, DeliveriesOK,
         WritersOK;
    ReaderSlotOK(a.slots[i], op, a.last, a.read, a.writers == {}, a'.slots[i]);
    SlotsUpdated(a.slots, a.last, a.read, i, a'.slots[i]);
    DeliveriesUpdated(a, h, i, op, a'.slots[i]);
    CleanersStable(a.cleaners, a.slots, a.last, a.read, a'.slots, a.last, a.read);
    WritersAfterSlot(a.writers, a.outstanding, a.reservers, a.slots, i, a'.slots[i]);
  }

  // ---------------------------------------------------------------- cleaners

  /** Replacing a thread that is not in the queue by one that does not belong in it. */
  lemma PendingStable(pending: seq<nat>, cleaners: seq<CleanerPc>, free: nat, last: nat, t: nat, pc: CleanerPc)
    requires PendingOK(pending, cleaners, free, last)
    requires t < |cleaners|
    requires if cleaners[t].CDrop? then pc.CDrop? && WonRange(pc) == WonRange(cleaners[t]) else !pc.CDrop?
    ensures PendingOK(pending, cleaners[t := pc], free, last)
  {
    hide Tiles;
    assert WonRanges(pending, cleaners[t := pc]) == WonRanges(pending, cleaners);
  }

  lemma InspectOK(n: nat, last: nat, pos: nat, min: nat, slots: seq<Slot>, valid: nat, read: nat)
    requires n == |slots| && pos < n && last <= valid && min <= read
    requires SlotsOK(slots, valid, read) && Scanned(slots, pos, min)
    ensures CleanerOK(Inspect(Natural, n, last, pos, min, slots[pos].word), slots, valid, read)
    ensures !Inspect(Natural, n, last, pos, min, slots[pos].word).CDrop?
  {
    var seen := slots[pos].word;
    if !seen.suspended {
      var m := if min >= seen.gen then seen.gen else min;
      assert Scanned(slots, pos + 1, m);
    } else if min <= seen.gen {
      assert Scanned(slots, pos + 1, min);
    }
  }

  lemma CleanersUpdated(cleaners: seq<CleanerPc>, slots: seq<Slot>, last: nat, read: nat, t: nat, pc: CleanerPc)
    requires CleanersOK(cleaners, slots, last, read) && t < |cleaners| && CleanerOK(pc, slots, last, read)
    ensures CleanersOK(cleaners[t := pc], slots, last, read)
  {
  }

  lemma DropsUnaffected(ring: seq<Cell>, log: map<nat, Value>, dropped: multiset<nat>, cleaners: seq<CleanerPc>,
      free: nat, last: nat, t: nat, pc: CleanerPc)
    requires |ring| > 0 && t < |cleaners| && !pc.CDrop?
    requires UndroppedOK(ring, log, cleaners) && DropsOK(dropped, cleaners, free, last)
    ensures UndroppedOK(ring, log, cleaners[t := pc]) && DropsOK(dropped, cleaners[t := pc], free, last)
  {
  }

  /** Steps of a cleaner that only move its own program counter. */
  lemma CleanerMoves(s: State, t: nat, pc: CleanerPc, s': State)
    requires Inv(s) && t < |s.area.cleaners| && !s.area.cleaners[t].CDrop? && !pc.CDrop?
    requires s' == s.(area := s.area.(cleaners := s.area.cleaners[t := pc]))
    requires CleanerOK(pc, s.area.slots, s.area.last, s.area.read)
    ensures Inv(s')
  {
    hide SlotsOK, CleanersOK, PendingOK, ReserversOK, Tiles, LogOK, HoldsAll, UndroppedOK, DropsOK, DeliveriesOK,
         WritersOK;
    var a, h := s.area, s.hist;
    PendingStable(h.pending, a.cleaners, a.free, a.last, t, pc);
    CleanersUpdated(a.cleaners, a.slots, a.last, a.read, t, pc);
    DropsUnaffected(a.ring, h.log, h.dropped, a.cleaners, a.free, a.last, t, pc);
  }

  /** The scan itself: loads, and failed attempts to force a slot forward. */
  lemma CleanerScans(s: State, t: nat, s': State)
    requires Inv(s) && Step(s, Clean(t), s') && t < |s.area.cleaners|
    requires match s.area.cleaners[t]
             case CForce(_, pos, _, seen) => pos < |s.area.slots| && s.area.slots[pos].word != seen
             case CAdvance(last, _) => s.area.last != last
             case CDrop(_, _, _) => false
             case _ => true
    ensures Inv(s')
  {
    var a := s.area;
    assert CleanerOK(a.cleaners[t], a.slots, a.last, a.read);
    hide SlotsOK, CleanersOK, PendingOK, ReserversOK, Tiles, LogOK, HoldsAll, UndroppedOK, DropsOK, DeliveriesOK,
         WritersOK;
    match a.cleaners[t] {
      case CScan(last, pos, min) => InspectOK(|a.slots|, last, pos, min, a.slots, a.last, a.read);
      case CForce(last, pos, min, _) => InspectOK(|a.slots|, last, pos, min, a.slots, a.last, a.read);
      case _ =>
    }
    CleanerMoves(s, t, s'.area.cleaners[t], s');
  }

  lemma DeliveriesForced(slots: seq<Slot>, readers: seq<ReaderHist>, log: map<nat, Value>, i: nat, slot': Slot)
    requires DeliveriesOK(slots, readers, log) && i < |slots| && slot'.word.suspended
    ensures DeliveriesOK(slots[i := slot'], readers, log)
  {
  }

  /** Forcing a suspended slot forward. */
  lemma CleanerForces(s: State, t: nat, s': State)
    requires Inv(s) && t < |s.area.cleaners| && s.area.cleaners[t].CForce?
    requires var a, pc := s.area, s.area.cleaners[t];
             && pc.pos < |a.slots| && a.slots[pc.pos].word == pc.seen
             && s' == s.(area := a.(slots := a.slots[pc.pos := a.slots[pc.pos].(word := Word(pc.min, true))],
                                    cleaners := a.cleaners[t := ScanFrom(Natural, |a.slots|, pc.last,
                                                                         pc.pos + 1, pc.min)]))
    ensures Inv(s')
  {
    var a, h, a' := s.area, s.hist, s'.area;
    var pc := a.cleaners[t];
    var i := pc.pos;
    assert CleanerOK(pc, a.slots, a.last, a.read);
    assert SlotOK(a.slots[i], a.last, a.read);
    hide SlotsOK, CleanersOK, PendingOK, ReserversOK, Tiles, LogOK, HoldsAll, UndroppedOK, DropsOK, DeliveriesOK,
         WritersOK;
    SlotsUpdated(a.slots, a.last, a.read, i, a'.slots[i]);
    CleanersStable(a.cleaners, a.slots, a.last, a.read, a'.slots, a.last, a.read);
    DeliveriesForced(a.slots, h.readers, h.log, i, a'.slots[i]);
    WritersAfterSlot(a.writers, a.outstanding, a.reservers, a.slots, i, a'.slots[i]);
    var s1 := s.(area := a.(slots := a'.slots));
    assert Inv(s1);
    assert Scanned(a'.slots, i + 1, pc.min);
    CleanerMoves(s1, t, a'.cleaners[t], s');
  }

  lemma PendingWon(pending: seq<nat>, cleaners: seq<CleanerPc>, free: nat, last: nat, t: nat, min: nat)
    requires PendingOK(pending, cleaners, free, last)
    requires t < |cleaners| && !cleaners[t].CDrop? && last < min
    ensures PendingOK(pending + [t], cleaners[t := CDrop(last, min, 0)], free, min)
  {
    hide Tiles;
    var pending', cleaners' := pending + [t], cleaners[t := CDrop(last, min, 0)];
    var rs, rs' := WonRanges(pending, cleaners), WonRanges(pending', cleaners');
    TilesAppend(rs, free, last, min);
    assert rs' == rs + [Range(last, min)];
    forall u | 0 <= u < |cleaners'| && cleaners'[u].CDrop?
      ensures u in pending'
    {
      if u == t { assert pending'[|pending|] == t; }
    }
  }

  /** Nothing in a range about to be won has been dropped. */
  lemma WonUndropped(a: Area, h: Hist, t: nat, min: nat)
    requires Sized(a) && CountersOK(a) && t < |a.cleaners| && a.last < min <= a.read
    requires LogOK(h.log, a.read, a.write) && HoldsAll(a.ring, h.log, a.last, a.write)
    requires UndroppedOK(a.ring, h.log, a.cleaners) && DropsOK(h.dropped, a.cleaners, a.free, a.last)
    ensures var cs := a.cleaners[t := CDrop(a.last, min, 0)];
            && UndroppedOK(a.ring, h.log, cs)
            && DropsOK(h.dropped, cs, a.free, min)
            && HoldsAll(a.ring, h.log, min, a.write)
  {
    assert HoldsAll(a.ring, h.log, a.last, min);
    assert DroppedEach(h.dropped, a.last, min, 0);
  }

  /** Winning a range: last_valid_gen moves up to the minimum found, which no slot is behind. */
  lemma CleanerWins(s: State, t: nat, s': State)
    requires Inv(s) && t < |s.area.cleaners| && s.area.cleaners[t].CAdvance?
    requires var a, h, pc := s.area, s.hist, s.area.cleaners[t];
             && pc.last == a.last
             && s'.area == a.(last := pc.min, cleaners := a.cleaners[t := CDrop(pc.last, pc.min, 0)])
             && s'.hist == h.(pending := h.pending + [t])
    ensures Inv(s')
  {
    var a, h, a' := s.area, s.hist, s'.area;
    var pc := a.cleaners[t];
    assert CleanerOK(pc, a.slots, a.last, a.read);
    hide SlotsOK, CleanersOK, PendingOK, ReserversOK, Tiles, LogOK, HoldsAll, UndroppedOK, DropsOK, DeliveriesOK,
         WritersOK;
    SlotsStable(a.slots, a.last, a.read, a'.last, a.read);
    CleanersStable(a.cleaners, a.slots, a.last, a.read, a.slots, a'.last, a.read);
    CleanersUpdated(a.cleaners, a.slots, a'.last, a.read, t, a'.cleaners[t]);
    PendingWon(h.pending, a.cleaners, a.free, a.last, t, pc.min);
    WonUndropped(a, h, t, pc.min);
  }

  /** The range a cleaner has won lies between the two counters, apart from every other one. */
  lemma WonApart(pending: seq<nat>, cleaners: seq<CleanerPc>, free: nat, last: nat, t: nat, u: nat)
    requires PendingOK(pending, cleaners, free, last) && t < |cleaners| && u < |cleaners|
    requires cleaners[t].CDrop? && cleaners[u].CDrop?
    ensures free <= cleaners[t].last < cleaners[t].min <= last
    ensures t != u ==> cleaners[t].min <= cleaners[u].last || cleaners[u].min <= cleaners[t].last
  {
    var rs := WonRanges(pending, cleaners);
    var i :| 0 <= i < |pending| && pending[i] == t;
    var j :| 0 <= j < |pending| && pending[j] == u;
    TilesWithin(rs, free, last, i);
    assert rs[i] == WonRange(cleaners[t]) && rs[j] == WonRange(cleaners[u]);
    if i < j {
      TilesAhead(rs, free, last, i, j);
    } else if j < i {
      TilesAhead(rs, free, last, j, i);
    }
  }

  /** A store for generation g0 leaves what the ring holds for any range without g0 alone. */
  lemma RingRest(ring: seq<Cell>, log: map<nat, Value>, lo: nat, hi: nat, g0: nat, c: Cell, from: nat, to: nat)
    requires 0 < |ring| && hi <= lo + |ring| && lo <= g0 < hi
    requires HoldsAll(ring, log, from, to) && lo <= from && to <= hi && (g0 < from || to <= g0)
    ensures HoldsAll(ring[RingSlot(|ring|, g0) := c], log, from, to)
  {
    var ring' := ring[RingSlot(|ring|, g0) := c];
    forall g: nat | from <= g < to
      ensures Holds(ring', log, g)
    {
      RingUpdate(ring, lo, g0, c, g);
      assert Holds(ring, log, g);
    }
  }

  /** Dropping generation g0 of the range of `pc`, seen by a thread `c` with a range of its own or,
      as `c == pc`, by the dropping thread itself. */
  lemma DropLeavesRest(ring: seq<Cell>, log: map<nat, Value>, dropped: multiset<nat>, free: nat, last: nat,
      write: nat, pc: CleanerPc, c: CleanerPc)
    requires 0 < |ring| && write <= free + |ring| && last <= write
    requires pc.CDrop? && pc.done < pc.min - pc.last && free <= pc.last && pc.min <= last
    requires c.CDrop? && c.done <= c.min - c.last && free <= c.last && c.min <= last
    requires c != pc ==> c.min <= pc.last || pc.min <= c.last
    requires HoldsAll(ring, log, c.last + c.done, c.min)
    requires DroppedEach(dropped, c.last, c.last + c.done, 1) && DroppedEach(dropped, c.last + c.done, c.min, 0)
    ensures var g0, c' := pc.last + pc.done, if c == pc then pc.(done := pc.done + 1) else c;
            && HoldsAll(ring[RingSlot(|ring|, g0) := Vacant], log, c'.last + c'.done, c'.min)
            && DroppedEach(dropped + multiset{g0}, c'.last, c'.last + c'.done, 1)
            && DroppedEach(dropped + multiset{g0}, c'.last + c'.done, c'.min, 0)
  {
    var g0, c' := pc.last + pc.done, if c == pc then pc.(done := pc.done + 1) else c;
    assert HoldsAll(ring, log, c'.last + c'.done, c'.min);
    RingRest(ring, log, free, write, g0, Vacant, c'.last + c'.done, c'.min);
  }

  /** What is still to drop in thread u's range, after thread t has dropped one more message. */
  lemma DropAt(a: Area, h: Hist, t: nat, u: nat)
    requires Sized(a) && CountersOK(a) && t < |a.cleaners| && u < |a.cleaners|
    requires PendingOK(h.pending, a.cleaners, a.free, a.last)
    requires CleanerOK(a.cleaners[t], a.slots, a.last, a.read) && CleanerOK(a.cleaners[u], a.slots, a.last, a.read)
    requires UndroppedOK(a.ring, h.log, a.cleaners) && DropsOK(h.dropped, a.cleaners, a.free, a.last)
    requires var pc := a.cleaners[t]; pc.CDrop? && pc.done < pc.min - pc.last
    requires a.cleaners[u].CDrop?
    ensures var pc := a.cleaners[t];
            var g0, c := pc.last + pc.done, if u == t then pc.(done := pc.done + 1) else a.cleaners[u];
            && HoldsAll(a.ring[RingSlot(a.capacity, g0) := Vacant], h.log, c.last + c.done, c.min)
            && DroppedEach(h.dropped + multiset{g0}, c.last, c.last + c.done, 1)
            && DroppedEach(h.dropped + multiset{g0}, c.last + c.done, c.min, 0)
  {
    hide PendingOK, HoldsAll, DroppedEach;
    WonApart(h.pending, a.cleaners, a.free, a.last, u, u);
    WonApart(h.pending, a.cleaners, a.free, a.last, u, t);
    WonApart(h.pending, a.cleaners, a.free, a.last, t, t);
    var pc, c := a.cleaners[t], a.cleaners[u];
    assert HoldsAll(a.ring, h.log, c.last + c.done, c.min);
    assert DroppedEach(h.dropped, c.last, c.last + c.done, 1) && DroppedEach(h.dropped, c.last + c.done, c.min, 0);
    hide UndroppedOK, DropsOK;
    DropLeavesRest(a.ring, h.log, h.dropped, a.free, a.last, a.write, a.cleaners[t], a.cleaners[u]);
  }

  /** All ranges still to drop, after thread t has dropped one more message. */
  lemma DropKeepsRest(a: Area, h: Hist, t: nat)
    requires Sized(a) && CountersOK(a) && t < |a.cleaners|
    requires PendingOK(h.pending, a.cleaners, a.free, a.last) && CleanersOK(a.cleaners, a.slots, a.last, a.read)
    requires UndroppedOK(a.ring, h.log, a.cleaners) && DropsOK(h.dropped, a.cleaners, a.free, a.last)
    requires var pc := a.cleaners[t]; pc.CDrop? && pc.done < pc.min - pc.last
    ensures var pc := a.cleaners[t]; var g0, cs := pc.last + pc.done, a.cleaners[t := pc.(done := pc.done + 1)];
            && a.free <= pc.last && pc.min <= a.last
            && UndroppedOK(a.ring[RingSlot(a.capacity, g0) := Vacant], h.log, cs)
            && DropsOK(h.dropped + multiset{g0}, cs, a.free, a.last)
  {
    hide PendingOK, HoldsAll, DroppedEach;
    var pc := a.cleaners[t];
    var g0, cs := pc.last + pc.done, a.cleaners[t := pc.(done := pc.done + 1)];
    assert CleanerOK(pc, a.slots, a.last, a.read);
    WonApart(h.pending, a.cleaners, a.free, a.last, t, t);
    forall u | 0 <= u < |cs| && cs[u].CDrop?
      ensures HoldsAll(a.ring[RingSlot(a.capacity, g0) := Vacant], h.log, cs[u].last + cs[u].done, cs[u].min)
      ensures DroppedEach(h.dropped + multiset{g0}, cs[u].last, cs[u].last + cs[u].done, 1)
      ensures DroppedEach(h.dropped + multiset{g0}, cs[u].last + cs[u].done, cs[u].min, 0)
    {
      assert CleanerOK(a.cleaners[u], a.slots, a.last, a.read);
      DropAt(a, h, t, u);
    }
    DropElsewhere(h.dropped, 0, a.free, 1, g0);
  }

  lemma DropElsewhere(dropped: multiset<nat>, from: nat, to: nat, times: nat, g0: nat)
    requires DroppedEach(dropped, from, to, times) && (g0 < from || to <= g0)
    ensures DroppedEach(dropped + multiset{g0}, from, to, times)
  {
  }

  /** Dropping one message of the range won. */
  lemma CleanerDrops(s: State, t: nat, s': State)
    requires Inv(s) && t < |s.area.cleaners| && s.area.cleaners[t].CDrop?
    requires var a, h, pc := s.area, s.hist, s.area.cleaners[t];
             && pc.done < pc.min - pc.last
             && s'.area == a.(ring := a.ring[RingSlot(a.capacity, pc.last + pc.done) := Vacant],
                              cleaners := a.cleaners[t := pc.(done := pc.done + 1)])
             && s'.hist == h.(dropped := h.dropped + multiset{pc.last + pc.done})
    ensures Inv(s')
  {
    hide SlotsOK, CleanersOK, PendingOK, ReserversOK, Tiles, LogOK, HoldsAll, UndroppedOK, DropsOK, DeliveriesOK,
         WritersOK;
    var a, h, a' := s.area, s.hist, s'.area;
    var pc := a.cleaners[t];
    PendingStable(h.pending, a.cleaners, a.free, a.last, t, a'.cleaners[t]);
    CleanersUpdated(a.cleaners, a.slots, a.last, a.read, t, a'.cleaners[t]);
    DropKeepsRest(a, h, t);
    RingRest(a.ring, h.log, a.free, a.write, pc.last + pc.done, Vacant, a.last, a.write);
  }

  lemma PendingFreed(pending: seq<nat>, cleaners: seq<CleanerPc>, free: nat, last: nat, t: nat)
    requires PendingOK(pending, cleaners, free, last) && t < |cleaners|
    requires cleaners[t].CDrop? && cleaners[t].last == free
    ensures pending != [] && PendingOK(pending[1..], cleaners[t := CIdle], cleaners[t].min, last)
  {
    HeadFrees(pending, cleaners, free, last, t);
    hide Tiles;
    var pending', cleaners' := pending[1..], cleaners[t := CIdle];
    var rs := WonRanges(pending, cleaners);
    TilesTail(rs, free, last);
    assert WonRanges(pending', cleaners') == rs[1..];
    assert rs[0] == WonRange(cleaners[t]);
    forall u | 0 <= u < |cleaners'| && cleaners'[u].CDrop?
      ensures u in pending'
    {
      assert u in pending && u != pending[0];
    }
  }

  lemma ReserversStable(reservers: seq<ReserverPc>, free: nat, write: nat, capacity: nat, free': nat, write': nat)
    requires ReserversOK(reservers, free, write, capacity) && free <= free' && write <= write'
    ensures ReserversOK(reservers, free', write', capacity)
  {
    forall t | 0 <= t < |reservers|
      ensures ReserverOK(reservers[t], free', write', capacity)
    {
      assert ReserverOK(reservers[t], free, write, capacity);
    }
  }

  lemma DropsFreed(a: Area, h: Hist, t: nat)
    requires Sized(a) && t < |a.cleaners|
    requires UndroppedOK(a.ring, h.log, a.cleaners) && DropsOK(h.dropped, a.cleaners, a.free, a.last)
    requires var pc := a.cleaners[t]; pc.CDrop? && pc.last == a.free && pc.done == pc.min - pc.last && pc.min <= a.last
    ensures var cs := a.cleaners[t := CIdle];
            UndroppedOK(a.ring, h.log, cs) && DropsOK(h.dropped, cs, a.cleaners[t].min, a.last)
  {
    var pc := a.cleaners[t];
    assert DroppedEach(h.dropped, pc.last, pc.min, 1);
  }

  /** Handing a range back: only the head of the queue can, and it does so for all of its range. */
  lemma CleanerFrees(s: State, t: nat, s': State)
    requires Inv(s) && t < |s.area.cleaners| && s.area.cleaners[t].CDrop?
    requires var a, h, pc := s.area, s.hist, s.area.cleaners[t];
             && pc.done == pc.min - pc.last && pc.last == a.free && h.pending != []
             && s'.area == a.(free := pc.min, cleaners := a.cleaners[t := CIdle])
             && s'.hist == h.(pending := h.pending[1..])
    ensures Inv(s')
  {
    var a, h, a' := s.area, s.hist, s'.area;
    var pc := a.cleaners[t];
    hide SlotsOK, CleanersOK, PendingOK, ReserversOK, Tiles, LogOK, HoldsAll, UndroppedOK, DropsOK, DeliveriesOK,
         WritersOK;
    hide CleanerOK, WonRanges;
    WonApart(h.pending, a.cleaners, a.free, a.last, t, t);
    PendingFreed(h.pending, a.cleaners, a.free, a.last, t);
    CleanersUpdated(a.cleaners, a.slots, a.last, a.read, t, CIdle);
    DropsFreed(a, h, t);
    ReserversStable(a.reservers, a.free, a.write, a.capacity, a'.free, a.write);
  }

  /** A cleaner whose range starts at free_gen is the first of the queue. */
  lemma HeadFrees(pending: seq<nat>, cleaners: seq<CleanerPc>, free: nat, last: nat, t: nat)
    requires PendingOK(pending, cleaners, free, last) && t < |cleaners|
    requires cleaners[t].CDrop? && cleaners[t].last == free
    ensures pending != [] && pending[0] == t
  {
    var rs := WonRanges(pending, cleaners);
    var i :| 0 <= i < |pending| && pending[i] == t;
    assert rs[i] == WonRange(cleaners[t]);
    if i > 0 { TilesAhead(rs, free, last, 0, i); }
  }

  lemma CleanerForceStep(s: State, t: nat, s': State)
    requires Inv(s) && Step(s, Clean(t), s') && t < |s.area.cleaners|
    requires var pc := s.area.cleaners[t]; pc.CForce? && pc.pos < |s.area.slots| && s.area.slots[pc.pos].word == pc.seen
    ensures Inv(s')
  {
    hide Inv;
    CleanerForces(s, t, s');
  }

  lemma CleanerWinStep(s: State, t: nat, s': State)
    requires Inv(s) && Step(s, Clean(t), s') && t < |s.area.cleaners|
    requires var pc := s.area.cleaners[t]; pc.CAdvance? && pc.last == s.area.last
    ensures Inv(s')
  {
    hide Inv;
    CleanerWins(s, t, s');
  }

  lemma CleanerDropStep(s: State, t: nat, s': State)
    requires Inv(s) && Step(s, Clean(t), s') && t < |s.area.cleaners|
    requires var pc := s.area.cleaners[t]; pc.CDrop? && pc.last < pc.min && pc.done < pc.min - pc.last
    ensures Inv(s')
  {
    hide Inv;
    CleanerDrops(s, t, s');
  }

  lemma CleanerFreeStep(s: State, t: nat, s': State)
    requires Inv(s) && Step(s, Clean(t), s') && t < |s.area.cleaners| && s.hist.pending != []
    requires var pc := s.area.cleaners[t];
             pc.CDrop? && pc.last < pc.min && pc.done == pc.min - pc.last && pc.last == s.area.free
    ensures Inv(s')
  {
    hide Inv;
    CleanerFrees(s, t, s');
  }

  lemma CleanerKeeps(s: State, t: nat, s': State)
    requires Inv(s) && Step(s, Clean(t), s')
    ensures Inv(s')
  {
    var a := s.area;
    var pc := a.cleaners[t];
    assert CleanerOK(pc, a.slots, a.last, a.read);
    hide SlotsOK, CleanersOK, ReserversOK, Tiles, LogOK, HoldsAll, UndroppedOK, DropsOK, DeliveriesOK, WritersOK,
         Scanned, PendingOK;
    if pc.CForce? && a.slots[pc.pos].word == pc.seen {
      CleanerForceStep(s, t, s');
    } else if pc.CAdvance? && pc.last == a.last {
      CleanerWinStep(s, t, s');
    } else if pc.CDrop? && pc.done < pc.min - pc.last {
      CleanerDropStep(s, t, s');
    } else if pc.CDrop? && pc.last == a.free {
      HeadFrees(s.hist.pending, a.cleaners, a.free, a.last, t);
      CleanerFreeStep(s, t, s');
    } else if pc.CDrop? {
      assert s' == s;
    } else {
      CleanerScans(s, t, s');
    }
  }

  // ---------------------------------------------------------------- writers

  lemma ReserversUpdated(reservers: seq<ReserverPc>, free: nat, write: nat, capacity: nat, t: nat, pc: ReserverPc)
    requires ReserversOK(reservers, free, write, capacity) && t < |reservers| && ReserverOK(pc, free, write, capacity)
    ensures ReserversOK(reservers[t := pc], free, write, capacity)
  {
  }

  lemma WritersAfterReserver(writers: set<nat>, outstanding: seq<Reservation>, reservers: seq<ReserverPc>,
      slots: seq<Slot>, t: nat, pc: ReserverPc)
    requires WritersOK(writers, outstanding, reservers, slots) && t < |reservers|
    requires !pc.RIdle? && pc.author.ByWriter? ==> pc.author.id in writers
    ensures WritersOK(writers, outstanding, reservers[t := pc], slots)
  {
  }

  /** What a reserver decides from an older free_gen and the current write_gen still fits. */
  lemma GrantFits(capacity: nat, seenFree: nat, free: nat, write: nat, n: nat, bestEffort: bool)
    requires seenFree <= free <= write
    ensures var k := Granted(Available(Natural, capacity, seenFree, write), n, bestEffort);
            k > 0 ==> write + k <= free + capacity
  {
  }

  /** Steps of a reserver that only move its own program counter. */
  lemma ReserverMoves(s: State, t: nat, pc: ReserverPc, s': State)
    requires Inv(s) && t < |s.area.reservers|
    requires s' == s.(area := s.area.(reservers := s.area.reservers[t := pc]))
    requires ReserverOK(pc, s.area.free, s.area.write, s.area.capacity)
    requires !pc.RIdle? && pc.author.ByWriter? ==> pc.author.id in s.area.writers
    ensures Inv(s')
  {
    hide SlotsOK, CleanersOK, PendingOK, ReserversOK, Tiles, LogOK, HoldsAll, UndroppedOK, DropsOK, DeliveriesOK,
         WritersOK;
    var a := s.area;
    ReserversUpdated(a.reservers, a.free, a.write, a.capacity, t, pc);
    WritersAfterReserver(a.writers, a.outstanding, a.reservers, a.slots, t, pc);
  }

  /** The new end of write_gen: nothing is stored for the generations just reserved. */
  lemma ReservedUnwritten(ring: seq<Cell>, log: map<nat, Value>, last: nat, read: nat, write: nat, write': nat)
    requires 0 < |ring| && write <= write' && LogOK(log, read, write) && HoldsAll(ring, log, last, write)
    ensures LogOK(log, read, write') && HoldsAll(ring, log, last, write')
  {
  }

  lemma WritersAfterReserving(writers: set<nat>, outstanding: seq<Reservation>, reservers: seq<ReserverPc>,
      slots: seq<Slot>, r: Reservation)
    requires WritersOK(writers, outstanding, reservers, slots)
    requires r.author.ByWriter? ==> r.author.id in writers
    ensures WritersOK(writers, outstanding + [r], reservers, slots)
  {
  }

  /** A successful reservation. */
  lemma ReserverReserves(s: State, t: nat, s': State)
    requires Inv(s) && t < |s.area.reservers| && s.area.reservers[t].RCas?
    requires var a, pc := s.area, s.area.reservers[t];
             && a.write == pc.write
             && s' == s.(area := a.(write := a.write + pc.n,
                                    outstanding := a.outstanding + [Reservation(a.write, a.write + pc.n, pc.author)],
                                    reservers := a.reservers[t := RIdle]))
    ensures Inv(s')
  {
    var a, h, pc, a' := s.area, s.hist, s.area.reservers[t], s'.area;
    var r := Reservation(a.write, a.write + pc.n, pc.author);
    assert ReserverOK(pc, a.free, a.write, a.capacity);
    assert pc.author.ByWriter? ==> pc.author.id in a.writers;
    hide SlotsOK, CleanersOK, PendingOK, ReserversOK, Tiles, LogOK, HoldsAll, UndroppedOK, DropsOK, DeliveriesOK,
         WritersOK;
    ReserversUpdated(a.reservers, a.free, a.write, a.capacity, t, RIdle);
    ReserversStable(a'.reservers, a.free, a.write, a.capacity, a.free, a'.write);
    WritersAfterReserving(a.writers, a.outstanding, a.reservers, a.slots, r);
    WritersAfterReserver(a.writers, a'.outstanding, a.reservers, a.slots, t, RIdle);
    ReservedUnwritten(a.ring, h.log, a.last, a.read, a.write, a'.write);
    TilesAppend(ReservationRanges(a.outstanding), a.read, a.write, a'.write);
    assert ReservationRanges(a'.outstanding) == ReservationRanges(a.outstanding) + [Range(a.write, a'.write)];
  }

  lemma ReserveKeeps(s: State, l: Label, s': State)
    requires Inv(s) && Step(s, l, s') && (l.Reserve? || l.ReserveGo?)
    ensures Inv(s')
  {
    var a := s.area;
    var pc := a.reservers[l.t];
    assert ReserverOK(pc, a.free, a.write, a.capacity);
    assert !pc.RIdle? && pc.author.ByWriter? ==> pc.author.id in a.writers;
    hide SlotsOK, CleanersOK, PendingOK, ReserversOK, Tiles, LogOK, HoldsAll, UndroppedOK, DropsOK, DeliveriesOK,
         WritersOK;
    if l.Reserve? {
      ReserverMoves(s, l.t, s'.area.reservers[l.t], s');
    } else if pc.RCas? && a.write == pc.write {
      ReserverReserves(s, l.t, s');
    } else {
      if pc.RGotFree? { GrantFits(a.capacity, pc.free, a.free, a.write, pc.n, pc.bestEffort); }
      ReserverMoves(s, l.t, s'.area.reservers[l.t], s');
    }
  }

  lemma HoldsAfterWrite(ring: seq<Cell>, log: map<nat, Value>, lo: nat, hi: nat, g0: nat, v: Value, from: nat, to: nat)
    requires 0 < |ring| && hi <= lo + |ring| && lo <= g0 < hi && lo <= from && to <= hi
    requires HoldsAll(ring, log, from, to)
    ensures HoldsAll(ring[RingSlot(|ring|, g0) := Full(v)], log[g0 := v], from, to)
  {
    var ring', log' := ring[RingSlot(|ring|, g0) := Full(v)], log[g0 := v];
    forall g: nat | from <= g < to
      ensures Holds(ring', log', g)
    {
      RingUpdate(ring, lo, g0, Full(v), g);
      assert Holds(ring, log, g);
    }
  }

  lemma UndroppedAfterWrite(a: Area, h: Hist, g0: nat, v: Value)
    requires Sized(a) && CountersOK(a) && a.last <= g0 < a.write
    requires PendingOK(h.pending, a.cleaners, a.free, a.last) && UndroppedOK(a.ring, h.log, a.cleaners)
    ensures UndroppedOK(a.ring[RingSlot(|a.ring|, g0) := Full(v)], h.log[g0 := v], a.cleaners)
  {
    hide PendingOK, HoldsAll;
    forall t | 0 <= t < |a.cleaners| && a.cleaners[t].CDrop?
      ensures HoldsAll(a.ring[RingSlot(|a.ring|, g0) := Full(v)], h.log[g0 := v],
          a.cleaners[t].last + a.cleaners[t].done, a.cleaners[t].min)
    {
      WonApart(h.pending, a.cleaners, a.free, a.last, t, t);
      HoldsAfterWrite(a.ring, h.log, a.free, a.write, g0, v, a.cleaners[t].last + a.cleaners[t].done,
          a.cleaners[t].min);
    }
  }

  lemma StretchAfterWrite(delivered: seq<Cell>, log: map<nat, Value>, entry: nat, gen: nat, g0: nat, v: Value)
    requires IsStretch(delivered, log, entry, gen) && gen <= g0
    ensures IsStretch(delivered, log[g0 := v], entry, gen)
  {
    var log' := log[g0 := v];
    forall k | 0 <= k < |delivered|
      ensures IsMessage(delivered[k], log', entry + k)
    {
      assert IsMessage(delivered[k], log, entry + k);
    }
  }

  /** Nothing a reader has been given changes: stores go to unpublished generations. */
  lemma DeliveriesAfterWrite(slots: seq<Slot>, readers: seq<ReaderHist>, log: map<nat, Value>, last: nat, read: nat,
      g0: nat, v: Value)
    requires DeliveriesOK(slots, readers, log) && SlotsOK(slots, last, read) && read <= g0
    ensures DeliveriesOK(slots, readers, log[g0 := v])
  {
    forall i | 0 <= i < |slots| && !slots[i].word.suspended
      ensures IsStretch(readers[i].delivered, log[g0 := v], readers[i].entry, slots[i].word.gen)
    {
      assert SlotOK(slots[i], last, read);
      StretchAfterWrite(readers[i].delivered, log, readers[i].entry, slots[i].word.gen, g0, v);
    }
  }

  lemma WriteKeeps(s: State, l: Label, s': State)
    requires Inv(s) && Step(s, l, s') && l.Write?
    ensures Inv(s')
  {
    hide SlotsOK, CleanersOK, PendingOK, ReserversOK, Tiles, LogOK, HoldsAll, UndroppedOK, DropsOK, DeliveriesOK,
         WritersOK;
    var a, h := s.area, s.hist;
    var rs, r := ReservationRanges(a.outstanding), a.outstanding[l.k];
    var g0 := r.start + l.index;
    TilesWithin(rs, a.read, a.write, l.k);
    assert rs[l.k] == Range(r.start, r.end);
    StoreKeeps(s, g0, l.value, s');
  }

  lemma StoreKeeps(s: State, g0: nat, v: Value, s': State)
    requires Inv(s) && s.area.read <= g0 < s.area.write
    requires s'.area == s.area.(ring := s.area.ring[RingSlot(s.area.capacity, g0) := Full(v)])
    requires s'.hist == s.hist.(log := s.hist.log[g0 := v])
    ensures Inv(s')
  {
    hide SlotsOK, CleanersOK, PendingOK, ReserversOK, Tiles, LogOK, HoldsAll, UndroppedOK, DropsOK, DeliveriesOK,
         WritersOK;
    var a, h := s.area, s.hist;
    HoldsAfterWrite(a.ring, h.log, a.free, a.write, g0, v, a.last, a.write);
    UndroppedAfterWrite(a, h, g0, v);
    DeliveriesAfterWrite(a.slots, h.readers, h.log, a.last, a.read, g0, v);
    assert LogOK(s'.hist.log, a.read, a.write) by { LogAfterWrite(h.log, a.read, a.write, g0, v); }
  }

  lemma LogAfterWrite(log: map<nat, Value>, read: nat, write: nat, g0: nat, v: Value)
    requires LogOK(log, read, write) && g0 < write
    ensures LogOK(log[g0 := v], read, write)
  {
  }

  lemma TilesSplit(rs: seq<Range>, from: nat, to: nat, k: nat, mid: nat)
    requires Tiles(rs, from, to) && k < |rs| && rs[k].start < mid < rs[k].end
    ensures Tiles(rs[..k] + [Range(rs[k].start, mid), Range(mid, rs[k].end)] + rs[k + 1..], from, to)
  {
    var rs' := rs[..k] + [Range(rs[k].start, mid), Range(mid, rs[k].end)] + rs[k + 1..];
    forall i | 0 <= i < |rs'|
      ensures rs'[i] == if i < k then rs[i] else if i == k then Range(rs[k].start, mid)
                        else if i == k + 1 then Range(mid, rs[k].end) else rs[i - 1]
    {
    }
  }

  lemma WritersAfterSplit(a: Area, k: nat, at: nat)
    requires WritersOK(a.writers, a.outstanding, a.reservers, a.slots) && k < |a.outstanding|
    ensures WritersOK(a.writers, SplitAt(Natural, a, k, at), a.reservers, a.slots)
  {
    var rs := SplitAt(Natural, a, k, at);
    forall j | 0 <= j < |rs|
      ensures exists i :: 0 <= i < |a.outstanding| && rs[j].author == a.outstanding[i].author
    {
      var i := if j <= k then j else j - 1;
      assert rs[j].author == a.outstanding[i].author;
    }
  }

  lemma SplitKeeps(s: State, l: Label, s': State)
    requires Inv(s) && Step(s, l, s') && l.Split?
    ensures Inv(s')
  {
    hide SlotsOK, CleanersOK, PendingOK, ReserversOK, Tiles, LogOK, HoldsAll, UndroppedOK, DropsOK, DeliveriesOK,
         WritersOK;
    var a, a' := s.area, s'.area;
    var rs, r := ReservationRanges(a.outstanding), a.outstanding[l.k];
    var mid := r.start + l.at;
    assert rs[l.k] == Range(r.start, r.end);
    if 0 < l.at < r.end - r.start {
      TilesSplit(rs, a.read, a.write, l.k, mid);
      WritersAfterSplit(a, l.k, l.at);
      assert ReservationRanges(a'.outstanding) ==
             rs[..l.k] + [Range(rs[l.k].start, mid), Range(mid, rs[l.k].end)] + rs[l.k + 1..];
    }
  }

  /** A reservation that starts at read_gen is the first of the tiling. */
  lemma HeadPublishes(outstanding: seq<Reservation>, read: nat, write: nat, k: nat)
    requires Tiles(ReservationRanges(outstanding), read, write) && k < |outstanding| && outstanding[k].start == read
    ensures k == 0
  {
    var rs := ReservationRanges(outstanding);
    assert rs[k] == ReservationRange(outstanding[k]);
    if k > 0 { TilesAhead(rs, read, write, 0, k); }
  }

  lemma WritersAfterPublish(writers: set<nat>, outstanding: seq<Reservation>, reservers: seq<ReserverPc>,
      slots: seq<Slot>)
    requires WritersOK(writers, outstanding, reservers, slots) && outstanding != []
    ensures WritersOK(writers, outstanding[1..], reservers, slots)
  {
  }

  lemma LogAfterPublish(log: map<nat, Value>, read: nat, write: nat, r: Reservation)
    requires LogOK(log, read, write) && Filled(log, r) && r.start == read <= r.end
    ensures LogOK(log, r.end, write)
  {
  }

  lemma PublishKeeps(s: State, l: Label, s': State)
    requires Inv(s) && Step(s, l, s') && l.Publish?
    ensures Inv(s')
  {
    hide SlotsOK, CleanersOK, PendingOK, ReserversOK, Tiles, LogOK, HoldsAll, UndroppedOK, DropsOK, DeliveriesOK,
         WritersOK;
    var a, h, a' := s.area, s.hist, s'.area;
    var rs, r := ReservationRanges(a.outstanding), a.outstanding[l.k];
    assert rs[l.k] == Range(r.start, r.end);
    TilesWithin(rs, a.read, a.write, l.k);
    if a.read == r.start {
      HeadPublishes(a.outstanding, a.read, a.write, l.k);
      TilesTail(rs, a.read, a.write);
      assert a'.outstanding == a.outstanding[1..];
      assert ReservationRanges(a'.outstanding) == rs[1..];
      WritersAfterPublish(a.writers, a.outstanding, a.reservers, a.slots);
      LogAfterPublish(h.log, a.read, a.write, r);
      SlotsStable(a.slots, a.last, a.read, a.last, a'.read);
      CleanersStable(a.cleaners, a.slots, a.last, a.read, a.slots, a.last, a'.read);
    } else {
      assert s' == s;
    }
  }

  lemma WriterHandleKeeps(s: State, l: Label, s': State)
    requires Inv(s) && Step(s, l, s') && (l.NewWriter? || l.DropWriter?)
    ensures Inv(s')
  {
    var a, a' := s.area, s'.area;
    assert WritersOK(a'.writers, a.outstanding, a.reservers, a.slots) by {
      hide SlotsOK, CleanersOK, PendingOK, ReserversOK, Tiles, LogOK, HoldsAll, UndroppedOK, DropsOK, DeliveriesOK;
      if l.DropWriter? {
        assert !Borrowed(a, l.id);
        forall k | 0 <= k < |a.outstanding| && a.outstanding[k].author.ByWriter?
          ensures a.outstanding[k].author.id in a'.writers
        {
        }
      }
    }
    hide SlotsOK, CleanersOK, PendingOK, ReserversOK, Tiles, LogOK, HoldsAll, UndroppedOK, DropsOK, DeliveriesOK,
         WritersOK;
  }

  /** Every allowed step of the protocol keeps the invariant. */
  lemma StepKeeps(s: State, l: Label, s': State)
    requires Inv(s) && Step(s, l, s')
    ensures Inv(s')
  {
    hide Inv, Step;
    match l
    case Reserve(_, _, _, _) => ReserveKeeps(s, l, s');
    case ReserveGo(_) => ReserveKeeps(s, l, s');
    case Write(_, _, _) => WriteKeeps(s, l, s');
    case Split(_, _) => SplitKeeps(s, l, s');
    case Publish(_) => PublishKeeps(s, l, s');
    case NewWriter(_, _) => WriterHandleKeeps(s, l, s');
    case DropWriter(_) => WriterHandleKeeps(s, l, s');
    case Reader(i, op) => ReaderKeeps(s, i, op, s');
    case Clean(t) => CleanerKeeps(s, t, s');
  }
}

/** What every interleaving of writers, readers and cleaners keeps: the invariant of the protocol
    over unbounded generations, with the history it talks about. */
module Invariant {
  import opened Options
  import opened Arithmetic
  import opened Protocol

  // ---------------------------------------------------------------- history

  /** Since its last entry: where a reader came in, and the slot contents its slices handed it. */
  datatype ReaderHist = ReaderHist(entry: nat, delivered: seq<Cell>)

  datatype Hist = Hist(
    log: map<nat, Value>,          // the value last stored for a generation by whoever reserved it
    dropped: multiset<nat>,        // how often each generation's message has been dropped
    pending: seq<nat>,             // cleaners between their two counter updates, in winning order
    readers: seq<ReaderHist>,
    authors: seq<Author>)          // who published generation g, for every published g

  datatype State = State(area: Area, hist: Hist)

  function CellAt(ring: seq<Cell>, g: nat): Cell
    requires |ring| > 0
  {
    ring[RingSlot(|ring|, g)]
  }

  /** Contents of the slice [from, to). */
  function CellsAt(ring: seq<Cell>, from: nat, to: nat): seq<Cell>
    requires |ring| > 0 && from <= to
  {
    seq(to - from, i requires 0 <= i < to - from => CellAt(ring, from + i))
  }

  function RecordReader(a: Area, i: nat, op: ReaderOp, rh: ReaderHist): ReaderHist
    requires Sized(a) && i < |a.slots|
  {
    var slot := a.slots[i];
    if op.Go? && slot.pc.EnterCas? && slot.word == slot.pc.seen then
      ReaderHist(EntryGen(slot.pc.goal, slot.pc.seen), [])
    else if op.Go? && slot.pc.SliceStore? && slot.pc.seen.gen <= slot.pc.end then
      rh.(delivered := rh.delivered + CellsAt(a.ring, slot.pc.seen.gen, slot.pc.end))
    else rh
  }

  function RecordCleaner(a: Area, t: nat, h: Hist): Hist
    requires t < |a.cleaners|
  {
    match a.cleaners[t]
    case CAdvance(last, _) => if a.last == last then h.(pending := h.pending + [t]) else h
    case CDrop(last, min, done) =>
      if done < Dist(Natural, min, last) then h.(dropped := h.dropped + multiset{last + done})
      else if a.free == last && h.pending != [] then h.(pending := h.pending[1..])
      else h
    case _ => h
  }

  /** The history after step `l` from state `s`. */
  function Record(s: State, l: Label): Hist
    requires Sized(s.area) && |s.hist.readers| == |s.area.slots|
  {
    var a, h := s.area, s.hist;
    match l
    case Write(k, index, value) =>
      if k < |a.outstanding| then h.(log := h.log[a.outstanding[k].start + index := value]) else h
    case Publish(k) =>
      if k < |a.outstanding| && a.outstanding[k].start < a.outstanding[k].end && a.read == a.outstanding[k].start then
        var r := a.outstanding[k];
        h.(authors := h.authors + seq(r.end - r.start, _ => r.author))
      else h
    case Reader(i, op) =>
      if i < |a.slots| then h.(readers := h.readers[i := RecordReader(a, i, op, h.readers[i])]) else h
    case Clean(t) => if t < |a.cleaners| then RecordCleaner(a, t, h) else h
    case _ => h
  }

  ghost predicate Filled(log: map<nat, Value>, r: Reservation)
  {
    forall g :: r.start <= g < r.end ==> g in log
  }

  /** What the code asks of its callers: reserve something, publish only filled slots, read only
      while active, resume no later than read_gen. */
  ghost predicate Allowed(s: State, l: Label)
  {
    match l
    case Reserve(_, _, n, bestEffort) => n > 0 || bestEffort
    case Publish(k) => k < |s.area.outstanding| ==> Filled(s.hist.log, s.area.outstanding[k])
    case Reader(i, Read(_)) => i < |s.area.slots| ==> !s.area.slots[i].word.suspended
    case Reader(_, ResumingAt(entry)) => entry <= s.area.read
    case _ => true
  }

  /** One allowed step of the machine with its history. */
  ghost predicate Step(s: State, l: Label, s': State)
  {
    && Sized(s.area) && |s.hist.readers| == |s.area.slots|
    && Allowed(s, l)
    && Next(Natural, s.area, l) == Some(s'.area)
    && s'.hist == Record(s, l)
  }

  function InitialState(capacity: nat, readers: nat, cleaners: nat, reservers: nat): State
    requires capacity > 0 && readers > 0
  {
    State(Initial(capacity, readers, cleaners, reservers),
          Hist(map[], multiset{}, [], seq(readers, _ => ReaderHist(0, [])), []))
  }

  // ---------------------------------------------------------------- tilings

  datatype Range = Range(start: nat, end: nat)

  /** The non-empty ranges lie end to end from `from` to `to`. */
  ghost predicate Tiles(rs: seq<Range>, from: nat, to: nat)
  {
    && (|rs| == 0 ==> from == to)
    && (|rs| > 0 ==> rs[0].start == from && rs[|rs| - 1].end == to)
    && (forall i :: 0 <= i < |rs| ==> rs[i].start < rs[i].end)
    && (forall i, j :: 0 <= i < j < |rs| && j == i + 1 ==> rs[i].end == rs[j].start)
  }

  lemma {:induction false} TilesAhead(rs: seq<Range>, from: nat, to: nat, i: nat, j: nat)
    requires Tiles(rs, from, to) && i < j < |rs|
    ensures rs[i].end <= rs[j].start
  {
    if i + 1 < j {
      TilesAhead(rs, from, to, i, j - 1);
    }
    assert rs[j - 1].end == rs[j].start;
  }

  lemma TilesWithin(rs: seq<Range>, from: nat, to: nat, i: nat)
    requires Tiles(rs, from, to) && i < |rs|
    ensures from <= rs[i].start < rs[i].end <= to
  {
    if i > 0 { TilesAhead(rs, from, to, 0, i); }
    if i + 1 < |rs| { TilesAhead(rs, from, to, i, |rs| - 1); }
  }

  lemma TilesAppend(rs: seq<Range>, from: nat, to: nat, to': nat)
    requires Tiles(rs, from, to) && to < to'
    ensures Tiles(rs + [Range(to, to')], from, to')
  {
  }

  lemma TilesTail(rs: seq<Range>, from: nat, to: nat)
    requires Tiles(rs, from, to) && |rs| > 0
    ensures Tiles(rs[1..], rs[0].end, to)
  {
    var rest := rs[1..];
    forall i, j | 0 <= i < j < |rest| && j == i + 1
      ensures rest[i].end == rest[j].start
    {
      assert rest[i] == rs[i + 1] && rest[j] == rs[j + 1];
    }
  }

  /** Every generation of a tiled range is in exactly one of its tiles. */
  lemma {:induction false} TilesCover(rs: seq<Range>, from: nat, to: nat, g: nat) returns (i: nat)
    requires Tiles(rs, from, to) && from <= g < to
    ensures i < |rs| && rs[i].start <= g < rs[i].end
    ensures forall j :: 0 <= j < |rs| && j != i ==> !(rs[j].start <= g < rs[j].end)
  {
    i := 0;
    while rs[i].end <= g
      invariant i < |rs| && rs[i].start <= g
      decreases |rs| - i
    {
      assert rs[i].end == rs[i + 1].start;
      i := i + 1;
    }
    forall j | 0 <= j < |rs| && j != i
      ensures !(rs[j].start <= g < rs[j].end)
    {
      if j < i { TilesAhead(rs, from, to, j, i); } else { TilesAhead(rs, from, to, i, j); }
    }
  }

  function ReservationRange(r: Reservation): Range { Range(r.start, r.end) }

  function ReservationRanges(rs: seq<Reservation>): seq<Range>
  {
    seq(|rs|, i requires 0 <= i < |rs| => ReservationRange(rs[i]))
  }

  function WonRange(pc: CleanerPc): Range
  {
    if pc.CDrop? then Range(pc.last, pc.min) else Range(0, 0)
  }

  /** The ranges won by the queued cleaners. */
  function WonRanges(pending: seq<nat>, cleaners: seq<CleanerPc>): seq<Range>
    requires forall i :: 0 <= i < |pending| ==> pending[i] < |cleaners|
  {
    seq(|pending|, i requires 0 <= i < |pending| => WonRange(cleaners[pending[i]]))
  }

  // ---------------------------------------------------------------- the invariant

  ghost predicate CountersOK(a: Area)
  {
    a.free <= a.last <= a.read <= a.write <= a.free + a.capacity
  }

  ghost predicate GoalOK(goal: Goal, word: Word, read: nat)
  {
    && (goal.Register? ==> word.suspended)
    && (goal.ResumeAt? ==> goal.entry <= read)
  }

  /** A slot's generation is still valid, its key and its owner agree, and its owner's snapshots mean
      what the code takes them to mean. Without an activated reader the slot is suspended. */
  ghost predicate SlotOK(slot: Slot, last: nat, read: nat)
  {
    var word := slot.word;
    && last <= word.gen <= read
    && (slot.occupied <==> slot.pc != Nobody)
    && match slot.pc
       case Nobody => word.suspended
       case Claimed => word.suspended
       case EnterTop(goal) => GoalOK(goal, word, read)
       case EnterCas(goal, seen) =>
         GoalOK(goal, word, read) && seen.suspended && seen.gen <= word.gen &&
         (goal.ResumeAt? ==> seen.gen <= goal.entry)
       case SuspendStore(seen) => word == seen && !word.suspended
       case ReadGen(_) => !word.suspended
       case ReadEnd(_, start) => word == Word(start, false)
       case CountCheck => !word.suspended
       case ReadAgain => !word.suspended
       case ReadEndAgain(start) => word == Word(start, false)
       case Holding(start, end) => word == Word(start, false) && start <= end <= read
       case SliceCheck(start, end) => word == Word(start, false) && start <= end <= read
       case SliceLoad(end) => !word.suspended && word.gen <= end <= read
       case SliceStore(end, seen) => word == seen && !word.suspended && word.gen <= end <= read
       case LeaveStore(seen) => word == seen && !word.suspended
       case LeaveRemove => word.suspended
       case _ => true
  }

  ghost predicate SlotsOK(slots: seq<Slot>, last: nat, read: nat)
  {
    forall i :: 0 <= i < |slots| ==> SlotOK(slots[i], last, read)
  }

  /** Every slot below `pos` is at or past `min`. */
  ghost predicate Scanned(slots: seq<Slot>, pos: nat, min: nat)
  {
    forall j :: 0 <= j < pos && j < |slots| ==> min <= slots[j].word.gen
  }

  ghost predicate CleanerOK(pc: CleanerPc, slots: seq<Slot>, last: nat, read: nat)
  {
    match pc
    case CIdle => true
    case CGotLast(l) => l <= last
    case CScan(l, pos, min) => l <= last && pos < |slots| && min <= read && Scanned(slots, pos, min)
    case CForce(l, pos, min, seen) =>
      && l <= last && pos < |slots| && min <= read && Scanned(slots, pos, min)
      && seen.suspended && seen.gen < min && seen.gen <= slots[pos].word.gen
    case CAdvance(l, min) => l <= last && l < min <= read && Scanned(slots, |slots|, min)
    case CDrop(l, min, done) => l < min && done <= min - l
  }

  ghost predicate CleanersOK(cleaners: seq<CleanerPc>, slots: seq<Slot>, last: nat, read: nat)
  {
    forall t :: 0 <= t < |cleaners| ==> CleanerOK(cleaners[t], slots, last, read)
  }

  /** The queue holds exactly the cleaners that have won a range and not yet freed it, and their
      ranges tile [free_gen, last_valid_gen) in winning order. */
  ghost predicate PendingOK(pending: seq<nat>, cleaners: seq<CleanerPc>, free: nat, last: nat)
  {
    && (forall i :: 0 <= i < |pending| ==> pending[i] < |cleaners| && cleaners[pending[i]].CDrop?)
    && (forall i, j :: 0 <= i < j < |pending| ==> pending[i] != pending[j])
    && (forall t :: 0 <= t < |cleaners| && cleaners[t].CDrop? ==> t in pending)
    && Tiles(WonRanges(pending, cleaners), free, last)
  }

  ghost predicate ReserverOK(pc: ReserverPc, free: nat, write: nat, capacity: nat)
  {
    match pc
    case RIdle => true
    case RGotFree(_, _, _, f) => f <= free
    case RCas(_, w, n) => n > 0 && w <= write && w + n <= free + capacity
  }

  ghost predicate ReserversOK(reservers: seq<ReserverPc>, free: nat, write: nat, capacity: nat)
  {
    forall t :: 0 <= t < |reservers| ==> ReserverOK(reservers[t], free, write, capacity)
  }

  ghost predicate LogOK(log: map<nat, Value>, read: nat, write: nat)
  {
    && (forall g :: g in log ==> g < write)
    && (forall g: nat :: g < read ==> g in log)
  }

  /** Generation g's slot still holds what was stored for it. */
  ghost predicate Holds(ring: seq<Cell>, log: map<nat, Value>, g: nat)
    requires |ring| > 0
  {
    g in log ==> CellAt(ring, g) == Full(log[g])
  }

  ghost predicate HoldsAll(ring: seq<Cell>, log: map<nat, Value>, from: nat, to: nat)
    requires |ring| > 0
  {
    forall g: nat :: from <= g < to ==> Holds(ring, log, g)
  }

  /** What a winning cleaner has not yet dropped is still there. */
  ghost predicate UndroppedOK(ring: seq<Cell>, log: map<nat, Value>, cleaners: seq<CleanerPc>)
    requires |ring| > 0
  {
    forall t :: 0 <= t < |cleaners| && cleaners[t].CDrop? ==>
      HoldsAll(ring, log, cleaners[t].last + cleaners[t].done, cleaners[t].min)
  }

  ghost predicate DroppedEach(dropped: multiset<nat>, from: nat, to: nat, times: nat)
  {
    forall g: nat :: from <= g < to ==> dropped[g] == times
  }

  /** Freed generations have been dropped once, generations from last_valid_gen on never, those in
      between once or not yet, as far as their cleaner has come. */
  ghost predicate DropsOK(dropped: multiset<nat>, cleaners: seq<CleanerPc>, free: nat, last: nat)
  {
    && DroppedEach(dropped, 0, free, 1)
    && (forall g: nat :: g >= last ==> dropped[g] == 0)
    && (forall t :: 0 <= t < |cleaners| && cleaners[t].CDrop? ==>
          && DroppedEach(dropped, cleaners[t].last, cleaners[t].last + cleaners[t].done, 1)
          && DroppedEach(dropped, cleaners[t].last + cleaners[t].done, cleaners[t].min, 0))
  }

  /** The cell holds the message logged at generation `g`. */
  predicate IsMessage(c: Cell, log: map<nat, Value>, g: nat) { g in log && c == Full(log[g]) }

  /** `delivered` is the stretch [entry, gen) of the log. */
  ghost predicate IsStretch(delivered: seq<Cell>, log: map<nat, Value>, entry: nat, gen: nat)
  {
    && entry <= gen && |delivered| == gen - entry
    && forall k :: 0 <= k < |delivered| ==> IsMessage(delivered[k], log, entry + k)
  }

  ghost predicate DeliveriesOK(slots: seq<Slot>, readers: seq<ReaderHist>, log: map<nat, Value>)
  {
    && |readers| == |slots|
    && forall i :: 0 <= i < |slots| && !slots[i].word.suspended ==>
         IsStretch(readers[i].delivered, log, readers[i].entry, slots[i].word.gen)
  }

  /** Reservations and reserving calls keep their writer alive; a reader that has seen no writers is
      right. */
  ghost predicate WritersOK(writers: set<nat>, outstanding: seq<Reservation>, reservers: seq<ReserverPc>,
      slots: seq<Slot>)
  {
    && (forall k :: 0 <= k < |outstanding| && outstanding[k].author.ByWriter? ==> outstanding[k].author.id in writers)
    && (forall t :: 0 <= t < |reservers| && !reservers[t].RIdle? && reservers[t].author.ByWriter? ==>
          reservers[t].author.id in writers)
    && (forall i :: 0 <= i < |slots| && (slots[i].pc.ReadAgain? || slots[i].pc.ReadEndAgain?) ==> writers == {})
  }

  ghost predicate Inv(s: State)
  {
    var a, h := s.area, s.hist;
    && Sized(a)
    && CountersOK(a)
    && SlotsOK(a.slots, a.last, a.read)
    && CleanersOK(a.cleaners, a.slots, a.last, a.read)
    && PendingOK(h.pending, a.cleaners, a.free, a.last)
    && ReserversOK(a.reservers, a.free, a.write, a.capacity)
    && Tiles(ReservationRanges(a.outstanding), a.read, a.write)
    && LogOK(h.log, a.read, a.write)
    && HoldsAll(a.ring, h.log, a.last, a.write)
    && UndroppedOK(a.ring, h.log, a.cleaners)
    && DropsOK(h.dropped, a.cleaners, a.free, a.last)
    && DeliveriesOK(a.slots, h.readers, h.log)
    && WritersOK(a.writers, a.outstanding, a.reservers, a.slots)
    && |h.authors| == a.read
  }

  lemma InvSizes(s: State)
    requires Inv(s)
    ensures Sized(s.area) && |s.hist.readers| == |s.area.slots|
  {
  }

  lemma InitialInv(capacity: nat, readers: nat, cleaners: nat, reservers: nat)
    requires capacity > 0 && readers > 0
    ensures Inv(InitialState(capacity, readers, cleaners, reservers))
  {
  }
}

/** The generation protocol of `src/area.rs` as an interleaved step machine.

    Every atomic load, store and compare-and-swap of `AreaInner` is one step; what a thread computes
    locally afterwards is part of that step. A thread is its program counter with the values it has
    loaded. The machine is written once, over an arithmetic: `Natural` generations never wrap,
    `Wrapped(w)` ones are the masked W-bit numbers the code uses. */
module Protocol {
  import opened Options
  import opened Arithmetic

  // ---------------------------------------------------------------- arithmetic

  datatype Arith = Natural | Wrapped(w: Width)

  function Add(ar: Arith, a: nat, n: nat): nat
  {
    match ar case Natural => a + n case Wrapped(w) => GenAdd(w, a, n)
  }

  /** How far `a` is ahead of `b`. The code only asks when it is not behind. */
  function Dist(ar: Arith, a: nat, b: nat): nat
  {
    match ar case Natural => if a >= b then a - b else 0 case Wrapped(w) => GenDist(w, a, b)
  }

  predicate Gte(ar: Arith, a: nat, b: nat)
  {
    match ar case Natural => a >= b case Wrapped(w) => GenGte(w, a, b)
  }

  predicate Gt(ar: Arith, a: nat, b: nat) { a != b && Gte(ar, a, b) }

  predicate Lte(ar: Arith, a: nat, b: nat) { Gte(ar, b, a) }

  predicate Lt(ar: Arith, a: nat, b: nat) { Gt(ar, b, a) }

  function Min(a: nat, b: nat): nat { if a <= b then a else b }

  // ---------------------------------------------------------------- shared state

  /** Payload of a message; the protocol never looks inside. */
  type Value = int

  /** A reader's private generation with its suspended flag. */
  datatype Word = Word(gen: nat, suspended: bool)

  /** A ring slot: uninitialised (or dropped) memory, or a live message. */
  datatype Cell = Vacant | Full(value: Value)

  /** Handle through which slots were reserved. A reservation borrows its handle. */
  datatype Author = ByWriter(id: nat) | ByReader(slot: nat)

  /** An unpublished reservation [start, end). */
  datatype Reservation = Reservation(start: nat, end: nat, author: Author)

  datatype Goal = Register | Resume | ResumeAt(entry: nat)

  datatype ReadMode = ReadAll | ReadAtMost(n: nat) | ReadChecked

  /** What the owner of a reader slot is doing. */
  datatype ReaderPc =
    | Nobody                                         // the slot's key is EMPTY
    | Claimed                                        // won the key, before finish_init_at
    | EnterTop(goal: Goal)                           // about to load in a register/resume loop
    | EnterCas(goal: Goal, seen: Word)
    | Ready                                          // a handle at rest, active or suspended
    | SuspendLoad
    | SuspendStore(seen: Word)
    | ReadGen(mode: ReadMode)                        // read: own generation, then read_gen
    | ReadEnd(mode: ReadMode, start: nat)
    | CountCheck                                     // read_with_check found nothing
    | ReadAgain
    | ReadEndAgain(start: nat)
    | Holding(start: nat, end: nat)                  // an armed ReadSlice is alive
    | SliceCheck(start: nat, end: nat)               // ReadSlice::drop: compare, then set_reader_gen
    | SliceLoad(end: nat)
    | SliceStore(end: nat, seen: Word)
    | LeaveLoad                                      // unregister: suspend, then remove the key
    | LeaveStore(seen: Word)
    | LeaveRemove

  datatype Slot = Slot(occupied: bool, word: Word, pc: ReaderPc)

  /** A thread inside `try_cleanup_old_slots`. `last` is its snapshot of `last_valid_gen`. */
  datatype CleanerPc =
    | CIdle
    | CGotLast(last: nat)
    | CScan(last: nat, pos: nat, min: nat)                 // slots below pos are done
    | CForce(last: nat, pos: nat, min: nat, seen: Word)    // about to CAS a suspended slot forward
    | CAdvance(last: nat, min: nat)                        // about to CAS last_valid_gen
    | CDrop(last: nat, min: nat, done: nat)                // won [last, min); dropping, then free_gen

  /** A thread inside `try_reserve_slots` or, with `bestEffort`, `try_reserve_slots_best_effort`. */
  datatype ReserverPc =
    | RIdle
    | RGotFree(author: Author, n: nat, bestEffort: bool, free: nat)
    | RCas(author: Author, write: nat, n: nat)

  datatype Area = Area(
    capacity: nat,
    write: nat, read: nat, last: nat, free: nat,
    writers: set<nat>,                 // live AreaWriters; writers_count is its size
    slots: seq<Slot>,
    cleaners: seq<CleanerPc>,
    reservers: seq<ReserverPc>,
    outstanding: seq<Reservation>,     // the non-empty unpublished reservations alive anywhere
    ring: seq<Cell>)

  /** Sizes that make sense: the constructor asserts both are positive. */
  predicate Sized(a: Area)
  {
    0 < a.capacity == |a.ring| && 0 < |a.slots|
  }

  function Initial(capacity: nat, readers: nat, cleaners: nat, reservers: nat): (a: Area)
    requires capacity > 0 && readers > 0
    ensures Sized(a)
  {
    Area(capacity, 0, 0, 0, 0, {0},
         seq(readers, _ => Slot(false, Word(0, true), Nobody)),
         seq(cleaners, _ => CIdle), seq(reservers, _ => RIdle), [],
         seq(capacity, _ => Vacant))
  }

  /** Ring index of a generation number. */
  function RingSlot(capacity: nat, g: nat): (i: nat)
    requires capacity > 0
    ensures i < capacity
  {
    g % capacity
  }

  // ---------------------------------------------------------------- readers

  datatype ReaderOp =
    | Claim | Suspend | Resuming | ResumingAt(entry: nat) | Read(mode: ReadMode) | DropSlice | Leave
    | Go                                            // the next step of the operation under way

  /** Outcome of `read_at_most` and friends: the slice [start, end). */
  function SliceEnd(ar: Arith, mode: ReadMode, start: nat, read: nat): nat
  {
    if mode.ReadAtMost? then Add(ar, start, Min(Dist(ar, read, start), mode.n)) else read
  }

  /** Calls made on a slot: claiming an EMPTY key, or starting an operation on a handle at rest. */
  function ReaderCall(slot: Slot, op: ReaderOp): Option<Slot>
  {
    match op
    case Claim => if !slot.occupied then Some(slot.(occupied := true, pc := Claimed)) else None
    case Suspend => if slot.pc.Ready? then Some(slot.(pc := SuspendLoad)) else None
    case Resuming => if slot.pc.Ready? then Some(slot.(pc := EnterTop(Resume))) else None
    case ResumingAt(e) => if slot.pc.Ready? then Some(slot.(pc := EnterTop(ResumeAt(e)))) else None
    case Read(mode) => if slot.pc.Ready? then Some(slot.(pc := ReadGen(mode))) else None
    case DropSlice => if slot.pc.Holding? then Some(slot.(pc := SliceCheck(slot.pc.start, slot.pc.end))) else None
    case Leave => if slot.pc.Ready? then Some(slot.(pc := LeaveLoad)) else None
    case Go => None
  }

  /** The generation a register or resume loop enters at, having seen `seen`. */
  function EntryGen(goal: Goal, seen: Word): nat
  {
    if goal.ResumeAt? then goal.entry else seen.gen
  }

  /** After the load in a register or resume loop. */
  function EnterLoaded(ar: Arith, goal: Goal, seen: Word): ReaderPc
  {
    if !seen.suspended && !goal.Register? then Ready                       // Ok(false)
    else if goal.ResumeAt? && Lt(ar, goal.entry, seen.gen) then Ready      // Err(GenerationTooOld)
    else EnterCas(goal, seen)
  }

  /** One atomic step of the operation a slot's owner has under way. */
  function ReaderGo(ar: Arith, slot: Slot, read: nat, noWriters: bool): Option<Slot>
  {
    var word := slot.word;
    match slot.pc
    case Nobody => None
    case Ready => None
    case Holding(_, _) => None
    case Claimed => Some(slot.(pc := EnterTop(Register)))
    case EnterTop(goal) => Some(slot.(pc := EnterLoaded(ar, goal, word)))
    case EnterCas(goal, seen) =>
      if word == seen then Some(slot.(word := Word(EntryGen(goal, seen), false), pc := Ready))
      else Some(slot.(pc := EnterTop(goal)))
    case SuspendLoad => Some(slot.(pc := if word.suspended then Ready else SuspendStore(word)))
    case SuspendStore(seen) => Some(slot.(word := seen.(suspended := true), pc := Ready))
    case ReadGen(mode) => Some(slot.(pc := ReadEnd(mode, word.gen)))
    case ReadEnd(mode, start) =>
      var end := SliceEnd(ar, mode, start, read);
      Some(slot.(pc := if mode.ReadChecked? && Dist(ar, end, start) == 0 then CountCheck else Holding(start, end)))
    case CountCheck => Some(slot.(pc := if noWriters then ReadAgain else Ready))
    case ReadAgain => Some(slot.(pc := ReadEndAgain(word.gen)))
    case ReadEndAgain(start) =>
      Some(slot.(pc := if Dist(ar, read, start) == 0 then Ready else Holding(start, read)))   // Err(ReadError)
    case SliceCheck(start, end) => if word.gen == start then Some(slot.(pc := SliceLoad(end))) else None  // panic
    case SliceLoad(end) =>
      Some(slot.(pc := if word.suspended || Lte(ar, end, word.gen) then Ready else SliceStore(end, word)))
    case SliceStore(end, _) => Some(slot.(word := Word(end, false), pc := Ready))
    case LeaveLoad => Some(slot.(pc := if word.suspended then LeaveRemove else LeaveStore(word)))
    case LeaveStore(seen) => Some(slot.(word := seen.(suspended := true), pc := LeaveRemove))
    case LeaveRemove => Some(slot.(occupied := false, pc := Nobody))
  }

  function ReaderNext(ar: Arith, slot: Slot, op: ReaderOp, read: nat, noWriters: bool): Option<Slot>
  {
    if op.Go? then ReaderGo(ar, slot, read, noWriters) else ReaderCall(slot, op)
  }

  // ---------------------------------------------------------------- cleaners

  /** Top of the `last_valid_gen` loop: give up, or try to advance it to `min`. */
  function Retry(ar: Arith, last: nat, min: nat): CleanerPc
  {
    if Lte(ar, min, last) then CIdle else CAdvance(last, min)
  }

  /** Move on to slot `pos`, or leave the scan. */
  function ScanFrom(ar: Arith, n: nat, last: nat, pos: nat, min: nat): CleanerPc
  {
    if pos >= n then Retry(ar, last, min) else CScan(last, pos, min)
  }

  /** What a scanning cleaner does with the word it has seen in slot `pos`. */
  function Inspect(ar: Arith, n: nat, last: nat, pos: nat, min: nat, seen: Word): CleanerPc
  {
    if seen.suspended then
      if Gt(ar, min, seen.gen) then CForce(last, pos, min, seen) else ScanFrom(ar, n, last, pos + 1, min)
    else
      ScanFrom(ar, n, last, pos + 1, if Gte(ar, min, seen.gen) then seen.gen else min)
  }

  /** One atomic step of cleaner thread `t`. */
  function CleanerNext(ar: Arith, a: Area, t: nat): Option<Area>
    requires Sized(a) && t < |a.cleaners|
  {
    var n := |a.slots|;
    match a.cleaners[t]
    case CIdle => Some(a.(cleaners := a.cleaners[t := CGotLast(a.last)]))
    case CGotLast(last) =>
      Some(a.(cleaners := a.cleaners[t := if Gte(ar, last, a.read) then CIdle else CScan(last, 0, a.read)]))
    case CScan(last, pos, min) =>
      if pos >= n then None else
        Some(a.(cleaners := a.cleaners[t := Inspect(ar, n, last, pos, min, a.slots[pos].word)]))
    case CForce(last, pos, min, seen) =>
      if pos >= n then None else
      if a.slots[pos].word == seen then
        Some(a.(slots := a.slots[pos := a.slots[pos].(word := Word(min, true))],
                cleaners := a.cleaners[t := ScanFrom(ar, n, last, pos + 1, min)]))
      else
        Some(a.(cleaners := a.cleaners[t := Inspect(ar, n, last, pos, min, a.slots[pos].word)]))
    case CAdvance(last, min) =>
      if a.last == last then Some(a.(last := min, cleaners := a.cleaners[t := CDrop(last, min, 0)]))
      else Some(a.(cleaners := a.cleaners[t := Retry(ar, a.last, min)]))
    case CDrop(last, min, done) =>
      if done < Dist(ar, min, last) then
        Some(a.(ring := a.ring[RingSlot(a.capacity, Add(ar, last, done)) := Vacant],
                cleaners := a.cleaners[t := CDrop(last, min, done + 1)]))
      else if a.free == last then Some(a.(free := min, cleaners := a.cleaners[t := CIdle]))
      else Some(a)                                                           // spin
  }

  // ---------------------------------------------------------------- writers

  /** `available` of the reservation functions, from the two loaded counters. */
  function Available(ar: Arith, capacity: nat, free: nat, write: nat): nat
  {
    capacity - Min(capacity, Dist(ar, write, free))
  }

  /** The slots a reserver will ask for; 0 stands for NoSpace, or for the empty best-effort result. */
  function Granted(available: nat, n: nat, bestEffort: bool): nat
  {
    if bestEffort then Min(n, available) else if n > available then 0 else n
  }

  function ReserverNext(ar: Arith, a: Area, t: nat): Option<Area>
    requires t < |a.reservers|
  {
    match a.reservers[t]
    case RIdle => None
    case RGotFree(author, n, bestEffort, free) =>
      var k := Granted(Available(ar, a.capacity, free, a.write), n, bestEffort);
      Some(a.(reservers := a.reservers[t := if k == 0 then RIdle else RCas(author, a.write, k)]))
    case RCas(author, write, n) =>
      var a' := a.(reservers := a.reservers[t := RIdle]);
      if a.write == write then
        var end := Add(ar, write, n);
        Some(a'.(write := end, outstanding := a.outstanding + [Reservation(write, end, author)]))
      else Some(a')                                                          // FailedGrab
  }

  // ---------------------------------------------------------------- the machine

  datatype Label =
    | Reserve(t: nat, author: Author, n: nat, bestEffort: bool)   // first load of a reservation
    | ReserveGo(t: nat)
    | Write(k: nat, index: nat, value: Value)                      // fill slot `index` of reservation k
    | Split(k: nat, at: nat)
    | Publish(k: nat)
    | NewWriter(via: nat, id: nat)
    | DropWriter(id: nat)
    | Reader(i: nat, op: ReaderOp)
    | Clean(t: nat)

  /** `Reservation::len`. */
  function Length(ar: Arith, r: Reservation): nat { Dist(ar, r.end, r.start) }

  /** A handle with a reservation or a reserving call alive is borrowed and cannot be dropped. */
  predicate Borrowed(a: Area, id: nat)
  {
    || (exists k :: 0 <= k < |a.outstanding| && a.outstanding[k].author == ByWriter(id))
    || (exists t :: 0 <= t < |a.reservers| && !a.reservers[t].RIdle? && a.reservers[t].author == ByWriter(id))
  }

  function SplitAt(ar: Arith, a: Area, k: nat, at: nat): seq<Reservation>
    requires k < |a.outstanding|
  {
    var r := a.outstanding[k];
    var mid := Add(ar, r.start, at);
    a.outstanding[..k] + [r.(end := mid), r.(start := mid)] + a.outstanding[k + 1..]
  }

  /** The effect of one step; None when the label does not fit the state. */
  function Next(ar: Arith, a: Area, l: Label): Option<Area>
    requires Sized(a)
  {
    match l
    case Reserve(t, author, n, bestEffort) =>
      if t < |a.reservers| && a.reservers[t].RIdle? && (author.ByWriter? ==> author.id in a.writers) then
        Some(a.(reservers := a.reservers[t := RGotFree(author, n, bestEffort, a.free)]))
      else None
    case ReserveGo(t) => if t < |a.reservers| then ReserverNext(ar, a, t) else None
    case Write(k, index, value) =>
      if k < |a.outstanding| && index < Length(ar, a.outstanding[k]) then
        Some(a.(ring := a.ring[RingSlot(a.capacity, Add(ar, a.outstanding[k].start, index)) := Full(value)]))
      else None
    case Split(k, at) =>
      if k >= |a.outstanding| || at > Length(ar, a.outstanding[k]) then None
      else if 0 < at < Length(ar, a.outstanding[k]) then Some(a.(outstanding := SplitAt(ar, a, k, at)))
      else Some(a)                                                           // one half is empty
    case Publish(k) =>
      if k < |a.outstanding| then
        var r := a.outstanding[k];
        if Gte(ar, r.start, r.end) then Some(a)                              // nothing to publish
        else if a.read == r.start then
          Some(a.(read := r.end, outstanding := a.outstanding[..k] + a.outstanding[k + 1..]))
        else Some(a)                                                         // CasFailed
      else None
    case NewWriter(via, id) =>
      if via in a.writers && id !in a.writers then Some(a.(writers := a.writers + {id})) else None
    case DropWriter(id) =>
      if id in a.writers && !Borrowed(a, id) then Some(a.(writers := a.writers - {id})) else None
    case Reader(i, op) =>
      if i < |a.slots| then
        var slot' := ReaderNext(ar, a.slots[i], op, a.read, a.writers == {});
        if slot'.Some? then Some(a.(slots := a.slots[i := slot'.value])) else None
      else None
    case Clean(t) => if t < |a.cleaners| then CleanerNext(ar, a, t) else None
  }
}

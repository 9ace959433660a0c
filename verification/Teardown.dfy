/** The protocol and the drop tournament as one machine: handles are threads of the tournament, and
    every step of the protocol is made through one that is alive, is its own destructor's, or belongs to
    the cleanup with which the elected destroyer empties the ring before it frees the area.

    A call borrows the handle it is made through: a handle is not dropped while one of its calls, slices
    or reservations is alive. */
module Teardown {
  import opened Options
  import opened Protocol
  import opened Invariant
  import opened Preservation
  import opened Theorems
  import opened Exclusive
  import opened Tournament

  /** How far the destroyer's cleanup by the Exclusive form has come; `sure` as in module `Exclusive`. */
  datatype Sweep = NotYet | Sweeping(c: nat, sure: bool) | Swept

  datatype Whole = Whole(
    s: State,
    d: Drops,
    users: seq<nat>,      // the handle through which each cleanup call was made last
    sweep: Sweep)

  datatype Deed =
    | Work(via: nat, l: Label)           // a step of a call made through a live handle
    | AddReader(via: nat, slot: nat)     // create_reader, at the CAS that claims the key
    | AddWriter(via: nat)
    | DropHandle(t: nat)                 // the first atomic operation of a destructor
    | Destruct(t: nat)                   // the next step of a destructor
    | FinalCleanup(t: nat, c: nat)       // the next step of the destroyer's cleanup

  predicate Live(pc: DropPc) { pc.LiveReader? || pc.LiveWriter? }

  /** Thread 0 is the reader the area is created with, thread 1 the writer, which the protocol knows as
      writer 0. */
  function WriterId(t: nat): nat { if t > 0 then t - 1 else 0 }

  /** What a reservation made through handle `t` borrows. */
  function Handle(d: Drops, t: nat): Author
    requires t < |d.threads|
  {
    if d.threads[t].pc.LiveWriter? then ByWriter(WriterId(t)) else ByReader(d.threads[t].slot)
  }

  /** The step belongs to a call made through handle `via`. */
  predicate Owns(w: Whole, via: nat, l: Label)
    requires via < |w.d.threads|
  {
    var a, me := w.s.area, Handle(w.d, via);
    match l
    case Reserve(_, author, _, _) => author == me
    case ReserveGo(t) => t < |a.reservers| && !a.reservers[t].RIdle? && a.reservers[t].author == me
    case Write(k, _, _) => k < |a.outstanding| && a.outstanding[k].author == me
    case Split(k, _) => k < |a.outstanding| && a.outstanding[k].author == me
    case Publish(k) => k < |a.outstanding| && a.outstanding[k].author == me
    case NewWriter(_, _) => false
    case DropWriter(_) => false
    case Reader(i, op) => w.d.threads[via].pc.LiveReader? && w.d.threads[via].slot == i && op != Claim && op != Leave
    case Clean(c) => c < |a.cleaners| && c < |w.users| && (a.cleaners[c].CIdle? || w.users[c] == via)
  }

  /** Nothing borrows handle `t`. */
  predicate Unborrowed(w: Whole, t: nat)
    requires t < |w.d.threads|
  {
    var a, me := w.s.area, Handle(w.d, t);
    && (forall c :: 0 <= c < |a.cleaners| && c < |w.users| && !a.cleaners[c].CIdle? ==> w.users[c] != t)
    && (forall k :: 0 <= k < |a.outstanding| ==> a.outstanding[k].author != me)
    && (forall u :: 0 <= u < |a.reservers| && !a.reservers[u].RIdle? ==> a.reservers[u].author != me)
    && (w.d.threads[t].pc.LiveReader? && w.d.threads[t].slot < |a.slots| ==> a.slots[w.d.threads[t].slot].pc.Ready?)
  }

  function Sure(sweep: Sweep): bool { sweep.Sweeping? && sweep.sure }

  /** A step of the destroyer's cleanup call `c`: it begins on an idle call, and an assert that fails is
      no step. */
  ghost predicate FinalStep(w: Whole, c: nat, w': Whole)
  {
    var a := w.s.area;
    && Sized(a) && |w.s.hist.readers| == |a.slots| && c < |a.cleaners|
    && (w.sweep == Sweeping(c, Sure(w.sweep)) || (w.sweep.NotYet? && a.cleaners[c].CIdle?))
    && var e := ExclusiveClean(a, c, Sure(w.sweep));
       && e.Some?
       && if e.value.1 then w' == w.(sweep := Sweeping(c, true))
          else w' == w.(s := State(e.value.0, Record(w.s, Clean(c))),
                        sweep := if c < |e.value.0.cleaners| && e.value.0.cleaners[c].CIdle? then Swept
                            else Sweeping(c, false))
  }

  /** A destructor's step: taking the reader's slot out of the table, a step of the tournament alone, or,
      after the final cleanup, freeing the area. */
  ghost predicate DestructStep(w: Whole, t: nat, w': Whole)
  {
    && t < |w.d.threads|
    && var pc, slot := w.d.threads[t].pc, w.d.threads[t].slot;
       && (pc.Destroying? ==> w.sweep.Swept?)
       && (if pc.Unregistering? then Step(w.s, Reader(slot, Go), w'.s) else w'.s == w.s)
       && (if pc.Unregistering? && slot < |w.s.area.slots| && !w.s.area.slots[slot].pc.LeaveRemove? then w'.d == w.d
           else Play(w.d, Proceed(t)) == Some(w'.d))
       && w'.users == w.users && w'.sweep == w.sweep
  }

  ghost predicate Happens(w: Whole, x: Deed, w': Whole)
  {
    match x
    case Work(via, l) =>
      && via < |w.d.threads| && Live(w.d.threads[via].pc) && Owns(w, via, l) && Step(w.s, l, w'.s)
      && w' == w.(s := w'.s, users := if l.Clean? then w.users[l.t := via] else w.users)
    case AddReader(via, slot) =>
      && NoOverlap(w.d, CreateReader(via, slot)) && Play(w.d, CreateReader(via, slot)) == Some(w'.d)
      && Step(w.s, Reader(slot, Claim), w'.s) && w' == w.(s := w'.s, d := w'.d)
    case AddWriter(via) =>
      && Play(w.d, CreateWriter(via)) == Some(w'.d)
      && Step(w.s, NewWriter(WriterId(via), WriterId(|w.d.threads|)), w'.s) && w' == w.(s := w'.s, d := w'.d)
    case DropHandle(t) =>
      && t < |w.d.threads| && Unborrowed(w, t) && Play(w.d, Drop(t)) == Some(w'.d)
      && Step(w.s, if w.d.threads[t].pc.LiveReader? then Reader(w.d.threads[t].slot, Leave)
          else DropWriter(WriterId(t)), w'.s)
      && w' == w.(s := w'.s, d := w'.d)
    case Destruct(t) => DestructStep(w, t, w')
    case FinalCleanup(t, c) => t < |w.d.threads| && w.d.threads[t].pc.Destroying? && FinalStep(w, c, w')
  }

  /** A fresh area: its constructor registers reader 0. */
  ghost predicate Begins(w: Whole, s0: State, home: nat)
  {
    && Fresh(s0) && home < |s0.area.slots| && 0 < |s0.area.cleaners|
    && Step(s0, Reader(home, Claim), w.s)
    && w.d == Start(|s0.area.slots|, home)
    && |w.users| == |s0.area.cleaners| && w.sweep == NotYet
  }

  // ---------------------------------------------------------------- the invariant

  ghost predicate KeysMatch(d: Drops, slots: seq<Slot>)
  {
    |d.keys| == |slots| && forall i :: 0 <= i < |slots| ==> d.keys[i] == slots[i].occupied
  }

  ghost predicate WritersMatch(d: Drops, writers: set<nat>)
  {
    && |d.threads| > 0 && !d.threads[0].pc.LiveWriter?
    && (forall id :: id in writers ==> id + 1 < |d.threads| && d.threads[id + 1].pc.LiveWriter?)
    && (forall t :: 0 < t < |d.threads| && d.threads[t].pc.LiveWriter? ==> t - 1 in writers)
  }

  predicate Leaving(pc: ReaderPc) { pc.LeaveLoad? || pc.LeaveStore? || pc.LeaveRemove? }

  /** A live reader is in the table, one that is unregistering on its way out of it. */
  ghost predicate ReadersMatch(d: Drops, slots: seq<Slot>)
  {
    forall t :: 0 <= t < |d.threads| && Is(KKeyed, d.threads[t].pc) ==>
      && d.threads[t].slot < |slots|
      && (d.threads[t].pc.Unregistering? <==> Leaving(slots[d.threads[t].slot].pc))
  }

  ghost predicate UsersMatch(d: Drops, cleaners: seq<CleanerPc>, users: seq<nat>, sweep: Sweep)
  {
    && |users| == |cleaners|
    && forall c :: 0 <= c < |cleaners| && !cleaners[c].CIdle? ==>
         || (users[c] < |d.threads| && Live(d.threads[users[c]].pc))
         || (sweep.Sweeping? && sweep.c == c)
  }

  ghost predicate ReaderAlive(d: Drops, slot: nat)
  {
    exists t :: 0 <= t < |d.threads| && d.threads[t].pc.LiveReader? && d.threads[t].slot == slot
  }

  /** Reservations and reserving calls keep their reader alive; for writers this is in the protocol. */
  ghost predicate AuthorsAlive(d: Drops, outstanding: seq<Reservation>, reservers: seq<ReserverPc>)
  {
    && (forall k :: 0 <= k < |outstanding| && outstanding[k].author.ByReader? ==>
          ReaderAlive(d, outstanding[k].author.slot))
    && (forall u :: 0 <= u < |reservers| && !reservers[u].RIdle? && reservers[u].author.ByReader? ==>
          ReaderAlive(d, reservers[u].author.slot))
  }

  ghost predicate HasWinner(d: Drops)
  {
    exists t :: 0 <= t < |d.threads| && Winner(d.threads[t].pc)
  }

  /** The final cleanup works on read_gen from beginning to end. */
  ghost predicate SweepingTo(a: Area, c: nat, sure: bool)
  {
    && Lone(a, c)
    && match a.cleaners[c]
       case CIdle => false
       case CGotLast(_) => !sure
       case CScan(_, _, min) => min == a.read && !sure
       case CForce(_, pos, min, seen) => min == a.read && !sure && pos < |a.slots| && a.slots[pos].word == seen
       case CAdvance(_, min) => min == a.read
       case CDrop(_, min, _) => min == a.read
  }

  ghost predicate SweepOK(d: Drops, a: Area, sweep: Sweep)
  {
    match sweep
    case NotYet => forall t :: 0 <= t < |d.threads| ==> !d.threads[t].pc.Freed?
    case Sweeping(c, sure) => HasWinner(d) && (forall t :: 0 <= t < |d.threads| ==> !d.threads[t].pc.Freed?)
        && SweepingTo(a, c, sure)
    case Swept => HasWinner(d) && a.free == a.last == a.read
  }

  ghost predicate Together(w: Whole)
  {
    && Inv(w.s) && DropInv(w.d) && |w.users| > 0
    && KeysMatch(w.d, w.s.area.slots) && ReadersMatch(w.d, w.s.area.slots)
    && WritersMatch(w.d, w.s.area.writers)
    && UsersMatch(w.d, w.s.area.cleaners, w.users, w.sweep)
    && AuthorsAlive(w.d, w.s.area.outstanding, w.s.area.reservers)
    && SweepOK(w.d, w.s.area, w.sweep)
  }

  // ---------------------------------------------------------------- what a step of the protocol touches

  predicate WriterLabel(l: Label)
  {
    l.Reserve? || l.ReserveGo? || l.Write? || l.Split? || l.Publish?
  }

  /** Steps of writers leave slots, cleaners and the set of writers alone, and add no author but their
      own. */
  lemma WriterStepTouches(s: State, l: Label, s': State)
    requires Step(s, l, s') && WriterLabel(l)
    ensures s'.area.slots == s.area.slots && s'.area.cleaners == s.area.cleaners && s'.area.writers == s.area.writers
  {
    hide Allowed, Record, SplitAt;
  }

  lemma ReaderStepTouches(s: State, i: nat, op: ReaderOp, s': State)
    requires Step(s, Reader(i, op), s')
    ensures i < |s.area.slots| && s'.area.slots == s.area.slots[i := s'.area.slots[i]]
    ensures ReaderNext(Natural, s.area.slots[i], op, s.area.read, s.area.writers == {}) == Some(s'.area.slots[i])
    ensures s'.area == s.area.(slots := s'.area.slots)
  {
    hide Allowed, Record, ReaderNext;
  }

  lemma CleanStepTouches(s: State, c: nat, s': State)
    requires Step(s, Clean(c), s')
    ensures c < |s.area.cleaners| && s'.area.cleaners == s.area.cleaners[c := s'.area.cleaners[c]]
    ensures CleanerNext(Natural, s.area, c) == Some(s'.area)
    ensures |s'.area.slots| == |s.area.slots|
    ensures forall i :: 0 <= i < |s.area.slots| ==>
              s'.area.slots[i].occupied == s.area.slots[i].occupied && s'.area.slots[i].pc == s.area.slots[i].pc
    ensures s'.area.writers == s.area.writers && s'.area.read == s.area.read && s'.area.write == s.area.write
    ensures s'.area.outstanding == s.area.outstanding && s'.area.reservers == s.area.reservers
  {
    hide Allowed, Record, RingSlot, Inspect;
  }

  lemma WriterHandleTouches(s: State, l: Label, s': State)
    requires Step(s, l, s') && (l.NewWriter? || l.DropWriter?)
    ensures s'.area == s.area.(writers := s'.area.writers)
    ensures s'.area.writers == if l.NewWriter? then s.area.writers + {l.id} else s.area.writers - {l.id}
    ensures l.DropWriter? ==> l.id in s.area.writers
  {
    hide Allowed, Record;
  }

  /** Authors after a writer's step were there before it, or made the call. */
  lemma AuthorsFrom(s: State, l: Label, s': State, me: Author)
    requires Step(s, l, s') && WriterLabel(l)
    requires l.Reserve? ==> l.author == me
    requires l.ReserveGo? ==>
               l.t < |s.area.reservers| && !s.area.reservers[l.t].RIdle? && s.area.reservers[l.t].author == me
    requires l.Split? ==> l.k < |s.area.outstanding| && s.area.outstanding[l.k].author == me
    ensures forall k :: 0 <= k < |s'.area.outstanding| ==>
              || s'.area.outstanding[k].author == me
              || exists j :: 0 <= j < |s.area.outstanding| && s.area.outstanding[j].author ==
                  s'.area.outstanding[k].author
    ensures forall u :: 0 <= u < |s'.area.reservers| && !s'.area.reservers[u].RIdle? ==>
              || s'.area.reservers[u].author == me
              || (u < |s.area.reservers| && !s.area.reservers[u].RIdle?
                  && s.area.reservers[u].author == s'.area.reservers[u].author)
  {
    hide Allowed, Record;
    var a, a' := s.area, s'.area;
    forall k | 0 <= k < |a'.outstanding| && a'.outstanding[k].author != me
      ensures exists j :: 0 <= j < |a.outstanding| && a.outstanding[j].author == a'.outstanding[k].author
    {
      if l.Split? && 0 < l.at < Length(Natural, a.outstanding[l.k]) && k > l.k {
        assert a'.outstanding[k] == a.outstanding[k - 1];
      } else if l.Publish? && l.k <= k && a'.outstanding != a.outstanding {
        assert a'.outstanding[k] == a.outstanding[k + 1];
      } else {
        assert a'.outstanding[k] == a.outstanding[k];
      }
    }
  }

  // ---------------------------------------------------------------- what a step of the tournament touches

  /** As long as some thread has neither finished nor won, nobody has won. */
  lemma NoWinnerBeside(d: Drops, t: nat)
    requires DropInv(d) && t < |d.threads| && !Finished(d.threads[t].pc)
    ensures !HasWinner(d)
  {
    hide DropInv;
    if u :| 0 <= u < |d.threads| && Winner(d.threads[u].pc) {
      WinnerIsAlone(d, u);
      assert false;
    }
  }

  lemma CreateTouches(d: Drops, m: Move, d': Drops)
    requires Play(d, m) == Some(d') && (m.CreateReader? || m.CreateWriter?)
    ensures m.via < |d.threads| && Live(d.threads[m.via].pc)
    ensures d'.threads == d.threads + [if m.CreateReader? then Thread(LiveReader, m.slot) else Thread(LiveWriter, 0)]
    ensures m.CreateReader? ==> m.slot < |d.keys| && !d.keys[m.slot] && d'.keys == d.keys[m.slot := true]
    ensures m.CreateWriter? ==> d.threads[m.via].pc.LiveWriter? && d'.keys == d.keys
  {
  }

  lemma DropTouches(d: Drops, t: nat, d': Drops)
    requires Play(d, Drop(t)) == Some(d')
    ensures t < |d.threads| && Live(d.threads[t].pc) && d'.keys == d.keys
    ensures |d'.threads| == |d.threads| && d'.threads == d.threads[t := d'.threads[t]]
        && d'.threads[t].slot == d.threads[t].slot
    ensures d.threads[t].pc.LiveReader? ==> d'.threads[t].pc.Unregistering?
    ensures d.threads[t].pc.LiveWriter? ==> d'.threads[t].pc.Done? || d'.threads[t].pc.Deciding?
  {
  }

  lemma ProceedTouches(d: Drops, t: nat, d': Drops)
    requires Play(d, Proceed(t)) == Some(d')
    ensures t < |d.threads| && !Live(d.threads[t].pc) && !d.threads[t].pc.Done? && !d.threads[t].pc.Freed?
    ensures |d'.threads| == |d.threads| && d'.threads == d.threads[t := d'.threads[t]]
    ensures !Is(KKeyed, d'.threads[t].pc) && !d'.threads[t].pc.LiveWriter?
    ensures d'.threads[t].pc.Freed? <==> d.threads[t].pc.Destroying?
    ensures var slot := d.threads[t].slot;
            if d.threads[t].pc.Unregistering? then slot < |d.keys| && d'.keys == d.keys[slot := false]
                else d'.keys == d.keys
  {
  }

  lemma KeyedFacts(d: Drops, t: nat)
    requires DropInv(d) && t < |d.threads| && Is(KKeyed, d.threads[t].pc)
    ensures d.threads[t].slot < |d.keys| && d.keys[d.threads[t].slot]
    ensures forall u :: 0 <= u < |d.threads| && u != t && Is(KKeyed, d.threads[u].pc) ==>
              d.threads[u].slot != d.threads[t].slot && d.threads[u].slot < |d.keys| && d.keys[d.threads[u].slot]
  {
    hide Count;
  }

  // ---------------------------------------------------------------- the parts of the invariant

  lemma ReaderChanged(d: Drops, slots: seq<Slot>, i: nat, slot': Slot)
    requires KeysMatch(d, slots) && ReadersMatch(d, slots) && i < |slots|
    requires slot'.occupied == slots[i].occupied && Leaving(slot'.pc) == Leaving(slots[i].pc)
    ensures KeysMatch(d, slots[i := slot']) && ReadersMatch(d, slots[i := slot'])
  {
  }

  lemma WordsChanged(d: Drops, slots: seq<Slot>, slots': seq<Slot>)
    requires KeysMatch(d, slots) && ReadersMatch(d, slots) && |slots'| == |slots|
    requires forall i :: 0 <= i < |slots| ==> slots'[i].occupied == slots[i].occupied && slots'[i].pc == slots[i].pc
    ensures KeysMatch(d, slots') && ReadersMatch(d, slots')
  {
  }

  lemma ReaderAdded(d: Drops, d': Drops, slots: seq<Slot>, slot: nat, x: Slot)
    requires KeysMatch(d, slots) && ReadersMatch(d, slots) && slot < |slots| && x.occupied && !Leaving(x.pc)
    requires d'.keys == d.keys[slot := true] && d'.threads == d.threads + [Thread(LiveReader, slot)]
    requires forall t :: 0 <= t < |d.threads| && Is(KKeyed, d.threads[t].pc) ==> d.threads[t].slot != slot
    ensures KeysMatch(d', slots[slot := x]) && ReadersMatch(d', slots[slot := x])
  {
  }

  lemma WriterAdded(d: Drops, d': Drops, slots: seq<Slot>)
    requires KeysMatch(d, slots) && ReadersMatch(d, slots)
    requires d'.keys == d.keys && d'.threads == d.threads + [Thread(LiveWriter, 0)]
    ensures KeysMatch(d', slots) && ReadersMatch(d', slots)
  {
  }

  /** Thread `t`, at slot `i` of the table, begins to leave. */
  lemma ReaderLeaves(d: Drops, d': Drops, slots: seq<Slot>, t: nat, x: Slot)
    requires KeysMatch(d, slots) && ReadersMatch(d, slots) && t < |d.threads| && d.threads[t].slot < |slots|
    requires d'.keys == d.keys && d'.threads == d.threads[t := Thread(Unregistering, d.threads[t].slot)]
    requires x.occupied == slots[d.threads[t].slot].occupied && Leaving(x.pc)
    requires forall u :: 0 <= u < |d.threads| && u != t && Is(KKeyed, d.threads[u].pc) ==>
               d.threads[u].slot != d.threads[t].slot
    ensures KeysMatch(d', slots[d.threads[t].slot := x]) && ReadersMatch(d', slots[d.threads[t].slot := x])
  {
  }

  /** ... and is gone. */
  lemma ReaderLeft(d: Drops, d': Drops, slots: seq<Slot>, t: nat, x: Slot)
    requires KeysMatch(d, slots) && ReadersMatch(d, slots) && t < |d.threads| && d.threads[t].slot < |slots|
    requires |d'.threads| == |d.threads| && d'.keys == d.keys[d.threads[t].slot := false]
    requires d'.threads == d.threads[t := d'.threads[t]] && !Is(KKeyed, d'.threads[t].pc) && !x.occupied
    requires forall u :: 0 <= u < |d.threads| && u != t && Is(KKeyed, d.threads[u].pc) ==>
               d.threads[u].slot != d.threads[t].slot
    ensures KeysMatch(d', slots[d.threads[t].slot := x]) && ReadersMatch(d', slots[d.threads[t].slot := x])
  {
  }

  /** A thread outside the table moves. */
  lemma OutsiderMoves(d: Drops, d': Drops, slots: seq<Slot>, t: nat)
    requires KeysMatch(d, slots) && ReadersMatch(d, slots) && t < |d.threads| == |d'.threads| && d'.keys == d.keys
    requires d'.threads == d.threads[t := d'.threads[t]] && !Is(KKeyed, d'.threads[t].pc)
    ensures KeysMatch(d', slots) && ReadersMatch(d', slots)
  {
  }

  lemma UserCalls(d: Drops, cleaners: seq<CleanerPc>, users: seq<nat>, sweep: Sweep, c: nat, pc: CleanerPc, via: nat)
    requires UsersMatch(d, cleaners, users, sweep) && c < |cleaners| && via < |d.threads| && Live(d.threads[via].pc)
    ensures UsersMatch(d, cleaners[c := pc], users[c := via], sweep)
  {
  }

  lemma UsersKept(d: Drops, d': Drops, cleaners: seq<CleanerPc>, users: seq<nat>, sweep: Sweep)
    requires UsersMatch(d, cleaners, users, sweep) && |d.threads| <= |d'.threads|
    requires forall c :: 0 <= c < |cleaners| && !cleaners[c].CIdle? && users[c] < |d.threads| ==>
               (Live(d.threads[users[c]].pc) ==> Live(d'.threads[users[c]].pc))
    ensures UsersMatch(d', cleaners, users, sweep)
  {
  }

  lemma WritersKept(d: Drops, d': Drops, writers: set<nat>)
    requires WritersMatch(d, writers) && |d.threads| <= |d'.threads|
    requires forall t :: 0 <= t < |d'.threads| ==>
               (d'.threads[t].pc.LiveWriter? <==> t < |d.threads| && d.threads[t].pc.LiveWriter?)
    ensures WritersMatch(d', writers)
  {
    forall id | id in writers
      ensures id + 1 < |d'.threads| && d'.threads[id + 1].pc.LiveWriter?
    {
      assert d.threads[id + 1].pc.LiveWriter?;
    }
  }

  lemma WriterJoins(d: Drops, d': Drops, writers: set<nat>)
    requires WritersMatch(d, writers) && d'.threads == d.threads + [Thread(LiveWriter, 0)]
    ensures WritersMatch(d', writers + {WriterId(|d.threads|)})
  {
    forall id | id in writers
      ensures id + 1 < |d'.threads| && d'.threads[id + 1].pc.LiveWriter?
    {
      assert d.threads[id + 1].pc.LiveWriter?;
    }
  }

  lemma WriterGoes(d: Drops, d': Drops, writers: set<nat>, t: nat)
    requires WritersMatch(d, writers) && t < |d.threads| == |d'.threads| && d.threads[t].pc.LiveWriter?
    requires d'.threads == d.threads[t := d'.threads[t]] && !d'.threads[t].pc.LiveWriter?
    ensures WritersMatch(d', writers - {WriterId(t)})
  {
    forall id | id in writers - {WriterId(t)}
      ensures id + 1 < |d'.threads| && d'.threads[id + 1].pc.LiveWriter?
    {
      assert d.threads[id + 1].pc.LiveWriter?;
    }
  }

  lemma NotSwept(d: Drops, a: Area, sweep: Sweep)
    requires SweepOK(d, a, sweep) && !HasWinner(d)
    ensures sweep.NotYet?
  {
  }

  lemma NotYetKept(d: Drops, a: Area, d': Drops, a': Area)
    requires SweepOK(d, a, NotYet)
    requires forall t :: 0 <= t < |d'.threads| && d'.threads[t].pc.Freed? ==> t < |d.threads| && d.threads[t].pc.Freed?
    ensures SweepOK(d', a', NotYet)
  {
  }

  // ---------------------------------------------------------------- calls through live handles

  lemma StaysIn(slot: Slot, op: ReaderOp, read: nat, noWriters: bool, slot': Slot)
    requires ReaderNext(Natural, slot, op, read, noWriters) == Some(slot')
    requires op != Claim && op != Leave && !Leaving(slot.pc)
    ensures slot'.occupied == slot.occupied && !Leaving(slot'.pc)
  {
  }

  lemma NotLeaving(d: Drops, slots: seq<Slot>, t: nat)
    requires ReadersMatch(d, slots) && t < |d.threads| && d.threads[t].pc.LiveReader?
    ensures d.threads[t].slot < |slots| && !Leaving(slots[d.threads[t].slot].pc)
  {
    assert Is(KKeyed, d.threads[t].pc);
  }

  lemma ReaderWorkKeeps(w: Whole, via: nat, i: nat, op: ReaderOp, w': Whole)
    requires Together(w) && Happens(w, Work(via, Reader(i, op)), w') && Inv(w'.s) && !HasWinner(w.d)
    ensures Together(w')
  {
    hide Inv, DropInv, Step, ReaderNext, KeysMatch, ReadersMatch, WritersMatch, UsersMatch, AuthorsAlive, SweepOK,
         HasWinner;
    NotLeaving(w.d, w.s.area.slots, via);
    ReaderStepTouches(w.s, i, op, w'.s);
    StaysIn(w.s.area.slots[i], op, w.s.area.read, w.s.area.writers == {}, w'.s.area.slots[i]);
    ReaderChanged(w.d, w.s.area.slots, i, w'.s.area.slots[i]);
    NotSwept(w.d, w.s.area, w.sweep);
    NotYetKept(w.d, w.s.area, w.d, w'.s.area);
  }

  lemma CleanWorkKeeps(w: Whole, via: nat, c: nat, w': Whole)
    requires Together(w) && Happens(w, Work(via, Clean(c)), w') && Inv(w'.s) && !HasWinner(w.d)
    ensures Together(w')
  {
    hide Inv, DropInv, Step, CleanerNext, KeysMatch, ReadersMatch, WritersMatch, UsersMatch, AuthorsAlive, SweepOK,
         HasWinner;
    CleanStepTouches(w.s, c, w'.s);
    WordsChanged(w.d, w.s.area.slots, w'.s.area.slots);
    UserCalls(w.d, w.s.area.cleaners, w.users, w.sweep, c, w'.s.area.cleaners[c], via);
    NotSwept(w.d, w.s.area, w.sweep);
    NotYetKept(w.d, w.s.area, w.d, w'.s.area);
  }

  lemma WriterWorkKeeps(w: Whole, via: nat, l: Label, w': Whole)
    requires Together(w) && Happens(w, Work(via, l), w') && WriterLabel(l) && Inv(w'.s) && !HasWinner(w.d)
    ensures Together(w')
  {
    hide Inv, DropInv, Step, KeysMatch, ReadersMatch, WritersMatch, UsersMatch, AuthorsAlive, SweepOK, HasWinner,
         ReaderAlive;
    WriterStepTouches(w.s, l, w'.s);
    AuthorsFrom(w.s, l, w'.s, Handle(w.d, via));
    HandleAlive(w.d, via);
    AuthorsStayAlive(w.d, w.s, w'.s, Handle(w.d, via));
    NotSwept(w.d, w.s.area, w.sweep);
    NotYetKept(w.d, w.s.area, w.d, w'.s.area);
  }

  lemma HandleAlive(d: Drops, via: nat)
    requires via < |d.threads| && Live(d.threads[via].pc)
    ensures Handle(d, via).ByReader? ==> ReaderAlive(d, Handle(d, via).slot)
  {
  }

  lemma AuthorsStayAlive(d: Drops, s: State, s': State, me: Author)
    requires AuthorsAlive(d, s.area.outstanding, s.area.reservers) && (me.ByReader? ==> ReaderAlive(d, me.slot))
    requires forall k :: 0 <= k < |s'.area.outstanding| ==>
               || s'.area.outstanding[k].author == me
               || exists j :: 0 <= j < |s.area.outstanding| && s.area.outstanding[j].author ==
                   s'.area.outstanding[k].author
    requires forall u :: 0 <= u < |s'.area.reservers| && !s'.area.reservers[u].RIdle? ==>
               || s'.area.reservers[u].author == me
               || (u < |s.area.reservers| && !s.area.reservers[u].RIdle?
                   && s.area.reservers[u].author == s'.area.reservers[u].author)
    ensures AuthorsAlive(d, s'.area.outstanding, s'.area.reservers)
  {
    hide ReaderAlive;
  }

  lemma WorkKeeps(w: Whole, via: nat, l: Label, w': Whole)
    requires Together(w) && Happens(w, Work(via, l), w')
    ensures Together(w')
  {
    hide Step, Inv, DropInv, KeysMatch, ReadersMatch, WritersMatch, UsersMatch, AuthorsAlive, SweepOK, HasWinner;
    StepKeeps(w.s, l, w'.s);
    NoWinnerBeside(w.d, via);
    hide Together;
    match l
    case Reader(i, op) => ReaderWorkKeeps(w, via, i, op, w');
    case Clean(c) => CleanWorkKeeps(w, via, c, w');
    case NewWriter(_, _) => assert false;
    case DropWriter(_) => assert false;
    case _ => WriterWorkKeeps(w, via, l, w');
  }

  // ---------------------------------------------------------------- creating and dropping handles

  lemma AliveWithMore(d: Drops, d': Drops, slot: nat)
    requires ReaderAlive(d, slot) && |d.threads| <= |d'.threads|
    requires forall t :: 0 <= t < |d.threads| && d.threads[t].pc.LiveReader? ==> d'.threads[t] == d.threads[t]
    ensures ReaderAlive(d', slot)
  {
    var t :| 0 <= t < |d.threads| && d.threads[t].pc.LiveReader? && d.threads[t].slot == slot;
    assert d'.threads[t].pc.LiveReader?;
  }

  lemma AuthorsAliveWithMore(d: Drops, d': Drops, outstanding: seq<Reservation>, reservers: seq<ReserverPc>)
    requires AuthorsAlive(d, outstanding, reservers) && |d.threads| <= |d'.threads|
    requires forall t :: 0 <= t < |d.threads| && d.threads[t].pc.LiveReader? ==> d'.threads[t] == d.threads[t]
    ensures AuthorsAlive(d', outstanding, reservers)
  {
    forall slot | ReaderAlive(d, slot)
      ensures ReaderAlive(d', slot)
    {
      AliveWithMore(d, d', slot);
    }
    hide ReaderAlive;
  }

  lemma AddReaderKeeps(w: Whole, via: nat, slot: nat, w': Whole)
    requires Together(w) && Happens(w, AddReader(via, slot), w')
    ensures Together(w')
  {
    hide Inv, DropInv, Step, Play, NoOverlap, ReaderNext, KeysMatch, ReadersMatch, WritersMatch, UsersMatch,
         AuthorsAlive, SweepOK, HasWinner;
    var m := CreateReader(via, slot);
    StepKeeps(w.s, Reader(slot, Claim), w'.s);
    MoveKeeps(w.d, m, w'.d);
    CreateTouches(w.d, m, w'.d);
    NoWinnerBeside(w.d, via);
    ReaderStepTouches(w.s, slot, Claim, w'.s);
    ClaimIn(w.s.area.slots[slot], w.s.area.read, w.s.area.writers == {}, w'.s.area.slots[slot]);
    forall t | 0 <= t < |w.d.threads| && Is(KKeyed, w.d.threads[t].pc)
      ensures w.d.threads[t].slot != slot
    {
      KeyedFacts(w.d, t);
    }
    ReaderAdded(w.d, w'.d, w.s.area.slots, slot, w'.s.area.slots[slot]);
    WritersKept(w.d, w'.d, w.s.area.writers);
    UsersInRange(w);
    UsersKept(w.d, w'.d, w.s.area.cleaners, w.users, w.sweep);
    AuthorsAliveWithMore(w.d, w'.d, w.s.area.outstanding, w.s.area.reservers);
    NotSwept(w.d, w.s.area, w.sweep);
    NotYetKept(w.d, w.s.area, w'.d, w'.s.area);
  }

  lemma UsersInRange(w: Whole)
    requires UsersMatch(w.d, w.s.area.cleaners, w.users, w.sweep)
    ensures |w.users| == |w.s.area.cleaners|
  {
  }

  lemma ClaimIn(slot: Slot, read: nat, noWriters: bool, slot': Slot)
    requires ReaderNext(Natural, slot, Claim, read, noWriters) == Some(slot')
    ensures slot'.occupied && slot'.pc.Claimed?
  {
  }

  lemma AddWriterKeeps(w: Whole, via: nat, w': Whole)
    requires Together(w) && Happens(w, AddWriter(via), w')
    ensures Together(w')
  {
    hide Inv, DropInv, Step, Play, NoOverlap, KeysMatch, ReadersMatch, WritersMatch, UsersMatch, AuthorsAlive,
         SweepOK, HasWinner;
    var m, l := CreateWriter(via), NewWriter(WriterId(via), WriterId(|w.d.threads|));
    assert NoOverlap(w.d, m) by { NothingToOverlap(w.d, m); }
    StepKeeps(w.s, l, w'.s);
    MoveKeeps(w.d, m, w'.d);
    CreateTouches(w.d, m, w'.d);
    NoWinnerBeside(w.d, via);
    WriterHandleTouches(w.s, l, w'.s);
    WriterAdded(w.d, w'.d, w.s.area.slots);
    WriterJoins(w.d, w'.d, w.s.area.writers);
    UsersInRange(w);
    UsersKept(w.d, w'.d, w.s.area.cleaners, w.users, w.sweep);
    AuthorsAliveWithMore(w.d, w'.d, w.s.area.outstanding, w.s.area.reservers);
    NotSwept(w.d, w.s.area, w.sweep);
    NotYetKept(w.d, w.s.area, w'.d, w'.s.area);
  }

  lemma NothingToOverlap(d: Drops, m: Move)
    requires !m.CreateReader?
    ensures NoOverlap(d, m)
  {
  }

  lemma DropReaderKeeps(w: Whole, t: nat, w': Whole)
    requires Together(w) && Happens(w, DropHandle(t), w') && t < |w.d.threads| && w.d.threads[t].pc.LiveReader?
    ensures Together(w')
  {
    hide Inv, DropInv, Step, Play, NoOverlap, ReaderNext, KeysMatch, ReadersMatch, WritersMatch, UsersMatch,
         AuthorsAlive, SweepOK, HasWinner, Unborrowed;
    var slot := w.d.threads[t].slot;
    NothingToOverlap(w.d, Drop(t));
    StepKeeps(w.s, Reader(slot, Leave), w'.s);
    MoveKeeps(w.d, Drop(t), w'.d);
    DropTouches(w.d, t, w'.d);
    NoWinnerBeside(w.d, t);
    KeyedFacts(w.d, t);
    ReaderStepTouches(w.s, slot, Leave, w'.s);
    LeaveIn(w.s.area.slots[slot], w.s.area.read, w.s.area.writers == {}, w'.s.area.slots[slot]);
    ReaderLeaves(w.d, w'.d, w.s.area.slots, t, w'.s.area.slots[slot]);
    WritersKept(w.d, w'.d, w.s.area.writers);
    DroppedUser(w, t, w'.d);
    OthersAlive(w, t, w'.d);
    NotSwept(w.d, w.s.area, w.sweep);
    NotYetKept(w.d, w.s.area, w'.d, w'.s.area);
  }

  lemma LeaveIn(slot: Slot, read: nat, noWriters: bool, slot': Slot)
    requires ReaderNext(Natural, slot, Leave, read, noWriters) == Some(slot')
    ensures slot'.occupied == slot.occupied && Leaving(slot'.pc)
  {
  }

  lemma DroppedUser(w: Whole, t: nat, d': Drops)
    requires UsersMatch(w.d, w.s.area.cleaners, w.users, w.sweep) && t < |w.d.threads| && Unborrowed(w, t)
    requires |d'.threads| == |w.d.threads| && d'.threads == w.d.threads[t := d'.threads[t]]
    ensures UsersMatch(d', w.s.area.cleaners, w.users, w.sweep)
  {
    hide Live;
  }

  /** Dropping a handle nothing borrows leaves every author its reader. */
  lemma OthersAlive(w: Whole, t: nat, d': Drops)
    requires AuthorsAlive(w.d, w.s.area.outstanding, w.s.area.reservers) && t < |w.d.threads| && Unborrowed(w, t)
    requires |d'.threads| == |w.d.threads|
    requires forall u :: 0 <= u < |w.d.threads| && u != t ==> d'.threads[u] == w.d.threads[u]
    ensures AuthorsAlive(d', w.s.area.outstanding, w.s.area.reservers)
  {
    forall slot | ReaderAlive(w.d, slot) && ByReader(slot) != Handle(w.d, t)
      ensures ReaderAlive(d', slot)
    {
      var u :| 0 <= u < |w.d.threads| && w.d.threads[u].pc.LiveReader? && w.d.threads[u].slot == slot;
      assert d'.threads[u].pc.LiveReader?;
    }
    hide ReaderAlive, Handle;
  }

  lemma DropWriterKeeps(w: Whole, t: nat, w': Whole)
    requires Together(w) && Happens(w, DropHandle(t), w') && t < |w.d.threads| && !w.d.threads[t].pc.LiveReader?
    ensures Together(w')
  {
    hide Inv, DropInv, Step, Play, NoOverlap, KeysMatch, ReadersMatch, WritersMatch, UsersMatch, AuthorsAlive,
         SweepOK, HasWinner, Unborrowed;
    var l := DropWriter(WriterId(t));
    NothingToOverlap(w.d, Drop(t));
    StepKeeps(w.s, l, w'.s);
    MoveKeeps(w.d, Drop(t), w'.d);
    DropTouches(w.d, t, w'.d);
    NoWinnerBeside(w.d, t);
    WriterHandleTouches(w.s, l, w'.s);
    OutsiderMoves(w.d, w'.d, w.s.area.slots, t);
    WriterGoes(w.d, w'.d, w.s.area.writers, t);
    DroppedUser(w, t, w'.d);
    OthersAlive(w, t, w'.d);
    NotSwept(w.d, w.s.area, w.sweep);
    NotYetKept(w.d, w.s.area, w'.d, w'.s.area);
  }

  // ---------------------------------------------------------------- destructors

  lemma LeaveGo(slot: Slot, read: nat, noWriters: bool, slot': Slot)
    requires ReaderNext(Natural, slot, Go, read, noWriters) == Some(slot') && Leaving(slot.pc)
    ensures if slot.pc.LeaveRemove? then !slot'.occupied else slot'.occupied == slot.occupied && Leaving(slot'.pc)
  {
  }

  /** Away from the last step, `unregister` moves inside the reader's slot only. */
  lemma UnregisterKeeps(w: Whole, t: nat, w': Whole)
    requires Together(w) && DestructStep(w, t, w') && t < |w.d.threads| && w.d.threads[t].pc.Unregistering?
        && w'.d == w.d
    requires Inv(w'.s) && !HasWinner(w.d)
    requires w.d.threads[t].slot < |w.s.area.slots| && Leaving(w.s.area.slots[w.d.threads[t].slot].pc)
    requires !w.s.area.slots[w.d.threads[t].slot].pc.LeaveRemove?
    ensures Together(w')
  {
    hide Inv, DropInv, Step, Play, ReaderNext, KeysMatch, ReadersMatch, WritersMatch, UsersMatch, AuthorsAlive,
         SweepOK, HasWinner, Leaving;
    var slot := w.d.threads[t].slot;
    ReaderStepTouches(w.s, slot, Go, w'.s);
    LeaveGo(w.s.area.slots[slot], w.s.area.read, w.s.area.writers == {}, w'.s.area.slots[slot]);
    ReaderChanged(w.d, w.s.area.slots, slot, w'.s.area.slots[slot]);
    NotSwept(w.d, w.s.area, w.sweep);
    NotYetKept(w.d, w.s.area, w.d, w'.s.area);
  }

  lemma RemoveKeeps(w: Whole, t: nat, w': Whole)
    requires Together(w) && DestructStep(w, t, w') && t < |w.d.threads| && w.d.threads[t].pc.Unregistering?
    requires Inv(w'.s) && DropInv(w'.d) && !HasWinner(w.d) && Play(w.d, Proceed(t)) == Some(w'.d)
    requires w.d.threads[t].slot < |w.s.area.slots| && w.s.area.slots[w.d.threads[t].slot].pc.LeaveRemove?
    ensures Together(w')
  {
    hide Inv, DropInv, Step, Play, ReaderNext, KeysMatch, ReadersMatch, WritersMatch, UsersMatch, AuthorsAlive,
         SweepOK, HasWinner;
    var slot := w.d.threads[t].slot;
    ReaderStepTouches(w.s, slot, Go, w'.s);
    LeaveGo(w.s.area.slots[slot], w.s.area.read, w.s.area.writers == {}, w'.s.area.slots[slot]);
    ProceedTouches(w.d, t, w'.d);
    KeyedFacts(w.d, t);
    ReaderLeft(w.d, w'.d, w.s.area.slots, t, w'.s.area.slots[slot]);
    WritersKept(w.d, w'.d, w.s.area.writers);
    UsersInRange(w);
    UsersKept(w.d, w'.d, w.s.area.cleaners, w.users, w.sweep);
    AuthorsAliveWithMore(w.d, w'.d, w.s.area.outstanding, w.s.area.reservers);
    NotSwept(w.d, w.s.area, w.sweep);
    NotYetKept(w.d, w.s.area, w'.d, w'.s.area);
  }

  /** Steps of a destructor on the tournament alone, up to its end or the freeing of the area. */
  lemma TournamentKeeps(w: Whole, t: nat, w': Whole)
    requires Together(w) && DestructStep(w, t, w') && t < |w.d.threads| && !w.d.threads[t].pc.Unregistering?
    requires Play(w.d, Proceed(t)) == Some(w'.d) && DropInv(w'.d)
    ensures Together(w')
  {
    hide Inv, DropInv, Step, Play, KeysMatch, ReadersMatch, WritersMatch, UsersMatch, AuthorsAlive, SweepOK, HasWinner;
    ProceedTouches(w.d, t, w'.d);
    OutsiderMoves(w.d, w'.d, w.s.area.slots, t);
    WritersKept(w.d, w'.d, w.s.area.writers);
    UsersInRange(w);
    UsersKept(w.d, w'.d, w.s.area.cleaners, w.users, w.sweep);
    AuthorsAliveWithMore(w.d, w'.d, w.s.area.outstanding, w.s.area.reservers);
    if w.d.threads[t].pc.Destroying? {
      FreedAfterSwept(w, t, w'.d);
    } else {
      NoWinnerBeside(w.d, t);
      NotSwept(w.d, w.s.area, w.sweep);
      NotYetKept(w.d, w.s.area, w'.d, w.s.area);
    }
  }

  lemma FreedAfterSwept(w: Whole, t: nat, d': Drops)
    requires SweepOK(w.d, w.s.area, w.sweep) && w.sweep.Swept? && t < |w.d.threads| == |d'.threads|
        && d'.threads[t].pc.Freed?
    ensures SweepOK(d', w.s.area, w.sweep)
  {
    assert Winner(d'.threads[t].pc);
  }

  lemma DestructKeeps(w: Whole, t: nat, w': Whole)
    requires Together(w) && Happens(w, Destruct(t), w')
    ensures Together(w')
  {
    hide Inv, DropInv, Step, Play, NoOverlap, KeysMatch, ReadersMatch, WritersMatch, UsersMatch, AuthorsAlive,
         SweepOK, HasWinner, Leaving;
    NothingToOverlap(w.d, Proceed(t));
    if Play(w.d, Proceed(t)) == Some(w'.d) { MoveKeeps(w.d, Proceed(t), w'.d); }
    if w.d.threads[t].pc.Unregistering? {
      var slot := w.d.threads[t].slot;
      StepKeeps(w.s, Reader(slot, Go), w'.s);
      NoWinnerBeside(w.d, t);
      IsLeaving(w.d, w.s.area.slots, t);
      if w.s.area.slots[slot].pc.LeaveRemove? { RemoveKeeps(w, t, w'); } else { UnregisterKeeps(w, t, w'); }
    } else {
      TournamentKeeps(w, t, w');
    }
  }

  lemma IsLeaving(d: Drops, slots: seq<Slot>, t: nat)
    requires ReadersMatch(d, slots) && t < |d.threads| && d.threads[t].pc.Unregistering?
    ensures d.threads[t].slot < |slots| && Leaving(slots[d.threads[t].slot].pc)
  {
    assert Is(KKeyed, d.threads[t].pc);
  }

  // ---------------------------------------------------------------- what the destroyer finds

  /** Once a destroyer is elected no handle is left: every slot is unkeyed, hence suspended. */
  lemma SlotsLeft(w: Whole, t: nat)
    requires Together(w) && t < |w.d.threads| && Winner(w.d.threads[t].pc)
    ensures forall i :: 0 <= i < |w.s.area.slots| ==> !w.s.area.slots[i].occupied && w.s.area.slots[i].word.suspended
  {
    hide DropInv, CleanersOK, PendingOK, ReserversOK, LogOK, HoldsAll, UndroppedOK, DropsOK, DeliveriesOK, WritersOK,
         Tiles;
    WinnerIsAlone(w.d, t);
    forall i | 0 <= i < |w.s.area.slots|
      ensures !w.s.area.slots[i].occupied && w.s.area.slots[i].word.suspended
    {
      assert SlotOK(w.s.area.slots[i], w.s.area.last, w.s.area.read);
    }
  }

  /** ... and no cleanup is under way but its own. */
  lemma CleanersIdle(w: Whole, t: nat)
    requires Together(w) && t < |w.d.threads| && Winner(w.d.threads[t].pc)
    ensures forall c :: 0 <= c < |w.s.area.cleaners| && !(w.sweep.Sweeping? && w.sweep.c == c) ==>
              w.s.area.cleaners[c].CIdle?
  {
    hide Inv, DropInv;
    WinnerIsAlone(w.d, t);
  }

  lemma NobodyLeft(d: Drops, a: Area)
    requires WritersMatch(d, a.writers) && AuthorsAlive(d, a.outstanding, a.reservers)
    requires WritersOK(a.writers, a.outstanding, a.reservers, a.slots)
    requires forall t :: 0 <= t < |d.threads| ==> !Live(d.threads[t].pc)
    ensures a.writers == {} && a.outstanding == []
    ensures forall u :: 0 <= u < |a.reservers| ==> a.reservers[u].RIdle?
  {
    forall id
      ensures id !in a.writers
    {
    }
    forall slot
      ensures !ReaderAlive(d, slot)
    {
    }
    assert |a.outstanding| > 0 ==> !a.outstanding[0].author.ByReader?;
  }

  /** ... and nothing is reserved: everything that has ever been reserved is published. */
  lemma NothingReserved(w: Whole, t: nat)
    requires Together(w) && t < |w.d.threads| && Winner(w.d.threads[t].pc)
    ensures w.s.area.writers == {} && w.s.area.outstanding == [] && w.s.area.read == w.s.area.write
    ensures forall u :: 0 <= u < |w.s.area.reservers| ==> w.s.area.reservers[u].RIdle?
  {
    var a := w.s.area;
    assert WritersOK(a.writers, a.outstanding, a.reservers, a.slots);
    assert Tiles(ReservationRanges(a.outstanding), a.read, a.write);
    hide Inv, DropInv, WritersMatch, AuthorsAlive, WritersOK;
    WinnerIsAlone(w.d, t);
    NobodyLeft(w.d, a);
  }

  // ---------------------------------------------------------------- the final cleanup

  lemma QueueHead(pending: seq<nat>, cleaners: seq<CleanerPc>, free: nat, last: nat)
    requires PendingOK(pending, cleaners, free, last)
    ensures pending != [] ==> exists t :: 0 <= t < |cleaners| && cleaners[t].CDrop?
  {
    if pending != [] { assert cleaners[pending[0]].CDrop?; }
  }

  lemma NothingPending(s: State, c: nat)
    requires Inv(s) && Lone(s.area, c) && !s.area.cleaners[c].CDrop?
    ensures s.area.free == s.area.last
  {
    hide CleanersOK, SlotsOK, ReserversOK, LogOK, HoldsAll, UndroppedOK, DropsOK, DeliveriesOK, WritersOK;
    QueueHead(s.hist.pending, s.area.cleaners, s.area.free, s.area.last);
  }

  /** With all slots suspended the scan keeps read_gen as its minimum, every CAS of the cleanup succeeds,
      and when it returns both counters stand at read_gen. */
  lemma SweepStep(s: State, c: nat, sure: bool, a': Area)
    requires Inv(s) && SweepingTo(s.area, c, sure) && Sized(s.area) && CleanerNext(Natural, s.area, c) == Some(a')
    requires forall i :: 0 <= i < |s.area.slots| ==> s.area.slots[i].word.suspended
    ensures c < |a'.cleaners| && Lone(a', c)
    ensures if a'.cleaners[c].CIdle? then a'.free == a'.last == a'.read else SweepingTo(a', c, false)
  {
    LoneStays(s.area, c, a');
    if s.area.cleaners[c].CDrop? { LoneRange(s, c); } else { NothingPending(s, c); }
    assert CleanerOK(s.area.cleaners[c], s.area.slots, s.area.last, s.area.read);
    assert CountersOK(s.area);
    hide Inv, Lone, CleanersOK, SlotsOK, Scanned, RingSlot;
  }

  lemma FinalIsAStep(w: Whole, t: nat, c: nat, w': Whole)
    requires Together(w) && Happens(w, FinalCleanup(t, c), w')
    ensures Lone(w.s.area, c) && Inv(w'.s)
    ensures w'.s == w.s || Step(w.s, Clean(c), w'.s)
  {
    hide Inv, DropInv, Lone, CleanerNext, ExclusiveClean, KeysMatch, ReadersMatch, WritersMatch, UsersMatch,
         AuthorsAlive, SweepOK;
    LoneBefore(w, t, c);
    LoneCleanerAgrees(w.s, c, Sure(w.sweep));
    if w'.s != w.s { StepKeeps(w.s, Clean(c), w'.s); }
  }

  lemma LoneBefore(w: Whole, t: nat, c: nat)
    requires Together(w) && t < |w.d.threads| && Winner(w.d.threads[t].pc) && c < |w.s.area.cleaners|
    requires w.sweep == Sweeping(c, Sure(w.sweep)) || (w.sweep.NotYet? && w.s.area.cleaners[c].CIdle?)
    ensures Lone(w.s.area, c)
  {
    hide Inv, DropInv;
    CleanersIdle(w, t);
  }

  lemma FirstStep(a: Area, c: nat, a': Area)
    requires Sized(a) && Lone(a, c) && a.cleaners[c].CIdle? && CleanerNext(Natural, a, c) == Some(a')
    ensures SweepingTo(a', c, false) && !a'.cleaners[c].CIdle?
  {
  }

  lemma FinalSweepOK(w: Whole, t: nat, c: nat, w': Whole)
    requires Together(w) && Happens(w, FinalCleanup(t, c), w')
    ensures SweepOK(w'.d, w'.s.area, w'.sweep)
  {
    hide Inv, DropInv, HasWinner, Lone, CleanerNext, ExclusiveClean, KeysMatch, ReadersMatch, WritersMatch,
         UsersMatch, AuthorsAlive, SweepingTo, Record;
    SlotsLeft(w, t);
    LoneBefore(w, t, c);
    WinnerThere(w.d, t);
    LoneCleanerAgrees(w.s, c, Sure(w.sweep));
    var a' := CleanerNext(Natural, w.s.area, c).value;
    if w.sweep.NotYet? {
      FirstStep(w.s.area, c, a');
    } else {
      SweepStep(w.s, c, w.sweep.sure, a');
      StillSweeping(w.s.area, c, w.sweep.sure);
    }
  }

  lemma StillSweeping(a: Area, c: nat, sure: bool)
    requires SweepingTo(a, c, sure)
    ensures c < |a.cleaners| && (a.cleaners[c].CAdvance? || a.cleaners[c].CDrop? ==> SweepingTo(a, c, true))
  {
  }

  lemma WinnerThere(d: Drops, t: nat)
    requires DropInv(d) && t < |d.threads| && d.threads[t].pc.Destroying?
    ensures HasWinner(d) && forall u :: 0 <= u < |d.threads| ==> !d.threads[u].pc.Freed?
  {
    hide DropInv;
    assert Winner(d.threads[t].pc);
    WinnerIsAlone(d, t);
  }

  lemma FinalUsers(w: Whole, t: nat, c: nat, w': Whole)
    requires Together(w) && Happens(w, FinalCleanup(t, c), w') && (w'.s == w.s || Step(w.s, Clean(c), w'.s))
    ensures UsersMatch(w'.d, w'.s.area.cleaners, w'.users, w'.sweep)
  {
    hide Inv, DropInv, Step, ExclusiveClean, KeysMatch, ReadersMatch, WritersMatch, AuthorsAlive, SweepOK, Record;
    CleanersIdle(w, t);
    if w'.s != w.s { CleanStepTouches(w.s, c, w'.s); }
  }

  lemma FinalKeeps(w: Whole, t: nat, c: nat, w': Whole)
    requires Together(w) && Happens(w, FinalCleanup(t, c), w')
    ensures Together(w')
  {
    hide Inv, DropInv, Step, ExclusiveClean, KeysMatch, ReadersMatch, WritersMatch, UsersMatch, AuthorsAlive, SweepOK,
         HasWinner, Record;
    FinalIsAStep(w, t, c, w');
    FinalSweepOK(w, t, c, w');
    FinalUsers(w, t, c, w');
    if w'.s != w.s {
      CleanStepTouches(w.s, c, w'.s);
      WordsChanged(w.d, w.s.area.slots, w'.s.area.slots);
    }
  }

  /** Every deed keeps the two machines together. */
  lemma DeedKeeps(w: Whole, x: Deed, w': Whole)
    requires Together(w) && Happens(w, x, w')
    ensures Together(w')
  {
    hide Together, DestructStep, FinalStep, Unborrowed, Owns, Play, Step;
    match x
    case Work(via, l) => WorkKeeps(w, via, l, w');
    case AddReader(via, slot) => AddReaderKeeps(w, via, slot, w');
    case AddWriter(via) => AddWriterKeeps(w, via, w');
    case DropHandle(t) =>
      if w.d.threads[t].pc.LiveReader? { DropReaderKeeps(w, t, w'); } else { DropWriterKeeps(w, t, w'); }
    case Destruct(t) => DestructKeeps(w, t, w');
    case FinalCleanup(t, c) => FinalKeeps(w, t, c, w');
  }

  // ---------------------------------------------------------------- whole runs

  /** Any interleaving of calls, creations and destructors on a fresh area, in which no reader registers
      behind a destructor's scan. */
  ghost predicate IsLife(ws: seq<Whole>, xs: seq<Deed>)
  {
    && |ws| == |xs| + 1
    && (exists s0: State, home: nat :: Begins(ws[0], s0, home))
    && forall i :: 0 <= i < |xs| ==> Happens(ws[i], xs[i], ws[i + 1])
  }

  lemma FreshFacts(s: State)
    requires Fresh(s)
    ensures s.area.writers == {0} && s.area.outstanding == []
    ensures forall i :: 0 <= i < |s.area.slots| ==> !s.area.slots[i].occupied
  {
  }

  lemma StartTogether(d: Drops, slots: seq<Slot>, home: nat, x: Slot)
    requires home < |slots| && d == Start(|slots|, home) && x.occupied && !Leaving(x.pc)
    requires forall i :: 0 <= i < |slots| ==> !slots[i].occupied
    ensures KeysMatch(d, slots[home := x]) && ReadersMatch(d, slots[home := x]) && WritersMatch(d, {0})
  {
  }

  lemma BeginsTogether(w: Whole, s0: State, home: nat)
    requires Begins(w, s0, home)
    ensures Together(w)
  {
    hide Inv, DropInv, Step, Fresh, ReaderNext, KeysMatch, ReadersMatch, WritersMatch, Start;
    FreshInv(s0);
    FreshIsIdle(s0);
    FreshFacts(s0);
    StepKeeps(s0, Reader(home, Claim), w.s);
    ReaderStepTouches(s0, home, Claim, w.s);
    ClaimIn(s0.area.slots[home], s0.area.read, s0.area.writers == {}, w.s.area.slots[home]);
    StartInv(|s0.area.slots|, home);
    StartTogether(w.d, s0.area.slots, home, w.s.area.slots[home]);
    StartThreads(|s0.area.slots|, home);
  }

  lemma StartThreads(n: nat, home: nat)
    requires home < n
    ensures forall t :: 0 <= t < |Start(n, home).threads| ==> !Start(n, home).threads[t].pc.Freed?
  {
  }

  lemma {:induction false} LifeTogether(ws: seq<Whole>, xs: seq<Deed>, i: nat)
    requires IsLife(ws, xs) && i < |ws|
    ensures Together(ws[i])
  {
    hide Together, Happens, Begins;
    if i == 0 {
      var s0: State, home: nat :| Begins(ws[0], s0, home);
      BeginsTogether(ws[0], s0, home);
    } else {
      LifeTogether(ws, xs, i - 1);
      DeedKeeps(ws[i - 1], xs[i - 1], ws[i]);
    }
  }

  /** What a deed does to the protocol is one of its steps, or nothing. */
  lemma DeedIsAStep(w: Whole, x: Deed, w': Whole) returns (l: Label)
    requires Together(w) && Happens(w, x, w')
    ensures w'.s == w.s || Step(w.s, l, w'.s)
  {
    hide Together, Step, Play, NoOverlap, Owns, Unborrowed;
    match x
    case Work(_, l0) => l := l0;
    case AddReader(_, slot) => l := Reader(slot, Claim);
    case AddWriter(via) => l := NewWriter(WriterId(via), WriterId(|w.d.threads|));
    case DropHandle(t) => l := if w.d.threads[t].pc.LiveReader? then Reader(w.d.threads[t].slot, Leave)
        else DropWriter(WriterId(t));
    case Destruct(t) => l := Reader(w.d.threads[t].slot, Go);
    case FinalCleanup(t, c) =>
      l := Clean(c);
      FinalIsAStep(w, t, c, w');
  }

  /** So the protocol's states are those of a run, and everything in module `Theorems` holds of them. */
  lemma {:induction false} LifeIsARun(ws: seq<Whole>, xs: seq<Deed>, i: nat) returns (r: Run)
    requires IsLife(ws, xs) && i < |ws|
    ensures IsRun(r) && r.states[|r.labels|] == ws[i].s
  {
    hide Together, Happens, Step, Fresh;
    if i == 0 {
      var s0: State, home: nat :| Begins(ws[0], s0, home);
      r := Run([s0, ws[0].s], [Reader(home, Claim)]);
    } else {
      r := LifeIsARun(ws, xs, i - 1);
      LifeTogether(ws, xs, i - 1);
      var l := DeedIsAStep(ws[i - 1], xs[i - 1], ws[i]);
      if ws[i].s != ws[i - 1].s {
        RunGoesOn(r, l, ws[i].s);
        r := Run(r.states + [ws[i].s], r.labels + [l]);
      }
    }
  }

  // ---------------------------------------------------------------- the end of an area

  /** All readers are gone and nobody is in the middle of a cleanup. */
  ghost predicate Deserted(s: State)
  {
    && (forall j :: 0 <= j < |s.area.slots| ==> !s.area.slots[j].occupied)
    && (forall t :: 0 <= t < |s.area.cleaners| ==> s.area.cleaners[t] == CIdle)
  }

  /** What the elected destroyer finds: no handle, no reservation and no call left, everything reserved
      published, every slot suspended. */
  lemma DestroyerFindsItDeserted(ws: seq<Whole>, xs: seq<Deed>, i: nat, t: nat)
    requires IsLife(ws, xs) && i < |ws| && t < |ws[i].d.threads| && Winner(ws[i].d.threads[t].pc)
    ensures var a := ws[i].s.area;
            && (forall j :: 0 <= j < |a.slots| ==> !a.slots[j].occupied && a.slots[j].word.suspended)
            && a.writers == {} && a.outstanding == [] && a.read == a.write
            && (forall u :: 0 <= u < |a.reservers| ==> a.reservers[u].RIdle?)
    ensures !ws[i].sweep.Sweeping? ==> Deserted(ws[i].s)
    ensures ws[i].sweep.NotYet? ==> ws[i].d.threads[t].pc.Destroying?
  {
    LifeTogether(ws, xs, i);
    hide IsLife, Inv, DropInv, KeysMatch, ReadersMatch, WritersMatch, UsersMatch, AuthorsAlive;
    SlotsLeft(ws[i], t);
    NothingReserved(ws[i], t);
    CleanersIdle(ws[i], t);
  }

  /** From the election on nothing happens to the area but the destroyer's cleanup and freeing. */
  lemma OnlyTheDestroyerActs(ws: seq<Whole>, xs: seq<Deed>, i: nat, t: nat)
    requires IsLife(ws, xs) && i < |xs| && t < |ws[i].d.threads| && Winner(ws[i].d.threads[t].pc)
    ensures xs[i] == Destruct(t) || (xs[i].FinalCleanup? && xs[i].t == t)
    ensures ws[i].d.threads[t].pc.Destroying?
  {
    hide Together, Happens, DropInv, Inv;
    LifeTogether(ws, xs, i);
    TogetherDrops(ws[i]);
    DoerIsThere(ws[i], xs[i], ws[i + 1]);
    WinnerIsAlone(ws[i].d, t);
  }

  lemma TogetherDrops(w: Whole)
    requires Together(w)
    ensures DropInv(w.d)
  {
    hide Inv, DropInv;
  }

  /** The thread a deed is done by. */
  function Doer(x: Deed): nat
  {
    match x
    case Work(via, _) => via
    case AddReader(via, _) => via
    case AddWriter(via) => via
    case DropHandle(t) => t
    case Destruct(t) => t
    case FinalCleanup(t, _) => t
  }

  /** It is alive, or its destructor is under way. */
  lemma DoerIsThere(w: Whole, x: Deed, w': Whole)
    requires Happens(w, x, w')
    ensures Doer(x) < |w.d.threads|
    ensures var pc := w.d.threads[Doer(x)].pc;
            && !pc.Done? && !pc.Freed?
            && (pc.Destroying? ==> x.Destruct? || x.FinalCleanup?)
  {
    hide Step, Play, NoOverlap, Owns, Unborrowed, FinalStep;
    match x
    case Work(_, _) =>
    case AddReader(via, slot) => CreateTouches(w.d, CreateReader(via, slot), w'.d);
    case AddWriter(via) => CreateTouches(w.d, CreateWriter(via), w'.d);
    case DropHandle(t) => DropTouches(w.d, t, w'.d);
    case Destruct(t) => if !w.d.threads[t].pc.Unregistering? { ProceedTouches(w.d, t, w'.d); }
    case FinalCleanup(_, _) =>
  }

  /** No assert of the destroyer's cleanup fails, and each of its steps is what the CAS form would do. */
  lemma FinalAssertsHold(ws: seq<Whole>, xs: seq<Deed>, i: nat, t: nat, c: nat)
    requires IsLife(ws, xs) && i < |ws| && t < |ws[i].d.threads| && ws[i].d.threads[t].pc.Destroying?
    requires c < |ws[i].s.area.cleaners|
    requires ws[i].sweep == Sweeping(c, Sure(ws[i].sweep)) || ws[i].sweep.NotYet?
    ensures Sized(ws[i].s.area) && ExclusiveClean(ws[i].s.area, c, Sure(ws[i].sweep)).Some?
    ensures CleanerNext(Natural, ws[i].s.area, c).Some?
    ensures var e, a' := ExclusiveClean(ws[i].s.area, c, Sure(ws[i].sweep)).value,
        CleanerNext(Natural, ws[i].s.area, c).value;
            if e.1 then e.0 == ws[i].s.area && a' != ws[i].s.area else e.0 == a'
    ensures exists w' :: Happens(ws[i], FinalCleanup(t, c), w')
  {
    LifeTogether(ws, xs, i);
    hide IsLife;
    FinalGoesOn(ws[i], t, c);
  }

  lemma FinalGoesOn(w: Whole, t: nat, c: nat)
    requires Together(w) && t < |w.d.threads| && w.d.threads[t].pc.Destroying? && c < |w.s.area.cleaners|
    requires w.sweep == Sweeping(c, Sure(w.sweep)) || w.sweep.NotYet?
    ensures Sized(w.s.area) && ExclusiveClean(w.s.area, c, Sure(w.sweep)).Some?
        && CleanerNext(Natural, w.s.area, c).Some?
    ensures var e, a' := ExclusiveClean(w.s.area, c, Sure(w.sweep)).value, CleanerNext(Natural, w.s.area, c).value;
            if e.1 then e.0 == w.s.area && a' != w.s.area else e.0 == a'
    ensures exists w' :: Happens(w, FinalCleanup(t, c), w')
  {
    hide Inv, DropInv, Lone, CleanerNext, ExclusiveClean, KeysMatch, ReadersMatch, WritersMatch, UsersMatch,
         AuthorsAlive, SweepOK, Record;
    InvSizes(w.s);
    CleanersIdle(w, t);
    LoneBefore(w, t, c);
    LoneCleanerAgrees(w.s, c, Sure(w.sweep));
    var e := ExclusiveClean(w.s.area, c, Sure(w.sweep)).value;
    var w' := if e.1 then w.(sweep := Sweeping(c, true))
              else w.(s := State(e.0, Record(w.s, Clean(c))),
                      sweep := if c < |e.0.cleaners| && e.0.cleaners[c].CIdle? then Swept else Sweeping(c, false));
    assert FinalStep(w, c, w');
    assert Happens(w, FinalCleanup(t, c), w');
  }

  lemma DroppedExactly(s: State)
    requires Inv(s) && s.area.free == s.area.last == s.area.read
    ensures forall g: nat :: s.hist.dropped[g] == if g < s.area.read then 1 else 0
  {
    hide CleanersOK, ReserversOK, LogOK, HoldsAll, UndroppedOK, DeliveriesOK, WritersOK, SlotsOK, Tiles, PendingOK;
    assert DroppedEach(s.hist.dropped, 0, s.area.free, 1);
  }

  /** When the area is freed, exactly the messages ever published have been dropped, each exactly once, and
      nothing was left reserved. */
  lemma FreedDroppedExactlyThePublished(ws: seq<Whole>, xs: seq<Deed>, i: nat, t: nat)
    requires IsLife(ws, xs) && i < |ws| && t < |ws[i].d.threads| && ws[i].d.threads[t].pc.Freed?
    ensures var a, h := ws[i].s.area, ws[i].s.hist;
            && a.free == a.last == a.read == a.write
            && forall g: nat :: h.dropped[g] == if g < a.read then 1 else 0
  {
    LifeTogether(ws, xs, i);
    hide IsLife, Inv, DropInv, KeysMatch, ReadersMatch, WritersMatch, UsersMatch, AuthorsAlive;
    NothingReserved(ws[i], t);
    DroppedExactly(ws[i].s);
  }

  /** How many steps the destroyer's cleanup has left, at most. */
  function Effort(a: Area, sweep: Sweep): nat
  {
    var n, k := |a.slots|, 2 * a.capacity;
    match sweep
    case Swept => 0
    case NotYet => k + 2 * n + 7
    case Sweeping(c, sure) => if c < |a.cleaners| then CallEffort(a.cleaners[c], n, k, sure) else 0
  }

  function CallEffort(pc: CleanerPc, n: nat, k: nat, sure: bool): nat
  {
    match pc
    case CIdle => 0
    case CGotLast(_) => k + 2 * n + 6
    case CScan(_, pos, _) => k + 5 + (if pos < n then 2 * (n - pos) else 0)
    case CForce(_, pos, _, _) => k + 4 + (if pos < n then 2 * (n - pos) else 0)
    case CAdvance(_, _) => k + (if sure then 3 else 4)
    case CDrop(last, min, done) => (if last + done < min then 2 * (min - last - done) else 0) + (if sure then 1 else 2)
  }

  /** The destroyer gets there: each step of its cleanup brings it nearer, there always is one, and when
      there is none left it frees the area. */
  lemma DestroyerFinishes(ws: seq<Whole>, xs: seq<Deed>, i: nat, t: nat)
    requires IsLife(ws, xs) && i < |ws| && t < |ws[i].d.threads| && ws[i].d.threads[t].pc.Destroying?
    ensures if ws[i].sweep.Swept? then
              exists w' :: Happens(ws[i], Destruct(t), w') && t < |w'.d.threads| && w'.d.threads[t].pc.Freed?
            else
              exists c, w' :: Happens(ws[i], FinalCleanup(t, c), w')
    ensures forall c, w' :: Happens(ws[i], FinalCleanup(t, c), w') ==>
              Effort(w'.s.area, w'.sweep) < Effort(ws[i].s.area, ws[i].sweep)
  {
    LifeTogether(ws, xs, i);
    hide IsLife;
    var w := ws[i];
    if w.sweep.Swept? {
      FreeingHappens(w, t);
    } else {
      var c := CallToUse(w, t);
      FinalGoesOn(w, t, c);
    }
    hide Together, Happens, Effort;
    forall c, w' | Happens(w, FinalCleanup(t, c), w')
      ensures Effort(w'.s.area, w'.sweep) < Effort(w.s.area, w.sweep)
    {
      EffortFalls(w, t, c, w');
    }
  }

  lemma FreeingHappens(w: Whole, t: nat)
    requires t < |w.d.threads| && w.d.threads[t].pc.Destroying? && w.sweep.Swept?
    ensures exists w' :: Happens(w, Destruct(t), w') && t < |w'.d.threads| && w'.d.threads[t].pc.Freed?
  {
    var w' := w.(d := Play(w.d, Proceed(t)).value);
    assert DestructStep(w, t, w');
    assert Happens(w, Destruct(t), w');
  }

  lemma CallToUse(w: Whole, t: nat) returns (c: nat)
    requires Together(w) && t < |w.d.threads| && w.d.threads[t].pc.Destroying? && !w.sweep.Swept?
    ensures c < |w.s.area.cleaners| && (w.sweep == Sweeping(c, Sure(w.sweep)) || w.sweep.NotYet?)
  {
    hide Inv, DropInv;
    c := if w.sweep.Sweeping? then w.sweep.c else 0;
  }

  lemma EffortFalls(w: Whole, t: nat, c: nat, w': Whole)
    requires Together(w) && Happens(w, FinalCleanup(t, c), w')
    ensures Effort(w'.s.area, w'.sweep) < Effort(w.s.area, w.sweep)
  {
    hide Inv, DropInv, Lone, CleanerNext, ExclusiveClean, KeysMatch, ReadersMatch, WritersMatch, UsersMatch,
         AuthorsAlive, Record, CallEffort;
    SlotsLeft(w, t);
    LoneBefore(w, t, c);
    LoneCleanerAgrees(w.s, c, Sure(w.sweep));
    CleanerEffort(w.s, c, Sure(w.sweep));
  }

  /** Checks and steps of a sweeping cleanup cost effort. */
  lemma CleanerEffort(s: State, c: nat, sure: bool)
    requires Inv(s) && Lone(s.area, c) && Sized(s.area) && CleanerNext(Natural, s.area, c).Some?
    requires if s.area.cleaners[c].CIdle? then !sure else SweepingTo(s.area, c, sure)
    requires forall i :: 0 <= i < |s.area.slots| ==> s.area.slots[i].word.suspended
    ensures var a, a' := s.area, CleanerNext(Natural, s.area, c).value;
            var n, k := |a.slots|, 2 * a.capacity;
            && |a'.slots| == n && a'.capacity == a.capacity && c < |a'.cleaners|
            && CallEffort(a'.cleaners[c], n, k, false) < (if a.cleaners[c].CIdle? then k + 2 * n + 7
                else CallEffort(a.cleaners[c], n, k, sure))
            && (a.cleaners[c].CAdvance? || a.cleaners[c].CDrop? ==>
                  CallEffort(a.cleaners[c], n, k, true) < CallEffort(a.cleaners[c], n, k, false))
            && CallEffort(CIdle, n, k, false) == 0
  {
    assert CleanerOK(s.area.cleaners[c], s.area.slots, s.area.last, s.area.read) && CountersOK(s.area);
    hide Inv, SlotsOK, CleanersOK, Scanned, RingSlot;
  }
}

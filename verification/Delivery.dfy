/** The protocol does its work: for every ring and table size and every sequence of messages there is a run
    in which a reader registers, the messages are reserved, written and published, and the reader is handed
    exactly this sequence, through as many turns of the ring as it takes. */
module Delivery {
  import opened Options
  import opened Protocol
  import opened Invariant
  import opened Preservation
  import opened Theorems
  import opened Cleanup
  import opened Exclusive
  import opened Teardown

  function LastOf(r: Run): State
    requires |r.states| > 0
  {
    r.states[|r.states| - 1]
  }

  ghost predicate Runs(r: Run, s: State)
  {
    IsRun(r) && |r.states| > 0 && LastOf(r) == s
  }

  lemma Extend(r: Run, s: State, l: Label, s': State) returns (r': Run)
    requires Runs(r, s) && Step(s, l, s')
    ensures Runs(r', s') && r'.states[0] == r.states[0]
  {
    assert r.states[|r.labels|] == s;
    hide Step, Fresh;
    RunGoesOn(r, l, s');
    r' := Run(r.states + [s'], r.labels + [l]);
  }

  lemma {:induction false} ExtendByCleans(r: Run, s: State, t: nat, s': State, k: nat) returns (r': Run)
    requires Runs(r, s) && CleansTo(s, t, s', k)
    ensures Runs(r', s') && r'.states[0] == r.states[0]
    ensures s'.hist.readers == s.hist.readers && s'.hist.log == s.hist.log
    decreases k
  {
    hide Step, Runs;
    if k == 0 {
      r' := r;
    } else {
      var m: State :| Step(s, Clean(t), m) && CleansTo(m, t, s', k - 1);
      CleanKeepsHistory(s, t, m);
      var r1 := Extend(r, s, Clean(t), m);
      r' := ExtendByCleans(r1, m, t, s', k - 1);
    }
  }

  lemma CleanKeepsHistory(s: State, t: nat, s': State)
    requires Step(s, Clean(t), s')
    ensures s'.hist.readers == s.hist.readers && s'.hist.log == s.hist.log
  {
    hide Next, Allowed;
  }

  lemma RunsInv(r: Run, s: State)
    requires Runs(r, s)
    ensures Inv(s)
  {
    hide Inv, Step, Fresh;
    RunInv(r, |r.states| - 1);
  }

  // ---------------------------------------------------------------- between two messages

  function Messages(values: seq<Value>): seq<Cell>
  {
    seq(|values|, i requires 0 <= i < |values| => Full(values[i]))
  }

  /** The reader in slot 0 has been handed `values`, which are all there is; everybody is at rest, and
      everything is cleaned up. */
  ghost predicate Settled(s: State, capacity: nat, readers: nat, values: seq<Value>)
  {
    var a, h, n := s.area, s.hist, |values|;
    && a.capacity == capacity > 0 && |a.ring| == capacity && |a.slots| == readers > 0 && |h.readers| == readers
    && a.free == a.last == a.read == a.write == n
    && a.slots[0] == Slot(true, Word(n, false), Ready)
    && (forall i :: 0 < i < readers ==> a.slots[i].word.suspended)
    && a.cleaners == [CIdle] && a.reservers == [RIdle] && a.outstanding == [] && 0 in a.writers
    && h.readers[0] == ReaderHist(0, Messages(values))
  }

  /** A reader registers in a fresh area. */
  lemma Registered(capacity: nat, readers: nat) returns (r: Run, s: State)
    requires capacity > 0 && readers > 0
    ensures Runs(r, s) && Settled(s, capacity, readers, [])
    ensures r.states[0] == InitialState(capacity, readers, 1, 1)
  {
    var s0 := InitialState(capacity, readers, 1, 1);
    assert Fresh(s0);
    var a := s0.area;
    var w := Word(0, true);
    var s1 := s0.(area := a.(slots := a.slots[0 := Slot(true, w, Claimed)]));
    var s2 := s0.(area := a.(slots := a.slots[0 := Slot(true, w, EnterTop(Register))]));
    var s3 := s0.(area := a.(slots := a.slots[0 := Slot(true, w, EnterCas(Register, w))]));
    s := s0.(area := a.(slots := a.slots[0 := Slot(true, Word(0, false), Ready)]));
    RegisterSteps(s0, s1, s2, s3, s);
    r := Run([s0], []);
    assert Runs(r, s0);
    hide Step, Fresh, InitialState;
    r := Extend(r, s0, Reader(0, Claim), s1);
    r := Extend(r, s1, Reader(0, Go), s2);
    r := Extend(r, s2, Reader(0, Go), s3);
    r := Extend(r, s3, Reader(0, Go), s);
  }

  lemma RegisterSteps(s0: State, s1: State, s2: State, s3: State, s: State)
    requires Sized(s0.area) && |s0.hist.readers| == |s0.area.slots| && s0.hist.readers[0] == ReaderHist(0, [])
    requires var a, w := s0.area, Word(0, true);
             && a.slots[0] == Slot(false, w, Nobody)
             && s1 == s0.(area := a.(slots := a.slots[0 := Slot(true, w, Claimed)]))
             && s2 == s0.(area := a.(slots := a.slots[0 := Slot(true, w, EnterTop(Register))]))
             && s3 == s0.(area := a.(slots := a.slots[0 := Slot(true, w, EnterCas(Register, w))]))
             && s == s0.(area := a.(slots := a.slots[0 := Slot(true, Word(0, false), Ready)]))
    ensures Step(s0, Reader(0, Claim), s1) && Step(s1, Reader(0, Go), s2) && Step(s2, Reader(0, Go), s3)
    ensures Step(s3, Reader(0, Go), s)
  {
    var a, w, rh := s0.area, Word(0, true), s0.hist.readers;
    assert rh[0 := ReaderHist(0, [])] == rh;
    SlotOver(a.slots, Slot(true, w, Claimed), Slot(true, w, EnterTop(Register)));
    SlotOver(a.slots, Slot(true, w, EnterTop(Register)), Slot(true, w, EnterCas(Register, w)));
    SlotOver(a.slots, Slot(true, w, EnterCas(Register, w)), Slot(true, Word(0, false), Ready));
  }

  lemma SlotOver(slots: seq<Slot>, x: Slot, y: Slot)
    requires |slots| > 0
    ensures slots[0 := x][0 := y] == slots[0 := y]
  {
  }

  // ---------------------------------------------------------------- one more message

  /** The writer reserves a slot, fills it with `v` and publishes it. */
  lemma WriteOne(r: Run, s: State, capacity: nat, readers: nat, values: seq<Value>, v: Value)
    returns (r': Run, s': State)
    requires Runs(r, s) && Settled(s, capacity, readers, values)
    ensures Runs(r', s') && r'.states[0] == r.states[0]
    ensures var a, n := s.area, |values|;
            && s'.area == a.(write := n + 1, read := n + 1, ring := a.ring[RingSlot(capacity, n) := Full(v)])
            && s'.hist == s.hist.(log := s.hist.log[n := v], authors := s.hist.authors + [ByWriter(0)])
  {
    var a, h, n := s.area, s.hist, |values|;
    var me, x := ByWriter(0), Reservation(|values|, |values| + 1, ByWriter(0));
    var ring := a.ring[RingSlot(capacity, n) := Full(v)];
    var s1 := s.(area := a.(reservers := [RGotFree(me, 1, false, n)]));
    var s2 := s.(area := a.(reservers := [RCas(me, n, 1)]));
    var s3 := s.(area := a.(write := n + 1, outstanding := [x]));
    var s4 := State(a.(write := n + 1, outstanding := [x], ring := ring), h.(log := h.log[n := v]));
    s' := State(a.(write := n + 1, read := n + 1, ring := ring), h.(log := h.log[n := v], authors := h.authors + [me]));
    ReserveSteps(s, s1, s2, s3, n);
    FillSteps(s, s3, s4, s', n, v);
    hide Step, Settled, Runs;
    r' := Extend(r, s, Reserve(0, me, 1, false), s1);
    r' := Extend(r', s1, ReserveGo(0), s2);
    r' := Extend(r', s2, ReserveGo(0), s3);
    r' := Extend(r', s3, Write(0, 0, v), s4);
    r' := Extend(r', s4, Publish(0), s');
  }

  lemma ReserveSteps(s: State, s1: State, s2: State, s3: State, n: nat)
    requires var a := s.area;
             && Sized(a) && |s.hist.readers| == |a.slots| && a.free == a.write == n
             && a.reservers == [RIdle] && a.outstanding == [] && 0 in a.writers
             && s1 == s.(area := a.(reservers := [RGotFree(ByWriter(0), 1, false, n)]))
             && s2 == s.(area := a.(reservers := [RCas(ByWriter(0), n, 1)]))
             && s3 == s.(area := a.(write := n + 1, outstanding := [Reservation(n, n + 1, ByWriter(0))]))
    ensures Step(s, Reserve(0, ByWriter(0), 1, false), s1) && Step(s1, ReserveGo(0), s2) && Step(s2, ReserveGo(0), s3)
  {
    var me := ByWriter(0);
    assert [RIdle][0 := RGotFree(me, 1, false, n)] == [RGotFree(me, 1, false, n)];
    assert [RGotFree(me, 1, false, n)][0 := RCas(me, n, 1)] == [RCas(me, n, 1)];
    assert [RCas(me, n, 1)][0 := RIdle] == [RIdle];
    assert [] + [Reservation(n, n + 1, me)] == [Reservation(n, n + 1, me)];
  }

  lemma FillSteps(s: State, s3: State, s4: State, s': State, n: nat, v: Value)
    requires Sized(s.area) && |s.hist.readers| == |s.area.slots|
    requires var a, h, me := s.area, s.hist, ByWriter(0);
             var x, ring := Reservation(n, n + 1, ByWriter(0)), a.ring[RingSlot(a.capacity, n) := Full(v)];
             && a.read == n && a.outstanding == []
             && s3 == s.(area := a.(write := n + 1, outstanding := [x]))
             && s4 == State(a.(write := n + 1, outstanding := [x], ring := ring), h.(log := h.log[n := v]))
             && s' == State(a.(write := n + 1, read := n + 1, ring := ring),
                 h.(log := h.log[n := v], authors := h.authors + [me]))
    ensures Step(s3, Write(0, 0, v), s4) && Step(s4, Publish(0), s')
  {
    var x := Reservation(n, n + 1, ByWriter(0));
    assert [x][..0] + [x][1..] == [];
    assert seq(1, _ => ByWriter(0)) == [ByWriter(0)];
  }

  /** The reader reads it ... */
  lemma TakeOne(r: Run, s: State, n: nat) returns (r': Run)
    requires Runs(r, s) && Sized(s.area) && |s.hist.readers| == |s.area.slots|
    requires s.area.slots[0] == Slot(true, Word(n, false), Ready) && s.area.read == n + 1
    ensures Runs(r', At0(s, Slot(true, Word(n, false), Holding(n, n + 1)))) && r'.states[0] == r.states[0]
  {
    hide Step, Runs, At0;
    var w := Word(n, false);
    var x1, x2 := Slot(true, w, ReadGen(ReadAll)), Slot(true, w, ReadEnd(ReadAll, n));
    var x3 := Slot(true, w, Holding(n, n + 1));
    At0Same(s);
    ReadStep(s, Slot(true, w, Ready), Read(ReadAll), x1);
    ReadStep(s, x1, Go, x2);
    ReadStep(s, x2, Go, x3);
    r' := Extend(r, s, Reader(0, Read(ReadAll)), At0(s, x1));
    r' := Extend(r', At0(s, x1), Reader(0, Go), At0(s, x2));
    r' := Extend(r', At0(s, x2), Reader(0, Go), At0(s, x3));
  }

  /** ... and drops the slice. */
  lemma ReadOne(r: Run, s: State, n: nat, v: Value) returns (r': Run, s': State)
    requires Runs(r, s) && Sized(s.area) && |s.hist.readers| == |s.area.slots|
    requires s.area.slots[0] == Slot(true, Word(n, false), Ready) && s.area.read == n + 1
    requires CellAt(s.area.ring, n) == Full(v)
    ensures Runs(r', s') && r'.states[0] == r.states[0]
    ensures var rh := s.hist.readers[0];
            && s'.area == s.area.(slots := s.area.slots[0 := Slot(true, Word(n + 1, false), Ready)])
            && s'.hist == s.hist.(readers := s.hist.readers[0 := rh.(delivered := rh.delivered + [Full(v)])])
  {
    hide Step, Runs, At0, CellsAt, CellAt;
    var w, rh := Word(n, false), s.hist.readers[0];
    var x3, x4 := Slot(true, w, Holding(n, n + 1)), Slot(true, w, SliceCheck(n, n + 1));
    var x5, x6 := Slot(true, w, SliceLoad(n + 1)), Slot(true, w, SliceStore(n + 1, w));
    s' := State(s.area.(slots := s.area.slots[0 := Slot(true, Word(n + 1, false), Ready)]),
                s.hist.(readers := s.hist.readers[0 := rh.(delivered := rh.delivered + [Full(v)])]));
    ReadStep(s, x3, DropSlice, x4);
    ReadStep(s, x4, Go, x5);
    ReadStep(s, x5, Go, x6);
    StoreStep(s, n, v, s');
    r' := TakeOne(r, s, n);
    r' := Extend(r', At0(s, x3), Reader(0, DropSlice), At0(s, x4));
    r' := Extend(r', At0(s, x4), Reader(0, Go), At0(s, x5));
    r' := Extend(r', At0(s, x5), Reader(0, Go), At0(s, x6));
    r' := Extend(r', At0(s, x6), Reader(0, Go), s');
  }

  function At0(s: State, x: Slot): State
    requires |s.area.slots| > 0
  {
    s.(area := s.area.(slots := s.area.slots[0 := x]))
  }

  lemma At0Same(s: State)
    requires |s.area.slots| > 0
    ensures At0(s, s.area.slots[0]) == s
  {
    assert s.area.slots[0 := s.area.slots[0]] == s.area.slots;
  }

  /** A step of the reader that hands nothing over. */
  lemma ReadStep(s: State, x: Slot, op: ReaderOp, y: Slot)
    requires Sized(s.area) && |s.hist.readers| == |s.area.slots|
    requires ReaderNext(Natural, x, op, s.area.read, s.area.writers == {}) == Some(y)
    requires !x.word.suspended && !x.pc.SliceStore? && !x.pc.EnterCas? && (op.ResumingAt? ==> op.entry <= s.area.read)
    ensures Step(At0(s, x), Reader(0, op), At0(s, y))
  {
    hide ReaderNext;
    assert s.hist.readers[0 := s.hist.readers[0]] == s.hist.readers;
    SlotOver(s.area.slots, x, y);
  }

  lemma StoreStep(s: State, n: nat, v: Value, s': State)
    requires Sized(s.area) && |s.hist.readers| == |s.area.slots| && CellAt(s.area.ring, n) == Full(v)
    requires var rh := s.hist.readers[0];
             s' == State(s.area.(slots := s.area.slots[0 := Slot(true, Word(n + 1, false), Ready)]),
                         s.hist.(readers := s.hist.readers[0 := rh.(delivered := rh.delivered + [Full(v)])]))
    ensures Step(At0(s, Slot(true, Word(n, false), SliceStore(n + 1, Word(n, false)))), Reader(0, Go), s')
  {
    SlotOver(s.area.slots, Slot(true, Word(n, false), SliceStore(n + 1, Word(n, false))),
        Slot(true, Word(n + 1, false), Ready));
    assert CellsAt(s.area.ring, n, n + 1) == [Full(v)];
  }

  /** The cleaner makes room for the next one. */
  lemma CleanOne(r: Run, s: State, n: nat) returns (r': Run, s': State)
    requires Runs(r, s) && |s.area.slots| > 0 && s.area.slots[0] == Slot(true, Word(n + 1, false), Ready)
    requires forall i :: 0 < i < |s.area.slots| ==> s.area.slots[i].word.suspended
    requires s.area.cleaners == [CIdle] && s.area.last == n && s.area.read == n + 1
    ensures Runs(r', s') && r'.states[0] == r.states[0]
    ensures s'.hist.readers == s.hist.readers && s'.hist.log == s.hist.log && |s'.area.ring| == |s.area.ring|
    ensures s'.area == s.area.(last := n + 1, free := n + 1, slots := s'.area.slots, ring := s'.area.ring)
    ensures |s'.area.slots| == |s.area.slots| && s'.area.slots[0] == s.area.slots[0]
    ensures forall i :: 0 < i < |s.area.slots| ==> s'.area.slots[i].word.suspended
  {
    hide Inv, Step, Runs, CleansTo, Least, ScannedSlots;
    RunsInv(r, s);
    NothingQueued(s);
    LeastHere(s, n);
    var k;
    k, s' := UndisturbedCleanup(s, 0);
    r' := ExtendByCleans(r, s, 0, s', k);
    ScannedHere(s);
    InvSizes(s);
    InvSizes(s');
  }

  lemma NothingQueued(s: State)
    requires Inv(s) && s.area.cleaners == [CIdle]
    ensures s.hist.pending == []
  {
    hide CleanersOK, ReserversOK, LogOK, HoldsAll, UndroppedOK, DropsOK, DeliveriesOK, WritersOK, SlotsOK, PendingOK;
    QueueHead(s.hist.pending, s.area.cleaners, s.area.free, s.area.last);
  }

  lemma LeastHere(s: State, n: nat)
    requires |s.area.slots| > 0 && s.area.slots[0].word == Word(n + 1, false) && s.area.read == n + 1
    requires forall i :: 0 < i < |s.area.slots| ==> s.area.slots[i].word.suspended
    ensures Least(s.area) == n + 1
  {
    ScanMinIsLeast(Words(s.area.slots), 0, n + 1);
  }

  lemma ScannedHere(s: State)
    requires |s.area.slots| > 0 && !s.area.slots[0].word.suspended
    requires forall i :: 0 < i < |s.area.slots| ==> s.area.slots[i].word.suspended
    ensures |ScannedSlots(s.area)| == |s.area.slots| && ScannedSlots(s.area)[0] == s.area.slots[0]
    ensures forall i :: 0 < i < |s.area.slots| ==> ScannedSlots(s.area)[i].word.suspended
  {
    var a := s.area;
    forall i | 0 <= i < |a.slots|
      ensures ScannedSlots(a)[i].word.suspended == a.slots[i].word.suspended
      ensures !a.slots[i].word.suspended ==> ScannedSlots(a)[i] == a.slots[i]
    {
      ScanWordsAt(Words(a.slots), 0, a.read, i);
    }
  }

  lemma OneMore(r: Run, s: State, capacity: nat, readers: nat, values: seq<Value>, v: Value)
    returns (r': Run, s': State)
    requires Runs(r, s) && Settled(s, capacity, readers, values)
    ensures Runs(r', s') && Settled(s', capacity, readers, values + [v]) && r'.states[0] == r.states[0]
  {
    hide Runs, Step;
    var r1, s1 := WriteOne(r, s, capacity, readers, values, v);
    var r2, s2 := ReadOne(r1, s1, |values|, v);
    r', s' := CleanOne(r2, s2, |values|);
    assert Messages(values) + [Full(v)] == Messages(values + [v]);
  }

  // ---------------------------------------------------------------- any sequence

  lemma {:induction false} Delivered(capacity: nat, readers: nat, values: seq<Value>) returns (r: Run, s: State)
    requires capacity > 0 && readers > 0
    ensures Runs(r, s) && Settled(s, capacity, readers, values)
    ensures r.states[0] == InitialState(capacity, readers, 1, 1)
    decreases |values|
  {
    hide Runs, Settled, InitialState;
    if values == [] {
      r, s := Registered(capacity, readers);
    } else {
      var n := |values| - 1;
      r, s := Delivered(capacity, readers, values[..n]);
      r, s := OneMore(r, s, capacity, readers, values[..n], values[n]);
      assert values[..n] + [values[n]] == values;
    }
  }

  /** Every sequence of messages can be sent: some run from a fresh area ends with exactly these messages
      published by an AreaWriter, and all of them, once each and in order, in the hands of a registered
      reader. */
  lemma EverySequenceIsDelivered(capacity: nat, readers: nat, values: seq<Value>) returns (r: Run)
    requires capacity > 0 && readers > 0
    ensures IsRun(r) && r.states[0] == InitialState(capacity, readers, 1, 1)
    ensures var a, h := LastOf(r).area, LastOf(r).hist;
            && a.capacity == capacity && |a.slots| == readers == |h.readers| && a.read == |values|
            && (forall g :: 0 <= g < |values| ==> g in h.log && h.log[g] == values[g])
            && a.slots[0].occupied && a.slots[0].pc.Ready? && !a.slots[0].word.suspended
            && h.readers[0].delivered == Messages(values)
  {
    var s;
    r, s := Delivered(capacity, readers, values);
    hide Step, Fresh;
    ReaderGetsTheStretch(r, |r.states| - 1, 0);
    var h := s.hist;
    forall g | 0 <= g < |values|
      ensures g in h.log && h.log[g] == values[g]
    {
      assert IsMessage(h.readers[0].delivered[g], h.log, h.readers[0].entry + g);
    }
  }
}

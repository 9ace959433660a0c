/** Fold insertion (`get_or_insert_concurrent`, `src/map.rs`) by one thread while others insert, finish
    and remove as they like: each load and each compare-and-swap of the inserting thread is a step, with
    any number of other threads' updates in between. */
module ConcurrentInsert {
  import opened Arithmetic
  import opened ReaderTable

  datatype InsertPc =
    | Loading(i: nat)                  // about to load the i-th probed slot
    | Claiming(i: nat)                 // has seen it EMPTY, about to CAS
    | Claimed(index: nat, key: nat)
    | Null                             // returned the null pointer

  datatype Table = Table(keys: seq<nat>, pc: InsertPc)

  datatype Event = Mine | Theirs(update: KeyStep)

  /** The arguments of the call. */
  datatype Call = Call(key: nat, offset: nat, n: nat)

  /** Go on with the i-th probe, or give up. */
  function Probing(capacity: nat, c: Call, i: nat): InsertPc
  {
    if i < Probes(capacity, c.n) then Loading(i) else Null
  }

  function Mover(w: Width, c: Call, t: Table): Table
    requires |t.keys| > 0
  {
    var capacity := |t.keys|;
    match t.pc
    case Loading(i) =>
      t.(pc := if t.keys[ProbeAt(capacity, c.key, c.offset, i)] == EMPTY then Claiming(i)
          else Probing(capacity, c, i + 1))
    case Claiming(i) =>
      var idx, k := ProbeAt(capacity, c.key, c.offset, i), FoldedKey(w, capacity, c.key, c.offset, i);
      if t.keys[idx] == EMPTY then Table(t.keys[idx := k], Claimed(idx, k)) else t.(pc := Probing(capacity, c, i + 1))
    case _ => t
  }

  function Happens(w: Width, c: Call, t: Table, e: Event): (t': Table)
    requires |t.keys| > 0
    ensures |t'.keys| == |t.keys|
  {
    match e
    case Mine => Mover(w, c, t)
    case Theirs(update) => t.(keys := KeyNext(w, t.keys, update))
  }

  /** A call on table `keys`, from its beginning. */
  ghost predicate IsCall(w: Width, c: Call, ts: seq<Table>, es: seq<Event>)
  {
    && |ts| == |es| + 1
    && TableOK(w, ts[0].keys) && |ts[0].keys| > 0 && ts[0].pc == Probing(|ts[0].keys|, c, 0)
    && forall p :: 0 <= p < |es| ==> |ts[p].keys| == |ts[0].keys| && ts[p + 1] == Happens(w, c, ts[p], es[p])
  }

  predicate Full(keys: seq<nat>) { forall j :: 0 <= j < |keys| ==> keys[j] != EMPTY }

  /** The event takes a key out of the table. */
  predicate Clears(keys: seq<nat>, e: Event)
  {
    e.Theirs? && e.update.ClearSlot? && e.update.index < |keys| && keys[e.update.index] != EMPTY
  }

  /** How many probes have found their slot taken. */
  function Seen(capacity: nat, c: Call, pc: InsertPc): nat
  {
    match pc
    case Loading(i) => i
    case Claiming(i) => i
    case Claimed(_, _) => 0
    case Null => Probes(capacity, c.n)
  }

  /** The probed slots are taken. */
  ghost predicate ProbedTaken(c: Call, t: Table)
    requires |t.keys| > 0
  {
    && (t.pc.Loading? || t.pc.Claiming? ==> t.pc.i < Probes(|t.keys|, c.n))
    && forall j :: 0 <= j < Seen(|t.keys|, c, t.pc) ==> t.keys[ProbeAt(|t.keys|, c.key, c.offset, j)] != EMPTY
  }

  /** The event clears a slot that the call has already found taken. */
  ghost predicate ClearsProbed(c: Call, t: Table, e: Event)
    requires |t.keys| > 0
  {
    && Clears(t.keys, e)
    && exists j :: 0 <= j < Seen(|t.keys|, c, t.pc) && ProbeAt(|t.keys|, c.key, c.offset, j) == e.update.index
  }

  /** An event keeps the table's keys at home, and a taken slot taken unless it clears this very slot. */
  lemma EventKeeps(w: Width, c: Call, t: Table, e: Event)
    requires TableOK(w, t.keys) && |t.keys| > 0
    ensures TableOK(w, Happens(w, c, t, e).keys)
    ensures forall j :: 0 <= j < |t.keys| && t.keys[j] != EMPTY && !(Clears(t.keys, e) && e.update.index == j) ==>
              Happens(w, c, t, e).keys[j] != EMPTY
  {
    hide FoldedKey, Contents, GoodCapacity, IndexFor, SetMsb, Modulus;
    match e
    case Mine =>
      if t.pc.Claiming? {
        KeyStepKeeps(w, t.keys, ClaimSlot(c.key, c.offset, t.pc.i));
        FoldedIsAtHome(w, |t.keys|, c.key, c.offset, t.pc.i);
      }
    case Theirs(update) =>
      KeyStepKeeps(w, t.keys, update);
      if update.ClaimSlot? { FoldedIsAtHome(w, |t.keys|, update.key, update.offset, update.probes); }
  }

  /** The probed slots stay taken unless one of them is cleared. */
  lemma ProbedStayTaken(w: Width, c: Call, t: Table, e: Event)
    requires TableOK(w, t.keys) && |t.keys| > 0 && ProbedTaken(c, t) && !ClearsProbed(c, t, e)
    ensures TableOK(w, Happens(w, c, t, e).keys) && ProbedTaken(c, Happens(w, c, t, e))
  {
    hide TableOK, FoldedKey, KeyNext, IndexFor, Clears;
    EventKeeps(w, c, t, e);
  }

  ghost predicate NoProbedCleared(c: Call, ts: seq<Table>, es: seq<Event>, p: nat)
    requires |ts| == |es| + 1
  {
    forall q :: 0 <= q < p && q < |es| && |ts[q].keys| > 0 ==> !ClearsProbed(c, ts[q], es[q])
  }

  lemma {:induction false} CallKeeps(w: Width, c: Call, ts: seq<Table>, es: seq<Event>, p: nat)
    requires IsCall(w, c, ts, es) && p < |ts|
    ensures |ts[p].keys| == |ts[0].keys| > 0 && TableOK(w, ts[p].keys)
    ensures NoProbedCleared(c, ts, es, p) ==> ProbedTaken(c, ts[p])
  {
    if p > 0 {
      CallKeeps(w, c, ts, es, p - 1);
      EventKeeps(w, c, ts[p - 1], es[p - 1]);
      assert ts[p] == Happens(w, c, ts[p - 1], es[p - 1]);
      if NoProbedCleared(c, ts, es, p) {
        assert NoProbedCleared(c, ts, es, p - 1) && !ClearsProbed(c, ts[p - 1], es[p - 1]);
        hide TableOK, FoldedKey, KeyNext, IsCall, NoProbedCleared, ClearsProbed, IndexFor;
        ProbedStayTaken(w, c, ts[p - 1], es[p - 1]);
      }
    }
  }

  /** Having probed as many slots as there are and found them taken is having found the table full. */
  lemma NullIsFull(c: Call, t: Table)
    requires |t.keys| > 0 && ProbedTaken(c, t) && t.pc.Null? && Probes(|t.keys|, c.n) == |t.keys|
    ensures Full(t.keys)
  {
    forall j | 0 <= j < |t.keys|
      ensures t.keys[j] != EMPTY
    {
      var i := ProbesCover(|t.keys|, c.key, c.offset, j);
    }
  }

  /** A null pointer after as many probes as there are slots: the table is full, or a slot that the call
      had already found taken has been cleared since. */
  lemma NullMeansFullOrCleared(w: Width, c: Call, ts: seq<Table>, es: seq<Event>, p: nat)
    requires IsCall(w, c, ts, es) && p < |ts| && ts[p].pc.Null? && Probes(|ts[0].keys|, c.n) == |ts[0].keys|
    ensures Full(ts[p].keys) || exists q :: 0 <= q < p && |ts[q].keys| > 0 && ClearsProbed(c, ts[q], es[q])
  {
    CallKeeps(w, c, ts, es, p);
    hide IsCall, ClearsProbed;
    if NoProbedCleared(c, ts, es, p) { NullIsFull(c, ts[p]); }
  }

  // ---------------------------------------------------------------- every call ends

  /** How many steps of its own a call has left, at most. */
  function StepsLeft(n: nat, pc: InsertPc): nat
  {
    match pc
    case Loading(i) => if i < n then 2 * (n - i) else 0
    case Claiming(i) => if i < n then 2 * (n - i) - 1 else 0
    case _ => 0
  }

  function OwnSteps(es: seq<Event>): nat
  {
    if es == [] then 0 else OwnSteps(es[..|es| - 1]) + (if es[|es| - 1].Mine? then 1 else 0)
  }

  lemma {:induction false} OwnStepsCount(w: Width, c: Call, ts: seq<Table>, es: seq<Event>, p: nat)
    requires IsCall(w, c, ts, es) && p < |ts| && (ts[p].pc.Loading? || ts[p].pc.Claiming?)
    ensures ts[p].pc.i < Probes(|ts[0].keys|, c.n)
    ensures OwnSteps(es[..p]) + StepsLeft(Probes(|ts[0].keys|, c.n), ts[p].pc) <= 2 * Probes(|ts[0].keys|, c.n)
  {
    if p > 0 {
      assert ts[p] == Happens(w, c, ts[p - 1], es[p - 1]);
      assert es[..p][..p - 1] == es[..p - 1] && es[..p][p - 1] == es[p - 1];
      hide FoldedKey, KeyNext, IndexFor;
      OwnStepsCount(w, c, ts, es, p - 1);
    }
  }

  /** Two steps of its own for each slot to be probed, and a call has ended, whatever the others do. */
  lemma CallEnds(w: Width, c: Call, ts: seq<Table>, es: seq<Event>, p: nat)
    requires IsCall(w, c, ts, es) && p < |ts| && OwnSteps(es[..p]) >= 2 * Probes(|ts[0].keys|, c.n)
    ensures ts[p].pc.Claimed? || ts[p].pc.Null?
  {
    hide IsCall;
    if ts[p].pc.Loading? || ts[p].pc.Claiming? { OwnStepsCount(w, c, ts, es, p); }
  }

  /** And then it has claimed a slot, if it probed the whole table, the table is not full, and no slot it
      had found taken was cleared meanwhile. */
  lemma CallSucceeds(w: Width, c: Call, ts: seq<Table>, es: seq<Event>, p: nat)
    requires IsCall(w, c, ts, es) && p < |ts| && OwnSteps(es[..p]) >= 2 * |ts[0].keys|
    requires Probes(|ts[0].keys|, c.n) == |ts[0].keys| && !Full(ts[p].keys) && NoProbedCleared(c, ts, es, p)
    ensures ts[p].pc.Claimed?
  {
    CallEnds(w, c, ts, es, p);
    if ts[p].pc.Null? { NullMeansFullOrCleared(w, c, ts, es, p); }
  }

  // ---------------------------------------------------------------- exactly which removals mislead

  function HappenAll(w: Width, c: Call, t: Table, es: seq<Event>): (t': Table)
    requires |t.keys| > 0
    ensures |t'.keys| == |t.keys|
    decreases |es|
  {
    if es == [] then t else HappenAll(w, c, Happens(w, c, t, es[0]), es[1..])
  }

  /** No event clears a slot the call has already found taken. */
  ghost predicate Harmless(w: Width, c: Call, t: Table, es: seq<Event>)
    requires |t.keys| > 0
    decreases |es|
  {
    es == [] || (!ClearsProbed(c, t, es[0]) && Harmless(w, c, Happens(w, c, t, es[0]), es[1..]))
  }

  /** Some harmless continuation ends in a null pointer with a table that is not full. */
  ghost predicate CanMislead(w: Width, c: Call, t: Table)
    requires |t.keys| > 0
  {
    exists es :: Harmless(w, c, t, es) && HappenAll(w, c, t, es).pc.Null? && !Full(HappenAll(w, c, t, es).keys)
  }

  lemma {:induction false} HarmlessKeeps(w: Width, c: Call, t: Table, es: seq<Event>)
    requires TableOK(w, t.keys) && |t.keys| > 0 && ProbedTaken(c, t) && Harmless(w, c, t, es)
    ensures ProbedTaken(c, HappenAll(w, c, t, es))
    decreases |es|
  {
    hide TableOK, ProbedTaken, Happens, ClearsProbed;
    if es != [] {
      ProbedStayTaken(w, c, t, es[0]);
      HarmlessKeeps(w, c, Happens(w, c, t, es[0]), es[1..]);
    }
  }

  /** Another thread claims slot `s`. */
  lemma TakeSlot(w: Width, c: Call, t: Table, s: nat)
    requires TableOK(w, t.keys) && |t.keys| > 0 && s < |t.keys| && t.keys[s] == EMPTY
    ensures var t' := Happens(w, c, t, Theirs(ClaimSlot(s, 0, 0)));
            t'.pc == t.pc && TableOK(w, t'.keys) && t'.keys[s] != EMPTY
            && forall i :: 0 <= i < |t.keys| && i != s ==> t'.keys[i] == t.keys[i]
  {
    RemainderUnique(s, 0, s, |t.keys|);
    hide FoldedKey, Contents, AtHome, GoodCapacity;
    KeyStepKeeps(w, t.keys, ClaimSlot(s, 0, 0));
    FoldedIsAtHome(w, |t.keys|, s, 0, 0);
  }

  /** The calling thread steps over a slot that is taken. */
  lemma StepOver(w: Width, c: Call, t: Table)
    requires |t.keys| > 0 && (t.pc.Loading? || t.pc.Claiming?)
    requires t.keys[ProbeAt(|t.keys|, c.key, c.offset, t.pc.i)] != EMPTY
    ensures Happens(w, c, t, Mine) == t.(pc := Probing(|t.keys|, c, t.pc.i + 1))
  {
  }

  /** A slot that was probed before the i-th one is not probed again. */
  lemma ProbesDiffer(capacity: nat, c: Call, i: nat, j: nat)
    requires j < i < capacity
    ensures ProbeAt(capacity, c.key, c.offset, i) != ProbeAt(capacity, c.key, c.offset, j)
  {
    IndexSeparates(capacity, c.key + c.offset + j, c.key + c.offset + i);
  }

  /** With an EMPTY slot behind it, the call can be led past all the others: whenever it comes to an EMPTY
      slot, another thread is faster. */
  lemma {:induction false} LedAstray(w: Width, c: Call, t: Table, j: nat) returns (es: seq<Event>)
    requires TableOK(w, t.keys) && |t.keys| > 0 && Probes(|t.keys|, c.n) == |t.keys|
    requires (t.pc.Loading? || t.pc.Claiming?) && j < t.pc.i < |t.keys|
    requires t.keys[ProbeAt(|t.keys|, c.key, c.offset, j)] == EMPTY
    ensures Harmless(w, c, t, es) && HappenAll(w, c, t, es).pc.Null? && !Full(HappenAll(w, c, t, es).keys)
    decreases |t.keys| - t.pc.i
  {
    hide TableOK, ProbeAt, KeyNext, Mover, Full;
    var capacity := |t.keys|;
    var s := ProbeAt(capacity, c.key, c.offset, t.pc.i);
    var behind := ProbeAt(capacity, c.key, c.offset, j);
    ProbesDiffer(capacity, c, t.pc.i, j);
    var t1 := t;
    if t.keys[s] == EMPTY {
      TakeSlot(w, c, t, s);
      t1 := Happens(w, c, t, Theirs(ClaimSlot(s, 0, 0)));
    }
    StepOver(w, c, t1);
    var t2 := Happens(w, c, t1, Mine);
    var rest := [];
    if t2.pc.Loading? {
      rest := LedAstray(w, c, t2, j);
    } else {
      NotFull(t2.keys, behind);
    }
    OneMore(w, c, t1, Mine, rest);
    es := [Mine] + rest;
    if t.keys[s] == EMPTY {
      OneMore(w, c, t, Theirs(ClaimSlot(s, 0, 0)), es);
      es := [Theirs(ClaimSlot(s, 0, 0))] + es;
    }
  }

  lemma OneMore(w: Width, c: Call, t: Table, e: Event, es: seq<Event>)
    requires |t.keys| > 0 && !Clears(t.keys, e) && Harmless(w, c, Happens(w, c, t, e), es)
    ensures Harmless(w, c, t, [e] + es)
    ensures HappenAll(w, c, t, [e] + es) == HappenAll(w, c, Happens(w, c, t, e), es)
  {
    assert ([e] + es)[1..] == es;
  }

  lemma NotFull(keys: seq<nat>, i: nat)
    requires i < |keys| && keys[i] == EMPTY
    ensures !Full(keys)
  {
  }

  /** After any event of a call that probes the whole table: some harmless continuation returns a null
      pointer although the table is not full if and only if the event cleared a slot that the call had
      already found taken. */
  lemma MisleadsIffProbedCleared(w: Width, c: Call, t: Table, e: Event)
    requires TableOK(w, t.keys) && |t.keys| > 0 && Probes(|t.keys|, c.n) == |t.keys|
    requires ProbedTaken(c, t) && (t.pc.Loading? || t.pc.Claiming?)
    ensures CanMislead(w, c, Happens(w, c, t, e)) <==> ClearsProbed(c, t, e)
  {
    var t' := Happens(w, c, t, e);
    if ClearsProbed(c, t, e) {
      var j :| 0 <= j < t.pc.i && ProbeAt(|t.keys|, c.key, c.offset, j) == e.update.index;
      EventKeeps(w, c, t, e);
      hide TableOK;
      var es := LedAstray(w, c, t', j);
    } else {
      ProbedStayTaken(w, c, t, e);
      hide TableOK, ProbedTaken, Happens, ClearsProbed;
      if es :| Harmless(w, c, t', es) && HappenAll(w, c, t', es).pc.Null? && !Full(HappenAll(w, c, t', es).keys) {
        HarmlessKeeps(w, c, t', es);
        NullIsFull(c, HappenAll(w, c, t', es));
        assert false;
      }
    }
  }

  predicate NothingCleared(ts: seq<Table>, es: seq<Event>, p: nat)
    requires |ts| == |es| + 1
  {
    forall q :: 0 <= q < p && q < |es| ==> !Clears(ts[q].keys, es[q])
  }

  /** And on a table that is full to begin with, every call that nothing is cleared during ends so. */
  lemma {:induction false} FullMeansNull(w: Width, c: Call, ts: seq<Table>, es: seq<Event>, p: nat)
    requires IsCall(w, c, ts, es) && p < |ts| && Full(ts[0].keys) && NothingCleared(ts, es, p)
    ensures ts[p].pc.Loading? || ts[p].pc.Null?
    ensures Full(ts[p].keys)
  {
    if p > 0 {
      FullMeansNull(w, c, ts, es, p - 1);
      CallKeeps(w, c, ts, es, p - 1);
      EventKeeps(w, c, ts[p - 1], es[p - 1]);
    }
  }

  /** A successful call has added one id that was not in the table, at the slot it reports, whatever the
      others did in the meantime. */
  lemma ClaimAddsAFreshId(w: Width, c: Call, ts: seq<Table>, es: seq<Event>, p: nat)
    requires IsCall(w, c, ts, es) && p < |es| && !ts[p].pc.Claimed? && ts[p + 1].pc.Claimed?
    ensures TableOK(w, ts[p].keys) && TableOK(w, ts[p + 1].keys) && |ts[p].keys| > 0
    ensures var pc := ts[p + 1].pc;
            && IndexFor(|ts[p].keys|, KeyBits(w, pc.key), 0) == pc.index
            && KeyBits(w, pc.key) != 0 && KeyBits(w, pc.key) !in Contents(w, ts[p].keys)
            && Contents(w, ts[p + 1].keys) == Contents(w, ts[p].keys)[KeyBits(w, pc.key) := pc.index]
  {
    CallKeeps(w, c, ts, es, p);
    CallKeeps(w, c, ts, es, p + 1);
    assert ts[p + 1] == Happens(w, c, ts[p], es[p]);
    hide IsCall, Contents, FoldedKey, KeyBits, IndexFor, AtHome, GoodCapacity, KeyNext;
    ClaimIsAnUpdate(w, c, ts[p], es[p]);
    KeyStepKeeps(w, ts[p].keys, ClaimSlot(c.key, c.offset, ts[p].pc.i));
    FoldedIsAtHome(w, |ts[p].keys|, c.key, c.offset, ts[p].pc.i);
  }

  lemma ClaimIsAnUpdate(w: Width, c: Call, t: Table, e: Event)
    requires |t.keys| > 0 && !t.pc.Claimed? && Happens(w, c, t, e).pc.Claimed?
    ensures t.pc.Claiming?
    ensures var idx, k := IndexFor(|t.keys|, c.key, c.offset + t.pc.i), FoldedKey(w, |t.keys|, c.key, c.offset, t.pc.i);
            && t.keys[idx] == EMPTY
            && Happens(w, c, t, e) == Table(KeyNext(w, t.keys, ClaimSlot(c.key, c.offset, t.pc.i)), Claimed(idx, k))
  {
    hide FoldedKey, IndexFor;
  }

  /** A null pointer does not always mean a full table: between the two probes of this call another
      thread clears the slot already passed, and one takes the slot still to come. */
  lemma NullWithoutFull(w: Width) returns (c: Call, ts: seq<Table>, es: seq<Event>)
    requires w >= 3
    ensures IsCall(w, c, ts, es) && |ts[0].keys| == Probes(2, c.n) == 2 && ts[|es|].pc.Null?
    ensures forall p :: 0 <= p < |ts| ==> !Full(ts[p].keys)
  {
    WidthFacts(w);
    c := Call(2, 0, 2);
    var k := FoldedKey(w, 2, 1, 0, 0);
    assert Pow2(1) == 2;
    CapacityFacts(w, 2);
    TwoSlots(w);
    FoldedIsAtHome(w, 2, 1, 0, 0);
    ts := [Table([2, EMPTY], Loading(0)), Table([2, EMPTY], Loading(1)), Table([EMPTY, EMPTY], Loading(1)),
           Table([EMPTY, k], Loading(1)), Table([EMPTY, k], Null)];
    es := [Mine, Theirs(ClearSlot(0)), Theirs(ClaimSlot(1, 0, 0)), Mine];
    assert ts[1] == Happens(w, c, ts[0], es[0]);
    assert [2, EMPTY][0 := EMPTY] == [EMPTY, EMPTY];
    assert ts[2] == Happens(w, c, ts[1], es[1]);
    assert [EMPTY, EMPTY][1 := k] == [EMPTY, k];
    assert ts[3] == Happens(w, c, ts[2], es[2]);
    assert ts[4] == Happens(w, c, ts[3], es[3]);
    assert ts[0].keys[1] == EMPTY && ts[1].keys[1] == EMPTY && ts[2].keys[1] == EMPTY && ts[3].keys[0] == EMPTY
        && ts[4].keys[0] == EMPTY;
  }

  /** The key 2 is at home in slot 0 of a table of two. */
  lemma TwoSlots(w: Width)
    requires w >= 3
    ensures TableOK(w, [2, EMPTY])
  {
    WidthFacts(w);
    PowMonotone(2, w - 1);
    assert Pow2(1) == 2 && Pow2(2) == 4;
    RemainderUnique(2, 0, 2, Half(w));
  }
}

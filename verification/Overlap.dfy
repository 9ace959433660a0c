/** Exactly when a registration endangers the area: the scan in a reader's destructor is not a snapshot,
    and a reader that registers in a slot the scan has passed can be destroyed under; any other
    registration cannot lead to that. */
module Overlap {
  import opened Options
  import opened Tournament
  import opened DropProgress

  /** Somebody frees the area although a reader is alive. */
  ghost predicate DestroyedUnderAReader(d: Drops)
  {
    && (exists t :: 0 <= t < |d.threads| && d.threads[t].pc.Destroying?)
    && (exists u :: 0 <= u < |d.threads| && d.threads[u].pc.LiveReader?)
  }

  /** The moves are possible one after the other, none of them a registration behind a scan. */
  ghost predicate SafeMoves(d: Drops, ms: seq<Move>)
    decreases |ms|
  {
    ms == [] || (NoOverlap(d, ms[0]) && Play(d, ms[0]).Some? && SafeMoves(Play(d, ms[0]).value, ms[1..]))
  }

  /** Some continuation without further overlap ends in a destroyed area with a live reader. */
  ghost predicate EndsBadly(d: Drops)
  {
    exists ms :: SafeMoves(d, ms) && PlayAll(d, ms).Some? && DestroyedUnderAReader(PlayAll(d, ms).value)
  }

  // ---------------------------------------------------------------- what is safe

  lemma {:induction false} SafeMovesKeep(d: Drops, ms: seq<Move>)
    requires DropInv(d) && SafeMoves(d, ms)
    ensures PlayAll(d, ms).Some? && DropInv(PlayAll(d, ms).value)
    decreases |ms|
  {
    hide DropInv, NoOverlap, Play;
    if ms != [] {
      MoveKeeps(d, ms[0], Play(d, ms[0]).value);
      SafeMovesKeep(Play(d, ms[0]).value, ms[1..]);
    }
  }

  lemma SafeStatesEndWell(d: Drops)
    requires DropInv(d)
    ensures !EndsBadly(d)
  {
    hide DropInv, Play;
    if ms :| SafeMoves(d, ms) && PlayAll(d, ms).Some? && DestroyedUnderAReader(PlayAll(d, ms).value) {
      SafeMovesKeep(d, ms);
      var d' := PlayAll(d, ms).value;
      var t :| 0 <= t < |d'.threads| && d'.threads[t].pc.Destroying?;
      WinnerIsAlone(d', t);
      assert false;
    }
  }

  // ---------------------------------------------------------------- what is not

  /** Reader `n` has registered in `slot`, which scanner `t` has passed, and nobody has found the table
      empty so far. */
  ghost predicate Behind(d: Drops, n: nat, slot: nat, t: nat)
  {
    && n < |d.threads| && slot < |d.keys| && d.threads[n] == Thread(LiveReader, slot)
    && t < |d.threads| && d.threads[t].pc.Scanning? && slot < d.threads[t].pc.pos
    && TicketsOK(d) && KeysOK(d.keys, d.threads) && PositionsOK(d.keys, d.threads) && WriterTicket(d) && WinnerOK(d)
    && Count(d.threads, KAttempt) == 0 && Count(d.threads, KDecR) == 0 && ReaderSide !in d.passed
  }

  /** A registration is made by a live reader, so nobody can have found the table empty. */
  lemma RegisteredBehind(d: Drops, m: Move, d': Drops) returns (t: nat)
    requires DropInv(d) && Play(d, m) == Some(d') && !NoOverlap(d, m)
    ensures m.CreateReader? && Behind(d', |d.threads|, m.slot, t)
  {
    hide Count, KeysOK;
    t :| 0 <= t < |d.threads| && d.threads[t].pc.Scanning? && m.slot < d.threads[t].pc.pos;
    CountWitness(d.threads, KKeyed);
    assert Is(KKeyed, d.threads[m.via].pc);
    var x := d'.threads[|d.threads|];
    assert d'.threads == d.threads + [x];
    forall k: Kind
      ensures Count(d'.threads, k) == Count(d.threads, k) + (if Is(k, x.pc) then 1 else 0)
    {
      CountAppend(d.threads, x, k);
    }
    KeysAfterJoining(d.keys, d.threads, m.slot);
  }

  /** Another reader still in the table, or a scan that has not passed `slot` yet. */
  predicate Astray(d: Drops, n: nat, slot: nat, u: nat)
  {
    && u < |d.threads| && u != n
    && var pc := d.threads[u].pc; pc.LiveReader? || pc.Unregistering? || (pc.Scanning? && pc.pos <= slot)
  }

  /** Its next step: such a thread never gets past `slot`, where it sees the key of reader `n`. */
  lemma AstrayMoves(d: Drops, n: nat, slot: nat, t: nat, u: nat) returns (m: Move)
    requires Behind(d, n, slot, t) && Astray(d, n, slot, u)
    ensures !Creates(m) && Play(d, m).Some? && Play(d, m).value != d
    ensures Behind(Play(d, m).value, n, slot, t)
  {
    hide Count, KeysOK, WriterTicket, WinnerOK, TicketsOK;
    m := if d.threads[u].pc.LiveReader? then Drop(u) else Proceed(u);
    KeyedApart(d.keys, d.threads, n, u);
    var d' := Play(d, m).value;
    assert d'.threads[u].pc != d.threads[u].pc;
    AstrayCounts(d, n, slot, t, u, m, d');
    if d.threads[u].pc.Unregistering? {
      KeysAfterLeaving(d.keys, d.threads, u, d'.threads[u].pc);
    } else {
      KeysUnmoved(d.keys, d.threads, u, d'.threads[u].pc);
    }
  }

  lemma AstrayCounts(d: Drops, n: nat, slot: nat, t: nat, u: nat, m: Move, d': Drops)
    requires Behind(d, n, slot, t) && Astray(d, n, slot, u) && d.keys[slot]
    requires m == (if d.threads[u].pc.LiveReader? then Drop(u) else Proceed(u)) && Play(d, m) == Some(d')
    ensures TicketsOK(d') && WriterTicket(d') && WinnerOK(d') && ReaderSide !in d'.passed
    ensures Count(d'.threads, KAttempt) == 0 && Count(d'.threads, KDecR) == 0
  {
    hide Count, KeysOK;
    Recount(d.threads, u, d'.threads[u]);
  }

  lemma KeyedApart(keys: seq<bool>, ts: seq<Thread>, n: nat, u: nat)
    requires KeysOK(keys, ts) && n < |ts| && u < |ts| && u != n && Is(KKeyed, ts[n].pc)
    ensures ts[n].slot < |keys| && keys[ts[n].slot]
    ensures Is(KKeyed, ts[u].pc) ==> ts[u].slot < |keys| && ts[u].slot != ts[n].slot
  {
  }

  /** Everybody but reader `n` leaves the table, and only scans that have passed `slot` stay. */
  lemma {:induction false} ClearTheWay(d: Drops, n: nat, slot: nat, t: nat) returns (ms: seq<Move>, d': Drops)
    requires Behind(d, n, slot, t)
    ensures Creationless(ms) && PlayAll(d, ms) == Some(d') && Behind(d', n, slot, t)
    ensures forall u :: !Astray(d', n, slot, u)
    decreases Energy(|d.keys|, d.threads)
  {
    hide Behind, Play, Energy;
    if u :| Astray(d, n, slot, u) {
      var m := AstrayMoves(d, n, slot, t, u);
      var next := Play(d, m).value;
      EnergyFalls(d, m, next);
      var rest;
      rest, d' := ClearTheWay(next, n, slot, t);
      ms := [m] + rest;
      assert ms[1..] == rest;
    } else {
      ms, d' := [], d;
    }
  }

  // ---------------------------------------------------------------- as if the reader were not there

  /** The state without reader `n`, which nobody will notice any more. */
  function Without(d: Drops, n: nat): Drops
    requires n < |d.threads|
  {
    d.(keys := seq(|d.keys|, _ => false), threads := d.threads[n := Thread(Done, d.threads[n].slot)])
  }

  function With(d: Drops, n: nat, slot: nat): Drops
    requires n < |d.threads|
  {
    d.(keys := seq(|d.keys|, i => i == slot), threads := d.threads[n := Thread(LiveReader, slot)])
  }

  lemma WithoutIsSafe(d: Drops, n: nat, slot: nat, t: nat)
    requires Behind(d, n, slot, t) && forall u :: !Astray(d, n, slot, u)
    ensures DropInv(Without(d, n))
    ensures forall u :: 0 <= u < |d.threads| ==> !Without(d, n).threads[u].pc.Freed?
  {
    hide Count, KeysOK;
    var e := Without(d, n);
    Recount(d.threads, n, e.threads[n]);
    GateAttempts(d.threads);
    CountWitness(e.threads, KKeyed);
    CountWitness(e.threads, KScan);
    CountWitness(e.threads, KWinner);
    forall u | 0 <= u < |e.threads|
      ensures !Is(KKeyed, e.threads[u].pc)
    {
      assert !Astray(d, n, slot, u);
    }
    assert Is(KScan, e.threads[t].pc);
    NoKeys(e.keys, e.threads);
    forall u | 0 <= u < |d.threads|
      ensures !e.threads[u].pc.Freed?
    {
      assert !Is(KWinner, e.threads[u].pc);
    }
  }

  lemma NoKeys(keys: seq<bool>, ts: seq<Thread>)
    requires |keys| > 0 && (forall i :: 0 <= i < |keys| ==> !keys[i])
    requires forall u :: 0 <= u < |ts| ==> !Is(KKeyed, ts[u].pc)
    ensures KeysOK(keys, ts)
  {
  }

  /** Putting the reader back gives the state it was taken from: its key is the only one left. */
  lemma WithWithout(d: Drops, n: nat, slot: nat, t: nat)
    requires Behind(d, n, slot, t) && forall u :: !Astray(d, n, slot, u)
    ensures With(Without(d, n), n, slot) == d
  {
    hide Count;
    forall i | 0 <= i < |d.keys|
      ensures d.keys[i] == (i == slot)
    {
      if d.keys[i] {
        var u :| 0 <= u < |d.threads| && Is(KKeyed, d.threads[u].pc) && d.threads[u].slot == i;
        assert !Astray(d, n, slot, u);
      }
    }
    assert With(Without(d, n), n, slot).keys == d.keys;
    assert With(Without(d, n), n, slot).threads == d.threads;
  }

  /** Nobody is left who could look at `slot`. */
  ghost predicate Unnoticed(d: Drops, n: nat, slot: nat)
  {
    && n < |d.threads| && d.threads[n].pc.Done? && d.threads[n].slot == slot
    && (forall i :: 0 <= i < |d.keys| ==> !d.keys[i])
    && (forall u :: 0 <= u < |d.threads| ==>
          var pc := d.threads[u].pc;
          !pc.LiveReader? && !pc.Unregistering? && (pc.Scanning? ==> slot < pc.pos))
  }

  lemma UnnoticedMove(d: Drops, n: nat, slot: nat, m: Move, d': Drops)
    requires Unnoticed(d, n, slot) && !Creates(m) && Play(d, m) == Some(d')
    ensures Unnoticed(d', n, slot) && Play(With(d, n, slot), m) == Some(With(d', n, slot))
  {
    assert m.t != n;
    assert d'.keys == d.keys && d'.threads == d.threads[m.t := d'.threads[m.t]];
    assert d.threads[n := Thread(LiveReader, slot)][m.t := d'.threads[m.t]] ==
           d.threads[m.t := d'.threads[m.t]][n := Thread(LiveReader, slot)];
  }

  lemma {:induction false} UnnoticedRun(d: Drops, n: nat, slot: nat, ms: seq<Move>)
    requires Unnoticed(d, n, slot) && Creationless(ms) && PlayAll(d, ms).Some?
    ensures n < |PlayAll(d, ms).value.threads|
    ensures PlayAll(With(d, n, slot), ms) == Some(With(PlayAll(d, ms).value, n, slot))
    ensures Unnoticed(PlayAll(d, ms).value, n, slot)
    decreases |ms|
  {
    hide Play, With;
    if ms != [] {
      var d' := Play(d, ms[0]).value;
      UnnoticedMove(d, n, slot, ms[0], d');
      UnnoticedRun(d', n, slot, ms[1..]);
    }
  }

  /** Moves that create nothing overlap with nothing. */
  lemma {:induction false} CreationlessIsSafe(d: Drops, ms: seq<Move>)
    requires Creationless(ms) && PlayAll(d, ms).Some?
    ensures SafeMoves(d, ms)
    decreases |ms|
  {
    hide Play;
    if ms != [] { CreationlessIsSafe(Play(d, ms[0]).value, ms[1..]); }
  }

  /** A reader registered behind a scan: the others leave, the scans that have passed it finish as if it
      were not there, and whoever is elected destroys the area under it. */
  lemma BehindEndsBadly(d: Drops, n: nat, slot: nat, t: nat)
    requires Behind(d, n, slot, t)
    ensures EndsBadly(d)
  {
    var ms, d1 := ClearTheWay(d, n, slot, t);
    WithoutIsSafe(d1, n, slot, t);
    WithWithout(d1, n, slot, t);
    var e := Without(d1, n);
    forall u | 0 <= u < |e.threads|
      ensures var pc := e.threads[u].pc;
              !pc.LiveReader? && !pc.Unregistering? && (pc.Scanning? ==> slot < pc.pos)
    {
      assert !Astray(d1, n, slot, u);
    }
    assert Unnoticed(e, n, slot);
    hide Behind, Astray, DropInv, Play;
    var ns, e', w := RunDown(e);
    UnnoticedRun(e, n, slot, ns);
    PlayOn(d, ms, ns, d1);
    var d2 := With(e', n, slot);
    assert PlayAll(d, ms + ns) == Some(d2);
    CreationlessIsSafe(d, ms + ns);
    assert d2.threads[w].pc.Destroying? && d2.threads[n].pc.LiveReader?;
  }

  // ---------------------------------------------------------------- the exact condition

  /** After a registration or any other step from a state of the tournament: some continuation, itself
      without overlap, destroys the area under a live reader if and only if the step was a registration
      behind a running scan. */
  lemma EndsBadlyIffOverlap(d: Drops, m: Move, d': Drops)
    requires DropInv(d) && Play(d, m) == Some(d')
    ensures EndsBadly(d') <==> !NoOverlap(d, m)
  {
    hide DropInv, Play, EndsBadly, NoOverlap;
    if NoOverlap(d, m) {
      MoveKeeps(d, m, d');
      SafeStatesEndWell(d');
    } else {
      var t := RegisteredBehind(d, m, d');
      BehindEndsBadly(d', |d.threads|, m.slot, t);
    }
  }

  /** What a caller can see to: no reader is created while the destructor of another is between leaving
      the table and the end of its scan. */
  ghost predicate NobodyScans(d: Drops)
  {
    forall t :: 0 <= t < |d.threads| ==> !d.threads[t].pc.Scanning?
  }

  ghost predicate CreatesApart(r: DropRun)
  {
    && IsInterleaving(r)
    && forall i :: 0 <= i < |r.moves| && r.moves[i].CreateReader? ==> NobodyScans(r.states[i])
  }

  /** Then the area is never destroyed under a reader: at no time are there two destroyers, one is there
      once every destructor has finished, and while there is one no reader is alive. */
  lemma CreatingApartIsSafe(r: DropRun, i: nat)
    requires CreatesApart(r) && i < |r.states|
    ensures IsDropRun(r) && !DestroyedUnderAReader(r.states[i])
    ensures var ts := r.states[i].threads;
            && (forall t, u :: 0 <= t < u < |ts| ==> !(Winner(ts[t].pc) && Winner(ts[u].pc)))
            && ((forall t :: 0 <= t < |ts| ==> Finished(ts[t].pc)) ==> exists t :: 0 <= t < |ts| && Winner(ts[t].pc))
  {
    assert IsDropRun(r);
    DropRunInv(r, i);
    ExactlyOneDestroyer(r, i);
    hide DropInv, IsDropRun;
    if DestroyedUnderAReader(r.states[i]) {
      var t :| 0 <= t < |r.states[i].threads| && r.states[i].threads[t].pc.Destroying?;
      WinnerIsAlone(r.states[i], t);
      assert false;
    }
  }
}

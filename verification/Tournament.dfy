/** The drop tournament of `src/area.rs`: which handle's destructor frees the area.

    Writers count themselves out with `writers_count`; readers take a keep-alloc ticket, leave the
    table, scan it key by key, and those that find it empty compete with stage tickets. The last of
    each side decrements `destroy_stages`; whoever takes it to zero destroys. Each atomic operation is
    one step. `WriterSide`/`ReaderSide` name the two sides. */
module Tournament {
  import opened Options

  datatype Side = WriterSide | ReaderSide

  datatype DropPc =
    | LiveReader
    | LiveWriter
    | Unregistering                  // holds a keep-alloc ticket, key still in the table
    | Scanning(pos: nat)             // has_readers, slots below pos seen EMPTY
    | Staging                        // found the table empty, about to take a stage ticket
    | Releasing(competing: bool)     // about to return the keep-alloc ticket
    | Waiting                        // spinning until the keep-alloc tickets are all back
    | Competing                      // about to return the stage ticket
    | Deciding(side: Side)           // about to decrement destroy_stages
    | Destroying                     // the one responsible: last cleanup, then free everything
    | Freed
    | Done

  datatype Thread = Thread(pc: DropPc, slot: nat)

  datatype Drops = Drops(
    keys: seq<bool>,                 // which table slots have a key
    keep: nat, stage: nat, stages: nat, writers: nat,
    threads: seq<Thread>,
    passed: set<Side>)               // history: sides that have decremented destroy_stages

  datatype Move =
    | CreateReader(via: nat, slot: nat)
    | CreateWriter(via: nat)
    | Drop(t: nat)                   // first atomic operation of a handle's destructor
    | Proceed(t: nat)

  /** A fresh area: one reader in slot `home`, one writer. */
  function Start(slots: nat, home: nat): Drops
    requires home < slots
  {
    Drops(seq(slots, i => i == home), 0, 0, 2, 1, [Thread(LiveReader, home), Thread(LiveWriter, 0)], {})
  }

  function At(d: Drops, t: nat, pc: DropPc): seq<Thread>
    requires t < |d.threads|
  {
    d.threads[t := d.threads[t].(pc := pc)]
  }

  function Advance(d: Drops, t: nat): Option<Drops>
    requires t < |d.threads|
  {
    match d.threads[t].pc
    case Unregistering =>
      var slot := d.threads[t].slot;
      if slot < |d.keys| then Some(d.(keys := d.keys[slot := false], threads := At(d, t, Scanning(0)))) else None
    case Scanning(pos) =>
      if pos >= |d.keys| then None
      else if d.keys[pos] then Some(d.(threads := At(d, t, Releasing(false))))
      else Some(d.(threads := At(d, t, if pos + 1 == |d.keys| then Staging else Scanning(pos + 1))))
    case Staging => Some(d.(stage := d.stage + 1, threads := At(d, t, Releasing(true))))
    case Releasing(competing) =>
      if d.keep == 0 then None
      else Some(d.(keep := d.keep - 1, threads := At(d, t, if competing then Waiting else Done)))
    case Waiting => Some(if d.keep == 0 then d.(threads := At(d, t, Competing)) else d)
    case Competing =>
      if d.stage == 0 then None
      else Some(d.(stage := d.stage - 1, threads := At(d, t, if d.stage == 1 then Deciding(ReaderSide) else Done)))
    case Deciding(side) =>
      if d.stages == 0 then None
      else Some(d.(stages := d.stages - 1, passed := d.passed + {side},
                   threads := At(d, t, if d.stages == 1 then Destroying else Done)))
    case Destroying => Some(d.(threads := At(d, t, Freed)))
    case _ => None
  }

  function Play(d: Drops, m: Move): Option<Drops>
  {
    match m
    case CreateReader(t, slot) =>
      if t < |d.threads| && d.threads[t].pc == LiveReader && slot < |d.keys| && !d.keys[slot] then
        Some(d.(keys := d.keys[slot := true], threads := d.threads + [Thread(LiveReader, slot)]))
      else None
    case CreateWriter(t) =>
      if t < |d.threads| && d.threads[t].pc == LiveWriter then
        Some(d.(writers := d.writers + 1, threads := d.threads + [Thread(LiveWriter, 0)]))
      else None
    case Drop(t) =>
      if t >= |d.threads| then None
      else if d.threads[t].pc == LiveReader then
        Some(d.(keep := d.keep + 1, threads := At(d, t, Unregistering)))
      else if d.threads[t].pc == LiveWriter && d.writers > 0 then
        Some(d.(writers := d.writers - 1,
                threads := At(d, t, if d.writers == 1 then Deciding(WriterSide) else Done)))
      else None
    case Proceed(t) => if t < |d.threads| then Advance(d, t) else None
  }

  /** No reader registers in a slot which a destructor's scan has already passed: that scan is not a
      snapshot. It holds in particular if nobody registers during a scan. */
  ghost predicate NoOverlap(d: Drops, m: Move)
  {
    m.CreateReader? ==>
      forall t :: 0 <= t < |d.threads| && d.threads[t].pc.Scanning? ==> d.threads[t].pc.pos <= m.slot
  }

  // ---------------------------------------------------------------- counting

  datatype Kind = KWriter | KKeyed | KKeep | KStage | KScan | KAttempt | KGate | KDecW | KDecR | KWinner

  predicate Is(k: Kind, pc: DropPc)
  {
    match k
    case KWriter => pc.LiveWriter?
    case KKeyed => pc.LiveReader? || pc.Unregistering?
    case KKeep => pc.Unregistering? || pc.Scanning? || pc.Staging? || pc.Releasing?
    case KStage => pc == Releasing(true) || pc.Waiting? || pc.Competing?
    case KScan => pc.Scanning?
    case KAttempt => pc.Staging? || pc == Releasing(true) || pc.Waiting? || pc.Competing?
    case KGate => pc.Competing?
    case KDecW => pc == Deciding(WriterSide)
    case KDecR => pc == Deciding(ReaderSide)
    case KWinner => pc.Destroying? || pc.Freed?
  }

  function Count(ts: seq<Thread>, k: Kind): nat
  {
    if ts == [] then 0 else Count(ts[..|ts| - 1], k) + (if Is(k, ts[|ts| - 1].pc) then 1 else 0)
  }

  lemma {:induction false} CountUpdate(ts: seq<Thread>, t: nat, x: Thread, k: Kind)
    requires t < |ts|
    ensures Count(ts[t := x], k) + (if Is(k, ts[t].pc) then 1 else 0) ==
            Count(ts, k) + (if Is(k, x.pc) then 1 else 0)
  {
    var n := |ts| - 1;
    if t < n {
      assert ts[t := x][..n] == ts[..n][t := x];
      CountUpdate(ts[..n], t, x, k);
    } else {
      assert ts[t := x][..n] == ts[..n];
    }
  }

  lemma CountAppend(ts: seq<Thread>, x: Thread, k: Kind)
    ensures Count(ts + [x], k) == Count(ts, k) + (if Is(k, x.pc) then 1 else 0)
  {
    assert (ts + [x])[..|ts|] == ts;
  }

  /** A count is positive exactly when some thread is counted. */
  lemma {:induction false} CountWitness(ts: seq<Thread>, k: Kind)
    ensures Count(ts, k) > 0 <==> exists t :: 0 <= t < |ts| && Is(k, ts[t].pc)
  {
    if ts != [] {
      var n := |ts| - 1;
      CountWitness(ts[..n], k);
      if t :| 0 <= t < |ts| && Is(k, ts[t].pc) {
        if t < n { assert ts[..n][t] == ts[t]; }
      }
      if t :| 0 <= t < |ts[..n]| && Is(k, ts[..n][t].pc) {
        assert Is(k, ts[t].pc);
      }
    }
  }

  lemma {:induction false} GateAttempts(ts: seq<Thread>)
    ensures Count(ts, KGate) <= Count(ts, KStage) <= Count(ts, KAttempt)
  {
    if ts != [] { GateAttempts(ts[..|ts| - 1]); }
  }

  /** Two counted threads make a count of at least two. */
  lemma CountTwo(ts: seq<Thread>, k: Kind, t: nat, u: nat)
    requires t < |ts| && u < |ts| && t != u && Is(k, ts[t].pc) && Is(k, ts[u].pc)
    ensures Count(ts, k) >= 2
  {
    var ts' := ts[t := Thread(Done, 0)];
    CountUpdate(ts, t, Thread(Done, 0), k);
    assert Is(k, ts'[u].pc);
    CountWitness(ts', k);
  }

  // ---------------------------------------------------------------- the invariant

  /** The counters count what they are meant to count. */
  ghost predicate TicketsOK(d: Drops)
  {
    && d.writers == Count(d.threads, KWriter)
    && d.keep == Count(d.threads, KKeep)
    && d.stage == Count(d.threads, KStage)
    && d.stages + (if WriterSide in d.passed then 1 else 0) + (if ReaderSide in d.passed then 1 else 0) == 2
  }

  /** Keys stand for readers that have not left the table, one each. */
  ghost predicate KeysOK(keys: seq<bool>, ts: seq<Thread>)
  {
    && |keys| > 0
    && (forall t :: 0 <= t < |ts| && Is(KKeyed, ts[t].pc) ==> ts[t].slot < |keys| && keys[ts[t].slot])
    && (forall t, u :: 0 <= t < u < |ts| && Is(KKeyed, ts[t].pc) && Is(KKeyed, ts[u].pc) ==> ts[t].slot != ts[u].slot)
    && (forall i :: 0 <= i < |keys| && keys[i] ==> exists t :: 0 <= t < |ts| && Is(KKeyed, ts[t].pc) && ts[t].slot == i)
  }

  /** What a destructor has scanned stays EMPTY while it scans. */
  ghost predicate ScansOK(keys: seq<bool>, ts: seq<Thread>)
  {
    forall t, i :: 0 <= t < |ts| && ts[t].pc.Scanning? && 0 <= i < ts[t].pc.pos && i < |keys| ==> !keys[i]
  }

  ghost predicate PositionsOK(keys: seq<bool>, ts: seq<Thread>)
  {
    forall t :: 0 <= t < |ts| && ts[t].pc.Scanning? ==> ts[t].pc.pos < |keys|
  }

  /** The writers' side: its ticket is with a live writer, then with one decider, then spent. */
  ghost predicate WriterTicket(d: Drops)
  {
    Count(d.threads, KDecW) + (if WriterSide in d.passed then 1 else 0) == (if d.writers == 0 then 1 else 0)
  }

  /** The readers' side. Once a destructor has found the table empty all readers have left it; once one
      is past the gate no keep-alloc ticket is out; once one is elected no stage ticket is out; and as
      long as nobody has found the table empty, someone still will. */
  ghost predicate ReaderTicket(d: Drops)
  {
    var ts, spent := d.threads, if ReaderSide in d.passed then 1 else 0;
    && Count(ts, KDecR) + spent <= 1
    && (Count(ts, KAttempt) + Count(ts, KDecR) + spent > 0 ==> Count(ts, KKeyed) == 0)
    && (Count(ts, KGate) + Count(ts, KDecR) + spent > 0 ==> d.keep == 0)
    && (Count(ts, KDecR) + spent > 0 ==> d.stage == 0)
    && (Count(ts, KAttempt) + Count(ts, KDecR) + spent + Count(ts, KKeyed) + Count(ts, KScan) > 0)
  }

  ghost predicate WinnerOK(d: Drops)
  {
    Count(d.threads, KWinner) == if WriterSide in d.passed && ReaderSide in d.passed then 1 else 0
  }

  ghost predicate DropInv(d: Drops)
  {
    && TicketsOK(d)
    && KeysOK(d.keys, d.threads)
    && ScansOK(d.keys, d.threads)
    && PositionsOK(d.keys, d.threads)
    && WriterTicket(d)
    && ReaderTicket(d)
    && WinnerOK(d)
  }

  lemma StartInv(slots: nat, home: nat)
    requires home < slots
    ensures DropInv(Start(slots, home))
  {
    hide Count, KeysOK;
    var d := Start(slots, home);
    var r, w := Thread(LiveReader, home), Thread(LiveWriter, 0);
    assert d.threads == ([] + [r]) + [w];
    NoneCounted();
    forall k: Kind
      ensures Count(d.threads, k) == (if Is(k, LiveReader) then 1 else 0) + (if Is(k, LiveWriter) then 1 else 0)
    {
      CountAppend([], r, k);
      CountAppend([] + [r], w, k);
    }
    StartKeys(d.keys, home);
  }

  lemma StartKeys(keys: seq<bool>, home: nat)
    requires home < |keys| && forall i :: 0 <= i < |keys| ==> keys[i] == (i == home)
    ensures KeysOK(keys, [Thread(LiveReader, home), Thread(LiveWriter, 0)])
  {
    var ts := [Thread(LiveReader, home), Thread(LiveWriter, 0)];
    forall i | 0 <= i < |keys| && keys[i]
      ensures exists t :: 0 <= t < |ts| && Is(KKeyed, ts[t].pc) && ts[t].slot == i
    {
      assert Is(KKeyed, ts[0].pc);
    }
  }

  lemma NoneCounted()
    ensures forall k: Kind :: Count([], k) == 0
  {
  }

  /** All counts after one thread has moved. */
  lemma Recount(ts: seq<Thread>, t: nat, x: Thread)
    requires t < |ts|
    ensures forall k: Kind :: Count(ts[t := x], k) + (if Is(k, ts[t].pc) then 1 else 0) ==
                              Count(ts, k) + (if Is(k, x.pc) then 1 else 0)
    ensures forall k: Kind :: Is(k, ts[t].pc) ==> Count(ts, k) > 0
  {
    forall k: Kind
      ensures Count(ts[t := x], k) + (if Is(k, ts[t].pc) then 1 else 0) == Count(ts, k) + (if Is(k, x.pc) then 1 else 0)
    {
      CountUpdate(ts, t, x, k);
    }
    forall k: Kind | Is(k, ts[t].pc)
      ensures Count(ts, k) > 0
    {
      CountWitness(ts, k);
    }
  }

  /** A thread that keeps (or never had) its key leaves the table's meaning alone. */
  lemma KeysUnmoved(keys: seq<bool>, ts: seq<Thread>, t: nat, pc: DropPc)
    requires KeysOK(keys, ts) && t < |ts| && Is(KKeyed, ts[t].pc) == Is(KKeyed, pc)
    ensures KeysOK(keys, ts[t := ts[t].(pc := pc)])
  {
    var ts' := ts[t := ts[t].(pc := pc)];
    forall i | 0 <= i < |keys| && keys[i]
      ensures exists u :: 0 <= u < |ts'| && Is(KKeyed, ts'[u].pc) && ts'[u].slot == i
    {
      var u :| 0 <= u < |ts| && Is(KKeyed, ts[u].pc) && ts[u].slot == i;
      assert Is(KKeyed, ts'[u].pc) && ts'[u].slot == i;
    }
  }

  lemma KeysAfterLeaving(keys: seq<bool>, ts: seq<Thread>, t: nat, pc: DropPc)
    requires KeysOK(keys, ts) && t < |ts| && Is(KKeyed, ts[t].pc) && !Is(KKeyed, pc)
    ensures ts[t].slot < |keys|
    ensures KeysOK(keys[ts[t].slot := false], ts[t := ts[t].(pc := pc)])
  {
    var keys', ts' := keys[ts[t].slot := false], ts[t := ts[t].(pc := pc)];
    forall i | 0 <= i < |keys'| && keys'[i]
      ensures exists u :: 0 <= u < |ts'| && Is(KKeyed, ts'[u].pc) && ts'[u].slot == i
    {
      var u :| 0 <= u < |ts| && Is(KKeyed, ts[u].pc) && ts[u].slot == i;
      assert Is(KKeyed, ts'[u].pc) && ts'[u].slot == i;
    }
  }

  lemma KeysAfterJoining(keys: seq<bool>, ts: seq<Thread>, slot: nat)
    requires KeysOK(keys, ts) && slot < |keys| && !keys[slot]
    ensures KeysOK(keys[slot := true], ts + [Thread(LiveReader, slot)])
  {
    var keys', ts' := keys[slot := true], ts + [Thread(LiveReader, slot)];
    forall i | 0 <= i < |keys'| && keys'[i]
      ensures exists u :: 0 <= u < |ts'| && Is(KKeyed, ts'[u].pc) && ts'[u].slot == i
    {
      if i == slot {
        assert Is(KKeyed, ts'[|ts|].pc);
      } else {
        var u :| 0 <= u < |ts| && Is(KKeyed, ts[u].pc) && ts[u].slot == i;
        assert Is(KKeyed, ts'[u].pc) && ts'[u].slot == i;
      }
    }
  }

  lemma KeysAfterWriter(keys: seq<bool>, ts: seq<Thread>)
    requires KeysOK(keys, ts)
    ensures KeysOK(keys, ts + [Thread(LiveWriter, 0)])
  {
    var ts' := ts + [Thread(LiveWriter, 0)];
    forall i | 0 <= i < |keys| && keys[i]
      ensures exists u :: 0 <= u < |ts'| && Is(KKeyed, ts'[u].pc) && ts'[u].slot == i
    {
      var u :| 0 <= u < |ts| && Is(KKeyed, ts[u].pc) && ts[u].slot == i;
      assert Is(KKeyed, ts'[u].pc) && ts'[u].slot == i;
    }
  }

  /** A destructor that has scanned the whole table without finding a key knows that nobody has one. */
  lemma EmptyTable(keys: seq<bool>, ts: seq<Thread>)
    requires KeysOK(keys, ts) && (forall i :: 0 <= i < |keys| ==> !keys[i])
    ensures Count(ts, KKeyed) == 0
  {
    CountWitness(ts, KKeyed);
  }

  lemma SeenKey(keys: seq<bool>, ts: seq<Thread>, i: nat)
    requires KeysOK(keys, ts) && i < |keys| && keys[i]
    ensures Count(ts, KKeyed) > 0
  {
    CountWitness(ts, KKeyed);
  }

  lemma CreateKeeps(d: Drops, m: Move, d': Drops)
    requires DropInv(d) && NoOverlap(d, m) && Play(d, m) == Some(d') && (m.CreateReader? || m.CreateWriter?)
    ensures DropInv(d')
  {
    hide Count, KeysOK;
    var x := d'.threads[|d.threads|];
    assert d'.threads == d.threads + [x];
    forall k: Kind
      ensures Count(d'.threads, k) == Count(d.threads, k) + (if Is(k, x.pc) then 1 else 0)
    {
      CountAppend(d.threads, x, k);
    }
    CountWitness(d.threads, KKeyed);
    CountWitness(d.threads, KWriter);
    assert Is(if m.CreateReader? then KKeyed else KWriter, d.threads[m.via].pc);
    assert Count(d.threads, if m.CreateReader? then KKeyed else KWriter) > 0;
    if m.CreateReader? {
      KeysAfterJoining(d.keys, d.threads, m.slot);
    } else {
      KeysAfterWriter(d.keys, d.threads);
    }
  }

  lemma DropKeeps(d: Drops, t: nat, d': Drops)
    requires DropInv(d) && Play(d, Drop(t)) == Some(d')
    ensures DropInv(d')
  {
    hide Count, KeysOK;
    GateAttempts(d.threads);
    Recount(d.threads, t, d'.threads[t]);
    KeysUnmoved(d.keys, d.threads, t, d'.threads[t].pc);
  }

  lemma LeaveKeeps(d: Drops, t: nat, d': Drops)
    requires DropInv(d) && Play(d, Proceed(t)) == Some(d') && d.threads[t].pc.Unregistering?
    ensures DropInv(d')
  {
    hide Count, KeysOK;
    Recount(d.threads, t, d'.threads[t]);
    KeysAfterLeaving(d.keys, d.threads, t, d'.threads[t].pc);
  }

  lemma ScanKeeps(d: Drops, t: nat, d': Drops)
    requires DropInv(d) && Play(d, Proceed(t)) == Some(d') && d.threads[t].pc.Scanning?
    ensures DropInv(d')
  {
    hide Count, KeysOK;
    var pos := d.threads[t].pc.pos;
    Recount(d.threads, t, d'.threads[t]);
    KeysUnmoved(d.keys, d.threads, t, d'.threads[t].pc);
    if d.keys[pos] {
      SeenKey(d.keys, d.threads, pos);
    } else if pos + 1 == |d.keys| {
      EmptyTable(d.keys, d.threads);
    }
  }

  /** Taking a stage ticket, and returning the keep-alloc ticket. */
  lemma TicketKeeps(d: Drops, t: nat, d': Drops)
    requires DropInv(d) && Play(d, Proceed(t)) == Some(d')
    requires var pc := d.threads[t].pc; pc.Staging? || pc.Releasing?
    ensures DropInv(d')
  {
    hide Count, KeysOK;
    Recount(d.threads, t, d'.threads[t]);
    KeysUnmoved(d.keys, d.threads, t, d'.threads[t].pc);
  }

  lemma WaitKeeps(d: Drops, t: nat, d': Drops)
    requires DropInv(d) && Play(d, Proceed(t)) == Some(d') && d.threads[t].pc.Waiting?
    ensures DropInv(d')
  {
    hide Count, KeysOK;
    if d' != d {
      Recount(d.threads, t, d'.threads[t]);
      KeysUnmoved(d.keys, d.threads, t, d'.threads[t].pc);
    }
  }

  /** Returning a stage ticket: the last one back is elected, past a gate that has let everybody go. */
  lemma CompeteKeeps(d: Drops, t: nat, d': Drops)
    requires DropInv(d) && Play(d, Proceed(t)) == Some(d') && d.threads[t].pc.Competing?
    ensures DropInv(d')
  {
    hide Count, KeysOK;
    Recount(d.threads, t, d'.threads[t]);
    GateAttempts(d'.threads);
    KeysUnmoved(d.keys, d.threads, t, d'.threads[t].pc);
  }

  /** The decrement of destroy_stages. */
  lemma DecideKeeps(d: Drops, t: nat, d': Drops)
    requires DropInv(d) && Play(d, Proceed(t)) == Some(d') && d.threads[t].pc.Deciding?
    ensures DropInv(d')
  {
    hide Count, KeysOK;
    var pc := d.threads[t].pc;
    Recount(d.threads, t, d'.threads[t]);
    KeysUnmoved(d.keys, d.threads, t, d'.threads[t].pc);
    assert Is(if pc.side == WriterSide then KDecW else KDecR, pc);
    assert pc.side !in d.passed;
  }

  lemma FreeKeeps(d: Drops, t: nat, d': Drops)
    requires DropInv(d) && Play(d, Proceed(t)) == Some(d') && d.threads[t].pc.Destroying?
    ensures DropInv(d')
  {
    hide Count, KeysOK;
    Recount(d.threads, t, d'.threads[t]);
    KeysUnmoved(d.keys, d.threads, t, d'.threads[t].pc);
  }

  /** A move keeps the invariant exactly when it is not a registration behind a scan. */
  lemma MoveKeeps(d: Drops, m: Move, d': Drops)
    requires DropInv(d) && Play(d, m) == Some(d')
    ensures DropInv(d') <==> NoOverlap(d, m)
  {
    if !NoOverlap(d, m) {
      BehindAScan(d, m, d');
    } else {
      SafeMoveKeeps(d, m, d');
    }
  }

  lemma BehindAScan(d: Drops, m: Move, d': Drops)
    requires Play(d, m) == Some(d') && !NoOverlap(d, m)
    ensures !DropInv(d')
  {
    var t :| 0 <= t < |d.threads| && d.threads[t].pc.Scanning? && m.slot < d.threads[t].pc.pos;
    assert d'.threads[t] == d.threads[t] && d'.keys[m.slot];
    assert !ScansOK(d'.keys, d'.threads);
  }

  lemma SafeMoveKeeps(d: Drops, m: Move, d': Drops)
    requires DropInv(d) && NoOverlap(d, m) && Play(d, m) == Some(d')
    ensures DropInv(d')
  {
    hide DropInv, NoOverlap;
    match m
    case CreateReader(_, _) => CreateKeeps(d, m, d');
    case CreateWriter(_) => CreateKeeps(d, m, d');
    case Drop(t) => DropKeeps(d, t, d');
    case Proceed(t) =>
      if d.threads[t].pc.Unregistering? {
        LeaveKeeps(d, t, d');
      } else if d.threads[t].pc.Scanning? {
        ScanKeeps(d, t, d');
      } else if d.threads[t].pc.Competing? {
        CompeteKeeps(d, t, d');
      } else if d.threads[t].pc.Deciding? {
        DecideKeeps(d, t, d');
      } else if d.threads[t].pc.Destroying? {
        FreeKeeps(d, t, d');
      } else if d.threads[t].pc.Waiting? {
        WaitKeeps(d, t, d');
      } else {
        TicketKeeps(d, t, d');
      }
  }

  // ---------------------------------------------------------------- whole runs

  datatype DropRun = DropRun(states: seq<Drops>, moves: seq<Move>)

  /** Any interleaving of creations and destructors from a fresh area. */
  ghost predicate IsInterleaving(r: DropRun)
  {
    && |r.states| == |r.moves| + 1
    && (exists slots: nat, home: nat :: home < slots && r.states[0] == Start(slots, home))
    && forall i :: 0 <= i < |r.moves| ==> Play(r.states[i], r.moves[i]) == Some(r.states[i + 1])
  }

  /** ... in which no registration falls behind a destructor's scan. */
  ghost predicate IsDropRun(r: DropRun)
  {
    IsInterleaving(r) && forall i :: 0 <= i < |r.moves| ==> NoOverlap(r.states[i], r.moves[i])
  }

  lemma {:induction false} DropRunInv(r: DropRun, i: nat)
    requires IsDropRun(r) && i < |r.states|
    ensures DropInv(r.states[i])
  {
    hide DropInv, NoOverlap, Play;
    if i == 0 {
      var slots: nat, home: nat :| home < slots && r.states[0] == Start(slots, home);
      StartInv(slots, home);
    } else {
      DropRunInv(r, i - 1);
      MoveKeeps(r.states[i - 1], r.moves[i - 1], r.states[i]);
    }
  }

  predicate Finished(pc: DropPc) { pc.Done? || pc.Destroying? || pc.Freed? }

  predicate Winner(pc: DropPc) { pc.Destroying? || pc.Freed? }

  /** From the moment a thread starts freeing, every other thread is done: the only step left in the
      whole area is its own, so nobody else touches the shared state again. */
  lemma NobodyElseMoves(r: DropRun, i: nat, t: nat)
    requires IsDropRun(r) && i < |r.states|
    requires t < |r.states[i].threads| && Winner(r.states[i].threads[t].pc)
    ensures forall u :: 0 <= u < |r.states[i].threads| && u != t ==> r.states[i].threads[u].pc == Done
    ensures forall m :: Play(r.states[i], m).Some? ==> m == Proceed(t) && r.states[i].threads[t].pc.Destroying?
    ensures forall k :: 0 <= k < |r.states[i].keys| ==> !r.states[i].keys[k]
  {
    DropRunInv(r, i);
    hide IsDropRun;
    WinnerIsAlone(r.states[i], t);
    hide DropInv;
  }

  lemma WinnerIsAlone(d: Drops, t: nat)
    requires DropInv(d) && t < |d.threads| && Winner(d.threads[t].pc)
    ensures forall u :: 0 <= u < |d.threads| && u != t ==> d.threads[u].pc == Done
    ensures forall k :: 0 <= k < |d.keys| ==> !d.keys[k]
  {
    hide Play, WriterTicket, ReaderTicket, TicketsOK;
    assert Is(KWinner, d.threads[t].pc);
    CountWitness(d.threads, KWinner);
    NothingElseCounted(d);
    forall u | 0 <= u < |d.threads| && u != t
      ensures d.threads[u].pc == Done
    {
      if Winner(d.threads[u].pc) { CountTwo(d.threads, KWinner, t, u); }
      assert forall k: Kind :: k != KWinner ==> !Is(k, d.threads[u].pc);
      AllKinds(d.threads[u].pc);
    }
    forall k | 0 <= k < |d.keys|
      ensures !d.keys[k]
    {
      if d.keys[k] { SeenKey(d.keys, d.threads, k); }
    }
  }

  /** Once both sides have decremented destroy_stages no thread is anywhere but done or destroying. */
  lemma NothingElseCounted(d: Drops)
    requires DropInv(d) && Count(d.threads, KWinner) > 0
    ensures Count(d.threads, KKeyed) == 0
    ensures forall u :: 0 <= u < |d.threads| ==> forall k: Kind :: k != KWinner ==> !Is(k, d.threads[u].pc)
  {
    hide Count, KeysOK;
    forall u, k: Kind | 0 <= u < |d.threads| && k != KWinner
      ensures !Is(k, d.threads[u].pc)
    {
      CountWitness(d.threads, k);
      GateAttempts(d.threads);
      NoneCountedBut(d, k);
    }
  }

  lemma NoneCountedBut(d: Drops, k: Kind)
    requires DropInv(d) && Count(d.threads, KWinner) > 0 && k != KWinner
    ensures Count(d.threads, k) == 0
  {
    hide Count, KeysOK;
    GateAttempts(d.threads);
    AttemptsHoldTickets(d.threads);
    ScansHoldTickets(d.threads);
  }

  lemma {:induction false} AttemptsHoldTickets(ts: seq<Thread>)
    ensures Count(ts, KAttempt) <= Count(ts, KStage) + Count(ts, KKeep)
  {
    if ts != [] { AttemptsHoldTickets(ts[..|ts| - 1]); }
  }

  lemma {:induction false} ScansHoldTickets(ts: seq<Thread>)
    ensures Count(ts, KScan) <= Count(ts, KKeep)
  {
    if ts != [] { ScansHoldTickets(ts[..|ts| - 1]); }
  }

  /** Every unfinished program point is counted by some kind. */
  lemma AllKinds(pc: DropPc)
    requires forall k: Kind :: k != KWinner ==> !Is(k, pc)
    ensures Finished(pc)
  {
    assert !Is(KWriter, pc) && !Is(KKeyed, pc) && !Is(KKeep, pc) && !Is(KStage, pc) && !Is(KDecW, pc) && !Is(KDecR, pc);
    assert pc.Deciding? ==> pc.side == WriterSide || pc.side == ReaderSide;
  }

  /** At no time are there two destroyers, and once every handle is gone and its destructor has
      finished there is exactly one. */
  lemma ExactlyOneDestroyer(r: DropRun, i: nat)
    requires IsDropRun(r) && i < |r.states|
    ensures var ts := r.states[i].threads;
            && (forall t, u :: 0 <= t < u < |ts| ==> !(Winner(ts[t].pc) && Winner(ts[u].pc)))
            && ((forall t :: 0 <= t < |ts| ==> Finished(ts[t].pc)) ==> exists t :: 0 <= t < |ts| && Winner(ts[t].pc))
  {
    DropRunInv(r, i);
    hide IsDropRun, Count, KeysOK;
    var d := r.states[i];
    forall t, u | 0 <= t < u < |d.threads|
      ensures !(Winner(d.threads[t].pc) && Winner(d.threads[u].pc))
    {
      if Winner(d.threads[t].pc) && Winner(d.threads[u].pc) { CountTwo(d.threads, KWinner, t, u); }
    }
    if forall t :: 0 <= t < |d.threads| ==> Finished(d.threads[t].pc) {
      SomebodyWins(d);
    }
  }

  lemma SomebodyWins(d: Drops)
    requires DropInv(d) && forall t :: 0 <= t < |d.threads| ==> Finished(d.threads[t].pc)
    ensures exists t :: 0 <= t < |d.threads| && Winner(d.threads[t].pc)
  {
    hide Count, KeysOK;
    forall k: Kind | k != KWinner
      ensures Count(d.threads, k) == 0
    {
      CountWitness(d.threads, k);
    }
    assert WriterSide in d.passed && ReaderSide in d.passed;
    CountWitness(d.threads, KWinner);
    var t :| 0 <= t < |d.threads| && Is(KWinner, d.threads[t].pc);
    assert Winner(d.threads[t].pc);
  }

  /** Nobody waits for ever: as long as some destructor is unfinished, some thread has a step that changes
      the state. */
  lemma DropsNeverStick(r: DropRun, i: nat, u: nat) returns (t: nat)
    requires IsDropRun(r) && i < |r.states| && u < |r.states[i].threads|
    requires var pc := r.states[i].threads[u].pc; !Finished(pc) && !pc.LiveReader? && !pc.LiveWriter?
    ensures t < |r.states[i].threads|
    ensures var d' := Play(r.states[i], Proceed(t)); d'.Some? && d'.value != r.states[i]
  {
    DropRunInv(r, i);
    hide IsDropRun;
    var d := r.states[i];
    t := u;
    if d.threads[u].pc.Waiting? && d.keep > 0 {
      CountWitness(d.threads, KKeep);
      t :| 0 <= t < |d.threads| && Is(KKeep, d.threads[t].pc);
    }
    CanMove(d, t);
  }

  lemma CanMove(d: Drops, t: nat)
    requires DropInv(d) && t < |d.threads|
    requires var pc := d.threads[t].pc;
             !Finished(pc) && !pc.LiveReader? && !pc.LiveWriter? && (pc.Waiting? ==> d.keep == 0)
    ensures var d' := Play(d, Proceed(t)); d'.Some? && d'.value != d
  {
    hide Count;
    Recount(d.threads, t, Thread(Done, 0));
    var pc, d' := d.threads[t].pc, Play(d, Proceed(t));
    assert pc.Unregistering? ==> Is(KKeyed, pc);
    assert pc.Releasing? ==> Is(KKeep, pc) && Count(d.threads, KKeep) > 0;
    assert pc.Competing? ==> Is(KStage, pc) && Count(d.threads, KStage) > 0;
    if pc.Deciding? {
      assert Is(if pc.side == WriterSide then KDecW else KDecR, pc);
      assert pc.side !in d.passed;
    }
    assert d'.Some?;
    assert d'.value.threads[t].pc != pc;
  }

  // ---------------------------------------------------------------- why registrations must keep away

  function PlayAll(d: Drops, ms: seq<Move>): Option<Drops>
    decreases |ms|
  {
    if ms == [] then Some(d) else
      var d' := Play(d, ms[0]);
      if d'.None? then None else PlayAll(d'.value, ms[1..])
  }

  /** The three handles of the run below, and a fourth. */
  function Handles(b: DropPc, w: DropPc, a: DropPc): seq<Thread>
  {
    [Thread(b, 1), Thread(w, 0), Thread(a, 0)]
  }

  /** Reader B (slot 1) creates reader A (slot 0); the only writer goes. */
  lemma FirstAct(d: Drops)
    requires d == Drops([true, true], 0, 0, 1, 0, Handles(LiveReader, Done, LiveReader), {WriterSide})
    ensures PlayAll(Start(2, 1), [CreateReader(0, 0), Drop(1), Proceed(1)]) == Some(d)
  {
    var d0 := Start(2, 1);
    var d1 := d0.(keys := [true, true], threads := Handles(LiveReader, LiveWriter, LiveReader));
    var d2 := d1.(writers := 0, threads := Handles(LiveReader, Deciding(WriterSide), LiveReader));
    assert d0.keys[0 := true] == d1.keys && d0.threads + [Thread(LiveReader, 0)] == d1.threads;
    assert Play(d0, CreateReader(0, 0)) == Some(d1);
    assert At(d1, 1, Deciding(WriterSide)) == d2.threads;
    assert Play(d1, Drop(1)) == Some(d2);
    assert At(d2, 1, Done) == d.threads && {} + {WriterSide} == d.passed;
    assert Play(d2, Proceed(1)) == Some(d);
    Trace(d0, [CreateReader(0, 0), Drop(1), Proceed(1)], [d0, d1, d2, d]);
  }

  /** A leaves the table and finds slot 0 EMPTY. */
  lemma SecondAct(d: Drops, d': Drops)
    requires d == Drops([true, true], 0, 0, 1, 0, Handles(LiveReader, Done, LiveReader), {WriterSide})
    requires d' == d.(keys := [false, true], keep := 1, threads := Handles(LiveReader, Done, Scanning(1)))
    ensures PlayAll(d, [Drop(2), Proceed(2), Proceed(2)]) == Some(d')
  {
    var d1 := d.(keep := 1, threads := Handles(LiveReader, Done, Unregistering));
    var d2 := d1.(keys := [false, true], threads := Handles(LiveReader, Done, Scanning(0)));
    assert At(d, 2, Unregistering) == d1.threads;
    assert Play(d, Drop(2)) == Some(d1);
    assert At(d1, 2, Scanning(0)) == d2.threads && d1.keys[0 := false] == d2.keys;
    assert Play(d1, Proceed(2)) == Some(d2);
    assert At(d2, 2, Scanning(1)) == d'.threads;
    assert Play(d2, Proceed(2)) == Some(d');
    Trace(d, [Drop(2), Proceed(2), Proceed(2)], [d, d1, d2, d']);
  }

  /** B creates reader C in slot 0, behind A's scan, and goes; it sees C's key. */
  lemma ThirdAct(d: Drops, d': Drops)
    requires d == Drops([false, true], 1, 0, 1, 0, Handles(LiveReader, Done, Scanning(1)), {WriterSide})
    requires d' == d.(keys := [true, false], threads := Handles(Done, Done, Scanning(1)) + [Thread(LiveReader, 0)])
    ensures PlayAll(d, [CreateReader(0, 0), Drop(0), Proceed(0), Proceed(0), Proceed(0)]) == Some(d')
  {
    var c := [Thread(LiveReader, 0)];
    var d1 := d.(keys := [true, true], threads := d.threads + c);
    var d2 := d1.(keep := 2, threads := Handles(Unregistering, Done, Scanning(1)) + c);
    var d3 := d2.(keys := [true, false], threads := Handles(Scanning(0), Done, Scanning(1)) + c);
    var d4 := d3.(threads := Handles(Releasing(false), Done, Scanning(1)) + c);
    assert d.keys[0 := true] == d1.keys;
    assert Play(d, CreateReader(0, 0)) == Some(d1);
    assert At(d1, 0, Unregistering) == d2.threads;
    assert Play(d1, Drop(0)) == Some(d2);
    assert At(d2, 0, Scanning(0)) == d3.threads && d2.keys[1 := false] == d3.keys;
    assert Play(d2, Proceed(0)) == Some(d3);
    assert At(d3, 0, Releasing(false)) == d4.threads;
    assert Play(d3, Proceed(0)) == Some(d4);
    assert At(d4, 0, Done) == d'.threads;
    assert Play(d4, Proceed(0)) == Some(d');
    Trace(d, [CreateReader(0, 0), Drop(0), Proceed(0), Proceed(0), Proceed(0)], [d, d1, d2, d3, d4, d']);
  }

  /** A finishes its scan, is elected, and destroys. */
  lemma FourthAct(d: Drops, d': Drops)
    requires d == Drops([true, false], 1, 0, 1, 0, Handles(Done, Done, Scanning(1)) + [Thread(LiveReader, 0)],
        {WriterSide})
    requires d' == Drops([true, false], 0, 0, 0, 0, Handles(Done, Done, Destroying) + [Thread(LiveReader, 0)],
        {WriterSide, ReaderSide})
    ensures PlayAll(d, [Proceed(2), Proceed(2), Proceed(2), Proceed(2), Proceed(2), Proceed(2)]) == Some(d')
  {
    var c := [Thread(LiveReader, 0)];
    var d1 := d.(threads := Handles(Done, Done, Staging) + c);
    var d2 := d1.(stage := 1, threads := Handles(Done, Done, Releasing(true)) + c);
    var d3 := d2.(keep := 0, threads := Handles(Done, Done, Waiting) + c);
    var d4 := d3.(threads := Handles(Done, Done, Competing) + c);
    var d5 := d4.(stage := 0, threads := Handles(Done, Done, Deciding(ReaderSide)) + c);
    assert At(d, 2, Staging) == d1.threads;
    assert Play(d, Proceed(2)) == Some(d1);
    assert At(d1, 2, Releasing(true)) == d2.threads;
    assert Play(d1, Proceed(2)) == Some(d2);
    assert At(d2, 2, Waiting) == d3.threads;
    assert Play(d2, Proceed(2)) == Some(d3);
    assert At(d3, 2, Competing) == d4.threads;
    assert Play(d3, Proceed(2)) == Some(d4);
    assert At(d4, 2, Deciding(ReaderSide)) == d5.threads;
    assert Play(d4, Proceed(2)) == Some(d5);
    assert At(d5, 2, Destroying) == d'.threads && d5.passed + {ReaderSide} == d'.passed;
    assert Play(d5, Proceed(2)) == Some(d');
    Trace(d, [Proceed(2), Proceed(2), Proceed(2), Proceed(2), Proceed(2), Proceed(2)], [d, d1, d2, d3, d4, d5, d']);
  }

  /** A registration inside another reader's scan can defeat the election: in a table of two slots a
      scanning destructor passes a slot just before it is claimed, and destroys the area with a live
      reader left. */
  lemma OverlapCanDestroyEarly() returns (ms: seq<Move>, d: Drops)
    ensures PlayAll(Start(2, 1), ms) == Some(d)
    ensures |d.threads| == 4 && d.threads[2].pc == Destroying && d.threads[3].pc == LiveReader
  {
    hide Play, Start;
    var m1, m2 := [CreateReader(0, 0), Drop(1), Proceed(1)], [Drop(2), Proceed(2), Proceed(2)];
    var m3 := [CreateReader(0, 0), Drop(0), Proceed(0), Proceed(0), Proceed(0)];
    var m4 := [Proceed(2), Proceed(2), Proceed(2), Proceed(2), Proceed(2), Proceed(2)];
    var d1 := Drops([true, true], 0, 0, 1, 0, Handles(LiveReader, Done, LiveReader), {WriterSide});
    var d2 := d1.(keys := [false, true], keep := 1, threads := Handles(LiveReader, Done, Scanning(1)));
    var d3 := d2.(keys := [true, false], threads := Handles(Done, Done, Scanning(1)) + [Thread(LiveReader, 0)]);
    d := Drops([true, false], 0, 0, 0, 0, Handles(Done, Done, Destroying) + [Thread(LiveReader, 0)],
        {WriterSide, ReaderSide});
    ms := m1 + m2 + m3 + m4;
    FirstAct(d1);
    SecondAct(d1, d2);
    ThirdAct(d2, d3);
    FourthAct(d3, d);
    PlayOn(Start(2, 1), m1, m2, d1);
    PlayOn(Start(2, 1), m1 + m2, m3, d2);
    PlayOn(Start(2, 1), m1 + m2 + m3, m4, d3);
  }

  lemma {:induction false} PlayOn(d: Drops, ms: seq<Move>, ns: seq<Move>, d': Drops)
    requires PlayAll(d, ms) == Some(d')
    ensures PlayAll(d, ms + ns) == PlayAll(d', ns)
    decreases |ms|
  {
    if ms == [] {
      assert ms + ns == ns;
    } else {
      assert (ms + ns)[0] == ms[0] && (ms + ns)[1..] == ms[1..] + ns;
      PlayOn(Play(d, ms[0]).value, ms[1..], ns, d');
    }
  }

  lemma {:induction false} Trace(d: Drops, ms: seq<Move>, ds: seq<Drops>)
    requires |ds| == |ms| + 1 && ds[0] == d
    requires forall i :: 0 <= i < |ms| ==> Play(ds[i], ms[i]) == Some(ds[i + 1])
    ensures PlayAll(d, ms) == Some(ds[|ms|])
    decreases |ms|
  {
    if ms != [] {
      assert Play(ds[0], ms[0]) == Some(ds[1]);
      Trace(ds[1], ms[1..], ds[1..]);
    }
  }
}

/** Destructors come to an end: every step of one uses up some of a finite supply, some step is always
    possible until the area is being freed, and so from every state the handles alive can all be dropped
    and the area torn down. */
module DropProgress {
  import opened Options
  import opened Tournament

  /** How many steps are left in a handle's life, at most; `n` is the size of the table. */
  function Weight(n: nat, pc: DropPc): nat
  {
    match pc
    case LiveReader => n + 9
    case LiveWriter => 3
    case Unregistering => n + 8
    case Scanning(pos) => 7 + (if pos < n then n - pos else 0)
    case Staging => 6
    case Releasing(_) => 5
    case Waiting => 4
    case Competing => 3
    case Deciding(_) => 2
    case Destroying => 1
    case Freed => 0
    case Done => 0
  }

  function Energy(n: nat, ts: seq<Thread>): nat
  {
    if ts == [] then 0 else Energy(n, ts[..|ts| - 1]) + Weight(n, ts[|ts| - 1].pc)
  }

  lemma {:induction false} EnergyUpdate(n: nat, ts: seq<Thread>, t: nat, x: Thread)
    requires t < |ts|
    ensures Energy(n, ts[t := x]) + Weight(n, ts[t].pc) == Energy(n, ts) + Weight(n, x.pc)
  {
    var last := |ts| - 1;
    if t < last {
      assert ts[t := x][..last] == ts[..last][t := x];
      EnergyUpdate(n, ts[..last], t, x);
    } else {
      assert ts[t := x][..last] == ts[..last];
    }
  }

  predicate Creates(m: Move) { m.CreateReader? || m.CreateWriter? }

  /** Every step of a destructor that changes anything uses up energy. */
  lemma EnergyFalls(d: Drops, m: Move, d': Drops)
    requires Play(d, m) == Some(d') && !Creates(m) && d' != d
    ensures |d'.keys| == |d.keys| && Energy(|d.keys|, d'.threads) < Energy(|d.keys|, d.threads)
  {
    hide Energy;
    assert d'.threads == d.threads[m.t := d'.threads[m.t]];
    assert Weight(|d.keys|, d'.threads[m.t].pc) < Weight(|d.keys|, d.threads[m.t].pc);
    hide Play;
    EnergyUpdate(|d.keys|, d.threads, m.t, d'.threads[m.t]);
  }

  /** A stretch of a run without creations in which every step changes something (a spinning load does
      not). */
  predicate Destructing(ds: seq<Drops>, ms: seq<Move>)
  {
    && |ds| == |ms| + 1
    && forall i :: 0 <= i < |ms| ==> Play(ds[i], ms[i]) == Some(ds[i + 1]) && !Creates(ms[i]) && ds[i + 1] != ds[i]
  }

  /** It has at most as many steps as there is energy: once no more handles are created, destructors
      finish. */
  lemma {:induction false} DestructorsFinish(ds: seq<Drops>, ms: seq<Move>)
    requires Destructing(ds, ms)
    ensures |ms| <= Energy(|ds[0].keys|, ds[0].threads)
    decreases |ms|
  {
    if ms != [] {
      hide Energy, Play;
      EnergyFalls(ds[0], ms[0], ds[1]);
      DestructorsFinish(ds[1..], ms[1..]);
    }
  }

  /** A thread whose own next step is possible, and changes something. */
  lemma ThreadThatMoves(d: Drops, u: nat) returns (m: Move)
    requires DropInv(d) && u < |d.threads| && !Finished(d.threads[u].pc)
    ensures !Creates(m) && m.t < |d.threads| && !Finished(d.threads[m.t].pc)
    ensures Play(d, m).Some? && Play(d, m).value != d
  {
    var pc := d.threads[u].pc;
    if pc.LiveReader? || pc.LiveWriter? {
      m := Drop(u);
      if pc.LiveWriter? {
        CountWitness(d.threads, KWriter);
        assert Is(KWriter, d.threads[u].pc);
      }
      assert Play(d, m).value.threads[u].pc != pc;
    } else {
      var t := u;
      if pc.Waiting? && d.keep > 0 {
        CountWitness(d.threads, KKeep);
        t :| 0 <= t < |d.threads| && Is(KKeep, d.threads[t].pc);
      }
      CanMove(d, t);
      m := Proceed(t);
    }
  }

  predicate Creationless(ms: seq<Move>) { forall i :: 0 <= i < |ms| ==> !Creates(ms[i]) }

  /** From every state of the invariant in which nothing is freed yet, dropping the handles and running
      their destructors in some order ends with a destroyer. */
  lemma {:induction false} RunDown(d: Drops) returns (ms: seq<Move>, d': Drops, t: nat)
    requires DropInv(d) && forall u :: 0 <= u < |d.threads| ==> !d.threads[u].pc.Freed?
    ensures Creationless(ms) && PlayAll(d, ms) == Some(d')
    ensures t < |d'.threads| && d'.threads[t].pc.Destroying?
    decreases Energy(|d.keys|, d.threads)
  {
    hide DropInv, Play, Energy;
    if t0 :| 0 <= t0 < |d.threads| && d.threads[t0].pc.Destroying? {
      ms, d', t := [], d, t0;
    } else {
      var u := Unfinished(d);
      var m := ThreadThatMoves(d, u);
      var next := Play(d, m).value;
      MoveKeeps(d, m, next);
      EnergyFalls(d, m, next);
      NobodyFrees(d, m, next);
      var rest;
      rest, d', t := RunDown(next);
      ms := [m] + rest;
      assert ms[1..] == rest;
    }
  }

  lemma Unfinished(d: Drops) returns (u: nat)
    requires DropInv(d) && forall u :: 0 <= u < |d.threads| ==> !d.threads[u].pc.Freed? && !d.threads[u].pc.Destroying?
    ensures u < |d.threads| && !Finished(d.threads[u].pc)
  {
    if forall v :: 0 <= v < |d.threads| ==> Finished(d.threads[v].pc) {
      SomebodyWins(d);
    } else {
      u :| 0 <= u < |d.threads| && !Finished(d.threads[u].pc);
    }
  }

  lemma NobodyFrees(d: Drops, m: Move, d': Drops)
    requires Play(d, m) == Some(d') && !Creates(m)
    requires forall u :: 0 <= u < |d.threads| ==> !d.threads[u].pc.Freed? && !d.threads[u].pc.Destroying?
    ensures forall u :: 0 <= u < |d'.threads| ==> !d'.threads[u].pc.Freed?
  {
  }
}

/** What a cleanup comes to in a run, with readers, writers and other cleaners in between: when it gives up,
    how far it gets otherwise, and that it gives up only when there is nothing left for it. */
module CleanerCalls {
  import opened Options
  import opened Protocol
  import opened Invariant
  import opened Preservation
  import opened Theorems
  import opened ReaderCalls

  ghost predicate CleanerIn(r: Run, k: nat, t: nat)
  {
    IsRun(r) && k < |r.states| && t < |r.states[k].area.cleaners|
  }

  function PcAt(r: Run, k: nat, t: nat): CleanerPc
    requires k < |r.states| && t < |r.states[k].area.cleaners|
  {
    r.states[k].area.cleaners[t]
  }

  predicate Cleans(r: Run, k: nat, t: nat) { k < |r.labels| && r.labels[k] == Clean(t) }

  lemma CleanerStays(r: Run, k: nat, t: nat)
    requires IsRun(r) && k < |r.labels|
    ensures |r.states| == |r.labels| + 1
    ensures |r.states[k + 1].area.cleaners| == |r.states[k].area.cleaners|
    ensures t < |r.states[k].area.cleaners| && !Cleans(r, k, t) ==> PcAt(r, k + 1, t) == PcAt(r, k, t)
    ensures t < |r.states[k].area.cleaners| && Cleans(r, k, t) ==>
              Sized(r.states[k].area) && CleanerNext(Natural, r.states[k].area, t) == Some(r.states[k + 1].area)
  {
    hide IsRun, Step, CleanerNext;
    RunStep(r, k);
    CleanerStaysStep(r.states[k], r.labels[k], r.states[k + 1], t);
  }

  lemma CleanerStaysStep(s: State, l: Label, s': State, t: nat)
    requires Step(s, l, s')
    ensures |s'.area.cleaners| == |s.area.cleaners|
    ensures t < |s.area.cleaners| && l != Clean(t) ==> s'.area.cleaners[t] == s.area.cleaners[t]
    ensures t < |s.area.cleaners| && l == Clean(t) ==> Sized(s.area) && CleanerNext(Natural, s.area, t) == Some(s'.area)
  {
    hide Allowed, Record, ReaderNext, SplitAt, Inspect, RingSlot;
  }

  lemma CleanerFine(r: Run, k: nat, t: nat)
    requires CleanerIn(r, k, t)
    ensures CleanerOK(PcAt(r, k, t), r.states[k].area.slots, r.states[k].area.last, r.states[k].area.read)
  {
    hide IsRun;
    RunInv(r, k);
  }

  // ---------------------------------------------------------------- a call

  /** A cleanup by thread `t` begins with step `i`, and no other has begun by state `k`. */
  ghost predicate CleanCall(r: Run, i: nat, k: nat, t: nat)
  {
    && i < k && CleanerIn(r, i, t) && CleanerIn(r, k, t) && Cleans(r, i, t) && PcAt(r, i, t).CIdle?
    && forall m :: i < m < k && Cleans(r, m, t) ==>
         m < |r.states| && t < |r.states[m].area.cleaners| && !PcAt(r, m, t).CIdle?
  }

  /** A step of the call found read_gen at `e`. */
  ghost predicate SawRead(r: Run, i: nat, k: nat, t: nat, e: nat)
  {
    exists m :: i < m < k && m < |r.states| && Cleans(r, m, t) && r.states[m].area.read == e
  }

  /** A step of the call found last_valid_gen at or beyond `g`. */
  ghost predicate SawLast(r: Run, i: nat, k: nat, t: nat, g: nat)
  {
    exists m :: i <= m < k && m < |r.states| && Cleans(r, m, t) && g <= r.states[m].area.last
  }

  /** `min` is what holds the cleanup back: read_gen as the call found it, or the generation of a reader
      that was active at a step of the call. */
  ghost predicate Held(r: Run, i: nat, k: nat, t: nat, min: nat)
  {
    || SawRead(r, i, k, t, min)
    || exists m, j :: i < m < k && m < |r.states| && Cleans(r, m, t) && 0 <= j < |r.states[m].area.slots|
                      && r.states[m].area.slots[j].word == Word(min, false)
  }

  /** A step of the call moved last_valid_gen from `last` to `min`. */
  ghost predicate Won(r: Run, i: nat, k: nat, t: nat, last: nat, min: nat)
  {
    exists m :: i < m < k && m + 1 < |r.states| && Cleans(r, m, t)
                && r.states[m].area.last == last < min == r.states[m + 1].area.last
  }

  /** ... and one freed everything up to `min`. */
  ghost predicate Freed(r: Run, i: nat, k: nat, t: nat, last: nat, min: nat)
  {
    exists m :: i < m < k && m + 1 < |r.states| && Cleans(r, m, t)
                && r.states[m].area.free == last && r.states[m + 1].area.free == min
  }

  /** NothingToClean: last_valid_gen had reached what held the cleanup back. */
  ghost predicate GaveUp(r: Run, i: nat, k: nat, t: nat)
  {
    exists min: nat :: Held(r, i, k, t, min) && SawLast(r, i, k, t, min)
  }

  ghost predicate Succeeded(r: Run, i: nat, k: nat, t: nat)
  {
    exists last: nat, min: nat :: Held(r, i, k, t, min) && Won(r, i, k, t, last, min) && Freed(r, i, k, t, last, min)
  }

  ghost predicate Cleaning(r: Run, i: nat, k: nat, t: nat)
    requires CleanerIn(r, k, t)
  {
    match PcAt(r, k, t)
    case CIdle => GaveUp(r, i, k, t) || Succeeded(r, i, k, t)
    case CGotLast(last) => SawLast(r, i, k, t, last)
    case CScan(last, _, min) => SawLast(r, i, k, t, last) && Held(r, i, k, t, min)
    case CForce(last, _, min, _) => SawLast(r, i, k, t, last) && Held(r, i, k, t, min)
    case CAdvance(last, min) => SawLast(r, i, k, t, last) && Held(r, i, k, t, min)
    case CDrop(last, min, _) => Held(r, i, k, t, min) && Won(r, i, k, t, last, min)
  }

  /** What has been seen stays seen. */
  lemma StillSeen(r: Run, i: nat, k: nat, t: nat)
    ensures forall e: nat :: SawRead(r, i, k, t, e) ==> SawRead(r, i, k + 1, t, e)
    ensures forall g: nat :: SawLast(r, i, k, t, g) ==> SawLast(r, i, k + 1, t, g)
    ensures forall last: nat, min: nat :: Won(r, i, k, t, last, min) ==> Won(r, i, k + 1, t, last, min)
    ensures forall last: nat, min: nat :: Freed(r, i, k, t, last, min) ==> Freed(r, i, k + 1, t, last, min)
  {
  }

  lemma StillHeld(r: Run, i: nat, k: nat, t: nat)
    ensures forall min: nat :: Held(r, i, k, t, min) ==> Held(r, i, k + 1, t, min)
  {
    StillSeen(r, i, k, t);
    hide SawRead;
  }

  lemma StillOver(r: Run, i: nat, k: nat, t: nat)
    ensures GaveUp(r, i, k, t) ==> GaveUp(r, i, k + 1, t)
    ensures Succeeded(r, i, k, t) ==> Succeeded(r, i, k + 1, t)
  {
    StillSeen(r, i, k, t);
    StillHeld(r, i, k, t);
    hide SawLast, Held, Won, Freed;
  }

  /** Everything up to what a step of the call finds in last_valid_gen. */
  lemma JustSeenLast(r: Run, i: nat, k: nat, t: nat, g: nat)
    requires i <= k < |r.states| && Cleans(r, k, t) && g <= r.states[k].area.last
    ensures SawLast(r, i, k + 1, t, g)
  {
  }

  /** Everything a step of the call sees. */
  lemma JustSeen(r: Run, i: nat, k: nat, t: nat)
    requires i <= k < |r.states| && Cleans(r, k, t)
    ensures i < k ==> SawRead(r, i, k + 1, t, r.states[k].area.read) && Held(r, i, k + 1, t, r.states[k].area.read)
    ensures SawLast(r, i, k + 1, t, r.states[k].area.last)
    ensures i < k ==> forall j :: 0 <= j < |r.states[k].area.slots| && !r.states[k].area.slots[j].word.suspended ==>
              Held(r, i, k + 1, t, r.states[k].area.slots[j].word.gen)
  {
    if i < k {
      assert SawRead(r, i, k + 1, t, r.states[k].area.read);
      forall j | 0 <= j < |r.states[k].area.slots| && !r.states[k].area.slots[j].word.suspended
        ensures Held(r, i, k + 1, t, r.states[k].area.slots[j].word.gen)
      {
        assert r.states[k].area.slots[j].word == Word(r.states[k].area.slots[j].word.gen, false);
      }
    }
  }

  lemma {:induction false} CleaningGoes(r: Run, i: nat, k: nat, t: nat)
    requires CleanCall(r, i, k, t)
    ensures Cleaning(r, i, k, t)
    decreases k
  {
    hide IsRun, Cleaning, CleanerNext;
    RunStep(r, k - 1);
    CleanerStays(r, k - 1, t);
    if k == i + 1 {
      CleaningBegins(r, i, t);
    } else {
      CleaningGoes(r, i, k - 1, t);
      CleaningStep(r, i, k - 1, t);
    }
  }

  lemma CleaningBegins(r: Run, i: nat, t: nat)
    requires CleanerIn(r, i, t) && Cleans(r, i, t) && PcAt(r, i, t).CIdle? && CleanerIn(r, i + 1, t)
    ensures Cleaning(r, i, i + 1, t)
  {
    hide IsRun, SawLast, SawRead, Held;
    CleanerStays(r, i, t);
    JustSeen(r, i, i, t);
  }

  lemma CleaningStep(r: Run, i: nat, k: nat, t: nat)
    requires CleanerIn(r, k, t) && i < k < |r.labels| && Cleaning(r, i, k, t)
    requires Cleans(r, k, t) ==> !PcAt(r, k, t).CIdle?
    ensures CleanerIn(r, k + 1, t) && Cleaning(r, i, k + 1, t)
  {
    hide IsRun, SawRead, SawLast, Held, Won, Freed, GaveUp, Succeeded, CleanerNext;
    CleanerStays(r, k, t);
    StillSeen(r, i, k, t);
    StillHeld(r, i, k, t);
    StillOver(r, i, k, t);
    if Cleans(r, k, t) {
      JustSeen(r, i, k, t);
      match PcAt(r, k, t)
      case CGotLast(_) => LooksAtRead(r, i, k, t);
      case CScan(_, _, _) => Scans(r, i, k, t);
      case CForce(_, _, _, _) => Scans(r, i, k, t);
      case CAdvance(_, _) => Advances(r, i, k, t);
      case CDrop(_, _, _) => Drops(r, i, k, t);
    }
  }

  lemma LooksAtRead(r: Run, i: nat, k: nat, t: nat)
    requires CleanerIn(r, k, t) && i < k && Cleans(r, k, t) && PcAt(r, k, t).CGotLast? && Cleaning(r, i, k, t)
    ensures CleanerIn(r, k + 1, t) && Cleaning(r, i, k + 1, t)
  {
    hide IsRun, SawRead, Held;
    CleanerStays(r, k, t);
    StillSeen(r, i, k, t);
    JustSeen(r, i, k, t);
    CleanerFine(r, k, t);
    var last, e := PcAt(r, k, t).last, r.states[k].area.read;
    if last >= e { JustSeenLast(r, i, k, t, e); }
  }

  lemma Scans(r: Run, i: nat, k: nat, t: nat)
    requires CleanerIn(r, k, t) && i < k && Cleans(r, k, t) && Cleaning(r, i, k, t)
    requires PcAt(r, k, t).CScan? || PcAt(r, k, t).CForce?
    ensures CleanerIn(r, k + 1, t) && Cleaning(r, i, k + 1, t)
  {
    hide IsRun, SawRead, SawLast, Held, Won, Freed, Succeeded, Scanned;
    CleanerStays(r, k, t);
    StillSeen(r, i, k, t);
    StillHeld(r, i, k, t);
    JustSeen(r, i, k, t);
    var pc, pc' := PcAt(r, k, t), PcAt(r, k + 1, t);
    LowerSeen(r, i, k + 1, t, pc.last);
    var word := r.states[k].area.slots[pc.pos].word;
    var min' := if !word.suspended && word.gen <= pc.min then word.gen else pc.min;
    assert Held(r, i, k + 1, t, min');
    assert pc'.CIdle? ==> min' <= pc.last;
  }

  lemma LowerSeen(r: Run, i: nat, k: nat, t: nat, last: nat)
    requires SawLast(r, i, k, t, last)
    ensures forall g: nat :: g <= last ==> SawLast(r, i, k, t, g)
  {
  }

  lemma Advances(r: Run, i: nat, k: nat, t: nat)
    requires CleanerIn(r, k, t) && i < k && Cleans(r, k, t) && Cleaning(r, i, k, t) && PcAt(r, k, t).CAdvance?
    ensures CleanerIn(r, k + 1, t) && Cleaning(r, i, k + 1, t)
  {
    hide IsRun, SawRead, SawLast, Held, Freed, Succeeded, Scanned;
    CleanerStays(r, k, t);
    StillHeld(r, i, k, t);
    JustSeen(r, i, k, t);
    CleanerFine(r, k, t);
    if PcAt(r, k, t).min <= r.states[k].area.last { JustSeenLast(r, i, k, t, PcAt(r, k, t).min); }
  }

  lemma Drops(r: Run, i: nat, k: nat, t: nat)
    requires CleanerIn(r, k, t) && i < k && Cleans(r, k, t) && Cleaning(r, i, k, t) && PcAt(r, k, t).CDrop?
    ensures CleanerIn(r, k + 1, t) && Cleaning(r, i, k + 1, t)
  {
    hide IsRun, SawRead, SawLast, Held, Won, GaveUp, Scanned, RingSlot;
    CleanerStays(r, k, t);
    StillSeen(r, i, k, t);
    StillHeld(r, i, k, t);
  }

  /** How a cleanup ends, whatever the others do. It has won the range up to what held it back, read_gen or
      an active reader's generation as found at a step of the call, dropped it and freed it; or it has
      given up, because last_valid_gen had been there already at a step of the call. */
  lemma CleanupAnswers(r: Run, i: nat, k: nat, t: nat)
    requires CleanCall(r, i, k, t) && PcAt(r, k, t).CIdle?
    ensures GaveUp(r, i, k, t) || Succeeded(r, i, k, t)
  {
    CleaningGoes(r, i, k, t);
    hide CleanCall, IsRun, GaveUp, Succeeded;
  }

  /** The retry loop on last_valid_gen: a CAS that finds the counter where it was wins the range, one that
      does not goes on exactly as long as there is something left to win. */
  lemma AdvanceDecides(r: Run, k: nat, t: nat)
    requires CleanerIn(r, k, t) && Cleans(r, k, t) && PcAt(r, k, t).CAdvance?
    ensures CleanerIn(r, k + 1, t)
    ensures var pc, pc', a, a' := PcAt(r, k, t), PcAt(r, k + 1, t), r.states[k].area, r.states[k + 1].area;
            && (a.last == pc.last ==> a'.last == pc.min && pc' == CDrop(pc.last, pc.min, 0))
            && (a.last != pc.last ==>
                  && a'.last == a.last
                  && (if pc.min > a.last then pc' == CAdvance(a.last, pc.min) else pc'.CIdle?))
  {
    hide IsRun;
    CleanerStays(r, k, t);
  }
}

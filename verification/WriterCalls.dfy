/** What reserving, splitting and publishing come to in a run, with any steps of other threads in between. */
module WriterCalls {
  import opened Options
  import opened Protocol
  import opened Invariant
  import opened Theorems
  import opened ReaderCalls

  // ---------------------------------------------------------------- reserving

  /** How many slots a reserver asks for that has loaded free_gen at `f` and write_gen at `v`: all `n` if
      they fit and else none, or with best effort as many as fit. */
  predicate Asks(capacity: nat, f: nat, v: nat, n: nat, bestEffort: bool, count: nat)
  {
    if v + n <= f + capacity then count == n
    else if bestEffort && v <= f + capacity then v + count == f + capacity
    else count == 0
  }

  ghost predicate ReserverIn(r: Run, k: nat, t: nat)
  {
    IsRun(r) && k < |r.states| && t < |r.states[k].area.reservers|
  }

  predicate Grabs(r: Run, k: nat, t: nat) { k < |r.labels| && r.labels[k] == ReserveGo(t) }

  predicate Begins(r: Run, k: nat, t: nat) { k < |r.labels| && r.labels[k].Reserve? && r.labels[k].t == t }

  lemma ReserversStay(r: Run, k: nat, t: nat)
    requires ReserverIn(r, k, t) && k < |r.labels|
    ensures ReserverIn(r, k + 1, t)
    ensures !Grabs(r, k, t) && !Begins(r, k, t) ==> r.states[k + 1].area.reservers[t] == r.states[k].area.reservers[t]
    ensures r.states[k + 1].area.capacity == r.states[k].area.capacity
  {
    hide IsRun, Step;
    RunStep(r, k);
    ReserverStays(r.states[k], r.labels[k], r.states[k + 1], t);
  }

  lemma ReserverStays(s: State, l: Label, s': State, t: nat)
    requires Step(s, l, s') && t < |s.area.reservers|
    ensures t < |s'.area.reservers| && s'.area.capacity == s.area.capacity
    ensures l != ReserveGo(t) && !(l.Reserve? && l.t == t) ==> s'.area.reservers[t] == s.area.reservers[t]
  {
    hide Allowed, Record, ReaderNext, SplitAt, Granted, Available;
  }

  /** The first step loads free_gen. */
  lemma ReserveBegins(r: Run, k: nat, t: nat)
    requires ReserverIn(r, k, t) && Begins(r, k, t)
    ensures ReserverIn(r, k + 1, t)
    ensures var l := r.labels[k];
            r.states[k + 1].area.reservers[t] == RGotFree(l.author, l.n, l.bestEffort, r.states[k].area.free)
  {
    hide IsRun, Step;
    RunStep(r, k);
    ReserverFrees(r.states[k], r.labels[k], r.states[k + 1]);
  }

  lemma ReserverFrees(s: State, l: Label, s': State)
    requires Step(s, l, s') && l.Reserve?
    ensures l.t < |s'.area.reservers| && s'.area.reservers[l.t] == RGotFree(l.author, l.n, l.bestEffort, s.area.free)
  {
    hide Allowed, Record;
  }

  /** The second loads write_gen, and decides what to ask for; nothing is NoSpace, or the empty result. */
  lemma ReserveLoads(r: Run, k: nat, t: nat) returns (count: nat)
    requires ReserverIn(r, k, t) && Grabs(r, k, t) && r.states[k].area.reservers[t].RGotFree?
    ensures ReserverIn(r, k + 1, t)
    ensures var a, pc := r.states[k].area, r.states[k].area.reservers[t];
            && Asks(a.capacity, pc.free, a.write, pc.n, pc.bestEffort, count)
            && r.states[k + 1].area == a.(reservers := r.states[k + 1].area.reservers)
            && r.states[k + 1].area.reservers[t] == if count == 0 then RIdle else RCas(pc.author, a.write, count)
  {
    RunInv(r, k);
    ReservationsFit(r, k, t);
    hide IsRun, Step, Inv;
    RunStep(r, k);
    count := ReserverLoads(r.states[k], t, r.states[k + 1]);
  }

  lemma ReserverLoads(s: State, t: nat, s': State) returns (count: nat)
    requires Step(s, ReserveGo(t), s') && t < |s.area.reservers| && s.area.reservers[t].RGotFree?
    requires s.area.reservers[t].free <= s.area.write
    ensures var a, pc := s.area, s.area.reservers[t];
            && Asks(a.capacity, pc.free, a.write, pc.n, pc.bestEffort, count)
            && |s'.area.reservers| == |a.reservers| && s'.area == a.(reservers := s'.area.reservers)
            && s'.area.reservers[t] == if count == 0 then RIdle else RCas(pc.author, a.write, count)
  {
    hide Allowed, Record;
    count := if s'.area.reservers[t].RCas? then s'.area.reservers[t].n else 0;
  }

  /** The third is the CAS: if write_gen has not moved it adds exactly the stretch asked for, and otherwise
      nothing (FailedGrab). */
  lemma ReserveCas(r: Run, k: nat, t: nat)
    requires ReserverIn(r, k, t) && Grabs(r, k, t) && r.states[k].area.reservers[t].RCas?
    ensures ReserverIn(r, k + 1, t) && r.states[k + 1].area.reservers[t].RIdle?
    ensures var a, a', pc := r.states[k].area, r.states[k + 1].area, r.states[k].area.reservers[t];
            if a.write == pc.write then
              && a'.write == a.write + pc.n
              && a'.outstanding == a.outstanding + [Reservation(a.write, a.write + pc.n, pc.author)]
            else a'.write == a.write && a'.outstanding == a.outstanding
  {
    hide IsRun, Step;
    RunStep(r, k);
    ReserverCas(r.states[k], t, r.states[k + 1]);
  }

  lemma ReserverCas(s: State, t: nat, s': State)
    requires Step(s, ReserveGo(t), s') && t < |s.area.reservers| && s.area.reservers[t].RCas?
    ensures t < |s'.area.reservers| && s'.area.reservers[t].RIdle?
    ensures var a, a', pc := s.area, s'.area, s.area.reservers[t];
            if a.write == pc.write then
              && a'.write == a.write + pc.n
              && a'.outstanding == a.outstanding + [Reservation(a.write, a.write + pc.n, pc.author)]
            else a'.write == a.write && a'.outstanding == a.outstanding
  {
    hide Allowed, Record;
  }

  /** A reserving call of thread `t` begins with step `i` and has not been followed by another by state `k`. */
  ghost predicate ReserveCall(r: Run, i: nat, k: nat, t: nat)
  {
    && i < k && ReserverIn(r, i, t) && ReserverIn(r, k, t) && Begins(r, i, t)
    && forall m :: i < m < k ==> !Begins(r, m, t)
  }

  /** A step of the call found write_gen at `v`, and `count` slots to ask for. */
  ghost predicate Asked(r: Run, i: nat, k: nat, t: nat, v: nat, count: nat)
    requires i < |r.states| && i < |r.labels| && r.labels[i].Reserve?
  {
    exists m :: i < m < k && m < |r.states| && Grabs(r, m, t) && r.states[m].area.write == v
                && Asks(r.states[i].area.capacity, r.states[i].area.free, v, r.labels[i].n, r.labels[i].bestEffort,
                    count)
  }

  /** A later step granted them, all of them and nothing else. */
  ghost predicate Granting(r: Run, i: nat, k: nat, t: nat)
    requires i < |r.states| && i < |r.labels| && r.labels[i].Reserve?
  {
    exists m, count :: i < m < k && m + 1 < |r.states| && Grabs(r, m, t)
      && Asked(r, i, m, t, r.states[m].area.write, count) && count > 0
      && var a, a' := r.states[m].area, r.states[m + 1].area;
         && a'.write == a.write + count
         && a'.outstanding == a.outstanding + [Reservation(a.write, a.write + count, r.labels[i].author)]
  }

  /** ... or found that write_gen had moved. */
  ghost predicate Missing(r: Run, i: nat, k: nat, t: nat)
    requires i < |r.states| && i < |r.labels| && r.labels[i].Reserve?
  {
    exists m, v, count :: i < m < k && m < |r.states| && Grabs(r, m, t) && r.states[m].area.write != v
      && Asked(r, i, m, t, v, count) && count > 0
  }

  ghost predicate Refused(r: Run, i: nat, k: nat, t: nat)
    requires i < |r.states| && i < |r.labels| && r.labels[i].Reserve?
  {
    exists v :: Asked(r, i, k, t, v, 0)
  }

  ghost predicate Reserving(r: Run, i: nat, k: nat, t: nat)
    requires i < |r.states| && i < |r.labels| && r.labels[i].Reserve? && ReserverIn(r, k, t)
  {
    var l := r.labels[i];
    match r.states[k].area.reservers[t]
    case RGotFree(author, n, bestEffort, f) =>
      author == l.author && n == l.n && bestEffort == l.bestEffort && f == r.states[i].area.free
    case RCas(author, v, count) => author == l.author && count > 0 && Asked(r, i, k, t, v, count)
    case RIdle => Refused(r, i, k, t) || Granting(r, i, k, t) || Missing(r, i, k, t)
  }

  lemma {:induction false} ReservingGoes(r: Run, i: nat, k: nat, t: nat)
    requires ReserveCall(r, i, k, t)
    ensures Reserving(r, i, k, t) && r.states[k].area.capacity == r.states[i].area.capacity
    decreases k
  {
    hide IsRun, Reserving;
    RunStep(r, k - 1);
    if k == i + 1 {
      ReserveBegins(r, i, t);
      ReserversStay(r, i, t);
      JustBegun(r, i, t);
    } else {
      ReserverBack(r, k - 1, t);
      ReservingGoes(r, i, k - 1, t);
      ReservingStep(r, i, k - 1, t);
    }
  }

  lemma JustBegun(r: Run, i: nat, t: nat)
    requires ReserverIn(r, i, t) && Begins(r, i, t) && ReserverIn(r, i + 1, t)
    requires var l := r.labels[i];
             r.states[i + 1].area.reservers[t] == RGotFree(l.author, l.n, l.bestEffort, r.states[i].area.free)
    ensures Reserving(r, i, i + 1, t)
  {
    hide IsRun;
  }

  lemma ReserverBack(r: Run, k: nat, t: nat)
    requires IsRun(r) && k + 1 < |r.states| && t < |r.states[k + 1].area.reservers|
    ensures t < |r.states[k].area.reservers|
  {
    hide IsRun, Step;
    RunStep(r, k);
    ReserversCounted(r.states[k], r.labels[k], r.states[k + 1]);
  }

  lemma ReserversCounted(s: State, l: Label, s': State)
    requires Step(s, l, s')
    ensures |s'.area.reservers| == |s.area.reservers|
  {
    hide Allowed, Record, ReaderNext, SplitAt, Granted, Available;
  }

  lemma StillAsked(r: Run, i: nat, k: nat, t: nat)
    requires i < |r.states| && i < |r.labels| && r.labels[i].Reserve?
    ensures forall v: nat, count: nat :: Asked(r, i, k, t, v, count) ==> Asked(r, i, k + 1, t, v, count)
    ensures Granting(r, i, k, t) ==> Granting(r, i, k + 1, t)
    ensures Missing(r, i, k, t) ==> Missing(r, i, k + 1, t)
  {
  }

  lemma StillRefused(r: Run, i: nat, k: nat, t: nat)
    requires i < |r.states| && i < |r.labels| && r.labels[i].Reserve?
    ensures Refused(r, i, k, t) ==> Refused(r, i, k + 1, t)
  {
    StillAsked(r, i, k, t);
    hide Asked;
  }

  lemma ReservingStep(r: Run, i: nat, k: nat, t: nat)
    requires i < k < |r.labels| && r.labels[i].Reserve? && r.labels[i].t == t && ReserverIn(r, k, t)
    requires Reserving(r, i, k, t) && !Begins(r, k, t) && r.states[k].area.capacity == r.states[i].area.capacity
    ensures ReserverIn(r, k + 1, t) && Reserving(r, i, k + 1, t)
    ensures r.states[k + 1].area.capacity == r.states[i].area.capacity
  {
    hide IsRun, Asked, Asks, Granting, Missing, Refused;
    StillAsked(r, i, k, t);
    StillRefused(r, i, k, t);
    ReserversStay(r, k, t);
    if Grabs(r, k, t) {
      var pc := r.states[k].area.reservers[t];
      if pc.RGotFree? {
        var count := ReserveLoads(r, k, t);
        JustAsked(r, i, k, t, count);
      } else if pc.RCas? {
        ReserveCas(r, k, t);
        JustTried(r, i, k, t);
      } else {
        NoIdleGrab(r, k, t);
      }
    }
  }

  lemma NoIdleGrab(r: Run, k: nat, t: nat)
    requires ReserverIn(r, k, t) && Grabs(r, k, t)
    ensures !r.states[k].area.reservers[t].RIdle?
  {
    RunStep(r, k);
    hide IsRun, Allowed, Record;
  }

  lemma JustAsked(r: Run, i: nat, k: nat, t: nat, count: nat)
    requires i < k < |r.labels| && k < |r.states| && r.labels[i].Reserve? && Grabs(r, k, t)
    requires var a, l := r.states[k].area, r.labels[i];
             Asks(r.states[i].area.capacity, r.states[i].area.free, a.write, l.n, l.bestEffort, count)
    ensures Asked(r, i, k + 1, t, r.states[k].area.write, count)
    ensures count == 0 ==> Refused(r, i, k + 1, t)
  {
    hide Asks;
    assert Asked(r, i, k + 1, t, r.states[k].area.write, count);
    hide Asked;
  }

  lemma JustTried(r: Run, i: nat, k: nat, t: nat)
    requires i < k < |r.labels| && k + 1 < |r.states| && r.labels[i].Reserve? && Grabs(r, k, t)
    requires t < |r.states[k].area.reservers| && r.states[k].area.reservers[t].RCas?
    requires var a, a', pc := r.states[k].area, r.states[k + 1].area, r.states[k].area.reservers[t];
             && pc.author == r.labels[i].author && pc.n > 0 && Asked(r, i, k, t, pc.write, pc.n)
             && (a.write == pc.write ==>
                   && a'.write == a.write + pc.n
                   && a'.outstanding == a.outstanding + [Reservation(a.write, a.write + pc.n, pc.author)])
    ensures Granting(r, i, k + 1, t) || Missing(r, i, k + 1, t)
  {
    hide Asked;
    var pc := r.states[k].area.reservers[t];
    if r.states[k].area.write == pc.write {
      assert Asked(r, i, k, t, r.states[k].area.write, pc.n);
    }
  }

  /** How a reserving call ends: with exactly the slots it asked for, on the loads it made, added above
      everything reserved before and reserved through the caller's handle; without any because there was
      nothing to ask for; or without any because write_gen had moved since it was loaded. */
  lemma ReserveAnswers(r: Run, i: nat, k: nat, t: nat)
    requires ReserveCall(r, i, k, t) && r.states[k].area.reservers[t].RIdle?
    ensures Refused(r, i, k, t) || Granting(r, i, k, t) || Missing(r, i, k, t)
  {
    ReservingGoes(r, i, k, t);
    hide ReserveCall, IsRun, Refused, Granting, Missing;
  }

  // ---------------------------------------------------------------- splitting and publishing

  /** Splitting at `at` leaves a left half of length `at` and the rest, both with the author of the whole,
      in its place; splitting off nothing changes nothing. */
  lemma SplitHalves(r: Run, i: nat, k: nat, at: nat)
    requires IsRun(r) && i < |r.labels| && r.labels[i] == Split(k, at)
    ensures i + 1 < |r.states| && k < |r.states[i].area.outstanding|
    ensures var a, a' := r.states[i].area, r.states[i + 1].area;
            var x := a.outstanding[k];
            && at <= x.end - x.start
            && a' == a.(outstanding := a'.outstanding)
            && (at == 0 || at == x.end - x.start ==> a'.outstanding == a.outstanding)
            && (0 < at < x.end - x.start ==>
                  && |a'.outstanding| == |a.outstanding| + 1
                  && a'.outstanding[..k] == a.outstanding[..k] && a'.outstanding[k + 2..] == a.outstanding[k + 1..]
                  && a'.outstanding[k] == Reservation(x.start, x.start + at, x.author)
                  && a'.outstanding[k + 1] == Reservation(x.start + at, x.end, x.author))
  {
    RunStep(r, i);
    ReservationsTile(r, i, 0);
    hide IsRun, Allowed, Record;
  }

  /** Publishing succeeds exactly if the reservation is next in line, and then read_gen moves to its end and
      it is gone; otherwise nothing changes. */
  lemma PublishMoves(r: Run, i: nat, k: nat)
    requires IsRun(r) && i < |r.labels| && r.labels[i] == Publish(k)
    ensures i + 1 < |r.states| && k < |r.states[i].area.outstanding|
    ensures var a, a' := r.states[i].area, r.states[i + 1].area;
            var x := a.outstanding[k];
            if x.start == a.read then
              && a'.read == x.end && |a'.outstanding| == |a.outstanding| - 1
              && a'.outstanding[..k] == a.outstanding[..k] && a'.outstanding[k..] == a.outstanding[k + 1..]
            else a' == a
  {
    RunStep(r, i);
    ReservationsTile(r, i, 0);
    hide IsRun, Allowed, Record;
  }
}

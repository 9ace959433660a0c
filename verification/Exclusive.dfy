/** The `E = Exclusive` forms of `src/area.rs`, which store instead of compare-and-swap. As long as their
    callers keep to themselves (one cleanup, one reserving call and one publishing call at a time, among
    any number of threads) they go through the same states as the CAS forms, and their asserts never
    fail. The load of an assert or comparison and the store it guards are separate steps. */
module Exclusive {
  import opened Options
  import opened Protocol
  import opened Invariant
  import opened Preservation
  import opened Theorems

  // ---------------------------------------------------------------- a cleanup

  /** One step of `try_cleanup_old_slots::<Exclusive>`, with whether it has just passed an assert whose
      store is still to come; None when the assert fails, as when there is no step. */
  function ExclusiveClean(a: Area, t: nat, sure: bool): Option<(Area, bool)>
    requires Sized(a) && t < |a.cleaners|
  {
    var pc := a.cleaners[t];
    if pc.CAdvance? then
      if sure then Some((a.(last := pc.min, cleaners := a.cleaners[t := CDrop(pc.last, pc.min, 0)]), false))
      else if a.last == pc.last then Some((a, true)) else None
    else if pc.CDrop? && pc.done >= Dist(Natural, pc.min, pc.last) then
      if sure then Some((a.(free := pc.min, cleaners := a.cleaners[t := CIdle]), false))
      else if a.free == pc.last then Some((a, true)) else None
    else
      var a' := CleanerNext(Natural, a, t);
      if a'.Some? then Some((a'.value, false)) else None
  }

  /** Cleaner `t` is the only one under way, and its snapshot of last_valid_gen is current. */
  ghost predicate Lone(a: Area, t: nat)
  {
    && t < |a.cleaners|
    && (forall u :: 0 <= u < |a.cleaners| && u != t ==> a.cleaners[u].CIdle?)
    && match a.cleaners[t]
       case CIdle => true
       case CDrop(_, _, _) => true
       case CGotLast(last) => last == a.last
       case CScan(last, _, _) => last == a.last
       case CForce(last, _, _, _) => last == a.last
       case CAdvance(last, _) => last == a.last
  }

  /** A lone cleaner in its dropping phase owns all of [free_gen, last_valid_gen). */
  lemma LoneRange(s: State, t: nat)
    requires Inv(s) && Lone(s.area, t) && s.area.cleaners[t].CDrop?
    ensures s.area.cleaners[t].last == s.area.free && s.area.cleaners[t].min == s.area.last
  {
    hide CleanersOK, SlotsOK, ReserversOK, LogOK, HoldsAll, UndroppedOK, DropsOK, DeliveriesOK, WritersOK;
    var a, h := s.area, s.hist;
    var rs := WonRanges(h.pending, a.cleaners);
    assert t in h.pending && h.pending[0] == t && h.pending[|h.pending| - 1] == t;
    assert rs[0] == WonRange(a.cleaners[t]) && rs[|rs| - 1] == WonRange(a.cleaners[t]);
  }

  /** Alone, however many cleaners there are: no assert of the Exclusive form fails, and each of its steps
      is the CAS form's step, or a passed assert in front of a CAS that would succeed. */
  lemma LoneCleanerAgrees(s: State, t: nat, sure: bool)
    requires Inv(s) && Lone(s.area, t)
    ensures Sized(s.area) && CleanerNext(Natural, s.area, t).Some? && ExclusiveClean(s.area, t, sure).Some?
    ensures var x, a' := ExclusiveClean(s.area, t, sure).value, CleanerNext(Natural, s.area, t).value;
            if x.1 then x.0 == s.area && !sure && a' != s.area
                && (s.area.cleaners[t].CAdvance? || s.area.cleaners[t].CDrop?)
            else x.0 == a'
  {
    if s.area.cleaners[t].CDrop? { LoneRange(s, t); }
    assert CleanerOK(s.area.cleaners[t], s.area.slots, s.area.last, s.area.read);
    hide Inv, SlotsOK, CleanersOK, Inspect, RingSlot, Scanned;
  }

  lemma LoneStays(a: Area, t: nat, a': Area)
    requires Sized(a) && Lone(a, t) && CleanerNext(Natural, a, t) == Some(a')
    ensures Lone(a', t) && |a'.cleaners| == |a.cleaners|
  {
  }

  // ---------------------------------------------------------------- all Exclusive calls

  /** A state with the asserts and comparisons passed whose stores are still to come. */
  datatype Solo = Solo(s: State, sure: seq<bool>, publishing: Option<nat>)

  ghost predicate SoloSized(x: Solo)
  {
    Sized(x.s.area) && |x.s.hist.readers| == |x.s.area.slots| && |x.sure| == |x.s.area.cleaners|
  }

  function Store(x: Solo, a: Area, l: Label): Solo
    requires Sized(x.s.area) && |x.s.hist.readers| == |x.s.area.slots|
  {
    x.(s := State(a, Record(x.s, l)))
  }

  /** One step of the Exclusive forms, readers moving as ever. */
  function ExclusiveNext(x: Solo, l: Label): Option<Solo>
    requires Sized(x.s.area) && |x.s.hist.readers| == |x.s.area.slots| && |x.sure| == |x.s.area.cleaners|
  {
    var a := x.s.area;
    match l
    case Clean(t) =>
      if t >= |a.cleaners| then None else
        var e := ExclusiveClean(a, t, x.sure[t]);
        if e.None? then None
        else if e.value.1 then Some(x.(sure := x.sure[t := true]))
        else Some(Store(x, e.value.0, l).(sure := x.sure[t := false]))
    case ReserveGo(t) =>
      if t < |a.reservers| && a.reservers[t].RCas? then
        var pc := a.reservers[t];
        var end := pc.write + pc.n;
        Some(Store(x, a.(write := end, reservers := a.reservers[t := RIdle],
                         outstanding := a.outstanding + [Reservation(pc.write, end, pc.author)]), l))
      else
        var a' := Next(Natural, a, l);
        if a'.Some? then Some(Store(x, a'.value, l)) else None
    case Publish(k) =>
      if k >= |a.outstanding| then None
      else if x.publishing == Some(k) then
        Some(Store(x, a.(read := a.outstanding[k].end, outstanding := a.outstanding[..k] + a.outstanding[k + 1..]),
            l).(publishing := None))
      else if a.outstanding[k].start >= a.outstanding[k].end then Some(x)
      else if a.read != a.outstanding[k].start then Some(x)                    // OutOfOrderPublishAttempt
      else Some(x.(publishing := Some(k)))
    case _ =>
      var a' := Next(Natural, a, l);
      if a'.Some? then Some(Store(x, a'.value, l)) else None
  }

  /** What the callers of the Exclusive forms promise: no second cleanup, reserving call or publishing
      call begins during one, and no reservation is split during a publishing call. */
  ghost predicate OneAtATime(x: Solo, l: Label)
  {
    var a := x.s.area;
    match l
    case Clean(t) =>
      t < |a.cleaners| && a.cleaners[t].CIdle? ==> forall u :: 0 <= u < |a.cleaners| ==> a.cleaners[u].CIdle?
    case Reserve(_, _, _, _) => forall u :: 0 <= u < |a.reservers| ==> a.reservers[u].RIdle?
    case Publish(k) => x.publishing.None? || x.publishing == Some(k)
    case Split(_, _) => x.publishing.None?
    case _ => true
  }

  ghost predicate ExclusiveStep(x: Solo, l: Label, x': Solo)
  {
    && SoloSized(x) && Allowed(x.s, l) && OneAtATime(x, l)
    && ExclusiveNext(x, l) == Some(x')
  }

  ghost predicate OneReserver(a: Area)
  {
    forall t :: 0 <= t < |a.reservers| && !a.reservers[t].RIdle? ==>
      && (forall u :: 0 <= u < |a.reservers| && u != t ==> a.reservers[u].RIdle?)
      && (a.reservers[t].RCas? ==> a.reservers[t].write == a.write)
  }

  ghost predicate OneCleaner(a: Area)
  {
    forall t :: 0 <= t < |a.cleaners| && !a.cleaners[t].CIdle? ==> Lone(a, t)
  }

  ghost predicate OnePublisher(a: Area, publishing: Option<nat>)
  {
    publishing.Some? ==>
      && publishing.value < |a.outstanding|
      && a.outstanding[publishing.value].start == a.read < a.outstanding[publishing.value].end
  }

  /** What keeps the store forms honest. */
  ghost predicate SoloInv(x: Solo)
  {
    && Inv(x.s) && SoloSized(x)
    && OneReserver(x.s.area) && OneCleaner(x.s.area) && OnePublisher(x.s.area, x.publishing)
  }

  /** In every state that such callers can reach, no assert fails: the Exclusive form has a step exactly
      when the CAS form has, and it is the same step with the same outcome, or the passed check in front
      of a CAS that would succeed. */
  lemma ExclusiveAgrees(x: Solo, l: Label)
    requires SoloInv(x) && OneAtATime(x, l)
    ensures Sized(x.s.area) && |x.s.hist.readers| == |x.s.area.slots| && |x.sure| == |x.s.area.cleaners|
    ensures ExclusiveNext(x, l).Some? <==> Next(Natural, x.s.area, l).Some?
    ensures ExclusiveNext(x, l).Some? ==>
              var x', a' := ExclusiveNext(x, l).value, Next(Natural, x.s.area, l).value;
              || x'.s == State(a', Record(x.s, l))
              || (x'.s == x.s && x' != x && a' != x.s.area)
  {
    hide Inv, ExclusiveClean, CleanerNext, ReaderNext, RecordCleaner, RecordReader, Lone;
    match l
    case Clean(t) =>
      if t < |x.s.area.cleaners| {
        AloneIfBusy(x, t);
        LoneCleanerAgrees(x.s, t, x.sure[t]);
      }
    case ReserveGo(_) =>
    case Publish(_) =>
    case _ =>
  }

  lemma AloneIfBusy(x: Solo, t: nat)
    requires SoloInv(x) && OneAtATime(x, Clean(t)) && t < |x.s.area.cleaners|
    ensures Lone(x.s.area, t)
  {
    hide Inv;
  }

  /** A step of the Exclusive forms is a passed check, or a step of the CAS forms. */
  lemma SoloStep(x: Solo, l: Label, x': Solo)
    requires SoloInv(x) && ExclusiveStep(x, l, x')
    ensures SoloInv(x') && (x'.s == x.s || Step(x.s, l, x'.s))
  {
    hide SoloInv, ExclusiveNext, Next, Record, Inv, Allowed, OneAtATime;
    ExclusiveAgrees(x, l);
    if x'.s == State(Next(Natural, x.s.area, l).value, Record(x.s, l)) {
      StepKeepsInv(x, l, x');
    }
    OneCleanerStays(x, l, x');
    OneReserverStays(x, l, x');
    OnePublisherStays(x, l, x');
    SoloTogether(x, x');
  }

  lemma StepKeepsInv(x: Solo, l: Label, x': Solo)
    requires SoloInv(x) && ExclusiveStep(x, l, x') && Sized(x.s.area) && |x.s.hist.readers| == |x.s.area.slots|
    requires Next(Natural, x.s.area, l).Some? && x'.s == State(Next(Natural, x.s.area, l).value, Record(x.s, l))
    ensures Step(x.s, l, x'.s) && Inv(x'.s)
  {
    hide Inv, ExclusiveNext, Next, Record, Allowed, OneAtATime;
    StepKeeps(x.s, l, x'.s);
  }

  lemma SoloTogether(x: Solo, x': Solo)
    requires SoloInv(x) && (x'.s == x.s || Inv(x'.s)) && |x'.sure| == |x'.s.area.cleaners|
    requires OneReserver(x'.s.area) && OneCleaner(x'.s.area) && OnePublisher(x'.s.area, x'.publishing)
    ensures SoloInv(x')
  {
    hide OneReserver, OneCleaner, OnePublisher;
  }

  lemma OneCleanerStays(x: Solo, l: Label, x': Solo)
    requires SoloInv(x) && ExclusiveStep(x, l, x')
    ensures OneCleaner(x'.s.area) && |x'.sure| == |x'.s.area.cleaners|
  {
    if l.Clean? {
      CleanStays(x, l.t, x');
    } else {
      hide Inv, ExclusiveStep, Lone;
      OthersLeaveCleaners(x, l, x');
      forall t | 0 <= t < |x'.s.area.cleaners| && !x'.s.area.cleaners[t].CIdle?
        ensures Lone(x'.s.area, t)
      {
        LoneAfter(x.s.area, t, x'.s.area);
      }
    }
  }

  lemma OthersLeaveCleaners(x: Solo, l: Label, x': Solo)
    requires ExclusiveStep(x, l, x') && !l.Clean?
    ensures x'.s.area.cleaners == x.s.area.cleaners && x'.s.area.last == x.s.area.last && x'.sure == x.sure
  {
    hide Allowed, ReaderNext, Record, SplitAt, OneAtATime;
  }

  lemma LoneAfter(a: Area, t: nat, a': Area)
    requires Lone(a, t) && a'.cleaners == a.cleaners && a'.last == a.last
    ensures Lone(a', t)
  {
  }

  lemma CleanStays(x: Solo, t: nat, x': Solo)
    requires SoloInv(x) && ExclusiveStep(x, Clean(t), x')
    ensures OneCleaner(x'.s.area) && |x'.sure| == |x'.s.area.cleaners|
  {
    hide Inv, ExclusiveClean, CleanerNext, Record, Lone;
    AloneIfBusy(x, t);
    LoneCleanerAgrees(x.s, t, x.sure[t]);
    var a' := CleanerNext(Natural, x.s.area, t).value;
    LoneStays(x.s.area, t, a');
    LoneIsOne(x.s.area, t);
    LoneIsOne(a', t);
  }

  lemma LoneIsOne(a: Area, t: nat)
    requires Lone(a, t)
    ensures OneCleaner(a)
  {
  }

  lemma OneReserverStays(x: Solo, l: Label, x': Solo)
    requires SoloInv(x) && ExclusiveStep(x, l, x')
    ensures OneReserver(x'.s.area)
  {
    hide Inv, ReaderNext, Record, SplitAt;
  }

  lemma OnePublisherStays(x: Solo, l: Label, x': Solo)
    requires SoloInv(x) && ExclusiveStep(x, l, x')
    ensures OnePublisher(x'.s.area, x'.publishing)
  {
    hide Inv, ReaderNext, Record, SplitAt;
  }

  // ---------------------------------------------------------------- whole runs

  /** A run by the Exclusive forms, from a fresh area. */
  ghost predicate IsExclusiveRun(xs: seq<Solo>, ls: seq<Label>)
  {
    && |xs| == |ls| + 1
    && Fresh(xs[0].s) && |xs[0].sure| == |xs[0].s.area.cleaners| && xs[0].publishing == None
    && forall i :: 0 <= i < |ls| ==> ExclusiveStep(xs[i], ls[i], xs[i + 1])
  }

  lemma FreshIsSolo(x: Solo)
    requires Fresh(x.s) && |x.sure| == |x.s.area.cleaners| && x.publishing == None
    ensures SoloInv(x)
  {
    hide Inv, Fresh, Lone;
    FreshInv(x.s);
    FreshIsIdle(x.s);
    InvSizes(x.s);
  }

  lemma FreshIsIdle(s: State)
    requires Fresh(s)
    ensures forall t :: 0 <= t < |s.area.cleaners| ==> s.area.cleaners[t].CIdle?
    ensures forall t :: 0 <= t < |s.area.reservers| ==> s.area.reservers[t].RIdle?
  {
  }

  lemma RunGoesOn(r: Run, l: Label, s': State)
    requires IsRun(r) && Step(r.states[|r.labels|], l, s')
    ensures IsRun(Run(r.states + [s'], r.labels + [l]))
  {
    hide Step, Fresh;
  }

  /** Every run of the Exclusive forms goes through the states of a run of the CAS forms, and at no point
      of it does an assert fail. */
  lemma {:induction false} ExclusiveRunsAreRuns(xs: seq<Solo>, ls: seq<Label>, i: nat) returns (r: Run)
    requires IsExclusiveRun(xs, ls) && i < |xs|
    ensures IsRun(r) && |r.labels| <= i && r.states[|r.labels|] == xs[i].s
    ensures SoloInv(xs[i]) && Sized(xs[i].s.area) && SoloSized(xs[i])
    ensures forall l :: OneAtATime(xs[i], l) ==>
              (ExclusiveNext(xs[i], l).Some? <==> Next(Natural, xs[i].s.area, l).Some?)
  {
    hide ExclusiveNext, Next, SoloInv, ExclusiveStep, Step, OneAtATime, Fresh;
    if i > 0 {
      r := ExclusiveRunsAreRuns(xs, ls, i - 1);
      SoloStep(xs[i - 1], ls[i - 1], xs[i]);
      if xs[i].s != xs[i - 1].s {
        RunGoesOn(r, ls[i - 1], xs[i].s);
        r := Run(r.states + [xs[i].s], r.labels + [ls[i - 1]]);
      }
    } else {
      FreshIsSolo(xs[0]);
      r := Run([xs[0].s], []);
    }
    SoloSizes(xs[i]);
    forall l | OneAtATime(xs[i], l)
      ensures ExclusiveNext(xs[i], l).Some? <==> Next(Natural, xs[i].s.area, l).Some?
    {
      ExclusiveAgrees(xs[i], l);
    }
  }

  lemma SoloSizes(x: Solo)
    requires SoloInv(x)
    ensures Sized(x.s.area) && SoloSized(x)
  {
    hide Inv;
  }
}

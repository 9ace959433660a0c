/** What the calls of a reader come to, with any steps of other threads in between: the slice that a read
    hands out, the answer of `read_with_check`, the advance of a dropped slice, and how registering,
    resuming, suspending and leaving end. */
module ReaderCalls {
  import opened Options
  import opened Protocol
  import opened Invariant
  import opened Theorems

  // ---------------------------------------------------------------- one slot along a run

  ghost predicate InRun(r: Run, k: nat, j: nat)
  {
    IsRun(r) && k < |r.states| && j < |r.states[k].area.slots|
  }

  function SlotAt(r: Run, k: nat, j: nat): Slot
    requires k < |r.states| && j < |r.states[k].area.slots|
  {
    r.states[k].area.slots[j]
  }

  predicate Own(r: Run, k: nat, j: nat) { k < |r.labels| && r.labels[k].Reader? && r.labels[k].i == j }

  /** Step `k` goes on with the operation under way in slot `j`. */
  predicate Goes(r: Run, k: nat, j: nat) { k < |r.labels| && r.labels[k] == Reader(j, Go) }

  /** A call `op` on slot `j` begins with step `i`, and up to state `k` its owner has begun no other. */
  ghost predicate Call(r: Run, i: nat, k: nat, j: nat, op: ReaderOp)
  {
    && i < k && InRun(r, i, j) && InRun(r, k, j)
    && r.labels[i] == Reader(j, op) && op != Go
    && forall m :: i < m < k && Own(r, m, j) ==> Goes(r, m, j)
  }

  lemma RunStep(r: Run, k: nat)
    requires IsRun(r)
    ensures |r.states| == |r.labels| + 1
    ensures k < |r.labels| ==> Step(r.states[k], r.labels[k], r.states[k + 1])
  {
    hide Step;
  }

  lemma SlotsStay(r: Run, k: nat)
    requires IsRun(r) && k < |r.labels|
    ensures |r.states| == |r.labels| + 1
    ensures |r.states[k + 1].area.slots| == |r.states[k].area.slots|
    ensures |r.states[k].hist.readers| == |r.states[k].area.slots|
    ensures |r.states[k + 1].hist.readers| == |r.states[k].area.slots|
  {
    hide IsRun, Inv, Step;
    RunStep(r, k);
    RunInv(r, k);
    RunInv(r, k + 1);
    InvSizes(r.states[k]);
    InvSizes(r.states[k + 1]);
    SizesStay(r.states[k], r.labels[k], r.states[k + 1]);
  }

  lemma SizesStay(s: State, l: Label, s': State)
    requires Step(s, l, s')
    ensures |s'.area.slots| == |s.area.slots|
  {
    hide Allowed, Record, ReaderNext;
  }

  /** Other threads leave a slot's program counter, its key and an active word alone; a suspended one stays
      suspended and can only go forward. */
  lemma OthersPass(r: Run, k: nat, j: nat)
    requires InRun(r, k, j) && k < |r.labels| && !Own(r, k, j)
    ensures InRun(r, k + 1, j)
    ensures var slot, slot' := SlotAt(r, k, j), SlotAt(r, k + 1, j);
            && slot'.pc == slot.pc && slot'.occupied == slot.occupied
            && (if slot.word.suspended then slot'.word.suspended && slot.word.gen <= slot'.word.gen
                else slot'.word == slot.word)
    ensures j < |r.states[k].hist.readers| && j < |r.states[k + 1].hist.readers|
    ensures r.states[k + 1].hist.readers[j] == r.states[k].hist.readers[j]
  {
    hide IsRun, Step;
    RunStep(r, k);
    SlotsStay(r, k);
    GenerationsOnlyGrow(r, k, j);
    OthersPassStep(r.states[k], r.labels[k], r.states[k + 1], j);
  }

  lemma OthersPassStep(s: State, l: Label, s': State, j: nat)
    requires Step(s, l, s') && j < |s.area.slots| && !(l.Reader? && l.i == j)
    ensures j < |s'.area.slots| && j < |s'.hist.readers|
    ensures s'.area.slots[j].pc == s.area.slots[j].pc && s'.area.slots[j].occupied == s.area.slots[j].occupied
    ensures s.area.slots[j].word.suspended ==> s'.area.slots[j].word.suspended
    ensures s'.hist.readers[j] == s.hist.readers[j]
  {
    hide Allowed, ReaderNext, RecordReader, SplitAt, Inspect;
  }

  /** The owner's step. */
  lemma OwnerGoes(r: Run, k: nat, j: nat)
    requires InRun(r, k, j) && Own(r, k, j)
    ensures InRun(r, k + 1, j)
    ensures var a := r.states[k].area;
            ReaderNext(Natural, a.slots[j], r.labels[k].op, a.read, a.writers == {}) == Some(SlotAt(r, k + 1, j))
    ensures Sized(r.states[k].area) && j < |r.states[k].hist.readers| && j < |r.states[k + 1].hist.readers|
    ensures r.states[k + 1].hist.readers[j] ==
            RecordReader(r.states[k].area, j, r.labels[k].op, r.states[k].hist.readers[j])
    ensures Allowed(r.states[k], r.labels[k])
    ensures r.states[k + 1].area.read == r.states[k].area.read && r.states[k + 1].hist.log == r.states[k].hist.log
  {
    hide IsRun, Step, ReaderNext, RecordReader, Allowed;
    RunStep(r, k);
    SlotsStay(r, k);
    OwnerStep(r.states[k], j, r.labels[k].op, r.states[k + 1]);
  }

  lemma OwnerStep(s: State, j: nat, op: ReaderOp, s': State)
    requires Step(s, Reader(j, op), s') && j < |s.area.slots| && j < |s'.area.slots|
    ensures Sized(s.area) && j < |s.hist.readers| && j < |s'.hist.readers| && Allowed(s, Reader(j, op))
    ensures ReaderNext(Natural, s.area.slots[j], op, s.area.read, s.area.writers == {}) == Some(s'.area.slots[j])
    ensures s'.hist.readers[j] == RecordReader(s.area, j, op, s.hist.readers[j])
    ensures s'.area.read == s.area.read && s'.hist.log == s.hist.log
  {
    hide ReaderNext, RecordReader, Allowed;
  }

  lemma SlotFine(r: Run, k: nat, j: nat)
    requires InRun(r, k, j)
    ensures SlotOK(SlotAt(r, k, j), r.states[k].area.last, r.states[k].area.read)
  {
    hide IsRun;
    RunInv(r, k);
  }

  // ---------------------------------------------------------------- reading

  /** What a read of an active reader at `g` that finds read_gen at `e` hands out. */
  predicate Reaches(mode: ReadMode, g: nat, e: nat, end: nat)
  {
    match mode
    case ReadAtMost(n) => g <= end <= e && end - g <= n && (end - g == n || end == e)
    case _ => end == e
  }

  /** The load of read_gen in the middle of a read: how far the slice reaches. `read_with_check` holds one
      exactly if something unread is published at that moment. */
  lemma ReadLoads(r: Run, k: nat, j: nat)
    requires InRun(r, k, j) && Goes(r, k, j) && SlotAt(r, k, j).pc.ReadEnd?
    ensures InRun(r, k + 1, j)
    ensures var g, e, mode := SlotAt(r, k, j).word.gen, r.states[k].area.read, SlotAt(r, k, j).pc.mode;
            var pc' := SlotAt(r, k + 1, j).pc;
            && g <= e && SlotAt(r, k + 1, j).word == SlotAt(r, k, j).word
            && (pc'.Holding? <==> mode.ReadChecked? ==> g < e)
            && (pc'.Holding? ==> pc'.start == g && Reaches(mode, g, e, pc'.end))
            && (!pc'.Holding? ==> pc'.CountCheck?)
  {
    hide IsRun;
    SlotFine(r, k, j);
    OwnerGoes(r, k, j);
  }

  /** An own step of the call before state `k` that found read_gen at `e`. */
  ghost predicate Loaded(r: Run, i: nat, k: nat, j: nat, e: nat)
  {
    exists m :: i < m < k && m < |r.states| && Goes(r, m, j) && r.states[m].area.read == e
  }

  /** `read_with_check` has found nothing at `g`, and then, in a later step, writers_count at zero or not. */
  ghost predicate Counted(r: Run, i: nat, k: nat, j: nat, g: nat, zero: bool)
  {
    exists m :: i < m < k && m < |r.states| && Goes(r, m, j) && Loaded(r, i, m, j, g)
                && (r.states[m].area.writers == {} <==> zero)
  }

  /** ... and then read_gen at `e`. */
  ghost predicate LoadedAgain(r: Run, i: nat, k: nat, j: nat, g: nat, e: nat)
  {
    exists m :: i < m < k && m < |r.states| && Goes(r, m, j) && Counted(r, i, m, j, g, true)
        && r.states[m].area.read == e
  }

  ghost predicate Erred(r: Run, i: nat, k: nat, j: nat)
    requires IsRun(r)
  {
    exists m :: i < m < k && m < |r.labels| && ReturnsReadError(r, m, j)
  }

  /** What a slot in the middle or at the end of a read says about the steps before. */
  ghost predicate Reading(r: Run, i: nat, k: nat, j: nat, mode: ReadMode, g: nat)
    requires InRun(r, k, j)
  {
    && SlotAt(r, k, j).word == Word(g, false)
    && match SlotAt(r, k, j).pc
       case ReadGen(m) => m == mode && !Erred(r, i, k, j)
       case ReadEnd(m, start) => m == mode && start == g && !Erred(r, i, k, j)
       case CountCheck => mode.ReadChecked? && Loaded(r, i, k, j, g) && !Erred(r, i, k, j)
       case ReadAgain => mode.ReadChecked? && Counted(r, i, k, j, g, true) && !Erred(r, i, k, j)
       case ReadEndAgain(start) => mode.ReadChecked? && start == g && Counted(r, i, k, j, g, true) && !Erred(r, i, k, j)
       case Holding(start, end) =>
         && start == g && !Erred(r, i, k, j) && (mode.ReadChecked? ==> g < end)
         && exists e :: Loaded(r, i, k, j, e) && Reaches(mode, g, e, end)
       case Ready =>
         && mode.ReadChecked?
         && (if Erred(r, i, k, j) then LoadedAgain(r, i, k, j, g, g) else Counted(r, i, k, j, g, false))
       case _ => false
  }

  lemma {:induction false} ReadingGoes(r: Run, i: nat, k: nat, j: nat, mode: ReadMode)
    requires Call(r, i, k, j, Read(mode))
    ensures Reading(r, i, k, j, mode, SlotAt(r, i, j).word.gen)
    decreases k
  {
    hide IsRun, Reading;
    RunStep(r, k - 1);
    SlotsStay(r, k - 1);
    var g := SlotAt(r, i, j).word.gen;
    if k == i + 1 {
      ReadingBegins(r, i, j, mode);
    } else {
      ReadingGoes(r, i, k - 1, j, mode);
      if Own(r, k - 1, j) {
        ReadingStep(r, i, k - 1, j, mode, g);
      } else {
        ReadingWaits(r, i, k - 1, j, mode, g);
      }
    }
  }

  lemma ReadingBegins(r: Run, i: nat, j: nat, mode: ReadMode)
    requires Call(r, i, i + 1, j, Read(mode))
    ensures Reading(r, i, i + 1, j, mode, SlotAt(r, i, j).word.gen)
  {
    hide IsRun;
    RunStep(r, i);
    OwnerGoes(r, i, j);
  }

  lemma NoErrorElsewhere(r: Run, i: nat, k: nat, j: nat)
    requires IsRun(r) && k < |r.labels| && i < k
    ensures Erred(r, i, k + 1, j) <==> Erred(r, i, k, j) || ReturnsReadError(r, k, j)
  {
    hide IsRun, ReturnsReadError;
    if m :| i < m < k + 1 && m < |r.labels| && ReturnsReadError(r, m, j) {
      if m < k { assert Erred(r, i, k, j); }
    }
  }

  lemma OnlyOwnErrors(r: Run, k: nat, j: nat)
    requires IsRun(r) && k < |r.labels|
    ensures ReturnsReadError(r, k, j) ==>
              Goes(r, k, j) && j < |r.states[k].area.slots| && SlotAt(r, k, j).pc.ReadEndAgain?
  {
    RunStep(r, k);
    hide IsRun;
  }

  lemma ReadingWaits(r: Run, i: nat, k: nat, j: nat, mode: ReadMode, g: nat)
    requires InRun(r, k, j) && i < k < |r.labels| && Reading(r, i, k, j, mode, g) && !Own(r, k, j)
    ensures InRun(r, k + 1, j) && Reading(r, i, k + 1, j, mode, g)
  {
    hide IsRun, Erred, Loaded, Counted, LoadedAgain, Reaches, ReturnsReadError;
    StillSo(r, i, k, j, g);
    OthersPass(r, k, j);
    NoErrorElsewhere(r, i, k, j);
    OnlyOwnErrors(r, k, j);
  }

  lemma ReadingStep(r: Run, i: nat, k: nat, j: nat, mode: ReadMode, g: nat)
    requires InRun(r, k, j) && i < k && Reading(r, i, k, j, mode, g) && Goes(r, k, j)
    ensures InRun(r, k + 1, j) && Reading(r, i, k + 1, j, mode, g)
  {
    hide IsRun, Erred, Loaded, Counted, LoadedAgain, Reaches, ReturnsReadError;
    StillSo(r, i, k, j, g);
    OwnerGoes(r, k, j);
    NoErrorElsewhere(r, i, k, j);
    OnlyOwnErrors(r, k, j);
    var pc := SlotAt(r, k, j).pc;
    if pc.ReadEnd? || pc.ReadEndAgain? {
      JustLoaded(r, i, k, j);
      if pc.ReadEnd? { ReadLoads(r, k, j); } else { SecondLoad(r, i, k, j, mode, g); }
    } else if pc.CountCheck? {
      JustCounted(r, i, k, j, g);
    }
  }

  /** What has been loaded stays loaded. */
  lemma StillSo(r: Run, i: nat, k: nat, j: nat, g: nat)
    ensures forall e: nat :: Loaded(r, i, k, j, e) ==> Loaded(r, i, k + 1, j, e)
    ensures forall zero :: Counted(r, i, k, j, g, zero) ==> Counted(r, i, k + 1, j, g, zero)
    ensures forall e: nat :: LoadedAgain(r, i, k, j, g, e) ==> LoadedAgain(r, i, k + 1, j, g, e)
  {
  }

  lemma JustLoaded(r: Run, i: nat, k: nat, j: nat)
    requires i < k < |r.states| && Goes(r, k, j)
    ensures Loaded(r, i, k + 1, j, r.states[k].area.read)
  {
  }

  lemma JustCounted(r: Run, i: nat, k: nat, j: nat, g: nat)
    requires i < k < |r.states| && Goes(r, k, j) && Loaded(r, i, k, j, g)
    ensures Counted(r, i, k + 1, j, g, r.states[k].area.writers == {})
  {
    hide Loaded;
  }

  lemma SecondLoad(r: Run, i: nat, k: nat, j: nat, mode: ReadMode, g: nat)
    requires InRun(r, k, j) && i < k && Reading(r, i, k, j, mode, g) && Goes(r, k, j)
        && SlotAt(r, k, j).pc.ReadEndAgain?
    ensures InRun(r, k + 1, j) && g <= r.states[k].area.read
        && Reaches(mode, g, r.states[k].area.read, r.states[k].area.read)
    ensures LoadedAgain(r, i, k + 1, j, g, r.states[k].area.read)
    ensures ReturnsReadError(r, k, j) <==> SlotAt(r, k + 1, j).pc.Ready?
  {
    hide IsRun, Erred, Loaded, Counted;
    SlotFine(r, k, j);
    OwnerGoes(r, k, j);
  }

  /** How `read` and `read_at_most` end: with a slice that starts at the reader's generation and reaches to
      read_gen as it was at a step of the call, or to `n` messages, whichever comes first. */
  lemma ReadAnswers(r: Run, i: nat, k: nat, j: nat, mode: ReadMode)
    requires Call(r, i, k, j, Read(mode)) && !mode.ReadChecked?
    ensures var pc, g := SlotAt(r, k, j).pc, SlotAt(r, i, j).word.gen;
            && (pc.ReadGen? || pc.ReadEnd? || pc.Holding?)
            && (pc.Holding? ==> pc.start == g && exists e :: Loaded(r, i, k, j, e) && Reaches(mode, g, e, pc.end))
  {
    ReadingGoes(r, i, k, j, mode);
    hide Call, IsRun;
  }

  /** How `read_with_check` ends: with a non-empty slice up to read_gen at a step of the call; without one
      and without an error if it counted a writer after finding nothing; and with ReadError if it counted
      none and still found nothing after that. */
  lemma CheckedReadAnswers(r: Run, i: nat, k: nat, j: nat)
    requires Call(r, i, k, j, Read(ReadChecked)) && (SlotAt(r, k, j).pc.Ready? || SlotAt(r, k, j).pc.Holding?)
    ensures var pc, g := SlotAt(r, k, j).pc, SlotAt(r, i, j).word.gen;
            if pc.Holding? then pc.start == g < pc.end && Loaded(r, i, k, j, pc.end) && !Erred(r, i, k, j)
            else if Erred(r, i, k, j) then LoadedAgain(r, i, k, j, g, g)
            else Counted(r, i, k, j, g, false)
  {
    ReadingGoes(r, i, k, j, ReadChecked);
    hide Call, IsRun, Erred;
  }

  // ---------------------------------------------------------------- the second half of read_with_check

  /** From the count check on. */
  ghost predicate Rechecking(r: Run, i: nat, k: nat, j: nat, g: nat)
    requires InRun(r, k, j) && i < |r.states|
  {
    && SlotAt(r, k, j).word == Word(g, false)
    && match SlotAt(r, k, j).pc
       case ReadAgain => r.states[i].area.writers == {} && !Erred(r, i, k, j)
       case ReadEndAgain(start) => r.states[i].area.writers == {} && start == g && !Erred(r, i, k, j)
       case Holding(start, end) =>
         r.states[i].area.writers == {} && start == g < end && Loaded(r, i, k, j, end) && !Erred(r, i, k, j)
       case Ready => if Erred(r, i, k, j) then r.states[i].area.writers == {} && Loaded(r, i, k, j, g)
                     else r.states[i].area.writers != {}
       case _ => false
  }

  ghost predicate CountCheckAt(r: Run, i: nat, k: nat, j: nat)
  {
    && i < k && InRun(r, i, j) && InRun(r, k, j) && Goes(r, i, j) && SlotAt(r, i, j).pc.CountCheck?
    && forall m :: i < m < k && Own(r, m, j) ==> Goes(r, m, j)
  }

  lemma {:induction false} RecheckingGoes(r: Run, i: nat, k: nat, j: nat)
    requires CountCheckAt(r, i, k, j)
    ensures Rechecking(r, i, k, j, SlotAt(r, i, j).word.gen)
    decreases k
  {
    hide IsRun, Rechecking;
    RunStep(r, k - 1);
    SlotsStay(r, k - 1);
    if k == i + 1 {
      RecheckingBegins(r, i, j);
    } else {
      RecheckingGoes(r, i, k - 1, j);
      RecheckingStep(r, i, k - 1, j, SlotAt(r, i, j).word.gen);
    }
  }

  lemma RecheckingBegins(r: Run, i: nat, j: nat)
    requires CountCheckAt(r, i, i + 1, j)
    ensures Rechecking(r, i, i + 1, j, SlotAt(r, i, j).word.gen)
  {
    hide IsRun;
    RunStep(r, i);
    SlotFine(r, i, j);
    OwnerGoes(r, i, j);
  }

  lemma RecheckingStep(r: Run, i: nat, k: nat, j: nat, g: nat)
    requires InRun(r, k, j) && i < k < |r.labels| && Rechecking(r, i, k, j, g) && (Own(r, k, j) ==> Goes(r, k, j))
    ensures InRun(r, k + 1, j) && Rechecking(r, i, k + 1, j, g)
  {
    hide IsRun, Erred, Loaded, ReturnsReadError;
    NoErrorElsewhere(r, i, k, j);
    OnlyOwnErrors(r, k, j);
    StillSo(r, i, k, j, g);
    if Own(r, k, j) {
      OwnerGoes(r, k, j);
      SlotFine(r, k, j);
      JustLoaded(r, i, k, j);
      if SlotAt(r, k, j).pc.ReadEndAgain? { ErrsIfReady(r, k, j); }
    } else {
      OthersPass(r, k, j);
    }
  }

  lemma ErrsIfReady(r: Run, k: nat, j: nat)
    requires InRun(r, k, j) && Goes(r, k, j) && InRun(r, k + 1, j) && SlotAt(r, k, j).pc.ReadEndAgain?
    ensures ReturnsReadError(r, k, j) <==> SlotAt(r, k + 1, j).pc.Ready?
  {
    hide IsRun;
  }

  /** When `read_with_check` has found nothing and comes to its count check: with a writer counted it comes
      back without an error; with none it loads read_gen once more, and returns ReadError if that is its
      own generation and the slice up to there if it is ahead. */
  lemma CountCheckDecides(r: Run, i: nat, k: nat, j: nat)
    requires CountCheckAt(r, i, k, j) && (SlotAt(r, k, j).pc.Ready? || SlotAt(r, k, j).pc.Holding?)
    ensures var pc, g := SlotAt(r, k, j).pc, SlotAt(r, i, j).word.gen;
            if r.states[i].area.writers != {} then pc.Ready? && !Erred(r, i, k, j)
            else exists e :: Loaded(r, i, k, j, e) && g <= e
                             && (if e == g then pc.Ready? && Erred(r, i, k, j)
                                 else pc == Holding(g, e) && !Erred(r, i, k, j))
  {
    RecheckingGoes(r, i, k, j);
    hide CountCheckAt, IsRun, Erred, Loaded;
  }

  // ---------------------------------------------------------------- dropping a slice

  /** Slot `j` holds the slice [s, e) in state `i`, and up to state `k` its owner does nothing but drop it. */
  ghost predicate DropsFrom(r: Run, i: nat, k: nat, j: nat)
  {
    && i <= k && InRun(r, i, j) && InRun(r, k, j) && SlotAt(r, i, j).pc.Holding?
    && forall m :: i <= m < k && Own(r, m, j) ==> r.labels[m] == Reader(j, DropSlice) || Goes(r, m, j)
  }

  ghost predicate Dropping(r: Run, i: nat, k: nat, j: nat)
    requires InRun(r, i, j) && InRun(r, k, j) && SlotAt(r, i, j).pc.Holding?
    requires j < |r.states[i].hist.readers| && j < |r.states[k].hist.readers|
  {
    var s, e := SlotAt(r, i, j).pc.start, SlotAt(r, i, j).pc.end;
    var rh, rh' := r.states[i].hist.readers[j], r.states[k].hist.readers[j];
    var slot := SlotAt(r, k, j);
    && s <= e && rh'.entry == rh.entry
    && match slot.pc
       case Holding(s', e') => s' == s && e' == e && slot.word == Word(s, false) && rh' == rh
       case SliceCheck(s', e') => s' == s && e' == e && slot.word == Word(s, false) && rh' == rh
       case SliceLoad(e') => e' == e && slot.word == Word(s, false) && rh' == rh
       case SliceStore(e', seen) => e' == e && slot.word == seen == Word(s, false) && rh' == rh
       case Ready => slot.word == Word(e, false) && rh.delivered <= rh'.delivered
       case _ => false
  }

  lemma {:induction false} DroppingGoes(r: Run, i: nat, k: nat, j: nat)
    requires DropsFrom(r, i, k, j)
    ensures j < |r.states[i].hist.readers| && j < |r.states[k].hist.readers| && Dropping(r, i, k, j)
    decreases k
  {
    hide IsRun, Dropping;
    if k == i {
      DroppingBegins(r, i, j);
    } else {
      RunStep(r, k - 1);
      SlotsStay(r, k - 1);
      DroppingGoes(r, i, k - 1, j);
      DroppingStep(r, i, k - 1, j);
    }
  }

  lemma DroppingBegins(r: Run, i: nat, j: nat)
    requires InRun(r, i, j) && SlotAt(r, i, j).pc.Holding?
    ensures j < |r.states[i].hist.readers| && Dropping(r, i, i, j)
  {
    hide IsRun, Inv;
    SlotFine(r, i, j);
    RunInv(r, i);
    InvSizes(r.states[i]);
  }

  lemma DroppingStep(r: Run, i: nat, k: nat, j: nat)
    requires InRun(r, i, j) && InRun(r, k, j) && k < |r.labels| && SlotAt(r, i, j).pc.Holding?
    requires j < |r.states[i].hist.readers| && j < |r.states[k].hist.readers| && Dropping(r, i, k, j)
    requires Own(r, k, j) ==> r.labels[k] == Reader(j, DropSlice) || Goes(r, k, j)
    ensures InRun(r, k + 1, j) && j < |r.states[k + 1].hist.readers| && Dropping(r, i, k + 1, j)
  {
    hide IsRun, Allowed;
    if Own(r, k, j) {
      OwnerGoes(r, k, j);
      SlotFine(r, k, j);
    } else {
      OthersPass(r, k, j);
    }
  }

  /** A dropped slice has moved its reader to the slice's end, and has handed it exactly the messages
      logged for the generations of the slice, in order and on top of what it had before. */
  lemma DropAdvances(r: Run, i: nat, k: nat, j: nat)
    requires DropsFrom(r, i, k, j)
    ensures j < |r.states[i].hist.readers| && j < |r.states[k].hist.readers|
    ensures var s, e := SlotAt(r, i, j).pc.start, SlotAt(r, i, j).pc.end;
            var had, has := r.states[i].hist.readers[j].delivered, r.states[k].hist.readers[j].delivered;
            && s <= e
            && (SlotAt(r, k, j).pc.Ready? ==>
                  && SlotAt(r, k, j).word == Word(e, false)
                  && had <= has && |has| == |had| + (e - s)
                  && forall y :: |had| <= y < |has| ==> IsMessage(has[y], r.states[k].hist.log, s + (y - |had|)))
            && (!SlotAt(r, k, j).pc.Ready? ==> SlotAt(r, k, j).word == Word(s, false) && has == had)
  {
    hide IsRun;
    DroppingGoes(r, i, k, j);
    SlotFine(r, i, j);
    if SlotAt(r, k, j).pc.Ready? {
      ReaderGetsTheStretch(r, i, j);
      ReaderGetsTheStretch(r, k, j);
      StretchTail(r.states[i].hist, r.states[k].hist, j, SlotAt(r, i, j).pc.start, SlotAt(r, i, j).pc.end);
    }
  }

  lemma StretchTail(h: Hist, h': Hist, j: nat, s: nat, e: nat)
    requires j < |h.readers| && j < |h'.readers| && h.readers[j].entry == h'.readers[j].entry && s <= e
    requires IsStretch(h.readers[j].delivered, h.log, h.readers[j].entry, s)
    requires IsStretch(h'.readers[j].delivered, h'.log, h'.readers[j].entry, e)
    ensures var had, has := h.readers[j].delivered, h'.readers[j].delivered;
            && |has| == |had| + (e - s)
            && forall y :: |had| <= y < |has| ==> IsMessage(has[y], h'.log, s + (y - |had|))
  {
    var had, has := h.readers[j].delivered, h'.readers[j].delivered;
    forall y | |had| <= y < |has|
      ensures IsMessage(has[y], h'.log, s + (y - |had|))
    {
      assert h'.readers[j].entry + y == s + (y - |had|);
    }
  }

  // ---------------------------------------------------------------- registering and resuming

  /** A suspended word before state `k` that lies beyond `e`. */
  ghost predicate ForcedPast(r: Run, i: nat, k: nat, j: nat, e: nat)
  {
    exists m :: i < m < k && Goes(r, m, j) && InRun(r, m, j) && SlotAt(r, m, j).word.suspended
        && e < SlotAt(r, m, j).word.gen
  }

  predicate GoalOf(op: ReaderOp, goal: Goal)
  {
    match op
    case Claim => goal == Register
    case Resuming => goal == Resume
    case ResumingAt(e) => goal == ResumeAt(e)
    case _ => false
  }

  predicate Enters(op: ReaderOp) { op.Claim? || op.Resuming? || op.ResumingAt? }

  /** A registering or resuming call; `was` is the word it found. */
  ghost predicate Entering(r: Run, i: nat, k: nat, j: nat, op: ReaderOp, was: Word)
    requires InRun(r, k, j)
  {
    var slot := SlotAt(r, k, j);
    && (was.suspended ==> was.gen <= slot.word.gen)
    && match slot.pc
       case Claimed => op.Claim? && slot.word.suspended && was.suspended
       case EnterTop(goal) => GoalOf(op, goal) && (slot.word.suspended <==> was.suspended)
           && (!was.suspended ==> slot.word == was)
       case EnterCas(goal, seen) => GoalOf(op, goal) && slot.word.suspended && was.suspended && seen.suspended
       case Ready =>
         if slot.word.suspended then op.ResumingAt? && ForcedPast(r, i, k, j, op.entry)
         else if !was.suspended then slot.word == was
         else op.ResumingAt? ==> slot.word.gen == op.entry
       case _ => false
  }

  lemma {:induction false} EnteringGoes(r: Run, i: nat, k: nat, j: nat, op: ReaderOp)
    requires Call(r, i, k, j, op) && Enters(op)
    ensures Entering(r, i, k, j, op, SlotAt(r, i, j).word)
    decreases k
  {
    hide IsRun, Entering;
    RunStep(r, k - 1);
    SlotsStay(r, k - 1);
    if k == i + 1 {
      EnteringBegins(r, i, j, op);
    } else {
      EnteringGoes(r, i, k - 1, j, op);
      EnteringStep(r, i, k - 1, j, op, SlotAt(r, i, j).word);
    }
  }

  lemma EnteringBegins(r: Run, i: nat, j: nat, op: ReaderOp)
    requires Call(r, i, i + 1, j, op) && Enters(op)
    ensures Entering(r, i, i + 1, j, op, SlotAt(r, i, j).word)
  {
    hide IsRun, ForcedPast;
    RunStep(r, i);
    OwnerGoes(r, i, j);
    SlotFine(r, i, j);
  }

  lemma EnteringStep(r: Run, i: nat, k: nat, j: nat, op: ReaderOp, was: Word)
    requires InRun(r, k, j) && i < k < |r.labels| && Entering(r, i, k, j, op, was) && Enters(op)
    requires Own(r, k, j) ==> Goes(r, k, j)
    ensures InRun(r, k + 1, j) && Entering(r, i, k + 1, j, op, was)
  {
    hide IsRun, ForcedPast;
    if op.ResumingAt? { ForcedBefore(r, i, k, j, op.entry); }
    if Own(r, k, j) {
      OwnerGoes(r, k, j);
      SlotFine(r, k, j);
      if op.ResumingAt? && SlotAt(r, k, j).word.suspended && op.entry < SlotAt(r, k, j).word.gen {
        JustForced(r, i, k, j, op.entry);
      }
    } else {
      OthersPass(r, k, j);
    }
  }

  lemma ForcedBefore(r: Run, i: nat, k: nat, j: nat, e: nat)
    ensures ForcedPast(r, i, k, j, e) ==> ForcedPast(r, i, k + 1, j, e)
  {
    hide IsRun;
  }

  lemma JustForced(r: Run, i: nat, k: nat, j: nat, e: nat)
    requires i < k && Goes(r, k, j) && InRun(r, k, j) && SlotAt(r, k, j).word.suspended && e < SlotAt(r, k, j).word.gen
    ensures ForcedPast(r, i, k + 1, j, e)
  {
    hide IsRun;
  }

  /** How registering and resuming end: with an active reader. One that was suspended enters at the entry
      asked for, or at a generation not behind the one it was left at; one that was active is unchanged; and
      only `resume_at` can come back without entering, if its entry had been forced past. */
  lemma EnteringAnswers(r: Run, i: nat, k: nat, j: nat, op: ReaderOp)
    requires Call(r, i, k, j, op) && Enters(op) && SlotAt(r, k, j).pc.Ready?
    ensures var was, word := SlotAt(r, i, j).word, SlotAt(r, k, j).word;
            && (word.suspended ==> op.ResumingAt? && ForcedPast(r, i, k, j, op.entry))
            && (!word.suspended && !was.suspended ==> word == was)
            && (!word.suspended && was.suspended ==> was.gen <= word.gen && (op.ResumingAt? ==> word.gen == op.entry))
  {
    EnteringGoes(r, i, k, j, op);
    hide Call, IsRun, ForcedPast;
  }

  /** The step that ends a registration or a resumption at the current generation leaves the reader active
      exactly where its word stood. */
  lemma EntryActivates(r: Run, k: nat, j: nat)
    requires InRun(r, k, j) && Goes(r, k, j) && InRun(r, k + 1, j) && SlotAt(r, k + 1, j).pc.Ready?
    requires var pc := SlotAt(r, k, j).pc; pc.EnterTop? || pc.EnterCas?
    requires !SlotAt(r, k, j).pc.goal.ResumeAt?
    ensures SlotAt(r, k + 1, j).word == Word(SlotAt(r, k, j).word.gen, false)
  {
    hide IsRun;
    OwnerGoes(r, k, j);
    SlotFine(r, k, j);
  }

  // ---------------------------------------------------------------- suspending and leaving

  ghost predicate Suspending(r: Run, k: nat, j: nat, was: Word)
    requires InRun(r, k, j)
  {
    var slot := SlotAt(r, k, j);
    && was.gen <= slot.word.gen && (was.suspended ==> slot.word.suspended)
    && match slot.pc
       case SuspendLoad => !was.suspended ==> slot.word == was
       case SuspendStore(seen) => slot.word == seen == was && !was.suspended
       case Ready => slot.word.suspended
       case _ => false
  }

  lemma {:induction false} SuspendingGoes(r: Run, i: nat, k: nat, j: nat)
    requires Call(r, i, k, j, Suspend)
    ensures Suspending(r, k, j, SlotAt(r, i, j).word)
    decreases k
  {
    hide IsRun, Suspending;
    RunStep(r, k - 1);
    SlotsStay(r, k - 1);
    if k == i + 1 {
      SuspendingBegins(r, i, j);
    } else {
      SuspendingGoes(r, i, k - 1, j);
      SuspendingStep(r, k - 1, j, SlotAt(r, i, j).word);
    }
  }

  lemma SuspendingBegins(r: Run, i: nat, j: nat)
    requires Call(r, i, i + 1, j, Suspend)
    ensures Suspending(r, i + 1, j, SlotAt(r, i, j).word)
  {
    hide IsRun;
    RunStep(r, i);
    OwnerGoes(r, i, j);
  }

  lemma SuspendingStep(r: Run, k: nat, j: nat, was: Word)
    requires InRun(r, k, j) && k < |r.labels| && Suspending(r, k, j, was) && (Own(r, k, j) ==> Goes(r, k, j))
    ensures InRun(r, k + 1, j) && Suspending(r, k + 1, j, was)
  {
    hide IsRun;
    if Own(r, k, j) { OwnerGoes(r, k, j); } else { OthersPass(r, k, j); }
  }

  /** How suspending ends: suspended, not behind where the reader was. */
  lemma SuspendAnswers(r: Run, i: nat, k: nat, j: nat)
    requires Call(r, i, k, j, Suspend) && SlotAt(r, k, j).pc.Ready?
    ensures SlotAt(r, k, j).word.suspended && SlotAt(r, i, j).word.gen <= SlotAt(r, k, j).word.gen
  {
    SuspendingGoes(r, i, k, j);
    hide Call, IsRun;
  }

  ghost predicate Departing(r: Run, k: nat, j: nat)
    requires InRun(r, k, j)
  {
    var slot := SlotAt(r, k, j);
    match slot.pc
    case LeaveLoad => slot.occupied
    case LeaveStore(_) => slot.occupied
    case LeaveRemove => slot.occupied && slot.word.suspended
    case Nobody => !slot.occupied && slot.word.suspended
    case _ => false
  }

  /** How leaving goes: the key stays until the word is suspended, and is gone once it has ended. */
  lemma {:induction false} LeaveAnswers(r: Run, i: nat, k: nat, j: nat)
    requires Call(r, i, k, j, Leave)
    ensures Departing(r, k, j)
    decreases k
  {
    hide IsRun, Departing;
    RunStep(r, k - 1);
    SlotsStay(r, k - 1);
    if k == i + 1 {
      DepartingBegins(r, i, j);
    } else {
      LeaveAnswers(r, i, k - 1, j);
      DepartingStep(r, k - 1, j);
    }
  }

  lemma DepartingBegins(r: Run, i: nat, j: nat)
    requires Call(r, i, i + 1, j, Leave)
    ensures Departing(r, i + 1, j)
  {
    hide IsRun;
    RunStep(r, i);
    OwnerGoes(r, i, j);
    SlotFine(r, i, j);
  }

  lemma DepartingStep(r: Run, k: nat, j: nat)
    requires InRun(r, k, j) && k < |r.labels| && Departing(r, k, j) && (Own(r, k, j) ==> Goes(r, k, j))
    ensures InRun(r, k + 1, j) && Departing(r, k + 1, j)
  {
    hide IsRun;
    if Own(r, k, j) { OwnerGoes(r, k, j); } else { OthersPass(r, k, j); }
  }
}

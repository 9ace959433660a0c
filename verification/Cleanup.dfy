/** `try_cleanup_old_slots` (`src/area.rs`) when nobody disturbs it.

    The scan is specified on the reader words alone; an undisturbed run of the machine's cleaner is
    proved to have that effect, and so is the array code in module `AreaInner`. */
module Cleanup {
  import opened Options
  import opened Protocol
  import opened Invariant
  import opened Preservation

  // ---------------------------------------------------------------- the scan as a function

  function Max(a: nat, b: nat): nat { if a >= b then a else b }

  /** The running minimum after one more slot. */
  function Lower(word: Word, min: nat): nat
  {
    if word.suspended then min else Min(min, word.gen)
  }

  /** What becomes of a slot scanned with running minimum `min`. */
  function Raise(word: Word, min: nat): Word
  {
    if word.suspended then Word(Max(word.gen, min), true) else word
  }

  /** The minimum a scan of `words` arrives at from slot `p` on. */
  function ScanMin(words: seq<Word>, p: nat, min: nat): (m: nat)
    requires p <= |words|
    ensures m <= min
    decreases |words| - p
  {
    if p == |words| then min else ScanMin(words, p + 1, Lower(words[p], min))
  }

  /** The words a scan leaves from slot `p` on. */
  function ScanWords(words: seq<Word>, p: nat, min: nat): (ws: seq<Word>)
    requires p <= |words|
    ensures |ws| == |words|
    decreases |words| - p
  {
    if p == |words| then words
    else ScanWords(words[p := Raise(words[p], min)], p + 1, Lower(words[p], min))
  }

  /** The scan finds the least of `min` and the generations of the active slots: it is at most all of
      them and is one of them. */
  lemma {:induction false} ScanMinIsLeast(words: seq<Word>, p: nat, min: nat)
    requires p <= |words|
    ensures var m := ScanMin(words, p, min);
            && m <= min
            && (forall j :: p <= j < |words| && !words[j].suspended ==> m <= words[j].gen)
            && (m == min || exists j :: p <= j < |words| && !words[j].suspended && m == words[j].gen)
    decreases |words| - p
  {
    if p < |words| {
      ScanMinIsLeast(words, p + 1, Lower(words[p], min));
    }
  }

  lemma {:induction false} ScanMinPrefix(words: seq<Word>, words': seq<Word>, p: nat, min: nat)
    requires p <= |words| == |words'| && words[p..] == words'[p..]
    ensures ScanMin(words', p, min) == ScanMin(words, p, min)
    decreases |words| - p
  {
    if p < |words| {
      assert words[p] == words[p..][0] && words'[p] == words'[p..][0];
      assert words[p + 1..] == words[p..][1..] && words'[p + 1..] == words'[p..][1..];
      ScanMinPrefix(words, words', p + 1, Lower(words[p], min));
    }
  }

  /** Slot by slot: active words are untouched, and a suspended word is raised to the maximum of its
      old value and the running minimum at the moment it is scanned. */
  lemma {:induction false} ScanWordsAt(words: seq<Word>, p: nat, min: nat, j: nat)
    requires p <= |words| && j < |words|
    ensures ScanWords(words, p, min)[j] ==
            if j < p then words[j] else Raise(words[j], MinBefore(words, p, min, j))
    decreases |words| - p
  {
    if p < |words| {
      var words' := words[p := Raise(words[p], min)];
      ScanWordsAt(words', p + 1, Lower(words[p], min), j);
      if p < j { MinBeforeLocal(words, words', p + 1, Lower(words[p], min), j); }
    }
  }

  /** The running minimum of a scan from slot `p` when it reaches slot `j`. */
  function MinBefore(words: seq<Word>, p: nat, min: nat, j: nat): nat
    requires p <= j <= |words|
    decreases j - p
  {
    if p == j then min else MinBefore(words, p + 1, Lower(words[p], min), j)
  }

  lemma {:induction false} MinBeforeLocal(words: seq<Word>, words': seq<Word>, p: nat, min: nat, j: nat)
    requires p <= j <= |words| == |words'|
    requires forall k :: p <= k < j ==> words[k] == words'[k]
    ensures MinBefore(words', p, min, j) == MinBefore(words, p, min, j)
    decreases j - p
  {
    if p < j {
      MinBeforeLocal(words, words', p + 1, Lower(words[p], min), j);
    }
  }

  function Words(slots: seq<Slot>): (ws: seq<Word>)
    ensures |ws| == |slots|
  {
    seq(|slots|, i requires 0 <= i < |slots| => slots[i].word)
  }

  function WithWords(slots: seq<Slot>, words: seq<Word>): seq<Slot>
    requires |words| == |slots|
  {
    seq(|slots|, i requires 0 <= i < |slots| => slots[i].(word := words[i]))
  }

  // ---------------------------------------------------------------- a cleaner left alone

  /** `k` steps of cleaner `t` in a row lead from `s` to `s'`. */
  ghost predicate CleansTo(s: State, t: nat, s': State, k: nat)
    decreases k
  {
    if k == 0 then s' == s else exists m: State :: Step(s, Clean(t), m) && CleansTo(m, t, s', k - 1)
  }

  lemma OneStep(s: State, t: nat, s': State)
    requires Step(s, Clean(t), s')
    ensures CleansTo(s, t, s', 1)
  {
    hide Step;
    assert CleansTo(s', t, s', 0);
  }

  lemma {:induction false} CleansOn(s: State, t: nat, m: State, s': State, j: nat, k: nat)
    requires CleansTo(s, t, m, j) && CleansTo(m, t, s', k)
    ensures CleansTo(s, t, s', j + k)
    decreases j
  {
    hide Step;
    if j > 0 {
      var n: State :| Step(s, Clean(t), n) && CleansTo(n, t, m, j - 1);
      CleansOn(n, t, m, s', j - 1, k);
    }
  }

  lemma {:induction false} CleansInv(s: State, t: nat, s': State, k: nat)
    requires Inv(s) && CleansTo(s, t, s', k)
    ensures Inv(s')
    decreases k
  {
    hide Step, Inv;
    if k > 0 {
      var n: State :| Step(s, Clean(t), n) && CleansTo(n, t, s', k - 1);
      StepKeeps(s, Clean(t), n);
      CleansInv(n, t, s', k - 1);
    }
  }

  /** `s` with its slots' words replaced and thread `t` elsewhere. */
  function Scanning(s: State, t: nat, words: seq<Word>, pc: CleanerPc): State
    requires |words| == |s.area.slots| && t < |s.area.cleaners|
  {
    s.(area := s.area.(slots := WithWords(s.area.slots, words), cleaners := s.area.cleaners[t := pc]))
  }

  /** One slot: a suspended word behind the running minimum takes a load and a CAS, any other just the
      load. */
  lemma ScanOne(s: State, t: nat, s': State) returns (k: nat)
    requires Sized(s.area) && |s.hist.readers| == |s.area.slots|
    requires t < |s.area.cleaners| && s.area.cleaners[t].CScan? && s.area.cleaners[t].pos < |s.area.slots|
    requires var pc, words := s.area.cleaners[t], Words(s.area.slots);
             s' == Scanning(s, t, words[pc.pos := Raise(words[pc.pos], pc.min)],
                            ScanFrom(Natural, |words|, pc.last, pc.pos + 1, Lower(words[pc.pos], pc.min)))
    ensures CleansTo(s, t, s', k)
  {
    var a := s.area;
    var pc, words := a.cleaners[t], Words(a.slots);
    var p := pc.pos;
    var words' := words[p := Raise(words[p], pc.min)];
    if words[p].suspended && pc.min > words[p].gen {
      k := 2;
      var m := s.(area := a.(cleaners := a.cleaners[t := CForce(pc.last, p, pc.min, words[p])]));
      assert WithWords(a.slots, words') == a.slots[p := a.slots[p].(word := words'[p])];
      ForceOne(s, t, m, s');
    } else {
      k := 1;
      assert WithWords(a.slots, words') == a.slots;
      assert Step(s, Clean(t), s');
      OneStep(s, t, s');
    }
  }

  lemma ForceOne(s: State, t: nat, m: State, s': State)
    requires Sized(s.area) && |s.hist.readers| == |s.area.slots| && t < |s.area.cleaners|
    requires s.area.cleaners[t].CScan? && s.area.cleaners[t].pos < |s.area.slots|
    requires var a, pc := s.area, s.area.cleaners[t];
             var slot := a.slots[pc.pos];
             && slot.word.suspended && slot.word.gen < pc.min
             && m == s.(area := a.(cleaners := a.cleaners[t := CForce(pc.last, pc.pos, pc.min, slot.word)]))
             && s' == s.(area := a.(slots := a.slots[pc.pos := slot.(word := Word(pc.min, true))],
                                    cleaners := a.cleaners[t := ScanFrom(Natural, |a.slots|, pc.last,
                                                                         pc.pos + 1, pc.min)]))
    ensures CleansTo(s, t, s', 2)
  {
    var a, pc := s.area, s.area.cleaners[t];
    var next := ScanFrom(Natural, |a.slots|, pc.last, pc.pos + 1, pc.min);
    assert Step(s, Clean(t), m);
    assert m.area.cleaners[t := next] == a.cleaners[t := next];
    assert Step(m, Clean(t), s');
    hide Step;
    OneStep(s, t, m);
    OneStep(m, t, s');
    CleansOn(s, t, m, s', 1, 1);
  }

  lemma WordsOver(slots: seq<Slot>, words: seq<Word>, words': seq<Word>)
    requires |slots| == |words| == |words'|
    ensures Words(WithWords(slots, words)) == words
    ensures WithWords(WithWords(slots, words), words') == WithWords(slots, words')
  {
  }

  /** The whole scan from slot `pos` on, ending at the retry loop. */
  lemma {:induction false} ScanAll(s: State, t: nat, s': State) returns (k: nat)
    requires Sized(s.area) && |s.hist.readers| == |s.area.slots|
    requires t < |s.area.cleaners| && s.area.cleaners[t].CScan? && s.area.cleaners[t].pos < |s.area.slots|
    requires var pc, words := s.area.cleaners[t], Words(s.area.slots);
             s' == Scanning(s, t, ScanWords(words, pc.pos, pc.min),
                 Retry(Natural, pc.last, ScanMin(words, pc.pos, pc.min)))
    ensures CleansTo(s, t, s', k)
    decreases |s.area.slots| - s.area.cleaners[t].pos
  {
    hide CleansTo, Step, Words, WithWords, Retry, Raise, Lower;
    var pc, words := s.area.cleaners[t], Words(s.area.slots);
    var p, min' := pc.pos, Lower(words[pc.pos], pc.min);
    var words' := words[p := Raise(words[p], pc.min)];
    var m := Scanning(s, t, words', ScanFrom(Natural, |words|, pc.last, p + 1, min'));
    k := ScanOne(s, t, m);
    if p + 1 < |words| {
      WordsOver(s.area.slots, words', ScanWords(words', p + 1, min'));
      ScanMinPrefix(words, words', p + 1, min');
      var j := ScanAll(m, t, s');
      CleansOn(s, t, m, s', k, j);
      k := k + j;
    }
  }

  /** Dropping the rest of a range that starts at free_gen, and freeing it. */
  lemma {:induction false} DropAll(s: State, t: nat) returns (k: nat, s': State)
    requires Inv(s) && t < |s.area.cleaners| && s.area.cleaners[t].CDrop? && s.area.cleaners[t].last == s.area.free
    ensures CleansTo(s, t, s', k)
    ensures s'.area == s.area.(free := s.area.cleaners[t].min, ring := s'.area.ring,
        cleaners := s.area.cleaners[t := CIdle])
    decreases s.area.cleaners[t].min - s.area.cleaners[t].last - s.area.cleaners[t].done
  {
    InvSizes(s);
    var pc := s.area.cleaners[t];
    assert CleanerOK(pc, s.area.slots, s.area.last, s.area.read);
    hide Inv;
    var s1 := State(Next(Natural, s.area, Clean(t)).value, Record(s, Clean(t)));
    assert Step(s, Clean(t), s1);
    OneStep(s, t, s1);
    if pc.done < pc.min - pc.last {
      assert s1.area.cleaners[t] == pc.(done := pc.done + 1);
      assert s1.area == s.area.(ring := s1.area.ring, cleaners := s1.area.cleaners);
      StepKeeps(s, Clean(t), s1);
      hide Step, Next, CleansTo;
      k, s' := DropAll(s1, t);
      CleansOn(s, t, s1, s', 1, k);
      k := 1 + k;
    } else {
      k, s' := 1, s1;
    }
  }

  /** Where a scan of the whole table advances last_valid_gen to. */
  function Least(a: Area): nat { ScanMin(Words(a.slots), 0, a.read) }

  function ScannedSlots(a: Area): seq<Slot> { WithWords(a.slots, ScanWords(Words(a.slots), 0, a.read)) }

  /** A cleanup nobody disturbs, with no earlier winner still to free: afterwards last_valid_gen and
      free_gen are the least of read_gen and the generations of the active readers, every suspended
      slot has been raised by the scan, and nothing else has changed. */
  lemma UndisturbedCleanup(s: State, t: nat) returns (k: nat, s': State)
    requires Inv(s) && t < |s.area.cleaners| && s.area.cleaners[t] == CIdle && s.hist.pending == []
    requires s.area.last < s.area.read
    ensures CleansTo(s, t, s', k) && Inv(s')
    ensures s'.area == s.area.(last := Least(s.area), free := Least(s.area), slots := ScannedSlots(s.area),
        ring := s'.area.ring)
  {
    hide Inv, CleansTo, Retry, Least, ScannedSlots;
    var s3;
    k, s3 := ScannedState(s, t);
    var j;
    j, s' := AdvanceAndDrop(s3, t, Least(s.area));
    assert s3.area.cleaners[t := CIdle] == s.area.cleaners;
    CleansOn(s, t, s3, s', k, j);
    k := k + j;
    CleansInv(s, t, s', k);
  }

  lemma ScannedState(s: State, t: nat) returns (k: nat, s3: State)
    requires Inv(s) && t < |s.area.cleaners| && s.area.cleaners[t] == CIdle && s.hist.pending == []
    requires s.area.last < s.area.read
    ensures CleansTo(s, t, s3, k) && Inv(s3) && s.area.free == s.area.last <= Least(s.area)
    ensures s3 == s.(area := s.area.(slots := ScannedSlots(s.area),
                                     cleaners := s.area.cleaners[t := Retry(Natural, s.area.last, Least(s.area))]))
  {
    InvSizes(s);
    LeastIsValid(s);
    hide Inv, CleansTo, ScanMin, ScanWords, Words, WithWords, Retry;
    s3 := Scanning(s, t, ScanWords(Words(s.area.slots), 0, s.area.read), Retry(Natural, s.area.last, Least(s.area)));
    k := ScanPhase(s, t, s3);
    CleansInv(s, t, s3, k);
  }

  /** From the first load to the retry loop. */
  lemma ScanPhase(s: State, t: nat, s3: State) returns (k: nat)
    requires Sized(s.area) && |s.hist.readers| == |s.area.slots|
    requires t < |s.area.cleaners| && s.area.cleaners[t] == CIdle && s.area.last < s.area.read
    requires var words := Words(s.area.slots);
             s3 == Scanning(s, t, ScanWords(words, 0, s.area.read),
                 Retry(Natural, s.area.last, ScanMin(words, 0, s.area.read)))
    ensures CleansTo(s, t, s3, k)
  {
    hide CleansTo;
    var a, words := s.area, Words(s.area.slots);
    var s2 := s.(area := a.(cleaners := a.cleaners[t := CScan(a.last, 0, a.read)]));
    BeginScan(s, t, s2);
    assert Words(s2.area.slots) == words;
    assert s2.area.cleaners[t := s3.area.cleaners[t]] == s3.area.cleaners;
    k := ScanAll(s2, t, s3);
    CleansOn(s, t, s2, s3, 2, k);
    k := 2 + k;
  }

  /** The two loads at the beginning. */
  lemma BeginScan(s: State, t: nat, s2: State)
    requires Sized(s.area) && |s.hist.readers| == |s.area.slots|
    requires t < |s.area.cleaners| && s.area.cleaners[t] == CIdle && s.area.last < s.area.read
    requires s2 == s.(area := s.area.(cleaners := s.area.cleaners[t := CScan(s.area.last, 0, s.area.read)]))
    ensures CleansTo(s, t, s2, 2)
  {
    var s1 := s.(area := s.area.(cleaners := s.area.cleaners[t := CGotLast(s.area.last)]));
    assert Step(s, Clean(t), s1);
    assert s1.area.cleaners[t := s2.area.cleaners[t]] == s2.area.cleaners;
    assert Step(s1, Clean(t), s2);
    hide Step;
    OneStep(s, t, s1);
    OneStep(s1, t, s2);
    CleansOn(s, t, s1, s2, 1, 1);
  }

  /** With no winner still to free, free_gen has caught up, and a scan cannot find less than
      last_valid_gen. */
  lemma LeastIsValid(s: State)
    requires Inv(s) && s.hist.pending == []
    ensures s.area.free == s.area.last <= ScanMin(Words(s.area.slots), 0, s.area.read)
  {
    var words := Words(s.area.slots);
    hide CleanersOK, ReserversOK, LogOK, HoldsAll, UndroppedOK, DropsOK, DeliveriesOK, WritersOK;
    ScanMinIsLeast(words, 0, s.area.read);
    forall j | 0 <= j < |words|
      ensures s.area.last <= words[j].gen
    {
      assert SlotOK(s.area.slots[j], s.area.last, s.area.read);
    }
  }

  /** From the retry loop to the end. */
  lemma AdvanceAndDrop(s: State, t: nat, m: nat) returns (k: nat, s': State)
    requires Inv(s) && t < |s.area.cleaners| && s.area.free == s.area.last <= m
    requires s.area.cleaners[t] == Retry(Natural, s.area.last, m)
    ensures CleansTo(s, t, s', k)
    ensures s'.area == s.area.(last := m, free := m, ring := s'.area.ring, cleaners := s.area.cleaners[t := CIdle])
  {
    InvSizes(s);
    hide Inv;
    var a := s.area;
    if m <= a.last {
      k, s' := 0, s;
      assert a.cleaners[t := CIdle] == a.cleaners;
    } else {
      var s1 := State(a.(last := m, cleaners := a.cleaners[t := CDrop(a.last, m, 0)]),
                      s.hist.(pending := s.hist.pending + [t]));
      assert Step(s, Clean(t), s1);
      hide Step, CleansTo;
      StepKeeps(s, Clean(t), s1);
      OneStep(s, t, s1);
      k, s' := DropAll(s1, t);
      CleansOn(s, t, s1, s', 1, k);
      k := 1 + k;
      assert s1.area.cleaners[t := CIdle] == a.cleaners[t := CIdle];
    }
  }
}

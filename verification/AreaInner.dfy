/** The methods of `AreaInner` (`src/area.rs`) in place, on W-bit words with the suspended flag in the
    MSB, each run without interference. `view` is the unbounded state the words stand for, and every
    method is specified on it. */
module AreaInner {
  import opened Arithmetic
  import opened Options
  import opened Protocol
  import opened Cleanup

  /** The unbounded state behind the words. */
  datatype View = View(write: nat, read: nat, last: nat, free: nat, words: seq<Word>)

  datatype ReserveResult = NoSpace | FailedGrab | Reserved(start: nat, end: nat)

  datatype PublishResult = PublishOk | CasFailed | OutOfOrder

  datatype SetGenResult = SetGenOk | ReaderSuspended | InvalidGeneration

  datatype SuspendResult = SuspendOk | AlreadySuspended

  datatype ResumeResult = Resumed | NotSuspended | GenerationTooOld

  datatype CleanupResult = NothingToClean | Cleaned(oldLast: nat, newLast: nat, slotsCleaned: nat)

  /** Encoded form of a reader word. */
  function Encode(w: Width, x: Word): nat { EncodeWord(w, x.gen, x.suspended) }

  /** Counters in order, at most a ring in use, no reader word outside the valid generations. */
  ghost predicate ViewOK(v: View, capacity: nat)
  {
    && v.free <= v.last <= v.read <= v.write <= v.free + capacity
    && forall i :: 0 <= i < |v.words| ==> v.last <= v.words[i].gen <= v.read
  }

  /** Within a quarter of the word range of everything in use. */
  ghost predicate Near(w: Width, v: View, g: nat)
  {
    v.write < g + Quarter(w) && g < v.last + Quarter(w)
  }

  /** Comparing two generations of one ring. */
  lemma Compare(w: Width, capacity: nat, a: nat, b: nat)
    requires capacity < Quarter(w) && a <= b + capacity && b <= a + capacity
    ensures GenGte(w, Mask(w, a), Mask(w, b)) <==> a >= b
    ensures GenGt(w, Mask(w, a), Mask(w, b)) <==> a > b
    ensures GenLte(w, Mask(w, a), Mask(w, b)) <==> a <= b
    ensures GenLt(w, Mask(w, a), Mask(w, b)) <==> a < b
    ensures Mask(w, a) == Mask(w, b) <==> a == b
    ensures a >= b ==> GenDist(w, Mask(w, a), Mask(w, b)) == a - b
  {
    CompareExact(w, a, b);
    WidthFacts(w);
    if a >= b { DistExact(w, a, b); }
  }

  /** What the comparison answers, whatever the generations. */
  lemma GteByDistance(w: Width, a: nat, b: nat)
    ensures GenGte(w, Mask(w, a), Mask(w, b)) <==> (a - b) % Half(w) < Quarter(w)
    ensures Mask(w, a) == Mask(w, b) <==> (a - b) % Half(w) == 0
    ensures 0 <= (a - b) % Half(w)
  {
    hide Mask, Half, Quarter;
    DistIsDifference(w, a, b);
    WidthFacts(w);
    MaskByDistance(w, a, b);
  }

  lemma MaskByDistance(w: Width, a: nat, b: nat)
    ensures Mask(w, a) == Mask(w, b) <==> (a - b) % Half(w) == 0
  {
    SubtractRemainders(a, b, Half(w));
    ResiduesEqual(Mask(w, a), Mask(w, b), Half(w));
  }

  lemma ResiduesEqual(x: nat, y: nat, h: nat)
    requires x < h && y < h
    ensures x == y <==> (x - y) % h == 0
  {
    if x >= y {
      RemainderUnique(x - y, 0, x - y, h);
    } else {
      RemainderUnique(x - y, -1, x - y + h, h);
    }
  }

  lemma Decode(w: Width, x: Word)
    ensures ClearMsb(w, Encode(w, x)) == Mask(w, x.gen)
    ensures HasMsb(w, Encode(w, x)) <==> x.suspended
    ensures SetMsb(w, Encode(w, x)) == Encode(w, Word(x.gen, true))
    ensures !x.suspended ==> Encode(w, x) == Mask(w, x.gen)
    ensures SetMsb(w, Mask(w, x.gen)) == Encode(w, Word(x.gen, true))
  {
    EncodeFaithful(w, x.gen, x.suspended);
  }

  class AreaInner {
    const w: Width
    var writeGen: nat
    var readGen: nat
    var lastValidGen: nat
    var freeGen: nat
    const readerGens: array<nat>
    const buffer: array<Cell>
    ghost var view: View

    ghost predicate Valid()
      reads this, readerGens
    {
      && 0 < buffer.Length < Quarter(w)
      && ViewOK(view, buffer.Length)
      && writeGen == Mask(w, view.write) && readGen == Mask(w, view.read)
      && lastValidGen == Mask(w, view.last) && freeGen == Mask(w, view.free)
      && |view.words| == readerGens.Length
      && forall i :: 0 <= i < readerGens.Length ==> readerGens[i] == Encode(w, view.words[i])
    }

    constructor (w: Width, capacity: nat, readers: nat)
      requires 0 < capacity < Quarter(w)
      ensures Valid() && fresh(readerGens) && fresh(buffer)
      ensures this.w == w && buffer.Length == capacity
      ensures view == View(0, 0, 0, 0, seq(readers, _ => Word(0, true)))
    {
      WidthFacts(w);
      RemainderUnique(0, 0, 0, Half(w));
      this.w := w;
      this.writeGen, this.readGen, this.lastValidGen, this.freeGen := 0, 0, 0, 0;
      this.readerGens := new nat[readers](_ => Msb(w));
      this.buffer := new Cell[capacity](_ => Vacant);
      this.view := View(0, 0, 0, 0, seq(readers, _ => Word(0, true)));
    }

    /** Earlier values of free_gen and write_gen, loaded in this order: other threads may have moved both
        since. */
    ghost predicate Loaded(currentFree: nat, currentWrite: nat, f: nat, v: nat)
      reads this
    {
      && currentFree == Mask(w, f) && currentWrite == Mask(w, v)
      && f <= view.free && f <= v <= view.write < f + Quarter(w)
    }

    /** `available`, from the two loads. It is never more than the ring has at the CAS. */
    method Available(currentFree: nat, currentWrite: nat, ghost f: nat, ghost v: nat) returns (available: nat)
      requires Valid() && Loaded(currentFree, currentWrite, f, v)
      ensures available == if v - f <= buffer.Length then buffer.Length - (v - f) else 0
      ensures v == view.write && available > 0 ==> available <= view.free + buffer.Length - view.write
    {
      Compare(w, Quarter(w) - 1, v, f);
      var dist := GenDist(w, currentWrite, currentFree);
      available := buffer.Length - Min(buffer.Length, dist);
    }

    /** All or nothing, given what the two loads returned: a request that fits is granted exactly when
        nobody has moved write_gen since, which the Exclusive form is promised, and then it fits the ring
        as it is now. */
    method TryReserveSlots(exclusive: bool, n: nat, currentFree: nat, currentWrite: nat, ghost f: nat, ghost v: nat)
      returns (r: ReserveResult)
      requires Valid() && n > 0 && Loaded(currentFree, currentWrite, f, v)
      requires exclusive ==> v == view.write
      modifies `writeGen, `view
      ensures Valid()
      ensures r.NoSpace? <==> v + n > f + buffer.Length
      ensures r.FailedGrab? <==> v + n <= f + buffer.Length && v != old(view).write
      ensures view == if r.Reserved? then old(view).(write := old(view).write + n) else old(view)
      ensures r.Reserved? ==> r.start == Mask(w, old(view).write) && r.end == Mask(w, view.write)
                              && GenDist(w, r.end, r.start) == n
    {
      hide Mask, GenDist, GenAdd, GenGte, Half, Encode;
      var available := Available(currentFree, currentWrite, f, v);
      if n > available { return NoSpace; }
      var expectedNewWrite := GenAdd(w, currentWrite, n);
      AddExact(w, v, n);
      Compare(w, Quarter(w) - 1, v, view.write);
      if exclusive || writeGen == currentWrite {
        Compare(w, buffer.Length, v + n, v);
        writeGen := expectedNewWrite;
        view := view.(write := view.write + n);
        r := Reserved(currentWrite, expectedNewWrite);
      } else {
        r := FailedGrab;
      }
    }

    /** As many as there are, up to `n`, given what the two loads returned; None is FailedGrab, and the
        empty result is (0, 0, 0). */
    method TryReserveSlotsBestEffort(exclusive: bool, n: nat, currentFree: nat, currentWrite: nat,
                                     ghost f: nat, ghost v: nat)
      returns (r: Option<(nat, nat, nat)>)
      requires Valid() && Loaded(currentFree, currentWrite, f, v)
      requires exclusive ==> v == view.write
      modifies `writeGen, `view
      ensures Valid()
      ensures var count := Min(n, if v - f <= buffer.Length then buffer.Length - (v - f) else 0);
              && (r.None? <==> count > 0 && v != old(view).write)
              && (r.Some? ==> r.value.2 == count && GenDist(w, r.value.1, r.value.0) == count)
              && (r.Some? && count == 0 ==> r.value == (0, 0, 0))
              && (r.Some? && count > 0 ==> r.value.0 == Mask(w, old(view).write) && r.value.1 == Mask(w, view.write))
              && view == if r.Some? then old(view).(write := old(view).write + count) else old(view)
    {
      assert GenDist(w, 0, 0) == 0 by { WidthFacts(w); RemainderUnique(0, 0, 0, Modulus(w)); }
      hide Mask, GenDist, GenAdd, GenGte, Half, Encode;
      if n == 0 { return Some((0, 0, 0)); }
      var available := Available(currentFree, currentWrite, f, v);
      var actual := Min(n, available);
      if actual == 0 { return Some((0, 0, 0)); }
      var expectedNewWrite := GenAdd(w, currentWrite, actual);
      AddExact(w, v, actual);
      Compare(w, Quarter(w) - 1, v, view.write);
      if exclusive || writeGen == currentWrite {
        Compare(w, buffer.Length, v + actual, v);
        writeGen := expectedNewWrite;
        view := view.(write := view.write + actual);
        r := Some((currentWrite, expectedNewWrite, actual));
      } else {
        r := None;
      }
    }

    /** Publish the reserved range [s, e): succeeds exactly when it is empty or next in line, and otherwise
        fails with the error of its form. */
    method PublishSlots(exclusive: bool, start: nat, end: nat, ghost s: nat, ghost e: nat) returns (r: PublishResult)
      requires Valid() && start == Mask(w, s) && end == Mask(w, e)
      requires view.read <= s <= e <= view.write
      modifies `readGen, `view
      ensures Valid()
      ensures r == if s == e || s == old(view).read then PublishOk else if exclusive then OutOfOrder else CasFailed
      ensures view == if r.PublishOk? && s < e then old(view).(read := e) else old(view)
    {
      Compare(w, buffer.Length, s, e);
      Compare(w, buffer.Length, view.read, s);
      if GenGte(w, start, end) { return PublishOk; }
      if exclusive {
        if readGen != start { return OutOfOrder; }
        readGen := end;
        view := view.(read := e);
        return PublishOk;
      }
      if readGen != start { return CasFailed; }
      readGen := end;
      view := view.(read := e);
      r := PublishOk;
    }

    /** Move an active reader forward to `g`. It is refused exactly if the masked distance from `g` to the
        reader's generation is below a quarter of the word range, which close to the generations in use
        means that `g` is not ahead. The state stays valid exactly if `g` is a valid generation, which
        nothing here checks from above. */
    method SetReaderGen(i: nat, newGen: nat, ghost g: nat) returns (r: SetGenResult)
      requires Valid() && i < readerGens.Length && newGen == Mask(w, g)
      modifies `view, readerGens
      ensures r.ReaderSuspended? <==> old(view).words[i].suspended
      ensures r.InvalidGeneration? <==>
                !old(view).words[i].suspended && (old(view).words[i].gen - g) % Half(w) < Quarter(w)
      ensures Near(w, old(view), g) && !r.ReaderSuspended? ==> (r.SetGenOk? <==> old(view).words[i].gen < g)
      ensures view == if r.SetGenOk? then old(view).(words := old(view).words[i := Word(g, false)]) else old(view)
      ensures readerGens[..] == if r.SetGenOk? then old(readerGens[..])[i := newGen] else old(readerGens[..])
      ensures Valid() <==> (r.SetGenOk? ==> old(view).last <= g <= old(view).read)
    {
      hide Mask, GenDist, HasMsb, SetMsb, ClearMsb, Half, Encode, GenGte;
      var current := readerGens[i];
      Decode(w, view.words[i]);
      GteByDistance(w, view.words[i].gen, g);
      if HasMsb(w, current) { return ReaderSuspended; }
      if Near(w, view, g) { Compare(w, Quarter(w) - 1, g, view.words[i].gen); }
      if GenLte(w, newGen, current) { return InvalidGeneration; }
      Decode(w, Word(g, false));
      readerGens[i] := newGen;
      view := view.(words := view.words[i := Word(g, false)]);
      r := SetGenOk;
      assert view.words[i].gen == g;
    }

    method SuspendReader(i: nat) returns (r: SuspendResult)
      requires Valid() && i < readerGens.Length
      modifies `view, readerGens
      ensures Valid()
      ensures r.AlreadySuspended? <==> old(view).words[i].suspended
      ensures view == old(view).(words := old(view).words[i := Word(old(view).words[i].gen, true)])
    {
      var current := readerGens[i];
      Decode(w, view.words[i]);
      if HasMsb(w, current) {
        assert view.words[i := Word(view.words[i].gen, true)] == view.words;
        return AlreadySuspended;
      }
      readerGens[i] := SetMsb(w, current);
      view := view.(words := view.words[i := Word(view.words[i].gen, true)]);
      r := SuspendOk;
    }

    /** Clear the suspended flag, at whatever generation cleanups have left the word. */
    method ResumeReader(i: nat) returns (resumed: bool)
      requires Valid() && i < readerGens.Length
      modifies `view, readerGens
      ensures Valid()
      ensures resumed <==> old(view).words[i].suspended
      ensures view == old(view).(words := old(view).words[i := Word(old(view).words[i].gen, false)])
    {
      var current := readerGens[i];
      Decode(w, view.words[i]);
      if !HasMsb(w, current) {
        assert view.words[i := Word(view.words[i].gen, false)] == view.words;
        return false;
      }
      Decode(w, Word(view.words[i].gen, false));
      readerGens[i] := ClearMsb(w, current);
      view := view.(words := view.words[i := Word(view.words[i].gen, false)]);
      resumed := true;
    }

    /** Resume at generation `e`, unless a cleanup has forced the word past it: refused exactly if the
        masked distance from `e` to the word's generation is positive and below a quarter of the word
        range. The code checks this side only: the state stays valid exactly if `e` is a valid
        generation. */
    method ResumeReaderAt(i: nat, entryGen: nat, ghost e: nat) returns (r: ResumeResult)
      requires Valid() && i < readerGens.Length && entryGen == Mask(w, e)
      modifies `view, readerGens
      ensures r.NotSuspended? <==> !old(view).words[i].suspended
      ensures r.GenerationTooOld? <==>
                old(view).words[i].suspended && 0 < (old(view).words[i].gen - e) % Half(w) < Quarter(w)
      ensures Near(w, old(view), e) && !r.NotSuspended? ==> (r.Resumed? <==> old(view).words[i].gen <= e)
      ensures view == if r.Resumed? then old(view).(words := old(view).words[i := Word(e, false)]) else old(view)
      ensures readerGens[..] == if r.Resumed? then old(readerGens[..])[i := entryGen] else old(readerGens[..])
      ensures Valid() <==> (r.Resumed? ==> old(view).last <= e <= old(view).read)
    {
      hide Mask, GenDist, HasMsb, SetMsb, ClearMsb, Half, Encode, GenGte;
      var current := readerGens[i];
      Decode(w, view.words[i]);
      GteByDistance(w, view.words[i].gen, e);
      if !HasMsb(w, current) { return NotSuspended; }
      if Near(w, view, e) { Compare(w, Quarter(w) - 1, view.words[i].gen, e); }
      if GenLt(w, entryGen, ClearMsb(w, current)) { return GenerationTooOld; }
      Decode(w, Word(e, false));
      ClearedMask(w, e);
      readerGens[i] := ClearMsb(w, entryGen);
      view := view.(words := view.words[i := Word(e, false)]);
      r := Resumed;
      assert view.words[i].gen == e;
    }

    /** The scan: force suspended slots forward, find the least generation held. */
    method Scan() returns (minHeld: nat, ghost m: nat)
      requires Valid()
      modifies `view, readerGens
      ensures Valid()
      ensures m == ScanMin(old(view).words, 0, old(view).read) && minHeld == Mask(w, m) && view.last <= m
      ensures view == old(view).(words := ScanWords(old(view).words, 0, old(view).read))
    {
      hide Mask, GenDist, Half, Encode, SetMsb, ClearMsb, HasMsb;
      ghost var words0 := view.words;
      minHeld := readGen;
      m := view.read;
      var p := 0;
      while p < readerGens.Length
        invariant p <= readerGens.Length && Valid() && view == old(view).(words := view.words)
        invariant minHeld == Mask(w, m) && view.last <= m <= view.read
        invariant ScanMin(view.words, p, m) == ScanMin(words0, 0, view.read)
        invariant ScanWords(view.words, p, m) == ScanWords(words0, 0, view.read)
      {
        var readerGen := readerGens[p];
        ghost var word := view.words[p];
        Decode(w, word);
        Compare(w, buffer.Length, m, word.gen);
        if HasMsb(w, readerGen) {
          if GenGt(w, minHeld, ClearMsb(w, readerGen)) {
            Decode(w, Word(m, true));
            ScanMinPrefix(view.words, view.words[p := Word(m, true)], p + 1, m);
            readerGens[p] := SetMsb(w, minHeld);
            view := view.(words := view.words[p := Word(m, true)]);
          } else {
            assert view.words[p := Raise(word, m)] == view.words;
          }
        } else {
          assert view.words[p := Raise(word, m)] == view.words;
          if GenGte(w, minHeld, readerGen) {
            minHeld := readerGen;
            m := word.gen;
          }
        }
        p := p + 1;
      }
    }

    /** Drop the messages of [last, last + slotsCleaned), oldest first. */
    method DropRange(lastValid: nat, slotsCleaned: nat, ghost last: nat)
      requires 0 < buffer.Length && lastValid == Mask(w, last) && slotsCleaned <= buffer.Length
      requires IndicesKept(w, buffer.Length, last + slotsCleaned)
      modifies buffer
      ensures buffer[..] == Vacated(old(buffer[..]), last, slotsCleaned)
    {
      var offset := 0;
      while offset < slotsCleaned
        invariant offset <= slotsCleaned
        invariant buffer[..] == Vacated(old(buffer[..]), last, offset)
      {
        AddExact(w, last, offset);
        IndexOfMasked(w, buffer.Length, last + slotsCleaned, last + offset);
        buffer[RingSlot(buffer.Length, GenAdd(w, lastValid, offset))] := Vacant;
        offset := offset + 1;
      }
    }

    /** Win [last, m), drop it and free it. */
    method Advance(newLastValid: nat, ghost m: nat) returns (slotsCleaned: nat)
      requires Valid() && view.free == view.last
      requires IndicesKept(w, buffer.Length, view.write)
      requires newLastValid == Mask(w, m) && view.last <= m <= view.read
      requires forall j :: 0 <= j < |view.words| ==> m <= view.words[j].gen
      modifies `lastValidGen, `freeGen, `view, buffer
      ensures Valid() && view == old(view).(last := m, free := m)
      ensures slotsCleaned == m - old(view).last
      ensures buffer[..] == Vacated(old(buffer[..]), old(view).last, m - old(view).last)
    {
      hide Mask, GenDist, Half, Quarter, Encode, Vacated, IndicesKept;
      var lastValid := lastValidGen;
      Compare(w, buffer.Length, m, view.last);
      slotsCleaned := GenDist(w, newLastValid, lastValid);
      KeptBelow(w, buffer.Length, view.write, m);
      lastValidGen := newLastValid;
      DropRange(lastValid, slotsCleaned, view.last);
      freeGen := newLastValid;
      view := view.(last := m, free := m);
    }

    /** `try_cleanup_old_slots` with nobody else around: suspended words are raised by the scan, and
        last_valid_gen and free_gen move to the least of read_gen and the active readers' generations,
        every message below it dropped. */
    method TryCleanupOldSlots() returns (r: CleanupResult)
      requires Valid() && view.free == view.last
      requires IndicesKept(w, buffer.Length, view.write)
      modifies `lastValidGen, `freeGen, `view, readerGens, buffer
      ensures Valid() && view.free == view.last
      ensures r.NothingToClean? <==> old(view).last == old(view).read || Held(old(view)) == old(view).last
      ensures view == if old(view).last == old(view).read then old(view) else AfterCleanup(old(view))
      ensures r.Cleaned? ==> r.slotsCleaned + old(view).last == Held(old(view))
                             && r.oldLast == Mask(w, old(view).last) && r.newLast == Mask(w, view.last)
      ensures buffer[..] == if r.Cleaned? then Vacated(old(buffer[..]), old(view).last, r.slotsCleaned)
          else old(buffer[..])
    {
      hide Mask, GenGte, GenLte, GenDist, ScanMin, ScanWords, Half, Quarter, Encode, Vacated, IndicesKept;
      var lastValid := lastValidGen;
      Compare(w, buffer.Length, view.last, view.read);
      if GenGte(w, lastValid, readGen) { return NothingToClean; }
      ghost var m;
      var newLastValid;
      newLastValid, m := Scan();
      Compare(w, buffer.Length, m, view.last);
      if GenLte(w, newLastValid, lastValid) { return NothingToClean; }
      NoneBehind(old(view).words, old(view).read);
      var slotsCleaned := Advance(newLastValid, m);
      r := Cleaned(lastValid, newLastValid, slotsCleaned);
    }
  }

  /** Where an undisturbed cleanup advances to: the least of read_gen and the active generations. */
  ghost function Held(v: View): nat { ScanMin(v.words, 0, v.read) }

  /** The state an undisturbed cleanup leaves. */
  ghost function AfterCleanup(v: View): View {
    View(v.write, v.read, Held(v), Held(v), ScanWords(v.words, 0, v.read))
  }

  lemma KeptBelow(w: Width, capacity: nat, top: nat, g: nat)
    requires 0 < capacity && IndicesKept(w, capacity, top) && g <= top
    ensures IndicesKept(w, capacity, g)
  {
  }

  /** The ring with the messages of [last, last + count) taken out. */
  ghost function Vacated(cells: seq<Cell>, last: nat, count: nat): (r: seq<Cell>)
    requires 0 < |cells|
    ensures |r| == |cells|
  {
    if count == 0 then cells
    else Vacated(cells, last, count - 1)[RingSlot(|cells|, last + count - 1) := Vacant]
  }

  /** Exactly the slots of [last, last + count) are emptied; the rest of the ring is untouched. */
  lemma {:induction false} VacatedAt(cells: seq<Cell>, last: nat, count: nat, g: nat)
    requires 0 < |cells| && count <= |cells| && last <= g < last + |cells|
    ensures Vacated(cells, last, count)[RingSlot(|cells|, g)] ==
            if g < last + count then Vacant else cells[RingSlot(|cells|, g)]
  {
    if count > 0 {
      VacatedAt(cells, last, count - 1, g);
      var top := last + count - 1;
      if g < top { IndexSeparates(|cells|, g, top); } else if top < g { IndexSeparates(|cells|, top, g); }
    }
  }

  /** Clearing the flag of a masked generation does nothing. */
  lemma ClearedMask(w: Width, g: nat)
    ensures ClearMsb(w, Mask(w, g)) == Mask(w, g)
  {
    WidthFacts(w);
  }

  /** A scan leaves no word behind the minimum it has found. */
  lemma NoneBehind(words: seq<Word>, read: nat)
    ensures forall j :: 0 <= j < |words| ==> ScanMin(words, 0, read) <= ScanWords(words, 0, read)[j].gen
  {
    forall j | 0 <= j < |words|
      ensures ScanMin(words, 0, read) <= ScanWords(words, 0, read)[j].gen
    {
      ScanWordsAt(words, 0, read, j);
      MinBeforeIsAbove(words, 0, read, j);
      ScanMinIsLeast(words, 0, read);
    }
  }

  lemma {:induction false} MinBeforeIsAbove(words: seq<Word>, p: nat, min: nat, j: nat)
    requires p <= j <= |words|
    ensures ScanMin(words, p, min) <= MinBefore(words, p, min, j)
    decreases j - p
  {
    if p < j { MinBeforeIsAbove(words, p + 1, Lower(words[p], min), j); }
  }
}

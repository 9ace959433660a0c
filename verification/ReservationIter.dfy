/** The checked iterator of `src/iter.rs`: it yields the slots of a reservation one by one, counts the
    writes, and refuses to publish before every slot has been written.

    Generations are the masked W-bit numbers of the code; `start` is the unbounded generation behind
    `startGen`. */
module ReservationIter {
  import opened Arithmetic
  import opened Options
  import opened Protocol

  function CountTrue(flags: seq<bool>): (n: nat)
    ensures n <= |flags|
  {
    if flags == [] then 0 else CountTrue(flags[..|flags| - 1]) + (if flags[|flags| - 1] then 1 else 0)
  }

  lemma CountAppend(flags: seq<bool>)
    ensures CountTrue(flags + [false]) == CountTrue(flags)
  {
    assert (flags + [false])[..|flags|] == flags;
  }

  lemma {:induction false} CountSet(flags: seq<bool>, i: nat)
    requires i < |flags| && !flags[i]
    ensures CountTrue(flags[i := true]) == CountTrue(flags) + 1
  {
    var n := |flags| - 1;
    if i < n {
      assert flags[i := true][..n] == flags[..n][i := true];
      CountSet(flags[..n], i);
    } else {
      assert flags[i := true][..n] == flags[..n];
    }
  }

  /** A full count leaves no flag unset. */
  lemma {:induction false} CountFull(flags: seq<bool>)
    ensures CountTrue(flags) == |flags| <==> forall i :: 0 <= i < |flags| ==> flags[i]
  {
    if flags != [] {
      var n := |flags| - 1;
      CountFull(flags[..n]);
      assert flags == flags[..n] + [flags[n]];
    }
  }

  datatype PublishOutcome = Panicked | Published | CasFailed | OutOfOrder

  /** Which of the yielded slots something has been stored through. */
  function Flags(stored: seq<seq<Value>>): (flags: seq<bool>)
    ensures |flags| == |stored|
  {
    seq(|stored|, i requires 0 <= i < |stored| => stored[i] != [])
  }

  /** If as many slots have been written as there are, each of them has. */
  lemma AllStored(stored: seq<seq<Value>>)
    ensures CountTrue(Flags(stored)) <= |stored|
    ensures CountTrue(Flags(stored)) == |stored| ==> forall i :: 0 <= i < |stored| ==> stored[i] != []
  {
    var flags := Flags(stored);
    CountFull(flags);
    assert forall i :: 0 <= i < |stored| ==> flags[i] == (stored[i] != []);
  }

  lemma FlagsAppend(stored: seq<seq<Value>>)
    ensures Flags(stored + [[]]) == Flags(stored) + [false]
  {
  }

  /** A reservation that fits the ring, whose ring indices survive wrapping. */
  predicate Fits(w: Width, capacity: nat, start: nat, total: nat)
  {
    && 0 < capacity && total <= capacity && total < Quarter(w)
    && IndicesKept(w, capacity, start + total)
  }

  lemma FitsQuarter(w: Width, capacity: nat, start: nat, total: nat)
    requires Fits(w, capacity, start, total)
    ensures total < Quarter(w)
  {
  }

  /** What the code's arithmetic says about the i-th position of a reservation. */
  lemma PositionFacts(w: Width, start: nat, i: nat, total: nat)
    requires i <= total < Quarter(w)
    ensures GenGte(w, Mask(w, start + i), Mask(w, start + total)) <==> i == total
    ensures GenAdd(w, Mask(w, start + i), 1) == Mask(w, start + i + 1)
    ensures GenDist(w, Mask(w, start + total), Mask(w, start)) == total
  {
    WidthFacts(w);
    CompareExact(w, start + i, start + total);
    AddExact(w, start + i, 1);
    DistExact(w, start + total, start);
  }

  /** Distinct generations of a reservation have ring slots of their own, also across a wrap. */
  lemma SlotsApart(w: Width, capacity: nat, start: nat, total: nat, i: nat, j: nat)
    requires Fits(w, capacity, start, total) && i < total && j < total && i != j
    ensures RingSlot(capacity, Mask(w, start + i)) != RingSlot(capacity, Mask(w, start + j))
  {
    IndexOfMasked(w, capacity, start + total, start + i);
    IndexOfMasked(w, capacity, start + total, start + j);
    if i < j {
      IndexSeparates(capacity, start + i, start + j);
    } else {
      IndexSeparates(capacity, start + j, start + i);
    }
  }

  class ReservationSlot {
    const iter: ReservationIter
    const generation: nat
    var written: bool

    constructor (iter: ReservationIter, generation: nat)
      ensures this.iter == iter && this.generation == generation && !written
    {
      this.iter := iter;
      this.generation := generation;
      this.written := false;
    }

    /** Store a value, once. `ok` is false where the code panics: on a second write. */
    method Write(value: Value) returns (ok: bool)
      requires iter.Valid() && this in iter.slots
      modifies this, iter, iter.ring
      ensures iter.Valid() && iter.slots == old(iter.slots)
      ensures iter.cursor == old(iter.cursor) && iter.published == old(iter.published)
      ensures ok == !old(written) && written
      ensures iter.writtenCount == old(iter.writtenCount) + (if ok then 1 else 0)
      ensures var i := iter.Position(this);
              iter.stored == if ok then old(iter.stored)[i := [value]] else old(iter.stored)
      ensures !ok ==> iter.ring[..] == old(iter.ring[..])
    {
      hide Fits, RingSlot, Mask, CountTrue, Half, Quarter;
      if written { return false; }
      ghost var i, before := iter.Position(this), iter.stored;
      var index := RingSlot(iter.ring.Length, generation);
      forall j: nat | j < iter.total && j != i
        ensures iter.IndexOf(j) != index
      {
        SlotsApart(iter.w, iter.ring.Length, iter.start, iter.total, i, j);
      }
      CountSet(Flags(before), i);
      iter.ring[index] := Full(value);
      written := true;
      iter.writtenCount := iter.writtenCount + 1;
      iter.stored := before[i := [value]];
      assert Flags(iter.stored) == Flags(before)[i := true];
      ok := true;
    }
  }

  class ReservationIter {
    const w: Width
    const ring: array<Cell>
    const startGen: nat
    const endGen: nat
    const total: nat
    var cursor: nat
    var writtenCount: nat
    var published: bool

    ghost const start: nat                  // the unbounded generation behind startGen
    ghost var slots: seq<ReservationSlot>   // the slots yielded so far
    ghost var stored: seq<seq<Value>>       // the values stored through each of them, in order

    /** Ring index of the i-th slot, as the code computes it. */
    ghost function IndexOf(i: nat): (index: nat)
      requires ring.Length > 0
      ensures index < ring.Length
    {
      RingSlot(ring.Length, Mask(w, start + i))
    }

    ghost predicate Valid()
      reads this, ring, slots
    {
      && 0 < ring.Length && Fits(w, ring.Length, start, total)
      && startGen == Mask(w, start) && endGen == Mask(w, start + total) && cursor == Mask(w, start + |slots|)
      && |stored| == |slots| <= total
      && (forall i, j :: 0 <= i < j < |slots| ==> slots[i] != slots[j])
      && (forall i :: 0 <= i < |slots| ==>
            && slots[i].iter == this && slots[i].generation == Mask(w, start + i)
            && (slots[i].written <==> stored[i] != [])
            && |stored[i]| <= 1
            && (stored[i] != [] ==> ring[IndexOf(i)] == Full(stored[i][0])))
      && writtenCount == CountTrue(Flags(stored))
    }

    /** Which of the yielded slots this is. */
    ghost function Position(slot: ReservationSlot): (i: nat)
      requires slot in slots
      reads this
      ensures i < |slots| && slots[i] == slot
    {
      var i :| 0 <= i < |slots| && slots[i] == slot;
      i
    }

    /** The hand-over in `into_iter`: from a reservation [startGen, endGen). */
    constructor (w: Width, ring: array<Cell>, startGen: nat, endGen: nat, ghost start: nat, ghost total: nat)
      requires Fits(w, ring.Length, start, total)
      requires startGen == Mask(w, start) && endGen == Mask(w, start + total)
      ensures Valid() && slots == [] && !published
      ensures this.w == w && this.ring == ring && this.total == total && this.start == start
      ensures this.startGen == startGen && this.endGen == endGen
    {
      PositionFacts(w, start, 0, total);
      this.w, this.ring, this.startGen, this.endGen := w, ring, startGen, endGen;
      this.total := GenDist(w, endGen, startGen);
      this.cursor, this.writtenCount, this.published := startGen, 0, false;
      this.start, this.slots, this.stored := start, [], [];
    }

    /** Yield the next slot, or nothing once the whole reservation has been yielded. */
    method Next() returns (r: Option<ReservationSlot>)
      requires Valid()
      modifies this
      ensures Valid() && ring[..] == old(ring[..])
      ensures writtenCount == old(writtenCount) && published == old(published)
      ensures r.None? <==> |old(slots)| == total
      ensures r.None? ==> slots == old(slots) && stored == old(stored)
      ensures r.Some? ==> fresh(r.value) && slots == old(slots) + [r.value] && stored == old(stored) + [[]]
                          && r.value.generation == Mask(w, start + |old(slots)|) && !r.value.written
    {
      hide Fits, RingSlot, Mask, CountTrue, GenAdd, GenGte, GenDist, IndexOf, Half, Quarter, Flags;
      assert total < Quarter(w) by { FitsQuarter(w, ring.Length, start, total); }
      PositionFacts(w, start, |slots|, total);
      if GenGte(w, cursor, endGen) { return None; }
      var generation := cursor;
      cursor := GenAdd(w, cursor, 1);
      var slot := new ReservationSlot(this, generation);
      CountAppend(Flags(stored));
      FlagsAppend(stored);
      slots, stored := slots + [slot], stored + [[]];
      r := Some(slot);
    }

    /** Publish on the area's read_gen, whose value is passed in and returned: by CAS, or in the Exclusive
        form by comparing and storing. The assert in front of it (`Panicked` when it fails) is enough to
        know that every generation of the reservation has been yielded exactly once, written exactly
        once, and is in its ring slot. */
    method Publish(readGen: nat, exclusive: bool) returns (outcome: PublishOutcome, readGen': nat)
      requires Valid()
      modifies `published
      ensures Valid() && slots == old(slots) && stored == old(stored) && ring[..] == old(ring[..])
      ensures outcome.Panicked? <==> writtenCount != total
      ensures !outcome.Panicked? ==>
                && |slots| == total
                && forall i :: 0 <= i < total ==>
                     && slots[i].generation == Mask(w, start + i) && slots[i].written && |stored[i]| == 1
                     && ring[IndexOf(i)] == Full(stored[i][0])
      ensures outcome.Published? <==> writtenCount == total && (total == 0 || readGen == startGen)
      ensures outcome.OutOfOrder? ==> exclusive
      ensures outcome.CasFailed? ==> !exclusive
      ensures readGen' == if outcome.Published? && total > 0 then endGen else readGen
      ensures published <==> outcome.Published? || (outcome.Panicked? && old(published))
    {
      hide Fits, RingSlot, Mask, CountTrue, GenAdd, GenGte, GenDist, IndexOf, Half, Quarter, Flags;
      assert total < Quarter(w) by { FitsQuarter(w, ring.Length, start, total); }
      if writtenCount != total { return Panicked, readGen; }
      AllStored(stored);
      PositionFacts(w, start, 0, total);
      published := true;
      if GenGte(w, startGen, endGen) { return Published, readGen; }
      if exclusive {
        if readGen != startGen {
          published := false;
          return OutOfOrder, readGen;
        }
        return Published, endGen;
      }
      if readGen == startGen { return Published, endGen; }
      published := false;
      return CasFailed, readGen;
    }
  }
}

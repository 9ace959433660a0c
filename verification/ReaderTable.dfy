/** The reader table of `src/map.rs`: linear probing whose "fold" insertion picks a key that is at home
    in the slot it lands in, so that one probe finds it again.

    Keys are W-bit words; the MSB is the IN_PROGRESS flag and 0 is EMPTY. */
module ReaderTable {
  import opened Arithmetic
  import opened Options

  const EMPTY: nat := 0

  /** For `n`: only the key's own index. */
  const IMMEDIATE: nat := 1

  /** For `n`: the whole table (`usize::MAX`). */
  const MAX: nat := 0xFFFF_FFFF_FFFF_FFFF

  function KeyBits(w: Width, k: nat): nat { ClearMsb(w, k) }

  predicate IsInProgress(w: Width, k: nat) { HasMsb(w, k) && k != EMPTY }

  /** `(key + offset) & mask`, the capacity being a power of two. */
  function IndexFor(capacity: nat, key: nat, offset: nat): (i: nat)
    requires capacity > 0
    ensures i < capacity
  {
    (key + offset) % capacity
  }

  /** The key a fold insertion stores after `i` probes. */
  function FoldedKey(w: Width, capacity: nat, key: nat, offset: nat, i: nat): nat
  {
    var logical := WrappingAdd(w, WrappingAdd(w, key, offset), i);
    SetMsb(w, if logical == 0 || logical == Msb(w) then WrappingAdd(w, logical, capacity) else logical)
  }

  /** A power of two that leaves room for the flag. */
  ghost predicate GoodCapacity(w: Width, capacity: nat)
  {
    exists e: nat :: e <= w - 2 && capacity == Pow2(e)
  }

  /** Every key is at home in its slot: its logical bits are not zero and lead straight to it. */
  ghost predicate AtHome(w: Width, keys: seq<nat>)
  {
    forall i :: 0 <= i < |keys| && keys[i] != EMPTY ==>
      keys[i] < Modulus(w) && KeyBits(w, keys[i]) != 0 && IndexFor(|keys|, KeyBits(w, keys[i]), 0) == i
  }

  ghost predicate TableOK(w: Width, keys: seq<nat>)
  {
    GoodCapacity(w, |keys|) && AtHome(w, keys)
  }

  /** The table as a finite map from live ids to slots. */
  ghost function Contents(w: Width, keys: seq<nat>): map<nat, nat>
    requires AtHome(w, keys)
  {
    map i | 0 <= i < |keys| && keys[i] != EMPTY :: KeyBits(w, keys[i]) := i
  }

  // ---------------------------------------------------------------- powers of two

  lemma {:induction false} PowDivides(e: nat, f: nat)
    requires e <= f
    ensures Pow2(f) % Pow2(e) == 0
    decreases f - e
  {
    var p := Pow2(e);
    if e == f {
      RemainderUnique(p, 1, 0, p);
    } else {
      PowDivides(e, f - 1);
      var q := Pow2(f - 1) / p;
      assert Pow2(f - 1) == q * p;
      assert Pow2(f) == 2 * Pow2(f - 1) == (2 * q) * p;
      RemainderUnique(Pow2(f), 2 * q, 0, p);
    }
  }

  lemma {:induction false} PowMonotone(e: nat, f: nat)
    requires e <= f
    ensures Pow2(e) <= Pow2(f)
    decreases f - e
  {
    if e < f { PowMonotone(e, f - 1); }
  }

  lemma CapacityFacts(w: Width, capacity: nat)
    requires GoodCapacity(w, capacity)
    ensures 0 < capacity <= Quarter(w) < Half(w) == Msb(w)
    ensures Modulus(w) == 2 * Half(w)
    ensures Half(w) % capacity == 0 && Modulus(w) % capacity == 0
  {
    var e: nat :| e <= w - 2 && capacity == Pow2(e);
    WidthFacts(w);
    PowMonotone(e, w - 2);
    PowDivides(e, w - 1);
    PowDivides(e, w);
  }

  // ---------------------------------------------------------------- folding

  /** Clearing the flag does not move a key to another slot. */
  lemma BitsKeepIndex(w: Width, capacity: nat, x: nat)
    requires GoodCapacity(w, capacity) && x < Modulus(w)
    ensures KeyBits(w, x) % capacity == x % capacity
  {
    CapacityFacts(w, capacity);
    ModOfMultiple(x, Half(w), capacity);
    if x >= Half(w) {
      RemainderUnique(x, 1, x - Half(w), Half(w));
    } else {
      RemainderUnique(x, 0, x, Half(w));
    }
  }

  /** Setting the flag and clearing it again is clearing it. */
  lemma SetThenClear(w: Width, x: nat)
    requires x < Modulus(w)
    ensures SetMsb(w, x) < Modulus(w) && KeyBits(w, SetMsb(w, x)) == KeyBits(w, x)
  {
    WidthFacts(w);
  }

  /** Moving a key on by one round of the table keeps its index. */
  lemma BumpKeepsIndex(w: Width, capacity: nat, x: nat)
    requires 0 < capacity && x + capacity < Modulus(w)
    ensures WrappingAdd(w, x, capacity) == x + capacity
    ensures (x + capacity) % capacity == x % capacity
  {
    RemainderUnique(x + capacity, 0, x + capacity, Modulus(w));
    var q := x / capacity;
    assert x == q * capacity + x % capacity;
    assert (q + 1) * capacity == q * capacity + capacity;
    RemainderUnique(x + capacity, q + 1, x % capacity, capacity);
  }

  /** The folded key is at home in the slot reached by `i` probes, also where the sum wraps, and where
      it is zero or just the flag. */
  lemma FoldedIsAtHome(w: Width, capacity: nat, key: nat, offset: nat, i: nat)
    requires GoodCapacity(w, capacity)
    ensures var k := FoldedKey(w, capacity, key, offset, i);
            && k < Modulus(w) && k != EMPTY && KeyBits(w, k) != 0
            && IndexFor(capacity, KeyBits(w, k), 0) == IndexFor(capacity, key, offset + i)
  {
    CapacityFacts(w, capacity);
    var m := Modulus(w);
    var logical := WrappingAdd(w, WrappingAdd(w, key, offset), i);
    AddRemainder(key + offset, i, m);
    ModOfMultiple(key + offset + i, m, capacity);
    var x := if logical == 0 || logical == Msb(w) then WrappingAdd(w, logical, capacity) else logical;
    if logical == 0 || logical == Msb(w) { BumpKeepsIndex(w, capacity, logical); }
    SetThenClear(w, x);
    BitsKeepIndex(w, capacity, x);
  }

  // ---------------------------------------------------------------- the table is a map

  /** One probe decides: a live id's slot is its home index, and the word there shows it; so live ids
      are distinct. */
  lemma OneProbeIsEnough(w: Width, keys: seq<nat>, id: nat)
    requires AtHome(w, keys) && |keys| > 0 && id != 0
    ensures id in Contents(w, keys) <==> KeyBits(w, keys[IndexFor(|keys|, id, 0)]) == id
    ensures id in Contents(w, keys) ==> Contents(w, keys)[id] == IndexFor(|keys|, id, 0)
  {
    hide IndexFor;
    WidthFacts(w);
    var i := IndexFor(|keys|, id, 0);
    if KeyBits(w, keys[i]) == id {
      assert keys[i] != EMPTY;
    }
  }

  /** The entries of the map are the occupied slots. */
  lemma ContentsEntries(w: Width, keys: seq<nat>)
    requires AtHome(w, keys)
    ensures forall i :: 0 <= i < |keys| && keys[i] != EMPTY ==>
              KeyBits(w, keys[i]) in Contents(w, keys) && Contents(w, keys)[KeyBits(w, keys[i])] == i
    ensures forall id :: id in Contents(w, keys) ==>
              var i := Contents(w, keys)[id]; i < |keys| && keys[i] != EMPTY && KeyBits(w, keys[i]) == id
  {
  }

  /** Storing a key where none was adds one fresh id. */
  lemma InsertAdds(w: Width, keys: seq<nat>, i: nat, k: nat)
    requires AtHome(w, keys) && i < |keys| && keys[i] == EMPTY
    requires k < Modulus(w) && k != EMPTY && KeyBits(w, k) != 0 && IndexFor(|keys|, KeyBits(w, k), 0) == i
    ensures AtHome(w, keys[i := k])
    ensures KeyBits(w, k) !in Contents(w, keys)
    ensures Contents(w, keys[i := k]) == Contents(w, keys)[KeyBits(w, k) := i]
  {
    hide IndexFor, Contents, KeyBits, Modulus;
    var keys' := keys[i := k];
    ContentsEntries(w, keys);
    ContentsEntries(w, keys');
    var c, c' := Contents(w, keys), Contents(w, keys');
    forall id | id in c
      ensures id in c' && c'[id] == c[id] && c[id] != i
    {
      assert keys'[c[id]] == keys[c[id]];
    }
    assert keys'[i] == k;
    forall id | id in c'
      ensures id == KeyBits(w, k) || id in c
    {
      if c'[id] != i { assert keys[c'[id]] == keys'[c'[id]]; }
    }
  }

  /** Clearing a slot removes its id and nothing else. */
  lemma RemoveDrops(w: Width, keys: seq<nat>, i: nat)
    requires AtHome(w, keys) && i < |keys| && keys[i] != EMPTY
    ensures AtHome(w, keys[i := EMPTY])
    ensures Contents(w, keys[i := EMPTY]) == Contents(w, keys) - {KeyBits(w, keys[i])}
  {
    hide IndexFor, Contents, KeyBits, Modulus;
    var keys' := keys[i := EMPTY];
    ContentsEntries(w, keys);
    ContentsEntries(w, keys');
    var c, c' := Contents(w, keys), Contents(w, keys');
    forall id | id in c && id != KeyBits(w, keys[i])
      ensures id in c' && c'[id] == c[id]
    {
      assert keys'[c[id]] == keys[c[id]];
    }
    forall id | id in c'
      ensures id in c && id != KeyBits(w, keys[i])
    {
      assert keys[c'[id]] == keys'[c'[id]];
    }
  }

  /** Clearing the IN_PROGRESS bit changes no id. */
  lemma FinishKeeps(w: Width, keys: seq<nat>, i: nat)
    requires AtHome(w, keys) && i < |keys| && keys[i] != EMPTY
    ensures AtHome(w, keys[i := KeyBits(w, keys[i])])
    ensures Contents(w, keys[i := KeyBits(w, keys[i])]) == Contents(w, keys)
  {
    hide IndexFor, Contents;
    WidthFacts(w);
    var keys' := keys[i := KeyBits(w, keys[i])];
    ContentsEntries(w, keys);
    ContentsEntries(w, keys');
    var c, c' := Contents(w, keys), Contents(w, keys');
    forall id | id in c
      ensures id in c' && c'[id] == c[id]
    {
      assert keys'[c[id]] != EMPTY;
    }
    forall id | id in c'
      ensures id in c
    {
      assert keys[c'[id]] != EMPTY;
    }
  }

  // ---------------------------------------------------------------- any interleaving

  /** The atomic updates other threads can make to the table: each is one compare-and-swap or
      fetch-and on one slot. */
  datatype KeyStep =
    | ClaimSlot(key: nat, offset: nat, probes: nat)   // fold insertion, on the slot its probing reached
    | FinishSlot(index: nat)
    | ClearSlot(index: nat)

  function KeyNext(w: Width, keys: seq<nat>, s: KeyStep): seq<nat>
    requires |keys| > 0
  {
    match s
    case ClaimSlot(key, offset, probes) =>
      var i := IndexFor(|keys|, key, offset + probes);
      if keys[i] == EMPTY then keys[i := FoldedKey(w, |keys|, key, offset, probes)] else keys
    case FinishSlot(i) => if i < |keys| && IsInProgress(w, keys[i]) then keys[i := KeyBits(w, keys[i])] else keys
    case ClearSlot(i) => if i < |keys| then keys[i := EMPTY] else keys
  }

  function KeysAfter(w: Width, keys: seq<nat>, steps: seq<KeyStep>): (keys': seq<nat>)
    requires |keys| > 0
    ensures |keys'| == |keys|
  {
    if steps == [] then keys else KeyNext(w, KeysAfter(w, keys, steps[..|steps| - 1]), steps[|steps| - 1])
  }

  /** However inserts and removals of any number of threads interleave, every stored key stays at
      home. */
  lemma {:induction false} AlwaysAtHome(w: Width, keys: seq<nat>, steps: seq<KeyStep>)
    requires TableOK(w, keys)
    ensures |keys| > 0 && TableOK(w, KeysAfter(w, keys, steps))
  {
    CapacityFacts(w, |keys|);
    if steps != [] {
      AlwaysAtHome(w, keys, steps[..|steps| - 1]);
      KeyStepKeeps(w, KeysAfter(w, keys, steps[..|steps| - 1]), steps[|steps| - 1]);
    }
  }

  /** And every atomic update is an update of the map: a claim of an EMPTY slot adds one fresh id,
      clearing removes exactly the id that was there, anything else leaves the map as it is. */
  lemma KeyStepKeeps(w: Width, keys: seq<nat>, s: KeyStep)
    requires TableOK(w, keys) && |keys| > 0
    ensures TableOK(w, KeyNext(w, keys, s))
    ensures var c, c' := Contents(w, keys), Contents(w, KeyNext(w, keys, s));
            match s
            case ClaimSlot(key, offset, probes) =>
              var i := IndexFor(|keys|, key, offset + probes);
              var id := KeyBits(w, FoldedKey(w, |keys|, key, offset, probes));
              if keys[i] == EMPTY then id !in c && c' == c[id := i] else c' == c
            case FinishSlot(_) => c' == c
            case ClearSlot(i) => c' == if i < |keys| && keys[i] != EMPTY then c - {KeyBits(w, keys[i])} else c
  {
    hide Contents, AtHome, GoodCapacity, FoldedKey, KeyBits, Modulus, IndexFor;
    match s
    case ClaimSlot(key, offset, probes) =>
      var i := IndexFor(|keys|, key, offset + probes);
      FoldedIsAtHome(w, |keys|, key, offset, probes);
      if keys[i] == EMPTY { InsertAdds(w, keys, i, FoldedKey(w, |keys|, key, offset, probes)); }
    case FinishSlot(i) => if i < |keys| && keys[i] != EMPTY { FinishKeeps(w, keys, i); }
    case ClearSlot(i) =>
      if i < |keys| {
        if keys[i] != EMPTY { RemoveDrops(w, keys, i); } else { assert keys[i := EMPTY] == keys; }
      }
  }

  // ---------------------------------------------------------------- the code

  /** What `get_or_insert_concurrent` returns: a null pointer, or a slot. */
  datatype Probe = Missing | Slot(isNew: bool, delta: nat, key: nat, index: nat)

  /** The slot after `i` probes. */
  function ProbeAt(capacity: nat, key: nat, offset: nat, i: nat): (slot: nat)
    requires capacity > 0
    ensures slot < capacity
  {
    IndexFor(capacity, key, offset + i)
  }

  /** How many slots a call with argument `n` probes. */
  function Probes(capacity: nat, n: nat): nat { if n == MAX then capacity else n }

  lemma FoldedInProgress(w: Width, capacity: nat, key: nat, offset: nat, i: nat)
    ensures IsInProgress(w, FoldedKey(w, capacity, key, offset, i))
  {
    WidthFacts(w);
  }

  lemma NextProbe(capacity: nat, key: nat, offset: nat, i: nat)
    requires capacity > 0
    ensures IndexFor(capacity, key, offset + i + 1) == (IndexFor(capacity, key, offset + i) + 1) % capacity
  {
    AddRemainder(key + offset + i, 1, capacity);
  }

  /** Probing `capacity` times visits every slot. */
  lemma ProbesCover(capacity: nat, key: nat, offset: nat, j: nat) returns (i: nat)
    requires j < capacity
    ensures i < capacity && ProbeAt(capacity, key, offset, i) == j
  {
    var start := key + offset;
    i := (j - start) % capacity;
    var q := (j - start) / capacity;
    assert j - start == q * capacity + i;
    assert start + i == (-q) * capacity + j by { assert (-q) * capacity == -(q * capacity); }
    RemainderUnique(start + i, -q, j, capacity);
  }

  class SimpleLPHashMap {
    const w: Width
    const keys: array<nat>

    ghost predicate Valid()
      reads keys
    {
      TableOK(w, keys[..])
    }

    ghost function View(): map<nat, nat>
      requires Valid()
      reads keys
    {
      Contents(w, keys[..])
    }

    /** Empty, with a power-of-two capacity below 2^(W-1). */
    constructor (w: Width, ghost e: nat, capacity: nat)
      requires e <= w - 2 && capacity == Pow2(e)
      ensures Valid() && fresh(keys) && this.w == w && keys.Length == capacity && View() == map[]
    {
      this.w := w;
      this.keys := new nat[capacity](_ => EMPTY);
    }

    /** Fold insertion (`insert && fold`), or lookup (neither), with nobody interfering. Insertion takes
        the first EMPTY slot of its probe sequence and fails exactly when there is none; lookup finds a
        key exactly when it is live and its slot is among the probed ones. */
    method GetOrInsertConcurrent(key: nat, offset: nat, n: nat, insert: bool, fold: bool) returns (r: Probe)
      requires Valid() && 0 < key < Half(w) && insert == fold
      modifies keys
      ensures Valid()
      ensures r.Slot? ==> keys.Length > 0 && r.delta < Probes(keys.Length, n)
                          && r.index == ProbeAt(keys.Length, key, offset, r.delta)
      ensures !insert ==> keys[..] == old(keys[..])
      ensures !insert && r.Slot? ==> !r.isNew && key in View() && r.index == View()[key] && KeyBits(w, r.key) == key
      ensures !insert && r.Missing? && key in View() && keys.Length > 0 ==>
                forall i :: 0 <= i < Probes(keys.Length, n) ==> ProbeAt(keys.Length, key, offset, i) != View()[key]
      ensures insert && r.Slot? ==>
                && r.isNew && r.index < keys.Length && old(keys[..])[r.index] == EMPTY
                && (forall i :: 0 <= i < r.delta ==> old(keys[..])[ProbeAt(keys.Length, key, offset, i)] != EMPTY)
                && IsInProgress(w, r.key) && keys[..] == old(keys[..])[r.index := r.key]
                && KeyBits(w, r.key) !in old(View()) && View() == old(View())[KeyBits(w, r.key) := r.index]
      ensures insert && r.Missing? ==> keys[..] == old(keys[..])
      ensures insert && r.Missing? && keys.Length > 0 ==>
                forall i :: 0 <= i < Probes(keys.Length, n) ==> keys[ProbeAt(keys.Length, key, offset, i)] != EMPTY
      ensures insert && r.Missing? && (n == MAX || n == keys.Length) ==>
                forall j :: 0 <= j < keys.Length ==> keys[j] != EMPTY
    {
      ghost var before := keys[..];
      CapacityFacts(w, keys.Length);
      hide IndexFor, FoldedKey, Contents;
      var capacity := keys.Length;
      var idx := IndexFor(capacity, key, offset);
      var m := Probes(capacity, n);
      var i := 0;
      while i < m
        invariant 0 <= i <= m && keys[..] == before
        invariant idx == ProbeAt(capacity, key, offset, i)
        invariant insert ==> forall j :: 0 <= j < i ==> before[ProbeAt(capacity, key, offset, j)] != EMPTY
        invariant !insert ==> forall j :: 0 <= j < i ==> KeyBits(w, before[ProbeAt(capacity, key, offset, j)]) != key
      {
        var k := keys[idx];
        if insert && k == EMPTY {
          var newKey := FoldedKey(w, capacity, key, offset, i);
          FoldedIsAtHome(w, capacity, key, offset, i);
          FoldedInProgress(w, capacity, key, offset, i);
          InsertAdds(w, before, idx, newKey);
          keys[idx] := newKey;
          assert keys[..] == before[idx := newKey];
          return Slot(true, i, newKey, idx);
        }
        if !fold && KeyBits(w, k) == key {
          ContentsEntries(w, before);
          return Slot(false, i, k, idx);
        }
        NextProbe(capacity, key, offset, i);
        idx := (idx + 1) % capacity;
        i := i + 1;
      }
      if !insert {
        ContentsEntries(w, before);
      } else if m == capacity {
        forall j | 0 <= j < capacity
          ensures before[j] != EMPTY
        {
          var p := ProbesCover(capacity, key, offset, j);
        }
      }
      return Missing;
    }

    /** Clear the IN_PROGRESS bit of a slot the caller has claimed. */
    method FinishInitAt(index: nat)
      requires Valid() && index < keys.Length && keys[index] != EMPTY
      modifies keys
      ensures Valid() && View() == old(View())
      ensures keys[..] == old(keys[..])[index := KeyBits(w, old(keys[index]))]
    {
      ghost var before := keys[..];
      FinishKeeps(w, before, index);
      var k := keys[index];
      if IsInProgress(w, k) {
        keys[index] := ClearMsb(w, k);
      }
      assert keys[..] == before[index := KeyBits(w, k)];
    }

    /** Remove a key by its id, if its slot is among the probed ones. */
    method RemoveConcurrent(key: nat, offset: nat, n: nat) returns (removed: bool)
      requires Valid() && 0 < key < Half(w)
      modifies keys
      ensures Valid()
      ensures View() == if removed then old(View()) - {key} else old(View())
      ensures removed ==> key in old(View())
      ensures !removed && key in old(View()) && keys.Length > 0 ==>
                forall i :: 0 <= i < Probes(keys.Length, n) ==> ProbeAt(keys.Length, key, offset, i) != old(View())[key]
      ensures offset == 0 && n == IMMEDIATE ==> (removed <==> key in old(View()))
    {
      ghost var before := keys[..];
      CapacityFacts(w, keys.Length);
      ContentsEntries(w, before);
      OneProbeIsEnough(w, before, key);
      hide IndexFor, Contents;
      var capacity := keys.Length;
      var idx := IndexFor(capacity, key, offset);
      var m := Probes(capacity, n);
      var i := 0;
      while i < m
        invariant 0 <= i <= m && keys[..] == before
        invariant idx == ProbeAt(capacity, key, offset, i)
        invariant forall j :: 0 <= j < i ==> KeyBits(w, before[ProbeAt(capacity, key, offset, j)]) != key
      {
        var k := keys[idx];
        if KeyBits(w, k) == key {
          RemoveDrops(w, before, idx);
          keys[idx] := EMPTY;
          assert keys[..] == before[idx := EMPTY];
          return true;
        }
        NextProbe(capacity, key, offset, i);
        idx := (idx + 1) % capacity;
        i := i + 1;
      }
      assert offset == 0 && n == IMMEDIATE ==> ProbeAt(capacity, key, offset, 0) == IndexFor(capacity, key, 0);
      return false;
    }

    /** The table part of `register_reader_with_seed`: a fresh id for any seed, or none because every
        slot is taken. */
    method Register(seed: nat) returns (id: Option<nat>)
      requires Valid() && seed < Modulus(w)
      modifies keys
      ensures Valid()
      ensures id.Some? ==> id.value != 0 && id.value !in old(View()) && keys.Length > 0 &&
                           View() == old(View())[id.value := IndexFor(keys.Length, id.value, 0)]
      ensures id.None? ==> keys[..] == old(keys[..]) && forall j :: 0 <= j < keys.Length ==> keys[j] != EMPTY
    {
      var s := SeedKey(w, seed);
      CapacityFacts(w, keys.Length);
      hide AtHome, Contents, GoodCapacity, KeyBits, HasMsb, Half, Pow2, IndexFor;
      var r := GetOrInsertConcurrent(s, 0, keys.Length, true, true);
      if r.Missing? { return None; }
      id := Some(KeyBits(w, r.key));
      HomeOf(w, keys[..], r.index);
      FinishInitAt(r.index);
    }
  }

  /** A stored key's id is not zero and leads to its slot. */
  lemma HomeOf(w: Width, keys: seq<nat>, i: nat)
    requires AtHome(w, keys) && i < |keys| && keys[i] != EMPTY
    ensures KeyBits(w, keys[i]) != 0 && IndexFor(|keys|, KeyBits(w, keys[i]), 0) == i
  {
  }

  /** The key a seed is turned into: its lower bits, and 1 for 0. */
  function SeedKey(w: Width, seed: nat): (s: nat)
    requires seed < Modulus(w)
    ensures 0 < s < Half(w)
  {
    WidthFacts(w);
    assert Half(w) > 1 by { assert Pow2(w - 1) == 2 * Pow2(w - 2); }
    if ClearMsb(w, seed) == 0 then 1 else ClearMsb(w, seed)
  }
}

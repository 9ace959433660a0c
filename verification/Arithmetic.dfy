/** The wrapping generation arithmetic of `src/arithmetics.rs` over a symbolic word width, and what
    it means for unbounded generation numbers.

    A W-bit word holds a generation in its lower W-1 bits; the most significant bit (MSB) is a flag.
    `x & !MSB` is written `ClearMsb`, `wrapping_add`/`wrapping_sub` are taken modulo 2^W. */
module Arithmetic {

  /** Number of bits of the generation type: 64 by default, 32 with the `small-gen` feature. */
  type Width = b: nat | 2 <= b witness 64

  function Pow2(n: nat): (p: nat)
    ensures p > 0
  {
    if n == 0 then 1 else 2 * Pow2(n - 1)
  }

  function Modulus(w: Width): (m: nat) { Pow2(w) }

  /** The largest value of the word type. */
  function Max(w: Width): nat { Modulus(w) - 1 }

  /** The most significant bit, computed as the source does. */
  function Msb(w: Width): nat { Max(w) - Max(w) / 2 }

  /** Number of distinct generations before they wrap, 2^(W-1). */
  function Half(w: Width): (h: nat) { Pow2(w - 1) }

  /** Half of that, 2^(W-2): comparisons are meaningful closer than this. */
  function Quarter(w: Width): (q: nat) { Pow2(w - 2) }

  function WrappingSub(w: Width, a: nat, b: nat): nat { (a - b) % Modulus(w) }

  function WrappingAdd(w: Width, a: nat, b: nat): nat { (a + b) % Modulus(w) }

  /** `x & !MSB` on a word. */
  function ClearMsb(w: Width, x: nat): nat { if x >= Msb(w) then x - Msb(w) else x }

  /** `x | MSB` on a word. */
  function SetMsb(w: Width, x: nat): nat { if x >= Msb(w) then x else x + Msb(w) }

  /** `x & MSB != 0` on a word. */
  predicate HasMsb(w: Width, x: nat) { x >= Msb(w) }

  function GenDist(w: Width, a: nat, b: nat): nat { ClearMsb(w, WrappingSub(w, a, b)) }

  predicate GenGte(w: Width, a: nat, b: nat) { ClearMsb(w, WrappingSub(w, a, b)) <= Max(w) / 4 }

  function GenAdd(w: Width, a: nat, b: nat): nat { ClearMsb(w, WrappingAdd(w, a, b)) }

  predicate GenLte(w: Width, a: nat, b: nat) { GenGte(w, b, a) }

  predicate GenGt(w: Width, a: nat, b: nat) { a != b && GenGte(w, a, b) }

  predicate GenLt(w: Width, a: nat, b: nat) { GenGt(w, b, a) }

  /** The W-bit form of an unbounded generation. */
  function Mask(w: Width, g: nat): (m: nat)
  {
    g % Half(w)
  }

  lemma WidthFacts(w: Width)
    ensures Modulus(w) == 2 * Half(w) == 4 * Quarter(w)
    ensures Quarter(w) >= 1
    ensures Msb(w) == Half(w)
    ensures Max(w) / 4 == Quarter(w) - 1
  {
    assert Pow2(w) == 2 * Pow2(w - 1);
    assert Pow2(w - 1) == 2 * Pow2(w - 2);
  }

  lemma {:induction false} PowSum(m: nat, n: nat)
    ensures Pow2(m + n) == Pow2(m) * Pow2(n)
    decreases n
  {
    if n > 0 { PowSum(m, n - 1); }
  }

  /** The constants of the two word types: `u64`, and `u32` with `small-gen`. */
  lemma SourceWidths()
    ensures Modulus(64) == 0x1_0000_0000_0000_0000 && Max(64) == 0xFFFF_FFFF_FFFF_FFFF
    ensures Msb(64) == 0x8000_0000_0000_0000 && Half(64) == 0x8000_0000_0000_0000
    ensures Modulus(32) == 0x1_0000_0000 && Max(32) == 0xFFFF_FFFF && Msb(32) == 0x8000_0000 && Half(32) == 0x8000_0000
  {
    assert Pow2(4) == 16;
    hide Pow2;
    PowSum(4, 4);
    PowSum(8, 8);
    PowSum(16, 16);
    PowSum(32, 32);
    WidthFacts(32);
    WidthFacts(64);
  }

  lemma MultipleAtLeast(k: int, m: nat)
    requires k >= 1
    ensures k * m >= m
  {
    assert k * m == m + (k - 1) * m;
  }

  /** A remainder is determined by any decomposition. */
  lemma RemainderUnique(x: int, q: int, r: int, m: nat)
    requires m > 0 && 0 <= r < m && x == q * m + r
    ensures x % m == r
  {
    var k, r' := x / m - q, x % m;
    assert x == (x / m) * m + r';
    assert k * m == r - r' && (-k) * m == r' - r;
    if k >= 1 {
      MultipleAtLeast(k, m);
    } else if k <= -1 {
      MultipleAtLeast(-k, m);
    }
  }

  /** Reducing both operands first does not change a difference modulo m. */
  lemma SubtractRemainders(a: int, b: int, m: nat)
    requires m > 0
    ensures (a % m - b % m) % m == (a - b) % m
  {
    var d := a % m - b % m;
    var q := a / m - b / m + d / m;
    assert a - b == q * m + d % m by {
      assert a == (a / m) * m + a % m;
      assert b == (b / m) * m + b % m;
      assert d == (d / m) * m + d % m;
    }
    RemainderUnique(a - b, q, d % m, m);
  }

  lemma AddRemainder(a: int, n: int, m: nat)
    requires m > 0
    ensures (a % m + n) % m == (a + n) % m
  {
    var d := a % m + n;
    var q := a / m + d / m;
    assert a + n == q * m + d % m by {
      assert a == (a / m) * m + a % m;
      assert d == (d / m) * m + d % m;
    }
    RemainderUnique(a + n, q, d % m, m);
  }

  lemma ModOfMultiple(x: int, m: nat, d: nat)
    requires d > 0 && m > 0 && m % d == 0
    ensures (x % m) % d == x % d
  {
    var q := (x / m) * (m / d) + (x % m) / d;
    assert x == q * d + (x % m) % d by {
      assert x == (x / m) * m + x % m;
      assert m == (m / d) * d;
      assert (x / m) * ((m / d) * d) == ((x / m) * (m / d)) * d;
      assert x % m == ((x % m) / d) * d + (x % m) % d;
    }
    RemainderUnique(x, q, (x % m) % d, d);
  }

  /** The masked distance is the difference of the generations modulo 2^(W-1), whatever they are. */
  lemma DistIsDifference(w: Width, a: nat, b: nat)
    ensures GenDist(w, Mask(w, a), Mask(w, b)) == (a - b) % Half(w)
  {
    WidthFacts(w);
    var h := Half(w);
    var x, y := Mask(w, a), Mask(w, b);
    SubtractRemainders(a, b, h);
    if x >= y {
      RemainderUnique(x - y, 0, x - y, Modulus(w));
      RemainderUnique(x - y, 0, x - y, h);
    } else {
      RemainderUnique(x - y, -1, x - y + Modulus(w), Modulus(w));
      RemainderUnique(x - y, -1, x - y + h, h);
    }
  }

  /** The distance is exact as long as `a` is ahead of `b` by less than a full turn. */
  lemma DistExact(w: Width, a: nat, b: nat)
    requires b <= a < b + Half(w)
    ensures GenDist(w, Mask(w, a), Mask(w, b)) == a - b
  {
    DistIsDifference(w, a, b);
    RemainderUnique(a - b, 0, a - b, Half(w));
  }

  /** Masked addition never loses the generation: it is addition followed by masking. */
  lemma AddExact(w: Width, a: nat, n: nat)
    ensures GenAdd(w, Mask(w, a), n) == Mask(w, a + n)
  {
    WidthFacts(w);
    var h := Half(w);
    var x := Mask(w, a) + n;
    AddRemainder(a, n, h);
    var y := x % Modulus(w);
    assert Modulus(w) % h == 0 by { RemainderUnique(Modulus(w), 2, 0, h); }
    ModOfMultiple(x, Modulus(w), h);
    if y >= h {
      RemainderUnique(y, 1, y - h, h);
    } else {
      RemainderUnique(y, 0, y, h);
    }
  }

  /** Within less than a full turn, the comparison tells the truth exactly when the generations are
      within a quarter of the word range: at most 2^(W-2) behind, less than 2^(W-2) ahead. */
  lemma GteTruthfulIff(w: Width, a: nat, b: nat)
    requires -(Half(w) as int) < a - b < Half(w)
    ensures (GenGte(w, Mask(w, a), Mask(w, b)) <==> a >= b) <==> -(Quarter(w) as int) <= a - b < Quarter(w)
  {
    WidthFacts(w);
    DistIsDifference(w, a, b);
    var h := Half(w);
    if a >= b {
      RemainderUnique(a - b, 0, a - b, h);
    } else {
      RemainderUnique(a - b, -1, a - b + h, h);
    }
  }

  /** Masking separates generations less than a full turn apart, so a compare-and-swap on masked
      words succeeds exactly when the one on unbounded generations does. */
  lemma MaskInjective(w: Width, a: nat, b: nat)
    requires -(Half(w) as int) < a - b < Half(w)
    ensures Mask(w, a) == Mask(w, b) <==> a == b
  {
    if Mask(w, a) == Mask(w, b) {
      var h := Half(w);
      SubtractRemainders(a, b, h);
      assert (a - b) % h == 0;
      if a > b {
        RemainderUnique(a - b, 0, a - b, h);
      } else if a < b {
        RemainderUnique(a - b, -1, a - b + h, h);
      }
    }
  }

  /** A window narrower than a quarter of the word range: every comparison is exact in it. */
  lemma CompareExact(w: Width, a: nat, b: nat)
    requires -(Quarter(w) as int) < a - b < Quarter(w)
    ensures GenGte(w, Mask(w, a), Mask(w, b)) <==> a >= b
    ensures GenGt(w, Mask(w, a), Mask(w, b)) <==> a > b
    ensures GenLte(w, Mask(w, a), Mask(w, b)) <==> a <= b
    ensures GenLt(w, Mask(w, a), Mask(w, b)) <==> a < b
    ensures Mask(w, a) == Mask(w, b) <==> a == b
  {
    WidthFacts(w);
    GteTruthfulIff(w, a, b);
    GteTruthfulIff(w, b, a);
    MaskInjective(w, a, b);
  }

  // ---------------------------------------------------------------- reader words

  /** A reader word: the masked generation with the suspended flag in the MSB. */
  function EncodeWord(w: Width, g: nat, suspended: bool): nat
  {
    if suspended then SetMsb(w, Mask(w, g)) else Mask(w, g)
  }

  /** Stripping the flag, testing it and setting it act on an encoded word as on the pair it stands
      for, and two encoded words are equal exactly when the pairs are. */
  lemma EncodeFaithful(w: Width, g: nat, s: bool)
    ensures ClearMsb(w, EncodeWord(w, g, s)) == Mask(w, g)
    ensures HasMsb(w, EncodeWord(w, g, s)) <==> s
    ensures SetMsb(w, EncodeWord(w, g, s)) == EncodeWord(w, g, true)
    ensures forall g': nat, s' {:trigger EncodeWord(w, g', s')} :: -(Half(w) as int) < g - g' < Half(w) ==>
              (EncodeWord(w, g, s) == EncodeWord(w, g', s') <==> g == g' && s == s')
  {
    WidthFacts(w);
    forall g': nat, s' | -(Half(w) as int) < g - g' < Half(w)
      ensures EncodeWord(w, g, s) == EncodeWord(w, g', s') <==> g == g' && s == s'
    {
      MaskInjective(w, g, g');
    }
  }

  // ---------------------------------------------------------------- ring indices

  /** Ring index of a generation as the code computes it: from the masked number. */
  function RingIndex(w: Width, capacity: nat, g: nat): nat
    requires capacity > 0
  {
    Mask(w, g) % capacity
  }

  /** The generations of every window of `capacity` consecutive generations have slots of their own. */
  ghost predicate OneSlotEach(w: Width, capacity: nat)
    requires capacity > 0
  {
    forall g: nat, h: nat {:trigger RingIndex(w, capacity, g), RingIndex(w, capacity, h)} ::
      g < h < g + capacity ==> RingIndex(w, capacity, g) != RingIndex(w, capacity, h)
  }

  lemma IndexSeparates(capacity: nat, g: nat, h: nat)
    requires capacity > 0 && g < h < g + capacity
    ensures g % capacity != h % capacity
  {
    if g % capacity == h % capacity {
      SubtractRemainders(h, g, capacity);
      RemainderUnique(h - g, 0, h - g, capacity);
    }
  }

  /** Ring indices of the generations below `top` survive masking: the capacity divides 2^(W-1), or
      nothing has wrapped yet. */
  predicate IndicesKept(w: Width, capacity: nat, top: nat)
    requires capacity > 0
  {
    Half(w) % capacity == 0 || top <= Half(w)
  }

  lemma IndexOfMasked(w: Width, capacity: nat, top: nat, g: nat)
    requires capacity > 0 && IndicesKept(w, capacity, top) && g < top
    ensures RingIndex(w, capacity, g) == g % capacity
  {
    if g < Half(w) {
      RemainderUnique(g, 0, g, Half(w));
    } else {
      ModOfMultiple(g, Half(w), capacity);
    }
  }

  /** Across a wrap, one slot per generation holds on all windows of length `capacity` exactly when
      the capacity divides 2^(W-1). */
  lemma OneSlotEachIff(w: Width, capacity: nat)
    requires 0 < capacity <= Half(w)
    ensures OneSlotEach(w, capacity) <==> Half(w) % capacity == 0
  {
    var half := Half(w);
    if half % capacity == 0 {
      forall g: nat, h: nat | g < h < g + capacity
        ensures RingIndex(w, capacity, g) != RingIndex(w, capacity, h)
      {
        IndexSeparates(capacity, g, h);
        IndexOfMasked(w, capacity, g + 1, g);
        IndexOfMasked(w, capacity, h + 1, h);
      }
    } else {
      var r := half % capacity;
      var g := half - r;
      RemainderUnique(g, 0, g, half);
      RemainderUnique(g, half / capacity, 0, capacity);
      RemainderUnique(half, 1, 0, half);
      RemainderUnique(0, 0, 0, capacity);
      assert RingIndex(w, capacity, g) == RingIndex(w, capacity, half);
    }
  }
}

/** Counting leading and trailing zero bits by halving: clzsi2.c, ctzsi2.c and
    clzdi2.c. */
module CountZeros {
  import opened Arithmetic
  import opened Bits

  /** The negation of a truth value: a word of zeros or of ones. */
  function Mask(b: bool): nat { Wrap(32, 0 - BoolToInt(b)) }

  // ---- leading zeros ----

  lemma BitLenShifted(x: nat, h: nat)
    requires x >= Pow2(h)
    ensures BitLen(x / Pow2(h)) == BitLen(x) - h && x / Pow2(h) > 0
  {
    hide Pow2, BitLen;
    var b := BitLen(x);
    if b <= h {
      Pow2Monotone(b, h);
    }
    Pow2Add(b - h, h);
    Pow2Add(b - 1 - h, h);
    QuotientBetween(x, Pow2(h), Pow2(b - 1 - h), Pow2(b - h));
    BitLenUnique(x / Pow2(h), b - h);
  }

  /** The high half of x is zero, or the low half no longer matters. */
  lemma HighHalfZero(x: nat, h: nat)
    requires x < Pow2(2 * h)
    ensures Pow2(h) <= Pow2(2 * h)
    ensures And(x, Pow2(2 * h) - Pow2(h)) == 0 <==> x < Pow2(h)
  {
    hide And;
    AndHighMask(2 * h, x, h);
    DivModIdentity(x, Pow2(h));
    if x < Pow2(h) {
      DivModUnique(x, Pow2(h), 0, x);
    }
  }

  /** One narrowing step: t = ((x & mask) == 0) << log h; x >>= h - t. */
  method NarrowHigh(x: nat, h: nat, mask: nat) returns (t: nat, narrowed: nat)
    requires x < Pow2(2 * h) && mask == Pow2(2 * h) - Pow2(h)
    ensures narrowed < Pow2(h) && t <= h
    ensures h - t == BitLen(x) - BitLen(narrowed)
  {
    hide And, Pow2, BitLen;
    HighHalfZero(x, h);
    t := BoolToInt(And(x, mask) == 0) * h;
    if x < Pow2(h) {
      DivideByOne(x);
    } else {
      BitLenShifted(x, h);
      ShrBound(x, 2 * h, h);
    }
    narrowed := Shr(x, h - t);
  }

  lemma DivideByOne(x: nat)
    ensures Pow2(0) == 1 && x / Pow2(0) == x
  {}

  lemma HighMasks()
    ensures Pow2(32) - Pow2(16) == 0xFFFF_0000 && Pow2(16) - Pow2(8) == 0xFF00
    ensures Pow2(8) - Pow2(4) == 0xF0 && Pow2(4) - Pow2(2) == 0xC
  {
    Pow2Values();
    assert Pow2(2) == 4;
  }

  /** (2 - x) & -((x & 2) == 0) for x below 4. */
  lemma LastTwoBits(x: nat)
    requires x < 4
    ensures And(Wrap(32, 2 - x), Mask(And(x, 2) == 0)) == 2 - BitLen(x)
  {
    hide And, Pow2, Mask, Wrap, BitLen;
    LowBitLengths();
    PowersBelowFive();
    AndBit(x, 1);
    TopBit(x, 1);
    SelectByMask(2 - x, And(x, 2) == 0);
    if x < 2 {
      SmallFits(2 - x);
    }
  }

  lemma SmallFits(x: nat)
    requires x <= 2
    ensures Wrap(32, x) == x
  {
    Pow2Values();
    hide Pow2;
    DivModUnique(x, Pow2(32), 0, x);
  }

  lemma LowBitLengths()
    ensures BitLen(0) == 0 && BitLen(1) == 1 && BitLen(2) == 2 && BitLen(3) == 2
  {}

  /** And-ing with the negation of a truth value keeps all or nothing. */
  lemma SelectByMask(x: int, b: bool)
    ensures And(Wrap(32, x), Mask(b)) == if b then Wrap(32, x) else 0
  {
    hide And, Pow2;
    if b {
      DivModUnique(-1, Pow2(32), -1, Pow2(32) - 1);
      AndMask(Wrap(32, x), 32);
      DivModUnique(Wrap(32, x), Pow2(32), 0, Wrap(32, x));
    } else {
      DivModUnique(0, Pow2(32), 0, 0);
      AndMask(Wrap(32, x), 0);
      DivideByOne(Wrap(32, x));
      DivModUnique(Wrap(32, x), 1, Wrap(32, x), 0);
    }
  }

  /** __clzsi2. Zero, which the source excludes, would give 32. */
  method Clzsi2(a: nat) returns (result: nat)
    requires a < Pow2(32)
    ensures result == 32 - BitLen(a)
    ensures a > 0 ==> result == Clz(32, a)
  {
    hide And, Pow2, BitLen;
    HighMasks();
    BitLenBound(a, 32);
    var t: nat, x: nat := NarrowHigh(a, 16, 0xFFFF_0000);
    var r := t;
    t, x := NarrowHigh(x, 8, 0xFF00);
    r := r + t;
    t, x := NarrowHigh(x, 4, 0xF0);
    r := r + t;
    t, x := NarrowHigh(x, 2, 0xC);
    r := r + t;
    assert x < 4 by { PowersBelowFive(); }
    LastTwoBits(x);
    result := r + And(Wrap(32, 2 - x), Mask(And(x, 2) == 0));
  }

  // ---- trailing zeros ----

  /** Zero bits below, shifted out, are counted. */
  lemma {:induction false} TrailingShifted(x: nat, t: nat)
    requires x > 0 && x % Pow2(t) == 0
    ensures x / Pow2(t) > 0
    ensures TrailingZeros(x) == t + TrailingZeros(x / Pow2(t))
  {
    if t == 0 {
      DivideByOne(x);
    } else {
      HalveFirst(x, Pow2(t - 1));
      assert x % 2 == 0;
      TrailingShifted(x / 2, t - 1);
    }
  }

  /** One step: t = ((x & mask) == 0) << log h; x >>= t. Bits above the low
      half stay behind as garbage. */
  method NarrowLow(x: nat, h: nat, mask: nat) returns (t: nat, narrowed: nat)
    requires x % Pow2(2 * h) != 0 && mask == Pow2(h) - 1
    ensures narrowed % Pow2(h) != 0 && x > 0 && narrowed > 0
    ensures t + TrailingZeros(narrowed) == TrailingZeros(x)
  {
    hide And, Pow2, TrailingZeros;
    AndMask(x, h);
    ZeroHasNoBits(x, 2 * h);
    t := BoolToInt(And(x, mask) == 0) * h;
    Pow2Add(h, h);
    DivideTwice(x, Pow2(h), Pow2(h));
    if x % Pow2(h) == 0 {
      TrailingShifted(x, h);
    } else {
      DivideByOne(x);
    }
    narrowed := Shr(x, t);
  }

  lemma ZeroHasNoBits(x: nat, k: nat)
    requires x % Pow2(k) != 0
    ensures x > 0
  {
    DivModUnique(0, Pow2(k), 0, 0);
  }

  lemma OddTrailing(x: nat)
    requires x % 2 == 1
    ensures TrailingZeros(x) == 0
  {}

  lemma EvenTrailing(x: nat)
    requires x > 0 && x % 2 == 0
    ensures TrailingZeros(x) == 1 + TrailingZeros(x / 2)
  {}

  lemma SmallTrailing(x: nat)
    requires x % 4 != 0
    ensures x > 0 && TrailingZeros(x) == if x % 4 == 2 then 1 else 0
  {
    hide TrailingZeros;
    if x % 4 == 2 {
      EvenTrailing(x);
      OddTrailing(x / 2);
    } else {
      OddTrailing(x);
    }
  }

  /** (2 - (x >> 1)) & -((x & 1) == 0), what is left for the two low bits. */
  function LowestOfTwo(x: nat): nat {
    And(Wrap(32, 2 - Shr(x, 1)), Mask(And(x, 1) == 0))
  }

  lemma LowestOfTwoCounts(x: nat)
    requires x % 4 != 0
    ensures x > 0 && LowestOfTwo(x % 4) == TrailingZeros(x)
  {
    hide And, Pow2, TrailingZeros, Mask, Shr, Wrap;
    SmallTrailing(x);
    var y: nat := x % 4;
    PowersBelowFive();
    AndMask(y, 1);
    ShrDivides(y, 1);
    SelectByMask(2 - y / 2, And(y, 1) == 0);
    SmallFits(1);
  }

  lemma LowMasks()
    ensures Pow2(16) - 1 == 0xFFFF && Pow2(8) - 1 == 0xFF && Pow2(4) - 1 == 0xF && Pow2(2) - 1 == 0x3
  {
    Pow2Values();
    PowersBelowFive();
  }

  /** __ctzsi2. */
  method Ctzsi2(a: nat) returns (result: nat)
    requires 0 < a < Pow2(32)
    ensures result == TrailingZeros(a)
  {
    hide And, Pow2, TrailingZeros, LowestOfTwo;
    LowMasks();
    DivModUnique(a, Pow2(32), 0, a);
    var t: nat, x: nat := NarrowLow(a, 16, 0xFFFF);
    var r := t;
    t, x := NarrowLow(x, 8, 0xFF);
    r := r + t;
    t, x := NarrowLow(x, 4, 0xF);
    r := r + t;
    t, x := NarrowLow(x, 2, 0x3);
    AndMask(x, 2);
    LowestOfTwoCounts(x);
    x := And(x, 3);
    r := r + t;
    result := r + LowestOfTwo(x);
  }

  // ---- two words ----

  lemma PairBitLen(high: nat, low: nat)
    requires low < Pow2(32)
    ensures BitLen(Join(32, high, low)) == if high == 0 then BitLen(low) else 32 + BitLen(high)
  {
    hide Pow2, BitLen;
    if high > 0 {
      var x := Join(32, high, low);
      DivModUnique(x, Pow2(32), high, low);
      MulMonotone(1, high, Pow2(32));
      BitLenShifted(x, 32);
    }
  }

  lemma SelectWord(x: nat, b: bool)
    requires x < Pow2(32)
    ensures And(x, Mask(b)) == if b then x else 0
  {
    hide And, Pow2;
    DivModUnique(x, Pow2(32), 0, x);
    SelectByMask(x, b);
  }

  lemma NegatedMask(b: bool)
    ensures Not(32, Mask(b)) == Mask(!b)
  {
    hide Pow2;
    DivModUnique(-1, Pow2(32), -1, Pow2(32) - 1);
    DivModUnique(0, Pow2(32), 0, 0);
  }

  lemma OrZeroWord(x: nat)
    ensures Or(x, 0) == x && Or(0, x) == x
  {}

  /** The word __clzdi2 counts in: the high one unless it is zero. */
  lemma CountedWord(high: nat, low: nat)
    requires high < Pow2(32) && low < Pow2(32)
    ensures var f := Mask(high == 0);
      && Or(And(high, Not(32, f)), And(low, f)) == (if high == 0 then low else high)
      && And(f, 32) == (if high == 0 then 32 else 0)
  {
    hide And, Or, Pow2, Wrap, Not;
    Pow2Values();
    NegatedMask(high == 0);
    SelectWord(high, high != 0);
    SelectWord(low, high == 0);
    OrZeroWord(if high == 0 then low else high);
    SelectWord(32, high == 0);
    AndCommutes(32, Mask(high == 0));
  }

  /** __clzdi2 on the two words of its argument. */
  function Clzdi2(high: nat, low: nat): (n: nat)
    requires high < Pow2(32) && low < Pow2(32) && (high != 0 || low != 0)
    ensures Join(32, high, low) < Pow2(64) && n == 64 - BitLen(Join(32, high, low))
  {
    var f := Mask(high == 0);
    CountedWord(high, low);
    PairBitLen(high, low);
    JoinBound(32, high, low);
    Clz(32, Or(And(high, Not(32, f)), And(low, f))) + And(f, 32)
  }
}

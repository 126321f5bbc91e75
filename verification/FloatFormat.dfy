/** The IEEE 754 binary interchange formats as bit patterns: the constants of
    fp_lib.h and what a pattern stands for. */
module FloatFormat {
  import opened Arithmetic
  import opened Bits
  import opened Rounding

  datatype Format = Format(width: nat, significandBits: nat) {

    ghost predicate Valid() { 3 <= significandBits && significandBits + 4 <= width <= significandBits + 32 }

    function ExponentBits(): nat requires Valid() { width - significandBits - 1 }
    function MaxExponent(): nat requires Valid() { Pow2(ExponentBits()) - 1 }
    function ExponentBias(): nat requires Valid() { Pow2(ExponentBits() - 1) - 1 }
    function ImplicitBit(): nat { Pow2(significandBits) }
    function SignificandMask(): nat { Pow2(significandBits) - 1 }
    function SignBit(): nat requires Valid() { Pow2(width - 1) }
    function AbsMask(): nat requires Valid() { Pow2(width - 1) - 1 }
    function InfRep(): nat requires Valid() { MaxExponent() * ImplicitBit() }
    function QuietBit(): nat requires Valid() { Pow2(significandBits - 1) }
    function QnanRep(): nat requires Valid() { InfRep() + QuietBit() }
  }

  const SINGLE := Format(32, 23)
  const DOUBLE := Format(64, 52)

  // ---- what a pattern stands for ----

  function Negative(f: Format, rep: nat): bool
    requires f.Valid()
  {
    rep >= f.SignBit()
  }

  /** The pattern without its sign. */
  function AbsRep(f: Format, rep: nat): nat
    requires f.Valid()
  {
    rep % f.SignBit()
  }

  predicate IsNaN(f: Format, rep: nat)
    requires f.Valid()
  {
    AbsRep(f, rep) > f.InfRep()
  }

  predicate IsInfinite(f: Format, rep: nat)
    requires f.Valid()
  {
    AbsRep(f, rep) == f.InfRep()
  }

  predicate IsFinite(f: Format, rep: nat)
    requires f.Valid()
  {
    AbsRep(f, rep) < f.InfRep()
  }

  /** The value of an unsigned pattern: a fraction of the least binade for a
      zero exponent field, else a significand with its leading one implied. */
  function Magnitude(f: Format, abs: nat): (x: real)
    requires f.Valid()
  {
    var field, fraction := abs / f.ImplicitBit(), abs % f.ImplicitBit();
    if field == 0
    then ScaleB(fraction as real, 1 - f.ExponentBias() - f.significandBits)
    else ScaleB((f.ImplicitBit() + fraction) as real, field - f.ExponentBias() - f.significandBits)
  }

  function Value(f: Format, rep: nat): real
    requires f.Valid() && IsFinite(f, rep)
  {
    if Negative(f, rep) then -Magnitude(f, AbsRep(f, rep)) else Magnitude(f, AbsRep(f, rep))
  }

  // ---- facts about the constants ----

  lemma ConstantsAgree(f: Format)
    requires f.Valid()
    ensures f.ExponentBias() == f.MaxExponent() / 2
    ensures f.MaxExponent() == 2 * f.ExponentBias() + 1 >= 7
    ensures f.SignBit() == (f.MaxExponent() + 1) * f.ImplicitBit()
    ensures f.InfRep() == f.SignBit() - f.ImplicitBit()
    ensures f.InfRep() + f.QuietBit() < f.SignBit()
    ensures 2 * f.SignBit() == Pow2(f.width)
    ensures 2 * f.QuietBit() == f.ImplicitBit() == f.SignificandMask() + 1
    ensures f.AbsMask() + 1 == f.SignBit() && f.QnanRep() == f.InfRep() + f.ImplicitBit() / 2
  {
    Pow2Add(f.ExponentBits(), f.significandBits);
    Pow2Monotone(3, f.ExponentBits());
    assert Pow2(3) == 8;
    MulDistribute(f.MaxExponent(), 1, f.ImplicitBit());
  }

  lemma TopExponent(f: Format)
    requires f.Valid()
    ensures f.MaxExponent() == 2 * f.ExponentBias() + 1
  {}

  lemma InfinityNotZero(f: Format)
    requires f.Valid()
    ensures f.InfRep() > 0
  {
    ConstantsAgree(f);
    MulMonotone(1, f.MaxExponent(), f.ImplicitBit());
  }

  /** A pattern is its magnitude and its sign. */
  lemma SplitSign(f: Format, rep: nat)
    requires f.Valid() && rep < Pow2(f.width)
    ensures rep == AbsRep(f, rep) + (if Negative(f, rep) then f.SignBit() else 0)
    ensures AbsRep(f, rep) < f.SignBit()
  {
    ConstantsAgree(f);
    DivModUnique(rep, f.SignBit(), if Negative(f, rep) then 1 else 0, rep - (if Negative(f, rep) then f.SignBit() else 0));
  }

  lemma SingleFields()
    ensures SINGLE.Valid() && SINGLE.ImplicitBit() == 0x80_0000 == Pow2(23) && SINGLE.SignBit() == 0x8000_0000
    ensures SINGLE.ExponentBias() == 127 && SINGLE.MaxExponent() == 255
    ensures Pow2(24) == 0x100_0000 && Pow2(32) == 0x1_0000_0000
  {
    Pow2Values();
    Pow2Add(16, 7);
    Pow2Add(16, 8);
    assert Pow2(7) == 0x80;
  }

  lemma DoubleFields()
    ensures DOUBLE.Valid() && DOUBLE.ImplicitBit() == 0x10_0000_0000_0000 == Pow2(52)
    ensures DOUBLE.SignBit() == 0x8000_0000_0000_0000 && Pow2(20) == 0x10_0000 && Pow2(53) == 0x20_0000_0000_0000
    ensures DOUBLE.ExponentBias() == 1023 && DOUBLE.MaxExponent() == 2047
    ensures Pow2(11) == 0x800 && Pow2(21) == 0x20_0000
    ensures Pow2(32) == 0x1_0000_0000 && Pow2(64) == 0x1_0000_0000_0000_0000
  {
    Pow2Values();
    PowersBelowFive();
    Pow2Add(8, 2);
    Pow2Add(8, 3);
    Pow2Add(16, 4);
    Pow2Add(16, 5);
    Pow2Add(32, 20);
    Pow2Add(32, 21);
  }

  /** The constants of the two formats as numbers: one sign bit, then 8 or 11 bits of
      exponent, then 23 or 52 of fraction, of which the top one makes a NaN quiet. */
  lemma FormatWords()
    ensures SINGLE.Valid() && SINGLE.width == 32 && SINGLE.significandBits == 23
    ensures SINGLE.ExponentBits() == 8 && SINGLE.MaxExponent() == 0xff && SINGLE.ExponentBias() == 0x7f
    ensures SINGLE.ImplicitBit() == 0x0080_0000 && SINGLE.SignificandMask() == 0x007f_ffff
    ensures SINGLE.SignBit() == 0x8000_0000 && SINGLE.AbsMask() == 0x7fff_ffff
    ensures SINGLE.InfRep() == 0x7f80_0000 && SINGLE.QuietBit() == 0x0040_0000 && SINGLE.QnanRep() == 0x7fc0_0000
    ensures DOUBLE.Valid() && DOUBLE.width == 64 && DOUBLE.significandBits == 52
    ensures DOUBLE.ExponentBits() == 11 && DOUBLE.MaxExponent() == 0x7ff && DOUBLE.ExponentBias() == 0x3ff
    ensures DOUBLE.ImplicitBit() == 0x0010_0000_0000_0000 && DOUBLE.SignificandMask() == 0x000f_ffff_ffff_ffff
    ensures DOUBLE.SignBit() == 0x8000_0000_0000_0000 && DOUBLE.AbsMask() == 0x7fff_ffff_ffff_ffff
    ensures DOUBLE.InfRep() == 0x7ff0_0000_0000_0000
    ensures DOUBLE.QuietBit() == 0x0008_0000_0000_0000 && DOUBLE.QnanRep() == 0x7ff8_0000_0000_0000
  {
    SingleFields();
    DoubleFields();
    hide Pow2;
    ConstantsAgree(SINGLE);
    ConstantsAgree(DOUBLE);
  }

  /** infRep is written absMask ^ significandMask in the header. */
  lemma InfRepIsExponentMask(f: Format)
    requires f.Valid()
    ensures Xor(f.AbsMask(), f.SignificandMask()) == f.InfRep()
  {
    hide Xor, Pow2;
    ConstantsAgree(f);
    XorLowBits(f.ExponentBits(), f.significandBits, f.AbsMask(), f.SignificandMask());
  }

  lemma XorZero(x: nat)
    ensures Xor(x, 0) == x
  {}

  lemma {:induction false} XorLowBits(e: nat, s: nat, high: nat, low: nat)
    requires high == Pow2(e + s) - 1 && low == Pow2(s) - 1
    ensures Xor(high, low) == high - low
  {
    if s == 0 {
      XorZero(high);
    } else {
      hide Xor, Pow2;
      MaskHalf(e + s);
      MaskHalf(s);
      XorOdd(high, low / 2, low);
      XorLowBits(e, s - 1, high / 2, low / 2);
    }
  }

  // ---- units of the least subnormal ----

  /** Exponent field e and fraction in units of the least subnormal. */
  function UnitsOf(implicitBit: nat, e: nat, fraction: nat): nat {
    if e == 0 then fraction
    else
      MulMonotone(0, implicitBit + fraction, Pow2(e - 1));
      (implicitBit + fraction) * Pow2(e - 1)
  }

  /** A magnitude as a whole number of least subnormals. */
  function Units(f: Format, abs: nat): nat
    requires f.Valid()
  {
    DivModIdentity(abs, f.ImplicitBit());
    UnitsOf(f.ImplicitBit(), abs / f.ImplicitBit(), abs % f.ImplicitBit())
  }

  /** The exponent of the least subnormal. */
  function LeastExponent(f: Format): int
    requires f.Valid()
  {
    1 - f.ExponentBias() - f.significandBits
  }

  lemma MagnitudeInUnits(f: Format, abs: nat)
    requires f.Valid()
    ensures Magnitude(f, abs) == ScaleB(Units(f, abs) as real, LeastExponent(f))
  {
    hide Pow2R, Pow2, ScaleB;
    var field := abs / f.ImplicitBit();
    if field != 0 {
      DivModIdentity(abs, f.ImplicitBit());
      OnGrid(f.ImplicitBit() + abs % f.ImplicitBit(), field - f.ExponentBias() - f.significandBits, LeastExponent(f));
    }
  }

  lemma DigitsOrder(a: nat, b: nat, i: nat)
    requires 0 < i && a < b
    ensures a / i < b / i || (a / i == b / i && a % i < b % i)
  {
    DivModIdentity(a, i);
    DivModIdentity(b, i);
    if a / i > b / i {
      MulMonotone(b / i + 1, a / i, i);
      MulDistribute(b / i, 1, i);
    }
  }

  lemma FractionGrows(i: nat, e: nat, x: nat, y: nat)
    requires x < y
    ensures UnitsOf(i, e, x) < UnitsOf(i, e, y)
  {
    if e > 0 {
      MulMonotone(i + x + 1, i + y, Pow2(e - 1));
      MulDistribute(i + x, 1, Pow2(e - 1));
    }
  }

  lemma BinadeGrows(i: nat, d: nat, e: nat, x: nat, y: nat)
    requires d < e && x < i
    ensures UnitsOf(i, d, x) < UnitsOf(i, e, y)
  {
    MulMonotone(i, i + y, Pow2(e - 1));
    if d == 0 {
      MulMonotone(1, Pow2(e - 1), i);
    } else {
      Pow2Monotone(d, e - 1);
      assert Pow2(d) == 2 * Pow2(d - 1);
      hide Pow2;
      MulMonotone(i + x + 1, 2 * i, Pow2(d - 1));
      MulDistribute(i + x, 1, Pow2(d - 1));
      MulAssoc(i, 2, Pow2(d - 1));
      MulMonotone(Pow2(d), Pow2(e - 1), i);
    }
  }

  /** Larger patterns have larger magnitudes. */
  lemma UnitsMonotone(f: Format, a: nat, b: nat)
    requires f.Valid() && a < b
    ensures Units(f, a) < Units(f, b)
  {
    hide Pow2, UnitsOf;
    var i := f.ImplicitBit();
    DigitsOrder(a, b, i);
    if a / i == b / i {
      FractionGrows(i, a / i, a % i, b % i);
    } else {
      BinadeGrows(i, a / i, b / i, a % i, b % i);
    }
  }

  lemma MagnitudeMonotone(f: Format, a: nat, b: nat)
    requires f.Valid() && a < b
    ensures Magnitude(f, a) < Magnitude(f, b)
  {
    hide Magnitude, Units, ScaleB;
    UnitsMonotone(f, a, b);
    MagnitudeInUnits(f, a);
    MagnitudeInUnits(f, b);
    ScaleBOrder(Units(f, b) as real, Units(f, a) as real, LeastExponent(f));
  }

  lemma ZeroMagnitude(f: Format)
    requires f.Valid()
    ensures Magnitude(f, 0) == 0.0
  {
    ScaleBNothing(LeastExponent(f));
    DivModUnique(0, f.ImplicitBit(), 0, 0);
  }

  // ---- building patterns ----

  lemma ScaleBTwice(x: real, k: int)
    ensures ScaleB(x, k + 1) == ScaleB(2.0 * x, k)
  {
    ScaleBCompose(x, 1, k);
    assert ScaleB(x, 1) == 2.0 * ScaleB(x, 0);
  }

  /** Exponent field e and significand m, added up so that a significand of
      2^(significandBits + 1) carries into the exponent. */
  lemma EncodedValue(f: Format, e: nat, m: nat)
    requires f.Valid() && e >= 1
    requires f.ImplicitBit() <= m <= 2 * f.ImplicitBit()
    ensures Magnitude(f, (e - 1) * f.ImplicitBit() + m)
         == ScaleB(m as real, e - f.ExponentBias() - f.significandBits)
  {
    hide Pow2, Pow2R, ScaleB;
    var i, k := f.ImplicitBit(), e - f.ExponentBias() - f.significandBits;
    MulDistribute(e - 1, 1, i);
    if m < 2 * i {
      DivModUnique((e - 1) * i + m, i, e, m - i);
    } else {
      MulDistribute(e, 1, i);
      DivModUnique((e - 1) * i + m, i, e + 1, 0);
      ScaleBTwice(i as real, k);
    }
  }

  /** oneRep stands for 1: the exponent field of the bias and no fraction. */
  lemma OneRep(f: Format)
    requires f.Valid()
    ensures Magnitude(f, f.ExponentBias() * f.ImplicitBit()) == 1.0
  {
    hide Pow2, ScaleB, Magnitude;
    ConstantsAgree(f);
    var b, i := f.ExponentBias(), f.ImplicitBit();
    UnitScaled(f.significandBits, i);
    MulDistribute(b, 1, i);
    EncodedValue(f, b, i);
  }

  lemma UnitScaled(n: nat, i: nat)
    requires i == Pow2(n)
    ensures ScaleB(i as real, 0 - n) == 1.0
  {
    hide Pow2, Pow2R, ScaleB;
    Pow2RIsPow2(n);
    ScaleBPow2R(n, 0 - n);
    Pow2RValues();
  }

  /** The patterns of 1 and -1. */
  lemma UnitPatterns()
    ensures SINGLE.Valid() && DOUBLE.Valid()
    ensures IsFinite(SINGLE, 0x3f80_0000) && Value(SINGLE, 0x3f80_0000) == 1.0
    ensures IsFinite(SINGLE, 0xbf80_0000) && Value(SINGLE, 0xbf80_0000) == -1.0
    ensures IsFinite(DOUBLE, 0x3ff0_0000_0000_0000) && Value(DOUBLE, 0x3ff0_0000_0000_0000) == 1.0
    ensures IsFinite(DOUBLE, 0xbff0_0000_0000_0000) && Value(DOUBLE, 0xbff0_0000_0000_0000) == -1.0
  {
    FormatWords();
    hide Magnitude, Pow2;
    OneRep(SINGLE);
    OneRep(DOUBLE);
  }
}

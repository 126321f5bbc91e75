/** The other helpers of fp_lib.h: the double-word right shift that remembers
    what it drops, and the binary exponent of a number. */
module FpLib {
  import opened Arithmetic
  import opened Bits
  import opened Rounding
  import opened FloatFormat
  import opened FloatResult
  import opened SoftDivision
  import opened UnsignedDivision

  // ---- wideRightShiftWithSticky ----

  /** Setting the low bit does not depend on an even part. */
  lemma StickyDigit(even: nat, base: nat, low: nat, sticky: bool)
    requires even % 2 == 0 && base % 2 == 0 && low < base
    ensures OrInto(low, sticky) < base
    ensures even + OrInto(low, sticky) == OrInto(even + low, sticky)
  {}

  lemma EvenMultiple(top: nat, half: nat, base: nat, product: nat)
    requires base == 2 * half && product == top * base
    ensures product % 2 == 0
  {
    MulAssoc(top, 2, half);
    DivModUnique(product, 2, top * half, 0);
  }

  /** Setting the low bit of the low word sets that of the pair. */
  lemma JoinSticky(w: nat, high: nat, low: nat, sticky: bool)
    requires 0 < w && low < Pow2(w)
    ensures OrInto(low, sticky) < Pow2(w)
    ensures Join(w, high, OrInto(low, sticky)) == OrInto(Join(w, high, low), sticky)
  {
    Pow2AsDouble(w);
    hide Pow2, OrInto;
    MulMonotone(0, high, Pow2(w));
    EvenMultiple(high, Pow2(w - 1), Pow2(w), high * Pow2(w));
    StickyDigit(high * Pow2(w), Pow2(w), low, sticky);
  }

  lemma NonzeroProduct(x: nat, p: nat)
    requires p > 0
    ensures x * p != 0 <==> x != 0
  {
    if x != 0 {
      MulMonotone(1, x, p);
    }
  }

  lemma StickyBelowWord(w: nat, high: nat, low: nat, count: nat)
    requires 0 < count < w && high < Pow2(w) && low < Pow2(w)
    ensures Shl(w, low, w - count) != 0 <==> Join(w, high, low) % Pow2(count) != 0
  {
    hide Pow2;
    ShlKeepsLow(w, low, w - count);
    NonzeroProduct(low % Pow2(count), Pow2(w - count));
    Pow2Add(w - count, count);
    MulAssoc(high, Pow2(w - count), Pow2(count));
    ModAddMultiple(low, high * Pow2(w - count), Pow2(count));
  }

  lemma StickyAboveWord(w: nat, high: nat, low: nat, j: nat)
    requires 0 < j < w && high < Pow2(w) && low < Pow2(w)
    ensures Join(w, high, low) / Pow2(w + j) == high / Pow2(j)
    ensures Shl(w, high, w - j) != 0 || low != 0 <==> Join(w, high, low) % Pow2(w + j) != 0
  {
    hide Pow2;
    ShlKeepsLow(w, high, w - j);
    NonzeroProduct(high % Pow2(j), Pow2(w - j));
    Pow2Add(w, j);
    JoinBound(w, high, low);
    DivideTwice(Join(w, high, low), Pow2(w), Pow2(j));
    NonzeroProduct(high % Pow2(j), Pow2(w));
    MulMonotone(0, high % Pow2(j), Pow2(w));
  }

  /** Shifts the pair right by count, or-ing into its low bit whether any one bit
      was dropped. Counts of zero and of exactly a word shift a word by its own
      width, which C leaves undefined. */
  method WideRightShiftWithSticky(w: nat, high: nat, low: nat, count: nat) returns (hi: nat, lo: nat)
    requires 0 < w && high < Pow2(w) && low < Pow2(w) && 0 < count && count != w
    ensures hi < Pow2(w) && lo < Pow2(w)
    ensures Join(w, hi, lo) == OrInto(Shr(Join(w, high, low), count), Join(w, high, low) % Pow2(count) != 0)
  {
    hide Or, Pow2, Shl, Shr, OrInto, Join;
    ShrDivides(Join(w, high, low), count);
    if count < w {
      StickyBelowWord(w, high, low, count);
      ShiftRightPair(w, high, low, count);
      ShrBound(high, w, count);
      Pow2Monotone(w - count, w);
      var sticky := Shl(w, low, w - count) != 0;
      lo := Or(Shl(w, high, w - count), Shr(low, count));
      JoinSticky(w, Shr(high, count), lo, sticky);
      OrOne(lo, sticky);
      lo := Or(lo, BoolToInt(sticky));
      hi := Shr(high, count);
    } else if count < 2 * w {
      StickyAboveWord(w, high, low, count - w);
      OrZero(Shl(w, high, 2 * w - count), low);
      ShrBound(high, w, count - w);
      ShrDivides(high, count - w);
      Pow2Monotone(2 * w - count, w);
      var sticky := Or(Shl(w, high, 2 * w - count), low) != 0;
      lo := Shr(high, count - w);
      JoinSticky(w, 0, lo, sticky);
      OrOne(lo, sticky);
      HighWord(w, 0, lo);
      lo := Or(lo, BoolToInt(sticky));
      hi := 0;
      Pow2Monotone(0, w);
    } else {
      JoinBound(w, high, low);
      Pow2Monotone(2 * w, count);
      DivModUnique(Join(w, high, low), Pow2(count), 0, Join(w, high, low));
      OrZero(high, low);
      HighWord(w, high, low);
      WordsAreSmall(w);
      lo := BoolToInt(Or(high, low) != 0);
      hi := 0;
      HighWord(w, hi, lo);
      OrIntoZero(Or(high, low) != 0);
    }
  }

  lemma OrIntoZero(sticky: bool)
    ensures OrInto(0, sticky) == BoolToInt(sticky)
  {}

  lemma WordsAreSmall(w: nat)
    requires 0 < w
    ensures 2 <= Pow2(w)
  {
    Pow2Monotone(1, w);
    assert Pow2(1) == 2;
  }

  // ---- __compiler_rt_logbX ----

  datatype Logb = Pattern(rep: nat) | Exponent2(e: int)

  /** The exponent of a magnitude is that of its normal form. */
  lemma ExponentOfMagnitude(f: Format, abs: nat)
    requires f.Valid() && abs > 0
    ensures Magnitude(f, abs) > 0.0
    ensures Exponent(Magnitude(f, abs)) == NormalExponent(f, abs) - f.ExponentBias()
  {
    hide ScaleB, Pow2, Pow2R, Exponent, Magnitude, NormalSignificand, NormalExponent;
    NormalForm(f, abs);
    var e := NormalExponent(f, abs) - f.ExponentBias() - f.significandBits;
    BinadeStart(f, e);
    ScaleBOrder(f.ImplicitBit() as real, NormalSignificand(f, abs) as real, e);
    ScaleBOrder((2 * f.ImplicitBit()) as real, NormalSignificand(f, abs) as real, e);
    ExponentUnique(Magnitude(f, abs), NormalExponent(f, abs) - f.ExponentBias());
  }

  /** Masking and shifting out the exponent field. */
  lemma ExponentField(f: Format, rep: nat)
    requires f.Valid() && rep < Pow2(f.width)
    ensures Shr(And(rep, f.InfRep()), f.significandBits) == AbsRep(f, rep) / f.ImplicitBit()
    ensures And(rep, f.SignBit()) == 0 <==> !Negative(f, rep)
  {
    hide And, Pow2, Shr, Bit;
    ConstantsAgree(f);
    var k := f.significandBits;
    AndShiftedMask(rep, k, f.ExponentBits(), f.InfRep());
    FieldsOfPattern(f, rep);
    AndBit(rep, f.width - 1);
    TopBit(rep, f.width - 1);
  }

  /** And with a mask of e ones above k zeros, shifted down. */
  lemma {:induction false} AndShiftedMask(x: nat, k: nat, e: nat, mask: nat)
    requires mask == (Pow2(e) - 1) * Pow2(k)
    ensures And(Shr(x, k), Pow2(e) - 1) == Shr(And(x, mask), k)
  {
    hide And, Pow2;
    if k == 0 {
      ShiftByNothing(x);
      ShiftByNothing(And(x, mask));
    } else {
      var half := (Pow2(e) - 1) * Pow2(k - 1);
      MulMonotone(0, Pow2(e) - 1, Pow2(k - 1));
      Pow2AsDouble(k);
      MulAssoc(Pow2(e) - 1, 2, Pow2(k - 1));
      AndShiftedMask(x / 2, k - 1, e, half);
      AndDoubled(x, half, mask);
      HalfOfHigh(x, k);
      HalfOfHigh(And(x, mask), k);
    }
  }

  lemma ShiftByNothing(x: nat)
    ensures Shr(x, 0) == x && Pow2(0) == 1
  {}

  /** Infinity for an infinite argument, the NaN itself for a NaN, minus infinity
      for a zero, and otherwise the exponent of the value, subnormal or not. */
  method LogbX(f: Format, pattern: nat) returns (r: Logb)
    requires f.Valid() && pattern < Pow2(f.width)
    ensures IsNaN(f, pattern) ==> r == Pattern(pattern)
    ensures IsInfinite(f, pattern) ==> r == Pattern(f.InfRep())
    ensures AbsRep(f, pattern) == 0 ==> r == Pattern(f.InfRep() + f.SignBit())
    ensures IsFinite(f, pattern) && AbsRep(f, pattern) != 0 ==>
      Magnitude(f, AbsRep(f, pattern)) > 0.0 && r == Exponent2(Exponent(Magnitude(f, AbsRep(f, pattern))))
  {
    hide And, Or, Shr, Pow2, Magnitude, Exponent, NormalSignificand, AbsRep;
    SplitSign(f, pattern);
    ExponentField(f, pattern);
    FieldRange(f, AbsRep(f, pattern));
    FieldsOfPattern(f, pattern);
    ConstantsAgree(f);
    InfinityNotZero(f);
    var rep := pattern;
    var exp := Shr(And(rep, f.InfRep()), f.significandBits);
    if exp == f.MaxExponent() {
      if And(rep, f.SignBit()) == 0 || IsNaN(f, rep) {
        return Pattern(rep);
      } else {
        return Pattern(rep - f.SignBit());
      }
    } else if AbsRep(f, rep) == 0 {
      AbsOfSigned(f, f.InfRep(), f.SignBit());
      return Pattern(Or(f.InfRep(), f.SignBit()));
    }
    ExponentOfMagnitude(f, AbsRep(f, pattern));
    if exp != 0 {
      return Exponent2(exp - f.ExponentBias());
    } else {
      rep := And(rep, f.AbsMask());
      var normalized, back := Normalize(f, rep);
      var shift := 1 - back;
      NormalizedField(f, normalized, rep);
      exp := Shr(And(normalized, f.InfRep()), f.significandBits);
      return Exponent2(exp - f.ExponentBias() - shift);
    }
  }

  /** A normalised subnormal has exponent field one. */
  lemma NormalizedField(f: Format, normalized: nat, abs: nat)
    requires f.Valid() && abs > 0 && normalized == NormalSignificand(f, abs)
    ensures Shr(And(normalized, f.InfRep()), f.significandBits) == 1
  {
    hide And, Pow2, Shr, NormalSignificand;
    NormalForm(f, abs);
    ConstantsAgree(f);
    MulMonotone(2, f.MaxExponent() + 1, f.ImplicitBit());
    ExponentField(f, normalized);
    DivModUnique(normalized, f.SignBit(), 0, normalized);
    DivModUnique(normalized, f.ImplicitBit(), 1, normalized - f.ImplicitBit());
  }
}

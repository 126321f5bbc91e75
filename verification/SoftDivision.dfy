/** Software floating-point division: divsf3.c and divdf3.c with the helpers of
    fp_lib.h they use. */
module SoftDivision {
  import opened Arithmetic
  import opened Bits
  import opened Rounding
  import opened FloatFormat
  import opened FloatResult
  import opened Reciprocal
  import opened Multiplication

  // ---- the rounding decision ----

  lemma HalfOfOddMultiple(q: int, b: int, a: int, p: int)
    requires (2 * q + 1) * b == a * (2 * p)
    ensures b % 2 == 0 && (2 * q + 1) * (b / 2) == a * p
  {
    MulDistribute(2 * q, 1, b);
    MulAssoc(2, q, b);
    MulAssoc(a, 2, p);
    var x, y, c := q * b, a * p, b / 2;
    assert 2 * x + b == 2 * y;
    MulAssoc(2 * q + 1, 2, c);
  }

  lemma DoubleDivides(b: int, p: nat)
    requires 0 < p && b % 2 == 0 && b / 2 % p == 0
    ensures b % (2 * p) == 0
  {
    var c := b / 2 / p;
    assert b / 2 == c * p;
    MulAssoc(c, 2, p);
    DivModUnique(b, 2 * p, c, 0);
  }

  /** A power of two that divides an odd multiple of b divides b. */
  lemma {:induction false} OddFactor(q: int, b: int, a: int, k: nat)
    requires (2 * q + 1) * b == a * Pow2(k)
    ensures b % Pow2(k) == 0
    decreases k
  {
    if k > 0 {
      HalfOfOddMultiple(q, b, a, Pow2(k - 1));
      OddFactor(q, b / 2, a, k - 1);
      DoubleDivides(b, Pow2(k - 1));
    }
  }

  /** An estimate q that is short of a * 2^k / b by less than one and a half is
      rounded correctly by looking at the residual; a tie cannot happen. */
  lemma ResidualRounds(a: nat, k: nat, b: nat, q: nat)
    requires 0 < b < Pow2(k + 1)
    requires 0 <= 2 * (a * Pow2(k) - q * b) < 3 * b
    ensures a * Pow2(k) >= 0
    ensures RoundRatio(a * Pow2(k), b) == q + BoolToInt(2 * (a * Pow2(k) - q * b) > b)
  {
    MulMonotone(0, a, Pow2(k));
    var n := a * Pow2(k);
    var r := n - q * b;
    if 2 * r == b {
      MulDistribute(2 * q, 1, b);
      MulAssoc(2, q, b);
      MulAssoc(a, 2, Pow2(k));
      OddFactor(q, b, a, k + 1);
      DivModUnique(b, Pow2(k + 1), 0, b);
    }
    if r < b {
      DivModUnique(n, b, q, r);
    } else {
      MulDistribute(q, 1, b);
      DivModUnique(n, b, q + 1, r - b);
    }
  }

  /** What an estimate of a * 2^p / b from below must satisfy. */
  ghost predicate CloseBelow(p: nat, a: nat, b: nat, q: nat) {
    0 < 2 * (a * Pow2(p) - q * b) < 3 * b
  }

  /** Below 2^p the estimate is a normalised quotient in the lower binade. */
  lemma LowQuotient(p: nat, a: nat, b: nat, q: nat)
    requires 0 < p && Pow2(p - 1) <= a < Pow2(p) && Pow2(p - 1) <= b < Pow2(p)
    requires CloseBelow(p, a, b, q) && q < Pow2(p)
    ensures Pow2(p - 1) <= q
    ensures a <= b
    ensures a == b ==> q == Pow2(p) - 1
  {
    Pow2AsDouble(p);
    hide Pow2;
    var t, h := Pow2(p), Pow2(p - 1);
    var n, s := a * t, q * b;
    assert 2 * (n - s) < 3 * b;
    if q < h {
      MulMonotone(q + 1, h, b);
      MulDistribute(q, 1, b);
      MulMonotone(h, a, t);
      MulMonotone(b + 1, t, h);
      MulDistribute(b, 1, h);
    }
    MulMonotone(q + 1, t, b);
    MulDistribute(q, 1, b);
    if a > b {
      MulMonotone(b + 1, a, t);
      MulDistribute(b, 1, t);
    }
    if a == b && q + 2 <= t {
      MulMonotone(q + 2, t, b);
      MulDistribute(q, 2, b);
    }
  }

  /** From 2^p on, half the estimate is a normalised quotient in the upper binade. */
  lemma HighQuotient(p: nat, a: nat, b: nat, q: nat)
    requires 0 < p && Pow2(p - 1) <= a < Pow2(p) && Pow2(p - 1) <= b < Pow2(p)
    requires CloseBelow(p, a, b, q) && q >= Pow2(p)
    ensures Pow2(p - 1) <= q / 2 < Pow2(p)
    ensures b < a
    ensures 0 < 2 * (a * Pow2(p - 1) - q / 2 * b) < 3 * b
  {
    Pow2AsDouble(p);
    hide Pow2;
    var t, h := Pow2(p), Pow2(p - 1);
    MulAssoc(a, 2, h);
    MulDistribute(2 * (q / 2), q % 2, b);
    MulAssoc(2, q / 2, b);
    MulMonotone(q % 2, 1, b);
    MulMonotone(0, q % 2, b);
    assert q == 2 * (q / 2) + q % 2;
    if a <= b {
      MulMonotone(a, b, t);
      MulMonotone(t, q, b);
    }
    if q / 2 >= t {
      MulMonotone(t, q / 2, b);
      MulMonotone(a + 1, t, h);
      MulDistribute(a, 1, h);
      MulMonotone(h, b, t);
    }
  }

  // ---- the end of the routines ----

  lemma ClearImplicitBit(f: Format, q: nat)
    requires f.Valid() && f.ImplicitBit() <= q < 2 * f.ImplicitBit()
    ensures And(q, f.SignificandMask()) == q - f.ImplicitBit()
  {
    AndMask(q, f.significandBits);
    DivModUnique(q, f.ImplicitBit(), 1, q - f.ImplicitBit());
  }

  /** absResult & ~significandMask is nonzero only for the implicit bit itself. */
  lemma CarriedOut(f: Format, x: nat)
    requires f.Valid() && x <= f.ImplicitBit()
    ensures f.SignificandMask() < Pow2(f.width)
    ensures And(x, Not(f.width, f.SignificandMask())) == if x == f.ImplicitBit() then x else 0
  {
    Pow2Monotone(f.significandBits, f.width);
    AndHighMask(f.width, x, f.significandBits);
    if x == f.ImplicitBit() {
      DivModUnique(x, f.ImplicitBit(), 1, 0);
    } else {
      DivModUnique(x, f.ImplicitBit(), 0, x);
    }
  }

  /** Round from the residual, insert exponent and sign, or overflow or flush. */
  method RoundAndPack(f: Format, quotient: nat, residual: nat, bSignificand: nat,
                      writtenExponent: int, quotientSign: nat) returns (r: nat)
    requires f.Valid() && f.ImplicitBit() <= quotient < 2 * f.ImplicitBit()
    requires 2 * residual < Pow2(f.width) && (quotientSign == 0 || quotientSign == f.SignBit())
    ensures Delivers(f, r, quotientSign,
                     ScaleB((quotient + BoolToInt(2 * residual > bSignificand)) as real,
                            writtenExponent - f.ExponentBias() - f.significandBits))
  {
    hide And, Or, Xor, Shl, Not, Pow2, Pow2R, ScaleB, Delivers, Magnitude, AbsRep;
    assert Shl(f.width, residual, 1) == 2 * residual by { ShlOnce(f.width, residual); }
    ghost var m := quotient + BoolToInt(2 * residual > bSignificand);
    ClearImplicitBit(f, quotient);
    ConstantsAgree(f);
    if writtenExponent >= f.MaxExponent() {
      AbsOfSigned(f, f.InfRep(), quotientSign);
      Overflowed(f, m, writtenExponent, quotientSign);
      return Or(f.InfRep(), quotientSign);
    } else if writtenExponent < 1 {
      if writtenExponent == 0 {
        var round := Shl(f.width, residual, 1) > bSignificand;
        var absResult := And(quotient, f.SignificandMask());
        absResult := absResult + BoolToInt(round);
        CarriedOut(f, absResult);
        AbsOfSigned(f, absResult, quotientSign);
        Flushed(f, m, writtenExponent, quotientSign);
        if And(absResult, Not(f.width, f.SignificandMask())) != 0 {
          return Or(absResult, quotientSign);
        }
      }
      Flushed(f, m, writtenExponent, quotientSign);
      return quotientSign;
    } else {
      var round := Shl(f.width, residual, 1) > bSignificand;
      var absResult := And(quotient, f.SignificandMask());
      InsertExponent(f, absResult, writtenExponent);
      absResult := Or(absResult, Shl(f.width, writtenExponent, f.significandBits));
      absResult := absResult + BoolToInt(round);
      MulDistribute(writtenExponent - 1, 1, f.ImplicitBit());
      NormalValue(f, m, writtenExponent, quotientSign);
      AbsOfSigned(f, absResult, quotientSign);
      return Or(absResult, quotientSign);
    }
  }

  lemma ShlOnce(w: nat, x: nat)
    requires 2 * x < Pow2(w)
    ensures Shl(w, x, 1) == 2 * x
  {
    assert Pow2(1) == 2;
    DivModUnique(2 * x, Pow2(w), 0, 2 * x);
  }

  // ---- the beginning of the routines ----

  lemma FieldsOfPattern(f: Format, rep: nat)
    requires f.Valid() && rep < Pow2(f.width)
    ensures And(Shr(rep, f.significandBits), f.MaxExponent()) == AbsRep(f, rep) / f.ImplicitBit()
    ensures And(rep, f.SignificandMask()) == AbsRep(f, rep) % f.ImplicitBit()
    ensures And(rep, f.AbsMask()) == AbsRep(f, rep)
  {
    hide And, Pow2, Shr;
    var i, e := f.ImplicitBit(), Pow2(f.ExponentBits());
    Pow2Add(f.ExponentBits(), f.significandBits);
    assert f.SignBit() == e * i;
    assert Shr(rep, f.significandBits) == rep / i by { ShrDivides(rep, f.significandBits); }
    AndMask(Shr(rep, f.significandBits), f.ExponentBits());
    AndMask(rep, f.significandBits);
    AndMask(rep, f.width - 1);
    DigitOfRemainder(rep, i, e);
  }

  lemma SignsCombine(f: Format, a: nat, b: nat)
    requires f.Valid() && a < Pow2(f.width) && b < Pow2(f.width)
    ensures And(Xor(a, b), f.SignBit()) == SignOf(f, a, b)
  {
    hide And, Xor, Bit, Pow2;
    AndBit(Xor(a, b), f.width - 1);
    XorBit(a, b, f.width - 1);
    TopBit(a, f.width - 1);
    TopBit(b, f.width - 1);
  }

  /** aExponent - 1U >= maxExponent - 1U, in 32-bit unsigned arithmetic. */
  lemma EndsOfRange(f: Format, e: nat)
    requires f.Valid() && e <= f.MaxExponent()
    ensures Wrap(32, e - 1) >= f.MaxExponent() - 1 <==> e == 0 || e == f.MaxExponent()
  {
    Pow2Monotone(f.ExponentBits(), 31);
    Pow2Values();
    if e == 0 {
      DivModUnique(-1, Pow2(32), -1, Pow2(32) - 1);
    } else {
      DivModUnique(e - 1, Pow2(32), 0, e - 1);
    }
  }

  /** The left shift that brings a subnormal significand to the implicit bit. */
  function NormalizingShift(f: Format, fraction: nat): nat
    requires f.Valid() && 0 < fraction < f.ImplicitBit()
  {
    BitLenBound(fraction, f.significandBits);
    f.significandBits + 1 - BitLen(fraction)
  }

  /** The significand of a nonzero magnitude with its leading one explicit. */
  function NormalSignificand(f: Format, abs: nat): nat
    requires f.Valid() && abs > 0
  {
    var field, fraction := abs / f.ImplicitBit(), abs % f.ImplicitBit();
    if field > 0 then f.ImplicitBit() + fraction
    else
      DivModIdentity(abs, f.ImplicitBit());
      MulMonotone(0, fraction, Pow2(NormalizingShift(f, fraction)));
      fraction * Pow2(NormalizingShift(f, fraction))
  }

  /** The exponent field it would have if fields could go below one. */
  function NormalExponent(f: Format, abs: nat): int
    requires f.Valid() && abs > 0
  {
    var field, fraction := abs / f.ImplicitBit(), abs % f.ImplicitBit();
    if field > 0 then field
    else
      DivModIdentity(abs, f.ImplicitBit());
      1 - NormalizingShift(f, fraction)
  }

  lemma NormalForm(f: Format, abs: nat)
    requires f.Valid() && abs > 0
    ensures f.ImplicitBit() <= NormalSignificand(f, abs) < 2 * f.ImplicitBit()
    ensures Magnitude(f, abs)
         == ScaleB(NormalSignificand(f, abs) as real, NormalExponent(f, abs) - f.ExponentBias() - f.significandBits)
    ensures Magnitude(f, abs) > 0.0
  {
    hide ScaleB, Pow2, BitLen;
    var field, fraction := abs / f.ImplicitBit(), abs % f.ImplicitBit();
    DivModIdentity(abs, f.ImplicitBit());
    if field == 0 {
      NormalizedRange(f, fraction);
      var e := 1 - f.ExponentBias() - f.significandBits;
      OnGrid(fraction, e, e - NormalizingShift(f, fraction));
      ScaleBSign(fraction as real, e);
    } else {
      ScaleBSign((f.ImplicitBit() + fraction) as real, field - f.ExponentBias() - f.significandBits);
    }
  }

  lemma NormalizedRange(f: Format, fraction: nat)
    requires f.Valid() && 0 < fraction < f.ImplicitBit()
    ensures f.ImplicitBit() <= fraction * Pow2(NormalizingShift(f, fraction)) < 2 * f.ImplicitBit()
    ensures 0 < NormalizingShift(f, fraction) <= f.significandBits
  {
    hide Pow2, BitLen;
    var l := BitLen(fraction);
    BitLenBound(fraction, f.significandBits);
    var s := f.significandBits + 1 - l;
    Pow2Add(l - 1, s);
    Pow2Add(l, s);
    Pow2Add(1, f.significandBits);
    assert Pow2(1) == 2 by { PowersBelowFive(); }
    MulMonotone(Pow2(l - 1), fraction, Pow2(s));
    MulMonotone(fraction + 1, Pow2(l), Pow2(s));
    MulDistribute(fraction, 1, Pow2(s));
  }

  /** normalize() of fp_lib.h: shifts the significand up and returns the exponent it needs. */
  method Normalize(f: Format, significand: nat) returns (shifted: nat, exponent: int)
    requires f.Valid() && 0 < significand < f.ImplicitBit()
    ensures shifted == NormalSignificand(f, significand)
    ensures exponent == NormalExponent(f, significand)
  {
    hide Pow2, BitLen, Shl;
    Pow2Monotone(f.significandBits, f.width - 1);
    ConstantsAgree(f);
    var w := f.width;
    var shift := Clz(w, significand) - Clz(w, f.ImplicitBit());
    ImplicitBitLength(f);
    NormalizedRange(f, significand);
    DivModUnique(significand, f.ImplicitBit(), 0, significand);
    shifted := Shl(w, significand, shift);
    ShlFits(w, significand, shift);
    exponent := 1 - shift;
  }

  lemma ImplicitBitLength(f: Format)
    ensures BitLen(f.ImplicitBit()) == f.significandBits + 1
  {
    BitLenUnique(f.ImplicitBit(), f.significandBits + 1);
  }

  lemma ShlFits(w: nat, x: nat, k: nat)
    requires x * Pow2(k) < Pow2(w)
    ensures Shl(w, x, k) == x * Pow2(k)
  {
    MulMonotone(0, x, Pow2(k));
    DivModUnique(x * Pow2(k), Pow2(w), 0, x * Pow2(k));
  }

  // ---- the specification of division ----

  function SignOf(f: Format, a: nat, b: nat): nat
    requires f.Valid()
  {
    if Negative(f, a) != Negative(f, b) then f.SignBit() else 0
  }

  function Quotient(f: Format, a: nat, b: nat): (x: real)
    requires f.Valid() && AbsRep(f, a) != 0 && AbsRep(f, b) != 0
  {
    NormalForm(f, AbsRep(f, b));
    Magnitude(f, AbsRep(f, a)) / Magnitude(f, AbsRep(f, b))
  }

  /** Division as section 5.4.1 of IEEE 754-2008 defines it, with quiet NaNs
      passed on and results below the least normal number flushed to zero. */
  ghost predicate CorrectlyDivided(f: Format, a: nat, b: nat, r: nat)
    requires f.Valid()
  {
    var sign := SignOf(f, a, b);
    if IsNaN(f, a) then r == Or(a, f.QuietBit())
    else if IsNaN(f, b) then r == Or(b, f.QuietBit())
    else if IsInfinite(f, a) then r == if IsInfinite(f, b) then f.QnanRep() else f.InfRep() + sign
    else if IsInfinite(f, b) then r == sign
    else if AbsRep(f, a) == 0 then r == if AbsRep(f, b) == 0 then f.QnanRep() else sign
    else if AbsRep(f, b) == 0 then r == f.InfRep() + sign
    else
      && Quotient(f, a, b) > 0.0
      && Delivers(f, r, sign, Rounded(Quotient(f, a, b), f.significandBits + 1))
  }

  /** What that comes to: a result that is a nonzero number is as near to the exact
      quotient as any number of as many bits, and the even one if there are two. */
  lemma NearestQuotient(f: Format, a: nat, b: nat, r: nat, n: nat, j: int)
    requires f.Valid() && Ordinary(f, a, b) && CorrectlyDivided(f, a, b, r)
    requires IsFinite(f, r) && AbsRep(f, r) != 0 && n <= 2 * f.ImplicitBit()
    ensures var x, y, v := Quotient(f, a, b), Magnitude(f, AbsRep(f, r)), ScaleB(n as real, j);
      && x > 0.0
      && AbsR(x - y) <= AbsR(x - v)
      && (AbsR(x - y) == AbsR(x - v) && v != y ==> Significand(x, f.significandBits + 1) % 2 == 0)
  {
    hide Rounded, ScaleB, Magnitude, Pow2R, Significand, AbsR, Quotient;
    ConstantsAgree(f);
    Pow2AsDouble(f.significandBits + 1);
    var x, sign := Quotient(f, a, b), SignOf(f, a, b);
    AbsOfSigned(f, 0, sign);
    AbsOfSigned(f, f.InfRep(), sign);
    RoundedIsNearest(x, f.significandBits + 1, n, j);
  }

  lemma QuotientOfOperands(f: Format, a: nat, b: nat)
    requires f.Valid() && AbsRep(f, a) != 0 && AbsRep(f, b) != 0
    ensures var x, y := AbsRep(f, a), AbsRep(f, b);
      && NormalSignificand(f, y) > 0
      && Quotient(f, a, b) == ScaleB(Ratio(NormalSignificand(f, x), NormalSignificand(f, y)),
                                     NormalExponent(f, x) - NormalExponent(f, y))
  {
    hide ScaleB, Pow2, Magnitude, NormalSignificand, NormalExponent, Ratio;
    var x, y := AbsRep(f, a), AbsRep(f, b);
    NormalForm(f, x);
    NormalForm(f, y);
    ScaledQuotient(NormalSignificand(f, x), NormalSignificand(f, y),
                   NormalExponent(f, x) - f.ExponentBias() - f.significandBits,
                   NormalExponent(f, y) - f.ExponentBias() - f.significandBits);
  }

  /** A division that reaches the significand arithmetic: both operands finite
      and not zero. */
  predicate Ordinary(f: Format, a: nat, b: nat)
    requires f.Valid()
  {
    IsFinite(f, a) && IsFinite(f, b) && AbsRep(f, a) != 0 && AbsRep(f, b) != 0
  }

  /** The part both routines begin with: special operands, and the fields of ordinary ones. */
  method Unpack(f: Format, a: nat, b: nat)
    returns (special: bool, result: nat, quotientSign: nat, aSignificand: nat, bSignificand: nat, quotientExponent: int)
    requires f.Valid() && a < Pow2(f.width) && b < Pow2(f.width)
    ensures special ==> CorrectlyDivided(f, a, b, result)
    ensures !special ==> Ordinary(f, a, b)
    ensures !special ==>
      && quotientSign == SignOf(f, a, b)
      && aSignificand == NormalSignificand(f, AbsRep(f, a))
      && bSignificand == NormalSignificand(f, AbsRep(f, b))
      && quotientExponent == NormalExponent(f, AbsRep(f, a)) - NormalExponent(f, AbsRep(f, b))
  {
    hide And, Or, Xor, Shr, Wrap, Pow2, Magnitude, Rounded, Delivers, NormalSignificand, NormalExponent;
    FieldsOfPattern(f, a);
    FieldsOfPattern(f, b);
    SignsCombine(f, a, b);
    FieldRange(f, AbsRep(f, a));
    FieldRange(f, AbsRep(f, b));
    var aExponent := And(Shr(a, f.significandBits), f.MaxExponent());
    var bExponent := And(Shr(b, f.significandBits), f.MaxExponent());
    quotientSign := And(Xor(a, b), f.SignBit());
    aSignificand := And(a, f.SignificandMask());
    bSignificand := And(b, f.SignificandMask());
    var scale := 0;
    special, result := false, 0;
    EndsOfRange(f, aExponent);
    EndsOfRange(f, bExponent);
    ConstantsAgree(f);
    if Wrap(32, aExponent - 1) >= f.MaxExponent() - 1 || Wrap(32, bExponent - 1) >= f.MaxExponent() - 1 {
      var aAbs, bAbs := And(a, f.AbsMask()), And(b, f.AbsMask());
      AbsOfSigned(f, f.InfRep(), quotientSign);
      if aAbs > f.InfRep() {
        return true, Or(a, f.QuietBit()), quotientSign, 0, 0, 0;
      }
      if bAbs > f.InfRep() {
        return true, Or(b, f.QuietBit()), quotientSign, 0, 0, 0;
      }
      if aAbs == f.InfRep() {
        if bAbs == f.InfRep() {
          return true, f.QnanRep(), quotientSign, 0, 0, 0;
        } else {
          return true, Or(aAbs, quotientSign), quotientSign, 0, 0, 0;
        }
      }
      if bAbs == f.InfRep() {
        return true, quotientSign, quotientSign, 0, 0, 0;
      }
      if aAbs == 0 {
        if bAbs == 0 {
          return true, f.QnanRep(), quotientSign, 0, 0, 0;
        } else {
          return true, quotientSign, quotientSign, 0, 0, 0;
        }
      }
      if bAbs == 0 {
        return true, Or(f.InfRep(), quotientSign), quotientSign, 0, 0, 0;
      }
      if aAbs < f.ImplicitBit() {
        var exponent;
        aSignificand, exponent := Normalize(f, aSignificand);
        scale := scale + exponent;
      }
      if bAbs < f.ImplicitBit() {
        var exponent;
        bSignificand, exponent := Normalize(f, bSignificand);
        scale := scale - exponent;
      }
    }
    SetImplicitBit(f, AbsRep(f, a), aSignificand);
    SetImplicitBit(f, AbsRep(f, b), bSignificand);
    aSignificand := Or(aSignificand, f.ImplicitBit());
    bSignificand := Or(bSignificand, f.ImplicitBit());
    quotientExponent := aExponent - bExponent + scale;
  }

  /** Which patterns the exponent field tells apart. */
  lemma FieldRange(f: Format, abs: nat)
    requires f.Valid() && abs < f.SignBit()
    ensures abs / f.ImplicitBit() <= f.MaxExponent()
    ensures abs >= f.InfRep() <==> abs / f.ImplicitBit() == f.MaxExponent()
    ensures abs < f.ImplicitBit() <==> abs / f.ImplicitBit() == 0
    ensures abs < f.ImplicitBit() ==> abs % f.ImplicitBit() == abs
    ensures abs / f.ImplicitBit() > 0 && abs > 0 ==> NormalExponent(f, abs) == abs / f.ImplicitBit()
  {
    hide Pow2;
    var i, q := f.ImplicitBit(), abs / f.ImplicitBit();
    ConstantsAgree(f);
    DivModIdentity(abs, i);
    if q > f.MaxExponent() {
      MulMonotone(f.MaxExponent() + 1, q, i);
    }
    if q < f.MaxExponent() {
      MulMonotone(q + 1, f.MaxExponent(), i);
      MulDistribute(q, 1, i);
    }
    if q > 0 {
      MulMonotone(1, q, i);
    }
  }

  /** Or-ing in the implicit bit completes a normal significand and leaves a
      normalised subnormal one alone. */
  lemma SetImplicitBit(f: Format, abs: nat, significand: nat)
    requires f.Valid() && abs > 0
    requires significand == if abs < f.ImplicitBit() then NormalSignificand(f, abs) else abs % f.ImplicitBit()
    ensures Or(significand, f.ImplicitBit()) == NormalSignificand(f, abs)
  {
    OrBit(significand, f.significandBits);
    NormalForm(f, abs);
    hide Pow2, Or;
    TopBit(significand, f.significandBits) by { Pow2AsDouble(f.significandBits + 1); }
    if abs >= f.ImplicitBit() {
      DivModIdentity(abs, f.ImplicitBit());
    } else {
      DivModUnique(abs, f.ImplicitBit(), 0, abs);
    }
  }

  // ---- from the reciprocal to the quotient estimate ----

  lemma EstimateBounds(b: nat, q: nat, y: int, c: int)
    requires 0 < b && 0 < c && q * c <= y < (q + 1) * c
    ensures q * b * c <= y * b < q * b * c + b * c
  {
    MulMonotone(q * c, y, b);
    MulMonotone(y + 1, (q + 1) * c, b);
    MulDistribute(y, 1, b);
    MulAssoc(q, c, b);
    MulAssoc(q + 1, c, b);
    MulDistribute(q, 1, b);
    MulDistribute(q * b, b, c);
  }

  /** A slightly low reciprocal gives a slightly low quotient: c is the unit the
      estimate drops, gap what the scaled reciprocal is short of. */
  lemma EstimateIsClose(p: nat, a: nat, b: nat, q: nat, y: int, c: int, gap: int)
    requires 0 < b && 0 < c
    requires q * c <= y < (q + 1) * c
    requires y * b == a * Pow2(p) * c - a * gap
    requires 0 < a * gap && 2 * (a * gap) <= b * c
    ensures CloseBelow(p, a, b, q)
  {
    hide Pow2;
    EstimateBounds(b, q, y, c);
    MulDistribute(a * Pow2(p), q * b, c);
    PositiveFactor(a * Pow2(p) - q * b, b, c);
  }

  lemma PositiveFactor(x: int, b: int, c: int)
    requires 0 < c && x * c > 0 && 2 * (x * c) < 3 * (b * c)
    ensures 0 < 2 * x < 3 * b
  {
    if x <= 0 {
      MulMonotone(x, 0, c);
    }
    if 2 * x >= 3 * b {
      MulMonotone(3 * b, 2 * x, c);
      MulAssoc(2, x, c);
      MulAssoc(3, b, c);
    }
  }

  /** Line by line the same in both routines: normalise the estimate, form the
      residual, round and pack. */
  method RoundQuotient(f: Format, a: nat, b: nat, aSignificand: nat, bSignificand: nat,
                       estimate: nat, exponent: int, quotientSign: nat) returns (r: nat)
    requires f.Valid() && f.significandBits + 3 < f.width && Ordinary(f, a, b)
    requires aSignificand == NormalSignificand(f, AbsRep(f, a))
    requires bSignificand == NormalSignificand(f, AbsRep(f, b))
    requires exponent == NormalExponent(f, AbsRep(f, a)) - NormalExponent(f, AbsRep(f, b))
    requires quotientSign == SignOf(f, a, b)
    requires CloseBelow(f.significandBits + 1, aSignificand, bSignificand, estimate)
    ensures CorrectlyDivided(f, a, b, r)
  {
    hide Pow2, ScaleB, Pow2R, Delivers, Rounded, Ratio, RoundRatio, NormalSignificand, NormalExponent, Wrap, Shl, Magnitude, CloseBelow;
    ghost var p, x := f.significandBits + 1, Quotient(f, a, b);
    NormalForm(f, AbsRep(f, a));
    NormalForm(f, AbsRep(f, b));
    QuotientOfOperands(f, a, b);
    Pow2AsDouble(f.significandBits + 1);
    var quotient, quotientExponent, residual := estimate, exponent, 0;
    if quotient < 2 * f.ImplicitBit() {
      LowResult(f, aSignificand, bSignificand, quotient, exponent);
      residual := Wrap(f.width, Shl(f.width, aSignificand, f.significandBits + 1) - Wrap(f.width, quotient * bSignificand));
      quotientExponent := quotientExponent - 1;
    } else {
      HighResult(f, aSignificand, bSignificand, quotient, exponent);
      quotient := Shr(quotient, 1);
      residual := Wrap(f.width, Shl(f.width, aSignificand, f.significandBits) - Wrap(f.width, quotient * bSignificand));
    }
    var writtenExponent := quotientExponent + f.ExponentBias();
    r := RoundAndPack(f, quotient, residual, bSignificand, writtenExponent, quotientSign);
    NotSpecial(f, a, b, r);
  }

  /** The residual is small, so its low bits are all of it. */
  lemma ResidualKept(w: nat, a: nat, k: nat, q: nat, b: nat)
    requires 0 < 2 * (a * Pow2(k) - q * b) < 3 * b && 3 * b <= Pow2(w)
    ensures Wrap(w, Shl(w, a, k) - Wrap(w, q * b)) == a * Pow2(k) - q * b
  {
    hide Pow2;
    var n, s, m := a * Pow2(k), q * b, Pow2(w);
    ModSubtract(n, s, m);
    KeptByModulus(n - s, 3 * b, m);
  }

  lemma KeptByModulus(x: int, bound: int, m: int)
    requires 0 < 2 * x < bound <= m
    ensures x % m == x
  {
    DivModUnique(x, m, 0, x);
  }

  lemma LowResult(f: Format, a: nat, b: nat, q: nat, e: int)
    requires f.Valid() && f.significandBits + 3 < f.width
    requires f.ImplicitBit() <= a < 2 * f.ImplicitBit() && f.ImplicitBit() <= b < 2 * f.ImplicitBit()
    requires CloseBelow(f.significandBits + 1, a, b, q) && q < 2 * f.ImplicitBit()
    ensures f.ImplicitBit() <= q
    ensures var r := Wrap(f.width, Shl(f.width, a, f.significandBits + 1) - Wrap(f.width, q * b));
      && 2 * r < Pow2(f.width)
      && ScaleB(Ratio(a, b), e) > 0.0
      && Rounded(ScaleB(Ratio(a, b), e), f.significandBits + 1)
         == ScaleB((q + BoolToInt(2 * r > b)) as real, e - 1 - f.significandBits)
  {
    hide Pow2, ScaleB, Rounded, Ratio, RoundRatio, Wrap, Shl;
    var p := f.significandBits + 1;
    Pow2AsDouble(f.significandBits + 1);
    Pow2AsDouble(p + 1);
    LowQuotient(p, a, b, q);
    RoomForResidual(f, b);
    ResidualKept(f.width, a, p, q, b);
    ResidualRounds(a, p, b, q);
    ScaledNumerator(a, b, p);
    ScaleBCompose(Ratio(a, b), p, e - p);
    if a < b {
      MulMonotone(a + 1, b, Pow2(p));
      MulDistribute(a, 1, Pow2(p));
      RatioAtLeastHalf(p, a, b);
      RoundedRatio(a * Pow2(p), b, e - p, p);
    } else {
      UnitRatio(a, e, p);
      ExactResidual(b, Pow2(p), q);
    }
  }

  lemma ExactResidual(b: nat, t: nat, q: nat)
    requires q == t - 1 && b > 0
    ensures b * t - q * b == b && q + BoolToInt(2 * (b * t - q * b) > b) == t
  {
    MulDistribute(t, 1, b);
  }

  lemma UnitRatio(a: nat, e: int, p: nat)
    requires a > 0 && p > 0
    ensures ScaleB(Ratio(a, a), e) > 0.0
    ensures Rounded(ScaleB(Ratio(a, a), e), p) == ScaleB(Pow2(p) as real, e - p)
  {
    hide ScaleB, Pow2R, Rounded;
    assert Ratio(a, a) == 1.0;
    Pow2RIsPow2(p);
    ScaleBPow2R(p, e - p);
    ScaleBPow2R(0, e);
    Pow2RValues();
    RoundedExact(p, Pow2(p), e - p);
  }

  lemma RatioAtLeastHalf(p: nat, a: nat, b: nat)
    requires 0 < p && Pow2(p - 1) <= a && b <= Pow2(p)
    ensures Pow2(p - 1) * b <= a * Pow2(p)
  {
    MulMonotone(Pow2(p - 1), a, Pow2(p));
    MulMonotone(b, Pow2(p), Pow2(p - 1));
  }

  lemma RoomForResidual(f: Format, b: nat)
    requires f.Valid() && f.significandBits + 3 < f.width && b < 2 * f.ImplicitBit()
    ensures 3 * b <= Pow2(f.width)
  {
    Pow2Monotone(f.significandBits + 3, f.width);
    Pow2AsDouble(f.significandBits + 1);
    Pow2AsDouble(f.significandBits + 2);
    Pow2AsDouble(f.significandBits + 3);
  }

  lemma RatioAtLeastOne(s: nat, a: nat, b: nat)
    requires b <= a < 2 * b
    ensures Pow2(s) * b <= a * Pow2(s) < Pow2(s + 1) * b
  {
    MulMonotone(b, a, Pow2(s));
    MulMonotone(a + 1, 2 * b, Pow2(s));
    MulDistribute(a, 1, Pow2(s));
    MulAssoc(2, b, Pow2(s));
  }

  lemma HighResult(f: Format, a: nat, b: nat, q: nat, e: int)
    requires f.Valid() && f.significandBits + 3 < f.width
    requires f.ImplicitBit() <= a < 2 * f.ImplicitBit() && f.ImplicitBit() <= b < 2 * f.ImplicitBit()
    requires CloseBelow(f.significandBits + 1, a, b, q) && q >= 2 * f.ImplicitBit()
    ensures f.ImplicitBit() <= Shr(q, 1) < 2 * f.ImplicitBit()
    ensures var r := Wrap(f.width, Shl(f.width, a, f.significandBits) - Wrap(f.width, Shr(q, 1) * b));
      && 2 * r < Pow2(f.width)
      && ScaleB(Ratio(a, b), e) > 0.0
      && Rounded(ScaleB(Ratio(a, b), e), f.significandBits + 1)
         == ScaleB((Shr(q, 1) + BoolToInt(2 * r > b)) as real, e - f.significandBits)
  {
    PowersBelowFive();
    hide Pow2, ScaleB, Rounded, Ratio, RoundRatio, Wrap, Shl;
    var s := f.significandBits;
    Pow2AsDouble(s + 1);
    HighQuotient(s + 1, a, b, q);
    RoomForResidual(f, b);
    ResidualKept(f.width, a, s, q / 2, b);
    ResidualRounds(a, s, b, q / 2);
    ScaledNumerator(a, b, s);
    ScaleBCompose(Ratio(a, b), s, e - s);
    RatioAtLeastOne(s, a, b);
    RoundedRatio(a * Pow2(s), b, e - s, s + 1);
  }

  lemma NotSpecial(f: Format, a: nat, b: nat, r: nat)
    requires f.Valid() && Ordinary(f, a, b)
    requires Quotient(f, a, b) > 0.0
    requires Delivers(f, r, SignOf(f, a, b), Rounded(Quotient(f, a, b), f.significandBits + 1))
    ensures CorrectlyDivided(f, a, b, r)
  {}

  // ---- __divsf3 ----

  /** What the estimate is short of, for a reciprocal short by at most 64 units. */
  lemma SingleGap(a: nat, b: nat, short: int)
    requires 0 < a < 0x100_0000 && 0 < short <= 64 * b
    ensures 0 < a * (2 * short) && 2 * (a * (2 * short)) <= b * TWO32
  {
    MulAssoc(a, 2, short);
    MulMonotone(1, a, short);
    MulMonotone(a, 0x100_0000, short);
  }

  /** The estimate of __divsf3 is close enough for any strictly low reciprocal
      that is short by at most 64 units of 2^-32, an error of 2^-26. */
  lemma SingleEstimate(a: nat, b: nat, x: nat, q: nat)
    requires 0x80_0000 <= a < 0x100_0000 && 0x80_0000 <= b < 0x100_0000
    requires 0 < Deficit(x, 256 * b) <= 64 * (256 * b)
    requires q == x * (2 * a) / TWO32
    ensures CloseBelow(24, a, b, q)
  {
    var xb := x * b;
    MulAssoc(x, 256, b);
    var short := 0x80_0000_0000_0000 - xb;
    assert Deficit(x, 256 * b) == 256 * short;
    var y := x * (2 * a);
    MulAssoc(x, 2 * a, b);
    assert y * b == (2 * a) * xb by { MulAssoc(2 * a, x, b); }
    MulAssoc(2, a, xb);
    MulDistribute(0x80_0000_0000_0000, short, a);
    assert y * b == a * 0x100_0000 * TWO32 - a * (2 * short) by {
      assert a * xb == a * 0x80_0000_0000_0000 - a * short;
      MulAssoc(a, 2, short);
    }
    SingleFields();
    SingleGap(a, b, short);
    EstimateIsClose(24, a, b, q, y, TWO32, 2 * short);
  }

  /** Taking 2 off makes the reciprocal strictly low, also where it wrapped to zero. */
  lemma SingleReciprocal(q31b: nat, reciprocal: nat)
    requires TWO31 <= q31b < TWO32 && reciprocal < TWO32
    requires var exact := if reciprocal == 0 then TWO32 else reciprocal;
      -(TWO32 - 1) <= Deficit(exact, q31b) <= 10 * q31b
    ensures var x := Wrap(32, reciprocal - 2);
      x < TWO32 && 0 < Deficit(x, q31b) <= 12 * q31b
  {
    SingleFields();
    var exact: nat := if reciprocal == 0 then TWO32 else reciprocal;
    ReciprocalNotSmall(exact, q31b);
    if reciprocal == 0 {
      DivModUnique(-2, TWO32, -1, TWO32 - 2);
    } else {
      DivModUnique(exact - 2, TWO32, 0, exact - 2);
    }
    assert Wrap(32, reciprocal - 2) == exact - 2;
    MulDistribute(exact, 2, q31b);
  }

  /** The reciprocal __divsf3 multiplies by, as a fraction of 2^32: strictly below
      2^63 / q31b, and by at most 12 units, so by less than 2^-28. */
  method ReciprocalSingle(q31b: nat) returns (reciprocal: nat)
    requires TWO31 <= q31b < TWO32
    ensures reciprocal < TWO32
    ensures reciprocal * q31b < TWO63 <= (reciprocal + 12) * q31b
    ensures 0 < Deficit(reciprocal, q31b) <= 12 * q31b
  {
    reciprocal := Newton(q31b);
    SingleReciprocal(q31b, reciprocal);
    reciprocal := Wrap(32, reciprocal - 2);
    MulDistribute(reciprocal, 12, q31b);
  }

  lemma ReciprocalNotSmall(x: nat, b: nat)
    requires b < TWO32 && Deficit(x, b) <= 10 * b
    ensures x >= 2
  {
    if x < 2 {
      MulMonotone(x, 1, b);
    }
  }

  /** Single-precision division. */
  method Divsf3(a: nat, b: nat) returns (r: nat)
    requires a < Pow2(32) && b < Pow2(32)
    ensures SINGLE.Valid() && CorrectlyDivided(SINGLE, a, b, r)
  {
    hide Pow2, CorrectlyDivided, NormalSignificand, NormalExponent, Shl, Wrap;
    SingleFields();
    var special, result, quotientSign, aSignificand, bSignificand, quotientExponent := Unpack(SINGLE, a, b);
    if special {
      return result;
    }
    NormalForm(SINGLE, AbsRep(SINGLE, a));
    NormalForm(SINGLE, AbsRep(SINGLE, b));
    SingleShifts(aSignificand, bSignificand);
    var q31b := Shl(32, bSignificand, 8);
    var reciprocal := ReciprocalSingle(q31b);
    var quotient := Wrap(32, Shr(reciprocal * Shl(32, aSignificand, 1), 32));
    SingleQuotientFits(reciprocal, aSignificand);
    SingleEstimate(aSignificand, bSignificand, reciprocal, quotient);
    r := RoundQuotient(SINGLE, a, b, aSignificand, bSignificand, quotient, quotientExponent, quotientSign);
  }

  lemma SingleShifts(a: nat, b: nat)
    requires a < 0x100_0000 && b < 0x100_0000
    ensures Shl(32, b, 8) == 256 * b && Shl(32, a, 1) == 2 * a
  {
    SingleFields();
    Pow2Values();
    PowersBelowFive();
    DivModUnique(256 * b, Pow2(32), 0, 256 * b);
    DivModUnique(2 * a, Pow2(32), 0, 2 * a);
  }

  lemma SingleQuotientFits(x: nat, a: nat)
    requires x < TWO32 && a < 0x100_0000
    ensures x * (2 * a) >= 0
    ensures Wrap(32, Shr(x * (2 * a), 32)) == x * (2 * a) / TWO32
  {
    SingleFields();
    MulMonotone(0, x, 2 * a);
    MulMonotone(x, TWO32, 2 * a);
    var q := x * (2 * a) / TWO32;
    DivModUnique(q, TWO32, 0, q);
  }

  // ---- __divdf3 ----

  function DoubleWord(high: nat, low: nat): nat { high * TWO32 + low }

  /** The divisor as a 64-bit fixed-point number, and its two halves. */
  lemma DoubleHalves(b: nat)
    requires 0x10_0000_0000_0000 <= b < 0x20_0000_0000_0000
    ensures var high, low := Shr(b, 21), Wrap(32, Shl(64, b, 11));
      && TWO31 <= high < TWO32 && low < TWO32
      && b * 0x800 == high * TWO32 + low
  {
    DoubleFields();
    DivModUnique(b * 0x800, Pow2(64), 0, b * 0x800);
    DivModUnique(b * 0x800, TWO32, b / 0x20_0000, b % 0x20_0000 * 0x800);
  }

  /** The correction word of the extra-precision step is the full 64-bit one. */
  lemma DoubleCorrection(x: nat, high: nat, low: nat)
    requires TWO31 <= high < TWO32 && low < TWO32 && 2 <= x < TWO32
    ensures x * high + Shr(x * low, 32) >= 0
    ensures Wrap(64, 0 - (x * high + Shr(x * low, 32))) == TWO64 - x * DoubleWord(high, low) / TWO32
  {
    DoubleFields();
    hide Pow2;
    var b := DoubleWord(high, low);
    WideCorrection(x, high, low);
    MulMonotone(0, x, low);
    MulMonotone(0, x, high);
    MulMonotone(2, x, b);
    MulMonotone(x, TWO32 - 1, b);
    var s := x * b / TWO32;
    DivModUnique(-s, TWO64, -1, TWO64 - s);
  }

  /** A product with the two halves of a word is the product with the word. */
  lemma ProductByHalves(x: nat, c: nat)
    requires x < TWO32 && c < TWO64
    ensures Shr(c, 32) == c / TWO32 && Wrap(32, c) == c % TWO32
    ensures x * (c % TWO32) >= 0
    ensures Wrap(64, x * (c / TWO32) + Shr(x * (c % TWO32), 32)) == x * c / TWO32
  {
    DoubleFields();
    hide Pow2;
    WideCorrection(x, c / TWO32, c % TWO32);
    MulMonotone(0, x, c);
    MulMonotone(0, x, c % TWO32);
    MulMonotone(x, TWO32 - 1, c);
    var next := x * c / TWO32;
    DivModUnique(next, TWO64, 0, next);
  }

  /** The extra-precision step: how the two correction words make up the full product. */
  lemma DoubleReciprocal(x: nat, high: nat, low: nat)
    requires TWO31 <= high < TWO32 && low < TWO32
    requires x < TWO32 && -(TWO31 as int) <= Deficit(x, high) <= 11 * high
    ensures x >= 2
    ensures var c := TWO64 - x * DoubleWord(high, low) / TWO32;
      && 0 <= c < TWO64
      && (var reciprocal := Wrap(64, x * c / TWO32 - 2);
          0 < TWO126 - reciprocal * DoubleWord(high, low) <= 124 * DoubleWord(high, low))
  {
    DoubleFields();
    hide Pow2;
    var b := DoubleWord(high, low);
    MulMonotone(x, TWO32 - 1, b);
    DividendNotSmall(x, high);
    MulMonotone(2, x, b);
    var s := x * b / TWO32;
    assert 0 < s < TWO64;
    var c := TWO64 - s;
    MulMonotone(0, x, c);
    var next := x * c / TWO32;
    WideReciprocal(x, high, low, b, c, next);
    ReciprocalRange(next, b);
    DivModUnique(next - 2, TWO64, 0, next - 2);
  }

  lemma DividendNotSmall(x: nat, b: nat)
    requires b < TWO32 && Deficit(x, b) <= 11 * b
    ensures x >= 2
  {
    if x < 2 {
      MulMonotone(x, 1, b);
    }
  }

  lemma ReciprocalRange(next: nat, b: nat)
    requires TWO63 <= b < TWO64 && 0 < TWO126 - (next - 2) * b <= 124 * b
    ensures 2 <= next < TWO64
  {
    if next < 2 {
      MulMonotone(next - 2, 0, b);
    }
    if next >= TWO64 {
      MulMonotone(TWO63, next - 2, b);
    }
  }

  /** What the estimate is short of, for a reciprocal short by at most 124 units. */
  lemma DoubleGap(a: nat, b: nat, short: int)
    requires 0 < a < 0x20_0000_0000_0000 && 0 < short <= 124 * b
    ensures 0 < a * (4 * short) && 2 * (a * (4 * short)) <= b * TWO64
  {
    MulAssoc(a, 4, short);
    MulMonotone(1, a, short);
    MulMonotone(a, 0x20_0000_0000_0000, short);
  }

  /** The estimate of __divdf3 from its reciprocal. */
  lemma DoubleEstimate(a: nat, b: nat, x: nat, q: nat, lo: nat, a4: nat, q63b: nat)
    requires 0x10_0000_0000_0000 <= a < 0x20_0000_0000_0000 && 0x10_0000_0000_0000 <= b < 0x20_0000_0000_0000
    requires a4 == 4 * a && q63b == b * 0x800
    requires 0 < TWO126 - x * q63b <= 124 * q63b
    requires q * TWO64 + lo == a4 * x && lo < TWO64
    ensures CloseBelow(53, a, b, q)
  {
    var xb := x * b;
    MulAssoc(x, b, 0x800);
    var short := 0x8_0000_0000_0000_0000_0000_0000_0000 - xb;
    assert TWO126 - x * (b * 0x800) == 0x800 * short;
    var y := 4 * a * x;
    assert y * b == 4 * a * xb by { MulAssoc(4 * a, x, b); }
    MulAssoc(4, a, xb);
    assert a * xb == a * 0x8_0000_0000_0000_0000_0000_0000_0000 - a * short by {
      MulDistribute(0x8_0000_0000_0000_0000_0000_0000_0000, short, a);
    }
    MulAssoc(a, 4, short);
    DoubleFields();
    MulDistribute(q, 1, TWO64);
    DoubleGap(a, b, short);
    EstimateIsClose(53, a, b, q, y, TWO64, 4 * short);
  }

  /** The last refinement: 32-bit partial products of the double-width step. */
  method RefineWide(recip32: nat, q31b: nat, q63blo: nat) returns (reciprocal: nat)
    requires TWO31 <= q31b < TWO32 && q63blo < TWO32
    requires recip32 < TWO32 && -(TWO31 as int) <= Deficit(recip32, q31b) <= 11 * q31b
    ensures reciprocal < TWO64
    ensures 0 < TWO126 - reciprocal * DoubleWord(q31b, q63blo) <= 124 * DoubleWord(q31b, q63blo)
  {
    hide Pow2, Shr, Wrap;
    DoubleFields();
    DoubleReciprocal(recip32, q31b, q63blo);
    DoubleCorrection(recip32, q31b, q63blo);
    var correction := Wrap(64, 0 - (recip32 * q31b + Shr(recip32 * q63blo, 32)));
    var cHi, cLo := Shr(correction, 32), Wrap(32, correction);
    ProductByHalves(recip32, correction);
    reciprocal := Wrap(64, recip32 * cHi + Shr(recip32 * cLo, 32));
    reciprocal := Wrap(64, reciprocal - 2);
  }

  /** The quotient estimate of __divdf3. */
  method EstimateDouble(aSignificand: nat, bSignificand: nat) returns (quotient: nat)
    requires 0x10_0000_0000_0000 <= aSignificand < 0x20_0000_0000_0000
    requires 0x10_0000_0000_0000 <= bSignificand < 0x20_0000_0000_0000
    ensures CloseBelow(53, aSignificand, bSignificand, quotient)
  {
    hide Pow2, Shl, Shr, Wrap, Deficit, CloseBelow;
    DoubleFields();
    DoubleHalves(bSignificand);
    var q31b := Shr(bSignificand, 21);
    var recip32: nat := Newton(q31b);
    DecrementReciprocal(q31b, recip32);
    recip32 := Wrap(32, recip32 - 1);
    var q63blo := Wrap(32, Shl(64, bSignificand, 11));
    var reciprocal := RefineWide(recip32, q31b, q63blo);
    ShlByTwo(aSignificand);
    var shifted := Shl(64, aSignificand, 2);
    var quotientLo;
    quotient, quotientLo := WideMultiply(32, shifted, reciprocal);
    DoubleEstimate(aSignificand, bSignificand, reciprocal, quotient, quotientLo, shifted, DoubleWord(q31b, q63blo));
  }

  /** Double-precision division. */
  method Divdf3(a: nat, b: nat) returns (r: nat)
    requires a < Pow2(64) && b < Pow2(64)
    ensures DOUBLE.Valid() && CorrectlyDivided(DOUBLE, a, b, r)
  {
    hide Pow2, CorrectlyDivided, NormalSignificand, NormalExponent, CloseBelow, Magnitude, ScaleB;
    DoubleFields();
    var special, result, quotientSign, aSignificand, bSignificand, quotientExponent := Unpack(DOUBLE, a, b);
    if special {
      return result;
    }
    NormalForm(DOUBLE, AbsRep(DOUBLE, a));
    NormalForm(DOUBLE, AbsRep(DOUBLE, b));
    var quotient := EstimateDouble(aSignificand, bSignificand);
    r := RoundQuotient(DOUBLE, a, b, aSignificand, bSignificand, quotient, quotientExponent, quotientSign);
  }

  lemma ShlByTwo(a: nat)
    requires a < 0x20_0000_0000_0000
    ensures Shl(64, a, 2) == 4 * a
  {
    DoubleFields();
    assert Pow2(2) == 4;
    DivModUnique(4 * a, Pow2(64), 0, 4 * a);
  }

  /** recip32-- also undoes the wrap to zero at a divisor of exactly 1.0. */
  lemma DecrementReciprocal(b: nat, reciprocal: nat)
    requires TWO31 <= b < TWO32 && reciprocal < TWO32
    requires var exact := if reciprocal == 0 then TWO32 else reciprocal;
      -(TWO32 - 1) <= Deficit(exact, b) <= 10 * b
    ensures var x := Wrap(32, reciprocal - 1);
      x < TWO32 && -(TWO31 as int) <= Deficit(x, b) <= 11 * b
  {
    DoubleFields();
    var exact: nat := if reciprocal == 0 then TWO32 else reciprocal;
    if reciprocal == 0 {
      DivModUnique(-1, TWO32, -1, TWO32 - 1);
    } else {
      DivModUnique(exact - 1, TWO32, 0, exact - 1);
    }
    MulDistribute(exact, 1, b);
  }
}

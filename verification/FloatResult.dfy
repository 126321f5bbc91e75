/** From a rounded magnitude to the bit pattern that must be returned for it. */
module FloatResult {
  import opened Arithmetic
  import opened Bits
  import opened Rounding
  import opened FloatFormat

  /** The result pattern for a rounded magnitude y: infinity on overflow, a zero
      below the least normal number (results are flushed, not made subnormal),
      and otherwise the pattern whose value is y. */
  ghost predicate Delivers(f: Format, r: nat, sign: nat, y: real)
    requires f.Valid()
  {
    if y >= Pow2R(f.ExponentBias() + 1) then r == f.InfRep() + sign
    else if y < Pow2R(1 - f.ExponentBias()) then r == sign
    else
      && r == AbsRep(f, r) + sign
      && IsFinite(f, r)
      && Magnitude(f, AbsRep(f, r)) == y
  }

  lemma BinadeStart(f: Format, e: int)
    requires f.Valid()
    ensures ScaleB(f.ImplicitBit() as real, e) == Pow2R(f.significandBits + e)
    ensures ScaleB((2 * f.ImplicitBit()) as real, e) == Pow2R(f.significandBits + 1 + e)
  {
    Pow2RIsPow2(f.significandBits);
    Pow2RIsPow2(f.significandBits + 1);
    hide Pow2R, ScaleB;
    ScaleBPow2R(f.significandBits, e);
    ScaleBPow2R(f.significandBits + 1, e);
  }

  /** Infinity's pattern would be the first power of two out of range. */
  lemma InfinityMagnitude(f: Format)
    requires f.Valid()
    ensures Magnitude(f, f.InfRep()) == Pow2R(f.ExponentBias() + 1)
  {
    hide Pow2, ScaleB, Pow2R, Magnitude;
    ConstantsAgree(f);
    var e := f.MaxExponent();
    MulDistribute(e - 1, 1, f.ImplicitBit());
    EncodedValue(f, e, f.ImplicitBit());
    BinadeStart(f, e - f.ExponentBias() - f.significandBits);
  }

  /** A significand above the top exponent overflows. */
  lemma OverflowValue(f: Format, m: nat, w: int)
    requires f.Valid() && f.ImplicitBit() <= m && w >= f.MaxExponent()
    ensures ScaleB(m as real, w - f.ExponentBias() - f.significandBits) >= Pow2R(f.ExponentBias() + 1)
  {
    hide Pow2, ScaleB, Pow2R;
    TopExponent(f);
    var e := w - f.ExponentBias() - f.significandBits;
    ScaleBOrder(f.ImplicitBit() as real, m as real, e);
    BinadeStart(f, e);
    Pow2RMonotone(f.ExponentBias() + 1, f.significandBits + e);
  }

  /** A significand below the least exponent underflows, unless it rounds up to
      the least normal number. */
  lemma UnderflowValue(f: Format, m: nat, w: int)
    requires f.Valid() && m <= 2 * f.ImplicitBit() && w <= 0
    ensures var y := ScaleB(m as real, w - f.ExponentBias() - f.significandBits);
      if w == 0 && m == 2 * f.ImplicitBit()
      then y == Pow2R(1 - f.ExponentBias())
      else y < Pow2R(1 - f.ExponentBias())
  {
    hide Pow2, ScaleB, Pow2R;
    var e := w - f.ExponentBias() - f.significandBits;
    BinadeStart(f, e);
    ScaleBOrder((2 * f.ImplicitBit()) as real, m as real, e);
    Pow2RMonotone(f.significandBits + 1 + e, 1 - f.ExponentBias());
  }

  /** In between, the packed pattern has the rounded value. */
  lemma NormalValue(f: Format, m: nat, w: nat, sign: nat)
    requires f.Valid() && f.ImplicitBit() <= m <= 2 * f.ImplicitBit()
    requires 1 <= w < f.MaxExponent() && (sign == 0 || sign == f.SignBit())
    ensures Delivers(f, (w - 1) * f.ImplicitBit() + m + sign, sign,
                     ScaleB(m as real, w - f.ExponentBias() - f.significandBits))
    ensures (w - 1) * f.ImplicitBit() + m <= f.InfRep() < f.SignBit()
  {
    hide Pow2, ScaleB, Pow2R, Magnitude;
    ConstantsAgree(f);
    var i, abs := f.ImplicitBit(), (w - 1) * f.ImplicitBit() + m;
    MulDistribute(w - 1, 2, i);
    MulMonotone(w + 1, f.MaxExponent(), i);
    EncodedValue(f, w, m);
    InfinityMagnitude(f);
    AbsOfSigned(f, abs, sign);
    if abs < f.InfRep() {
      MagnitudeMonotone(f, abs, f.InfRep());
      NormalAtLeast(f, m, w);
    }
  }

  lemma NormalAtLeast(f: Format, m: nat, w: nat)
    requires f.Valid() && f.ImplicitBit() <= m && 1 <= w
    ensures ScaleB(m as real, w - f.ExponentBias() - f.significandBits) >= Pow2R(1 - f.ExponentBias())
  {
    hide Pow2, ScaleB, Pow2R;
    var e := w - f.ExponentBias() - f.significandBits;
    ScaleBOrder(f.ImplicitBit() as real, m as real, e);
    BinadeStart(f, e);
    Pow2RMonotone(1 - f.ExponentBias(), f.significandBits + e);
  }

  lemma AbsOfSigned(f: Format, abs: nat, sign: nat)
    requires f.Valid() && abs < f.SignBit() && (sign == 0 || sign == f.SignBit())
    ensures AbsRep(f, abs + sign) == abs
    ensures Negative(f, abs + sign) <==> sign != 0
    ensures Or(abs, sign) == abs + sign
  {
    DivModUnique(abs + sign, f.SignBit(), if sign == 0 then 0 else 1, abs);
    OrSign(abs, sign, f.width - 1);
  }

  lemma OrSign(abs: nat, sign: nat, k: nat)
    requires abs < Pow2(k) && (sign == 0 || sign == Pow2(k))
    ensures Or(abs, sign) == abs + sign
  {
    if sign != 0 {
      OrDisjoint(1, abs, k);
    }
  }

  lemma InsertExponent(f: Format, fraction: nat, w: nat)
    requires f.Valid() && fraction < f.ImplicitBit() && w < f.MaxExponent()
    ensures Shl(f.width, w, f.significandBits) == w * f.ImplicitBit()
    ensures Or(fraction, w * f.ImplicitBit()) == w * f.ImplicitBit() + fraction
  {
    hide Pow2, Or;
    OrDisjoint(w, fraction, f.significandBits);
    ConstantsAgree(f);
    DigitsBound(w, f.MaxExponent() + 1, 0, f.ImplicitBit());
    DivModUnique(w * f.ImplicitBit(), Pow2(f.width), 0, w * f.ImplicitBit());
  }

  lemma Overflowed(f: Format, m: nat, w: int, sign: nat)
    requires f.Valid() && f.ImplicitBit() <= m && w >= f.MaxExponent()
    ensures Delivers(f, f.InfRep() + sign, sign, ScaleB(m as real, w - f.ExponentBias() - f.significandBits))
  {
    OverflowValue(f, m, w);
  }

  lemma Flushed(f: Format, m: nat, w: int, sign: nat)
    requires f.Valid() && m <= 2 * f.ImplicitBit() && w <= 0 && (sign == 0 || sign == f.SignBit())
    ensures var y := ScaleB(m as real, w - f.ExponentBias() - f.significandBits);
      if w == 0 && m == 2 * f.ImplicitBit()
      then Delivers(f, f.ImplicitBit() + sign, sign, y)
      else Delivers(f, sign, sign, y)
  {
    hide Pow2, ScaleB, Pow2R, Magnitude;
    UnderflowValue(f, m, w);
    ConstantsAgree(f);
    Pow2RMonotone(1 - f.ExponentBias(), f.ExponentBias() + 1);
    if w == 0 && m == 2 * f.ImplicitBit() {
      EncodedValue(f, 1, f.ImplicitBit());
      BinadeStart(f, 1 - f.ExponentBias() - f.significandBits);
      MulMonotone(2, f.MaxExponent(), f.ImplicitBit());
      AbsOfSigned(f, f.ImplicitBit(), sign);
    }
  }
}

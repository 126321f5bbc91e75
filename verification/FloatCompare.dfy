/** Floating-point comparison on signed bit patterns: comparesf2.c and
    comparedf2.c, which are the same text for the two formats. */
module FloatCompare {
  import opened Arithmetic
  import opened Bits
  import opened Rounding
  import opened FloatFormat
  import opened FloatResult
  import opened IntToFloat
  import opened SignedDivision

  // ---- the routines ----

  const LESS := -1
  const EQUAL := 0
  const GREATER := 1
  const LE_UNORDERED := 1
  const GE_UNORDERED := -1

  /** The comparison both routines make once NaNs are out of the way. */
  function CompareInts(f: Format, a: nat, b: nat): int
    requires f.Valid()
  {
    var aInt, bInt := Signed(f.width, a), Signed(f.width, b);
    if Or(And(a, f.AbsMask()), And(b, f.AbsMask())) == 0 then EQUAL
    else if Signed(f.width, And(a, b)) >= 0 then
      if aInt < bInt then LESS else if aInt == bInt then EQUAL else GREATER
    else
      if aInt > bInt then LESS else if aInt == bInt then EQUAL else GREATER
  }

  /** __lesf2 and __ledf2. */
  function Le(f: Format, a: nat, b: nat): int
    requires f.Valid()
  {
    if And(a, f.AbsMask()) > f.InfRep() || And(b, f.AbsMask()) > f.InfRep() then LE_UNORDERED
    else CompareInts(f, a, b)
  }

  /** __gesf2 and __gedf2. */
  function Ge(f: Format, a: nat, b: nat): int
    requires f.Valid()
  {
    if And(a, f.AbsMask()) > f.InfRep() || And(b, f.AbsMask()) > f.InfRep() then GE_UNORDERED
    else CompareInts(f, a, b)
  }

  /** __unordsf2 and __unorddf2. */
  function Unord(f: Format, a: nat, b: nat): int
    requires f.Valid()
  {
    BoolToInt(And(a, f.AbsMask()) > f.InfRep() || And(b, f.AbsMask()) > f.InfRep())
  }

  // ---- the order they are to compute ----

  /** A number of the format: a real or one of the infinities. Both zeros are
      the real zero. */
  datatype Extended = MinusInfinity | Finite(x: real) | PlusInfinity

  function Decode(f: Format, rep: nat): Extended
    requires f.Valid() && !IsNaN(f, rep)
  {
    if IsInfinite(f, rep) then (if Negative(f, rep) then MinusInfinity else PlusInfinity)
    else Finite(Value(f, rep))
  }

  predicate Less(x: Extended, y: Extended) {
    match (x, y)
    case (MinusInfinity, MinusInfinity) => false
    case (MinusInfinity, _) => true
    case (Finite(r), Finite(s)) => r < s
    case (Finite(_), PlusInfinity) => true
    case (Finite(_), MinusInfinity) => false
    case (PlusInfinity, _) => false
  }

  /** The sign of a comparison. */
  function Ordering(x: Extended, y: Extended): int {
    if Less(x, y) then -1 else if x == y then 0 else 1
  }

  /** Two numbers are in one of three orders. */
  lemma LessIsTotal(x: Extended, y: Extended)
    ensures Less(x, y) || x == y || Less(y, x)
  {}

  // ---- the proof ----

  lemma SignOfSigned(w: nat, x: nat)
    requires 0 < w && x < Pow2(w)
    ensures Signed(w, x) < 0 <==> Bit(x, w - 1) == 1
    ensures Bit(x, w - 1) == 0 || Bit(x, w - 1) == 1
  {
    TopBit(x, w - 1);
  }

  lemma BothNegative(f: Format, a: nat, b: nat)
    requires f.Valid() && a < Pow2(f.width) && b < Pow2(f.width)
    ensures Signed(f.width, And(a, b)) < 0 <==> Negative(f, a) && Negative(f, b)
  {
    hide And, Pow2, Bit;
    AndBound(a, b);
    AndBits(a, b, f.width - 1);
    SignOfSigned(f.width, And(a, b));
    TopBit(a, f.width - 1);
    TopBit(b, f.width - 1);
  }

  /** A pattern as a sign and a magnitude pattern, and as a signed integer. */
  lemma SignMagnitude(f: Format, rep: nat)
    requires f.Valid() && rep < Pow2(f.width)
    ensures And(rep, f.AbsMask()) == AbsRep(f, rep) < f.SignBit()
    ensures rep == AbsRep(f, rep) + (if Negative(f, rep) then f.SignBit() else 0)
    ensures Signed(f.width, rep) == AbsRep(f, rep) - (if Negative(f, rep) then f.SignBit() else 0)
  {
    hide And, Pow2;
    AndMask(rep, f.width - 1);
    ConstantsAgree(f);
    SplitSign(f, rep);
  }

  /** Decoding a magnitude keeps the order of patterns up to infinity. */
  lemma DecodeOrder(f: Format, a: nat, b: nat)
    requires f.Valid() && !IsNaN(f, a) && !IsNaN(f, b)
    ensures !Negative(f, a) && !Negative(f, b) ==>
      && (AbsRep(f, a) < AbsRep(f, b) ==> Less(Decode(f, a), Decode(f, b)))
      && (AbsRep(f, a) == AbsRep(f, b) ==> Decode(f, a) == Decode(f, b))
    ensures Negative(f, a) && Negative(f, b) ==>
      && (AbsRep(f, a) > AbsRep(f, b) ==> Less(Decode(f, a), Decode(f, b)))
      && (AbsRep(f, a) == AbsRep(f, b) ==> Decode(f, a) == Decode(f, b))
    ensures Negative(f, a) && !Negative(f, b) ==>
      if AbsRep(f, a) == 0 && AbsRep(f, b) == 0 then Decode(f, a) == Decode(f, b)
      else Less(Decode(f, a), Decode(f, b))
  {
    hide Magnitude, Pow2, AbsRep, Negative;
    var x, y := AbsRep(f, a), AbsRep(f, b);
    ZeroMagnitude(f);
    InfinityNotZero(f);
    if x < y {
      MagnitudeMonotone(f, x, y);
    } else if y < x {
      MagnitudeMonotone(f, y, x);
    }
    if 0 < x {
      MagnitudeMonotone(f, 0, x);
    }
    if 0 < y {
      MagnitudeMonotone(f, 0, y);
    }
  }

  lemma LessIsStrict(x: Extended, y: Extended)
    ensures Less(x, y) ==> !Less(y, x) && x != y
  {}

  /** What the shared comparison computes, in terms of signs and magnitudes. */
  lemma CompareIntsCases(f: Format, a: nat, b: nat)
    requires f.Valid() && a < Pow2(f.width) && b < Pow2(f.width)
    ensures var x, y := AbsRep(f, a), AbsRep(f, b);
      CompareInts(f, a, b)
      == if x == 0 && y == 0 then 0
         else if Negative(f, a) && Negative(f, b) then (if x > y then -1 else if x == y then 0 else 1)
         else if Negative(f, a) then -1
         else if Negative(f, b) then 1
         else (if x < y then -1 else if x == y then 0 else 1)
  {
    hide And, Or, Pow2, Signed, AbsRep, Negative;
    SignMagnitude(f, a);
    SignMagnitude(f, b);
    BothNegative(f, a, b);
    OrZero(AbsRep(f, a), AbsRep(f, b));
  }

  /** The comparison is -1, 0 or 1 as the first value is less, equal or greater. */
  lemma CompareIntsOrders(f: Format, a: nat, b: nat)
    requires f.Valid() && a < Pow2(f.width) && b < Pow2(f.width) && !IsNaN(f, a) && !IsNaN(f, b)
    ensures CompareInts(f, a, b) == -1 <==> Less(Decode(f, a), Decode(f, b))
    ensures CompareInts(f, a, b) == 0 <==> Decode(f, a) == Decode(f, b)
    ensures CompareInts(f, a, b) == 1 <==> Less(Decode(f, b), Decode(f, a))
    ensures CompareInts(f, a, b) == Ordering(Decode(f, a), Decode(f, b))
  {
    hide CompareInts, Decode, Less, AbsRep, Negative, Pow2;
    CompareIntsCases(f, a, b);
    DecodeOrder(f, a, b);
    DecodeOrder(f, b, a);
    LessIsStrict(Decode(f, a), Decode(f, b));
    LessIsStrict(Decode(f, b), Decode(f, a));
    LessIsTotal(Decode(f, a), Decode(f, b));
    if AbsRep(f, a) == 0 && AbsRep(f, b) == 0 {
      ZerosAlike(f, a, b);
    }
  }

  /** +0 and -0 are equal. */
  lemma ZerosAlike(f: Format, a: nat, b: nat)
    requires f.Valid() && AbsRep(f, a) == 0 && AbsRep(f, b) == 0
    ensures !IsNaN(f, a) && !IsNaN(f, b) && Decode(f, a) == Decode(f, b) == Finite(0.0)
  {
    hide Magnitude, Pow2;
    ZeroMagnitude(f);
    InfinityNotZero(f);
  }

  /** The three comparisons of section 5.11 of IEEE 754-2008: on numbers, -1, 0 or
      1 as the first is less, equal or greater; on a NaN, what each documents. */
  lemma ComparisonIsOrder(f: Format, a: nat, b: nat)
    requires f.Valid() && a < Pow2(f.width) && b < Pow2(f.width)
    ensures Unord(f, a, b) == if IsNaN(f, a) || IsNaN(f, b) then 1 else 0
    ensures IsNaN(f, a) || IsNaN(f, b) ==> Le(f, a, b) == 1 && Ge(f, a, b) == -1
    ensures !IsNaN(f, a) && !IsNaN(f, b) ==>
      var x, y := Decode(f, a), Decode(f, b);
      && Le(f, a, b) == Ge(f, a, b)
      && (Le(f, a, b) == -1 <==> Less(x, y))
      && (Le(f, a, b) == 0 <==> x == y)
      && (Le(f, a, b) == 1 <==> Less(y, x))
  {
    hide CompareInts, Decode, Ordering, And, Pow2, AbsRep;
    SignMagnitude(f, a);
    SignMagnitude(f, b);
    if !IsNaN(f, a) && !IsNaN(f, b) {
      CompareIntsOrders(f, a, b);
    }
  }

  // ---- conversion and comparison together ----

  /** A delivered pattern is a number of the format with the given sign. */
  lemma DeliveredNumber(f: Format, r: nat, sign: nat, y: real)
    requires f.Valid() && y >= 1.0 && Delivers(f, r, sign, y) && (sign == 0 || sign == f.SignBit())
    ensures r < Pow2(f.width) && !IsNaN(f, r) && (Negative(f, r) <==> sign != 0)
    ensures 0 < AbsRep(f, r) <= f.InfRep()
    ensures if y >= Pow2R(f.ExponentBias() + 1) then AbsRep(f, r) == f.InfRep() else IsFinite(f, r) && Magnitude(f, AbsRep(f, r)) == y
  {
    hide Magnitude, Pow2, Pow2R;
    ConstantsAgree(f);
    AbsOfSigned(f, f.InfRep(), sign);
    InfinityNotZero(f);
    Pow2RValues();
    Pow2RMonotone(1 - f.ExponentBias(), 0);
    ZeroMagnitude(f);
    if y < Pow2R(f.ExponentBias() + 1) {
      AbsOfSigned(f, AbsRep(f, r), sign);
    }
  }

  /** Larger values are delivered as larger magnitudes. */
  lemma DeliveryKeepsOrder(f: Format, r: nat, s: nat, sign: nat, y: real, z: real)
    requires f.Valid() && 1.0 <= y <= z && (sign == 0 || sign == f.SignBit())
    requires Delivers(f, r, sign, y) && Delivers(f, s, sign, z)
    ensures AbsRep(f, r) <= AbsRep(f, s)
  {
    hide Magnitude, Pow2, Pow2R, Delivers, AbsRep;
    DeliveredNumber(f, r, sign, y);
    DeliveredNumber(f, s, sign, z);
    if AbsRep(f, s) < AbsRep(f, r) {
      MagnitudeMonotone(f, AbsRep(f, s), AbsRep(f, r));
    }
  }

  lemma RoundedAtLeastOne(x: nat, p: nat)
    requires x > 0 && p > 0
    ensures Rounded(x as real, p) >= 1.0
  {
    hide Rounded;
    ScaleBZero(1.0);
    Pow2Monotone(0, p);
    RoundedExact(p, 1, 0);
    RoundedMonotone(1.0, x as real, p);
  }

  lemma MagnitudesKeepOrder(f: Format, x: nat, y: nat, r: nat, s: nat, sign: nat)
    requires f.Valid() && 0 < x <= y && (sign == 0 || sign == f.SignBit())
    requires Delivers(f, r, sign, Rounded(x as real, f.significandBits + 1))
    requires Delivers(f, s, sign, Rounded(y as real, f.significandBits + 1))
    ensures AbsRep(f, r) <= AbsRep(f, s)
  {
    hide Rounded, Delivers;
    RoundedAtLeastOne(x, f.significandBits + 1);
    RoundedMonotone(x as real, y as real, f.significandBits + 1);
    DeliveryKeepsOrder(f, r, s, sign, Rounded(x as real, f.significandBits + 1), Rounded(y as real, f.significandBits + 1));
  }

  /** The pattern of a converted integer: a number, with the integer's sign. */
  lemma ConvertedNumber(f: Format, a: int, r: nat)
    requires f.Valid() && Converted(f, a, r)
    ensures r < Pow2(f.width) && !IsNaN(f, r) && (Negative(f, r) <==> a < 0)
    ensures AbsRep(f, r) == 0 <==> a == 0
  {
    hide Rounded, Delivers, Magnitude, Pow2;
    if a == 0 {
      InfinityNotZero(f);
      DivModUnique(0, f.SignBit(), 0, 0);
    } else {
      RoundedAtLeastOne(Abs(a), f.significandBits + 1);
      DeliveredNumber(f, r, if a < 0 then f.SignBit() else 0, Rounded(Abs(a) as real, f.significandBits + 1));
    }
  }

  /** Comparing two converted integers: less and greater as the integers are, unless
      they have become one number, and then equal. */
  lemma ConversionKeepsOrder(f: Format, a: int, b: int, r: nat, s: nat)
    requires f.Valid() && Converted(f, a, r) && Converted(f, b, s) && a <= b
    ensures r < Pow2(f.width) && s < Pow2(f.width) && !IsNaN(f, r) && !IsNaN(f, s)
    ensures Decode(f, r) == Decode(f, s) ==> Le(f, r, s) == Ge(f, r, s) == Le(f, s, r) == Ge(f, s, r) == 0
    ensures Decode(f, r) != Decode(f, s) ==> Le(f, r, s) == Ge(f, r, s) == -1 && Le(f, s, r) == Ge(f, s, r) == 1
    ensures Unord(f, r, s) == Unord(f, s, r) == 0
  {
    hide Decode, Less, Le, Ge, Unord, Converted, Pow2, IsNaN;
    ConvertedNumber(f, a, r);
    ConvertedNumber(f, b, s);
    ComparisonIsOrder(f, r, s);
    ComparisonIsOrder(f, s, r);
    ConversionNotReversed(f, a, b, r, s);
    LessIsTotal(Decode(f, r), Decode(f, s));
  }

  lemma ConversionNotReversed(f: Format, a: int, b: int, r: nat, s: nat)
    requires f.Valid() && Converted(f, a, r) && Converted(f, b, s) && a <= b
    ensures Le(f, r, s) <= 0
  {
    hide Rounded, Delivers, Pow2, AbsRep, Negative, CompareInts, And;
    ConvertedNumber(f, a, r);
    ConvertedNumber(f, b, s);
    SignMagnitude(f, r);
    SignMagnitude(f, s);
    CompareIntsCases(f, r, s);
    if 0 < a {
      MagnitudesKeepOrder(f, a, b, r, s, 0);
    } else if b < 0 {
      MagnitudesKeepOrder(f, Abs(b), Abs(a), s, r, f.SignBit());
    }
  }

  /** An integer of no more bits than a significand keeps its value. */
  lemma ExactConversion(f: Format, a: int, r: nat)
    requires f.Valid() && f.significandBits + 1 <= f.ExponentBias() && Converted(f, a, r)
    requires Abs(a) <= Pow2(f.significandBits + 1)
    ensures !IsNaN(f, r) && Decode(f, r) == Finite(a as real)
  {
    hide Rounded, Delivers, Magnitude, Pow2, Pow2R, ScaleB;
    ConvertedNumber(f, a, r);
    InfinityNotZero(f);
    if a == 0 {
      ZerosAlike(f, r, r);
    } else {
      var p, y := f.significandBits + 1, Abs(a) as real;
      ScaleBZero(y);
      RoundedExact(p, Abs(a), 0);
      RoundedAtLeastOne(Abs(a), p);
      Pow2RIsPow2(p);
      Pow2RMonotone(p, f.ExponentBias() + 1);
      DeliveredNumber(f, r, if a < 0 then f.SignBit() else 0, y);
    }
  }

  /** __lesf2 on two integers converted by __floatdisf (or the like): never the
      wrong way round, though distinct integers may convert to equal floats; and the
      order of the integers when they have at most 24 bits. */
  method CompareConverted(N: nat, a: int, b: int) returns (order: int, x: nat, y: nat)
    requires 32 <= N <= 128 && InRange(N, a) && InRange(N, b)
    ensures SINGLE.Valid() && Converted(SINGLE, a, x) && Converted(SINGLE, b, y)
    ensures order == Le(SINGLE, x, y)
    ensures a <= b ==> order == 0 || order == -1
    ensures a >= b ==> order == 0 || order == 1
    ensures -0x100_0000 <= a <= 0x100_0000 && -0x100_0000 <= b <= 0x100_0000 ==>
      order == if a < b then -1 else if a == b then 0 else 1
  {
    hide Converted, Le, Ge, Unord, Pow2, Decode;
    x := FloatSignedSingle(N, a);
    y := FloatSignedSingle(N, b);
    order := Le(SINGLE, x, y);
    if a <= b {
      ConversionKeepsOrder(SINGLE, a, b, x, y);
    }
    if b <= a {
      ConversionKeepsOrder(SINGLE, b, a, y, x);
    }
    if -0x100_0000 <= a <= 0x100_0000 && -0x100_0000 <= b <= 0x100_0000 {
      SingleFields();
      ExactConversion(SINGLE, a, x);
      ExactConversion(SINGLE, b, y);
    }
  }
}

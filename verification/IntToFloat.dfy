/** Integer to floating-point conversion: the P/Q/R rounding of floatdisf.c and
    its copies, parametric in the integer width N and the significand size, and
    the round-word algorithm of floatsisf.c and floatunsisf.c. */
module IntToFloat {
  import opened Arithmetic
  import opened Bits
  import opened Rounding
  import opened FloatFormat
  import opened FloatResult
  import opened SignedDivision

  // ---- the specification ----

  /** Conversion from integer (section 5.4.1 of IEEE 754-2008): the value rounded
      to nearest, ties to even, or infinity when that is out of range. */
  ghost predicate Converted(f: Format, a: int, r: nat)
    requires f.Valid()
  {
    if a == 0 then r == 0
    else Delivers(f, r, if a < 0 then f.SignBit() else 0, Rounded(Abs(a) as real, f.significandBits + 1))
  }

  /** At most one pattern is a correct delivery. */
  lemma DeliversUnique(f: Format, r: nat, r': nat, sign: nat, y: real)
    requires f.Valid() && Delivers(f, r, sign, y) && Delivers(f, r', sign, y)
    ensures r == r'
  {
    hide Magnitude, Pow2R;
    var x, x' := AbsRep(f, r), AbsRep(f, r');
    if x < x' {
      MagnitudeMonotone(f, x, x');
    } else if x' < x {
      MagnitudeMonotone(f, x', x);
    }
  }

  /** At most one pattern is a correct conversion. */
  lemma ConvertedUnique(f: Format, a: int, r: nat, r': nat)
    requires f.Valid() && Converted(f, a, r) && Converted(f, a, r')
    ensures r == r'
  {
    hide Delivers;
    if a != 0 {
      DeliversUnique(f, r, r', if a < 0 then f.SignBit() else 0, Rounded(Abs(a) as real, f.significandBits + 1));
    }
  }

  // ---- rounding an integer ----

  lemma WholeRatio(a: nat, k: nat)
    ensures ScaleB(Ratio(a, Pow2(k)), k) == a as real
  {
    hide ScaleB;
    ScaleBNumerator(a as real, Pow2(k) as real, k);
    ScaleBWhole(a, k);
    SelfQuotient(a, Pow2(k));
  }

  lemma SelfQuotient(a: nat, d: nat)
    requires d > 0
    ensures (a * d) as real / d as real == a as real
  {
    assert (a * d) as real == a as real * d as real;
  }

  /** Dropping the low k bits of an integer of p + k bits. */
  lemma RoundedInteger(a: nat, p: nat, k: nat)
    requires p > 0 && Pow2(p + k - 1) <= a < Pow2(p + k)
    ensures a > 0
    ensures Rounded(a as real, p) == ScaleB(RoundRatio(a, Pow2(k)) as real, k)
    ensures Pow2(p - 1) <= RoundRatio(a, Pow2(k)) <= Pow2(p)
  {
    hide ScaleB, Rounded, RoundRatio, Pow2;
    Pow2Add(p - 1, k);
    Pow2Add(p, k);
    WholeRatio(a, k);
    RoundedRatio(a, Pow2(k), k, p);
    RoundRatioBounds(a, Pow2(k), Pow2(p - 1), Pow2(p));
  }

  lemma RoundRatioBounds(n: nat, d: nat, lo: nat, hi: nat)
    requires d > 0 && lo * d <= n < hi * d
    ensures lo <= RoundRatio(n, d) <= hi
  {
    DivModIdentity(n, d);
    var q := n / d;
    if q < lo {
      MulMonotone(q + 1, lo, d);
      MulDistribute(q, 1, d);
    }
    if q >= hi {
      MulMonotone(hi, q, d);
    }
  }

  /** An integer of at most p bits is exact. */
  lemma RoundedSmall(a: nat, p: nat)
    requires p > 0 && 0 < a < Pow2(p)
    ensures Rounded(a as real, p) == a as real
  {
    hide Rounded;
    ScaleBZero(a as real);
    RoundedExact(p, a, 0);
  }

  // ---- P, Q and R ----

  lemma HalfOfFour(t: nat, low: nat, c: nat)
    requires t < 4 && low < c
    ensures 2 * (t * c + low) > 4 * c <==> t == 3 || (t == 2 && low > 0)
    ensures 2 * (t * c + low) == 4 * c <==> t == 2 && low == 0
  {
    if t == 0 {
    } else if t == 1 {
    } else if t == 2 {
    } else {
      assert t == 3;
    }
  }

  lemma SplitByFour(a: nat, c: nat)
    requires c > 0
    ensures a / (4 * c) == a / c / 4 && a % (4 * c) == a / c % 4 * c + a % c
  {
    DivideTwice(a, c, 4);
  }

  /** P, Q and the sticky bit as numbers. */
  lemma StickyCases(x: nat, sticky: bool)
    ensures var y := OrInto(x, sticky); var q, t := x / 4, x % 4;
      && (OrInto(y, y / 4 % 2 == 1) + 1) / 4
         == (if t == 3 || (t == 2 && sticky) then q + 1 else if t == 2 then q + q % 2 else q)
      && y <= x + 1
  {
    var q, t := x / 4, x % 4;
    OrIntoDigit(q, t, sticky);
    var u := OrInto(t, sticky);
    OrIntoDigit(q, u, q % 2 == 1);
    var v := OrInto(u, q % 2 == 1);
    assert v == 3 <==> t == 3 || (t == 2 && (sticky || q % 2 == 1));
    QuarterAfter(q, v);
  }

  /** The low bit of a number is that of its last digit in base four. */
  lemma ParityOfDigit(q: nat, t: nat)
    ensures (4 * q + t) % 2 == t % 2
  {
    ModAddMultiple(t, 2 * q, 2);
  }

  lemma OrIntoDigit(q: nat, t: nat, flag: bool)
    requires t < 4
    ensures OrInto(t, flag) < 4 && OrInto(4 * q + t, flag) == 4 * q + OrInto(t, flag)
    ensures (4 * q + OrInto(t, flag)) / 4 == q
  {
    ParityOfDigit(q, t);
    DivModUnique(4 * q + OrInto(t, flag), 4, q, OrInto(t, flag));
  }

  lemma QuarterAfter(q: nat, v: nat)
    requires v < 4
    ensures (4 * q + v + 1) / 4 == if v == 3 then q + 1 else q
  {
    DivModUnique(4 * q + v + 1, 4, if v == 3 then q + 1 else q, if v == 3 then 0 else v + 1);
  }

  /** Two bits below the last place and a sticky bit decide the rounding. */
  lemma StickyRounds(a: nat, c: nat)
    requires c > 0
    ensures var y := OrInto(a / c, a % c != 0);
      (OrInto(y, y / 4 % 2 == 1) + 1) / 4 == RoundRatio(a, 4 * c)
    ensures OrInto(a / c, a % c != 0) <= a / c + 1
  {
    hide RoundRatio, OrInto;
    DivModIdentity(a, c);
    StickyCases(a / c, a % c != 0);
    SplitByFour(a, c);
    HalfOfFour(a / c % 4, a % c, c);
    RoundRatioByHalf(a, 4 * c);
  }

  lemma RoundRatioScaled(a: nat, d: nat)
    requires d > 0
    ensures RoundRatio(2 * a, 2 * d) == RoundRatio(a, d)
  {
    HalveFirst(2 * a, d);
  }

  lemma LowMask(N: nat, k: nat)
    requires k <= N
    ensures Shr(Pow2(N) - 1, N - k) == Pow2(k) - 1
  {
    hide Pow2, Shr;
    Pow2Add(k, N - k);
    ShrDivides(Pow2(N) - 1, N - k);
    MaskQuotient(Pow2(k), Pow2(N - k), Pow2(N));
  }

  lemma MaskQuotient(x: nat, y: nat, n: nat)
    requires x > 0 && y > 0 && n == x * y
    ensures (n - 1) / y == x - 1
  {
    MulDistribute(x, 1, y);
    DivModUnique(n - 1, y, x - 1, y - 1);
  }

  /** The bits P and Q, and all below as R, next to a significand of p bits. */
  function Spread(a: nat, k: nat): nat
    requires k > 0
  {
    if k == 1 then 2 * a
    else OrInto(Shr(a, k - 2), a % Pow2(k - 2) != 0)
  }

  lemma SpreadRounds(a: nat, p: nat, k: nat)
    requires k > 0 && a < Pow2(p + k)
    ensures (OrInto(Spread(a, k), Spread(a, k) / 4 % 2 == 1) + 1) / 4 == RoundRatio(a, Pow2(k))
    ensures Spread(a, k) <= Pow2(p + 2)
  {
    hide RoundRatio, Spread, OrInto, Pow2, Shr;
    if k == 1 {
      SpreadOneBit(a, p);
    } else {
      Pow2AsDouble(k);
      Pow2AsDouble(k - 1);
      SpreadMoreBits(a, k);
      StickyRounds(a, Pow2(k - 2));
      ShrBound(a, p + k, k - 2);
      ShrDivides(a, k - 2);
    }
  }

  lemma SpreadMoreBits(a: nat, k: nat)
    requires k > 1
    ensures Spread(a, k) == OrInto(Shr(a, k - 2), a % Pow2(k - 2) != 0)
  {}

  lemma SpreadOneBit(a: nat, p: nat)
    requires a < Pow2(p + 1)
    ensures (OrInto(Spread(a, 1), Spread(a, 1) / 4 % 2 == 1) + 1) / 4 == RoundRatio(a, Pow2(1))
    ensures Spread(a, 1) <= Pow2(p + 2)
  {
    hide RoundRatio, OrInto, Pow2;
    PowersBelowFive();
    Pow2AsDouble(p + 2);
    StickyRounds(2 * a, 1);
    WithoutSticky(2 * a);
    RoundRatioScaled(a, 2);
  }

  lemma WithoutSticky(x: nat)
    ensures OrInto(x / 1, x % 1 != 0) == x
  {}

  /** Drops k bits, leaving P, Q and R: the switch of the source. */
  method GatherPqr(N: nat, p: nat, value: nat, sd: nat) returns (a: nat)
    requires p + 3 <= N && p < sd <= N && value < Pow2(sd)
    ensures a == Spread(value, sd - p)
  {
    hide Pow2, Or, And;
    a := value;
    if sd == p + 1 {
      FitsWhenDoubled(N, a, sd);
      a := Shl(N, a, 1);
    } else if sd == p + 2 {
      KeptWhole(a);
    } else {
      LowMask(N, sd - p - 2);
      AndMask(a, sd - p - 2);
      OrOne(Shr(a, sd - (p + 2)), a % Pow2(sd - p - 2) != 0);
      a := Or(Shr(a, sd - (p + 2)), BoolToInt(And(a, Shr(Pow2(N) - 1, N + p + 2 - sd)) != 0));
    }
  }

  lemma FitsWhenDoubled(N: nat, a: nat, sd: nat)
    requires a < Pow2(sd) && sd < N
    ensures Shl(N, a, 1) == 2 * a
  {
    Pow2Monotone(sd + 1, N);
    assert Pow2(1) == 2 && Pow2(sd + 1) == 2 * Pow2(sd);
    DivModUnique(2 * a, Pow2(N), 0, 2 * a);
  }

  lemma KeptWhole(a: nat)
    ensures Pow2(0) == 1 && a / Pow2(0) == a && a % Pow2(0) == 0
  {}

  /** Rounds a positive N-bit integer to p bits and finds its exponent. */
  method RoundPqr(N: nat, p: nat, value: nat) returns (a: nat, e: int)
    requires 2 <= p && p + 3 <= N && 0 < value < Pow2(N)
    ensures Pow2(p - 1) <= a < Pow2(p)
    ensures 0 <= e <= N && (e == N ==> a == Pow2(p - 1))
    ensures Rounded(value as real, p) == ScaleB(a as real, e - (p - 1))
  {
    hide Pow2, And, Or, Shl, BitLen, ScaleB, Rounded, RoundRatio, Spread, OrInto;
    var sd := N - Clz(N, value);
    e := sd - 1;
    Pow2Monotone(p - 1, p);
    if sd > p {
      ghost var k: nat := sd - p;
      RoundedInteger(value, p, k);
      SpreadRounds(value, p, k);
      a := GatherPqr(N, p, value, sd);
      a := FinishPqr(N, p, a);
      CarryBit(a, p);
      if And(a, Pow2(p)) != 0 {
        a, e := CarriedUp(a, e, p);
      }
    } else {
      ShiftUp(N, p, value, sd);
      a := Shl(N, value, p - sd);
    }
  }

  /** Or P into R, add one, dump Q and R. */
  method FinishPqr(N: nat, p: nat, spread: nat) returns (a: nat)
    requires 2 <= p && p + 3 <= N && spread <= Pow2(p + 2)
    ensures a == (OrInto(spread, spread / 4 % 2 == 1) + 1) / 4
  {
    hide And, Or, Wrap, Pow2;
    AndFour(spread);
    OrOne(spread, spread / 4 % 2 == 1);
    a := Or(spread, BoolToInt(And(spread, 4) != 0));
    RoomForCarry(N, p);
    Unwrapped(N, a + 1);
    a := Wrap(N, a + 1);
    PowersBelowFive();
    a := Shr(a, 2);
  }

  /** The carry case: halve the significand, raise the exponent. */
  method CarriedUp(significand: nat, exponent: int, p: nat) returns (a: nat, e: int)
    requires p > 0 && significand == Pow2(p)
    ensures a == Pow2(p - 1) && e == exponent + 1
    ensures ScaleB(a as real, e - (p - 1)) == ScaleB(significand as real, exponent - (p - 1))
  {
    hide ScaleB;
    assert Pow2(1) == 2;
    a := Shr(significand, 1);
    e := exponent + 1;
    ScaleBTwice(a as real, exponent - (p - 1));
  }

  /** An integer that fits: its leading one moves to the top of the significand. */
  lemma ShiftUp(N: nat, p: nat, value: nat, sd: nat)
    requires 0 < sd <= p <= N && Pow2(sd - 1) <= value < Pow2(sd)
    ensures Pow2(p - 1) <= Shl(N, value, p - sd) < Pow2(p)
    ensures Rounded(value as real, p) == ScaleB(Shl(N, value, p - sd) as real, sd - 1 - (p - 1))
  {
    hide Pow2, ScaleB, Rounded;
    var k := p - sd;
    Pow2Add(sd, k);
    Pow2Add(sd - 1, k);
    Pow2Monotone(p, N);
    Pow2Monotone(sd, p);
    MulMonotone(Pow2(sd - 1), value, Pow2(k));
    MulMonotone(value + 1, Pow2(sd), Pow2(k));
    MulDistribute(value, 1, Pow2(k));
    assert Shl(N, value, k) == value * Pow2(k) by { Unwrapped(N, value * Pow2(k)); }
    RoundedSmall(value, p);
    OnGrid(value, 0, -k);
    ScaleBZero(value as real);
  }

  lemma AndFour(a: nat)
    ensures And(a, 4) != 0 <==> a / 4 % 2 == 1
  {
    AndBit(a, 2);
    assert Pow2(2) == 4;
  }

  lemma RoomForCarry(N: nat, p: nat)
    requires 2 <= p && p + 3 <= N
    ensures Pow2(p + 2) + 2 < Pow2(N)
  {
    Pow2Monotone(p + 3, N);
    Pow2Monotone(2, p + 2);
    assert Pow2(2) == 4;
  }

  lemma CarryBit(a: nat, p: nat)
    requires a <= Pow2(p)
    ensures And(a, Pow2(p)) != 0 <==> a == Pow2(p)
  {
    AndBit(a, p);
    TopBit(a, p);
  }

  // ---- packing ----

  /** Sign, exponent and mantissa or-ed into one 32-bit word. */
  lemma FieldsAdd(k: nat, sign: nat, expo: nat, mant: nat)
    requires k <= 31 && mant < Pow2(k) && expo * Pow2(k) < Pow2(31)
    requires sign == 0 || sign == Pow2(31)
    ensures Shl(32, expo, k) == expo * Pow2(k)
    ensures Or(Or(sign, expo * Pow2(k)), mant) == sign + expo * Pow2(k) + mant
  {
    hide Pow2, Or;
    MulMonotone(0, expo, Pow2(k));
    Pow2Monotone(31, 32);
    Unwrapped(32, expo * Pow2(k));
    OrSign(expo * Pow2(k), sign, 31);
    OrCommutes(sign, expo * Pow2(k));
    if sign == 0 {
      OrDisjoint(expo, mant, k);
    } else {
      Pow2Add(31 - k, k);
      MulDistribute(Pow2(31 - k), expo, Pow2(k));
      OrDisjoint(Pow2(31 - k) + expo, mant, k);
    }
  }

  /** (su_int)s & 0x80000000 for a sign mask s. */
  lemma SignField(N: nat, s: nat)
    requires 32 <= N && (s == 0 || s == Pow2(N) - 1)
    ensures And(Wrap(32, s), 0x8000_0000) == if s == 0 then 0 else 0x8000_0000
    ensures Pow2(31) == 0x8000_0000
  {
    hide Pow2, And;
    Pow2Values();
    AndBit(Wrap(32, s), 31);
    if s == 0 {
      Unwrapped(32, 0);
      BitOfZero(31);
    } else {
      Pow2Add(N - 32, 32);
      MulDistribute(Pow2(N - 32), 1, Pow2(32));
      DivModUnique(s, Pow2(32), Pow2(N - 32) - 1, Pow2(32) - 1);
      TopBit(Pow2(32) - 1, 31);
    }
  }

  method PackSingle(N: nat, s: nat, e: nat, a: nat) returns (r: nat)
    requires 32 <= N && (s == 0 || s == Pow2(N) - 1)
    requires 0x80_0000 <= a < 0x100_0000 && e <= 128
    ensures r == (e + 126) * 0x80_0000 + a + (if s == 0 then 0 else 0x8000_0000)
  {
    hide Pow2, And, Or, Shl, Wrap;
    Pow2Values();
    SingleFields();
    SignField(N, s);
    var sign, mant := And(Wrap(32, s), 0x8000_0000), And(Wrap(32, a), 0x7F_FFFF);
    Unwrapped(32, a);
    AndMask(a, 23);
    DivModUnique(a, 0x80_0000, 1, a - 0x80_0000);
    FieldsAdd(23, sign, e + 127, mant);
    r := Or(Or(sign, Shl(32, e + 127, 23)), mant);
  }

  lemma DoubleMantissa(a: nat)
    requires 0x10_0000_0000_0000 <= a < 0x20_0000_0000_0000
    ensures And(Wrap(32, Shr(a, 32)), 0xF_FFFF) == (a - 0x10_0000_0000_0000) / 0x1_0000_0000
    ensures And(Wrap(32, Shr(a, 32)), 0xF_FFFF) < 0x10_0000
    ensures Wrap(32, a) == a % 0x1_0000_0000
  {
    hide Pow2, And, Shr;
    Pow2Values();
    DoubleFields();
    ShrDivides(a, 32);
    var h := a / 0x1_0000_0000;
    Unwrapped(32, h);
    AndMask(h, 20);
    DivModUnique(h, 0x10_0000, 1, h - 0x10_0000);
  }

  method PackDouble(N: nat, s: nat, e: nat, a: nat) returns (r: nat)
    requires 32 <= N && (s == 0 || s == Pow2(N) - 1)
    requires 0x10_0000_0000_0000 <= a < 0x20_0000_0000_0000 && e <= 128
    ensures r == (e + 1022) * 0x10_0000_0000_0000 + a + (if s == 0 then 0 else 0x8000_0000_0000_0000)
  {
    hide Pow2, And, Or, Shl, Wrap, Shr;
    Pow2Values();
    DoubleFields();
    SignField(N, s);
    DoubleMantissa(a);
    var sign, mantissaHigh := And(Wrap(32, s), 0x8000_0000), And(Wrap(32, Shr(a, 32)), 0xF_FFFF);
    FieldsAdd(20, sign, e + 1023, mantissaHigh);
    var high := Or(Or(sign, Shl(32, e + 1023, 20)), mantissaHigh);
    var low := Wrap(32, a);
    r := Join(32, high, low);
  }

  /** A packed significand and exponent are the delivery of their value; the
      largest exponent, one past the format's, is infinity. */
  lemma PackedDelivers(f: Format, sign: nat, e: nat, a: nat)
    requires f.Valid() && (sign == 0 || sign == f.SignBit())
    requires f.ImplicitBit() <= a <= 2 * f.ImplicitBit() && e <= f.ExponentBias() + 1
    requires e == f.ExponentBias() + 1 ==> a == f.ImplicitBit()
    ensures (e + f.ExponentBias() - 1) * f.ImplicitBit() >= 0
    ensures Delivers(f, (e + f.ExponentBias() - 1) * f.ImplicitBit() + a + sign, sign,
                     ScaleB(a as real, e - f.significandBits))
  {
    ConstantsAgree(f);
    hide Pow2, ScaleB, Delivers;
    var w := e + f.ExponentBias();
    MulMonotone(0, w - 1, f.ImplicitBit());
    if w < f.MaxExponent() {
      NormalValue(f, a, w, sign);
    } else {
      Overflowed(f, a, w, sign);
      MulDistribute(w - 1, 1, f.ImplicitBit());
    }
  }

  // ---- the routines ----

  /** __floatdisf for N = 64, __floattisf for N = 128. */
  method FloatSignedSingle(N: nat, a: int) returns (r: nat)
    requires 32 <= N <= 128 && InRange(N, a)
    ensures SINGLE.Valid() && Converted(SINGLE, a, r)
  {
    hide Pow2, Sar, Wrap, Xor, ScaleB, Rounded, Delivers;
    SingleFields();
    Pow2Add(1, N - 1);
    if a == 0 {
      return 0;
    }
    var s := Sar(N, Wrap(N, a), N - 1);
    SignMask(N, a);
    AbsolutePattern(N, a);
    AbsInRange(N, a);
    var magnitude := Wrap(N, Xor(Wrap(N, a), s) - s);
    var significand, e := RoundPqr(N, 24, magnitude);
    r := PackSingle(N, s, e, significand);
    PackedDelivers(SINGLE, if a < 0 then SINGLE.SignBit() else 0, e, significand);
  }

  lemma AbsInRange(N: nat, a: int)
    requires 0 < N && InRange(N, a)
    ensures Abs(a) < Pow2(N)
  {}

  /** __floatdidf for N = 64, __floattidf for N = 128. */
  method FloatSignedDouble(N: nat, a: int) returns (r: nat)
    requires 56 <= N <= 128 && InRange(N, a)
    ensures DOUBLE.Valid() && Converted(DOUBLE, a, r)
  {
    hide Pow2, Sar, Wrap, Xor, ScaleB, Rounded, Delivers;
    DoubleFields();
    if a == 0 {
      return 0;
    }
    var s := Sar(N, Wrap(N, a), N - 1);
    SignMask(N, a);
    AbsolutePattern(N, a);
    AbsInRange(N, a);
    var magnitude := Wrap(N, Xor(Wrap(N, a), s) - s);
    var significand, e := RoundPqr(N, 53, magnitude);
    r := PackDouble(N, s, e, significand);
    PackedDelivers(DOUBLE, if a < 0 then DOUBLE.SignBit() else 0, e, significand);
  }

  /** __floatundisf for N = 64; __floatuntisf for N = 128, where the largest
      arguments round up to infinity. */
  method FloatUnsignedSingle(N: nat, a: nat) returns (r: nat)
    requires 32 <= N <= 128 && a < Pow2(N)
    ensures SINGLE.Valid() && Converted(SINGLE, a, r)
  {
    hide Pow2, ScaleB, Rounded, Delivers;
    SingleFields();
    if a == 0 {
      return 0;
    }
    var significand, e := RoundPqr(N, 24, a);
    r := PackSingle(N, 0, e, significand);
    PackedDelivers(SINGLE, 0, e, significand);
  }

  /** __floatundidf for N = 64, __floatuntidf for N = 128. */
  method FloatUnsignedDouble(N: nat, a: nat) returns (r: nat)
    requires 56 <= N <= 128 && a < Pow2(N)
    ensures DOUBLE.Valid() && Converted(DOUBLE, a, r)
  {
    hide Pow2, ScaleB, Rounded, Delivers;
    DoubleFields();
    if a == 0 {
      return 0;
    }
    var significand, e := RoundPqr(N, 53, a);
    r := PackDouble(N, 0, e, significand);
    PackedDelivers(DOUBLE, 0, e, significand);
  }

  // ---- the other algorithm: a round word compared with the sign bit ----

  /** a << (32 - k) holds the bits dropped by a >> k, so comparing it with the
      sign bit compares them with one half. */
  lemma RoundWord(a: nat, k: nat)
    requires 0 < k < 32 && a < Pow2(32)
    ensures var round, dropped := Shl(32, a, 32 - k), a % Pow2(k);
      && (round > 0x8000_0000 <==> 2 * dropped > Pow2(k))
      && (round == 0x8000_0000 <==> 2 * dropped == Pow2(k))
  {
    hide Pow2;
    Pow2Values();
    ShlKeepsLow(32, a, 32 - k);
    var dropped, c := a % Pow2(k), Pow2(32 - k);
    Pow2Add(k, 32 - k);
    Trichotomy(2 * dropped, Pow2(k), c);
    MulAssoc(2, dropped, c);
  }

  lemma Trichotomy(x: int, y: int, c: int)
    requires c > 0
    ensures x > y <==> x * c > y * c
    ensures x == y <==> x * c == y * c
  {
    if x < y {
      MulMonotone(x + 1, y, c);
      MulDistribute(x, 1, c);
    } else if y < x {
      MulMonotone(y + 1, x, c);
      MulDistribute(y, 1, c);
    }
  }

  /** Clearing the implicit bit with an exclusive or. */
  lemma ClearTop(x: nat)
    requires 0x80_0000 <= x < 0x100_0000
    ensures Xor(x, 0x80_0000) == x - 0x80_0000
  {
    hide Xor, Pow2;
    SingleFields();
    XorWithBit(x, 23);
    TopBit(x, 23);
  }

  /** Shifts right by k, rounding to nearest even; the implicit bit is gone. */
  method ShiftDownRounding(a: nat, k: nat) returns (result: nat)
    requires 0 < k <= 8 && a < Pow2(32) && 0x80_0000 <= a / Pow2(k) < 0x100_0000
    ensures result == RoundRatio(a, Pow2(k)) - 0x80_0000 <= 0x80_0000
  {
    hide Pow2, Xor, And, Shl, Shr, Wrap, RoundRatio;
    Pow2Values();
    ShrDivides(a, k);
    RoundRatioByHalf(a, Pow2(k));
    ClearTop(a / Pow2(k));
    ModAddMultiple(a / Pow2(k), -0x40_0000, 2);
    RoundWord(a, k);
    result := Xor(Shr(a, k), 0x80_0000);
    var round := Shl(32, a, 32 - k);
    if round > 0x8000_0000 {
      Unwrapped(32, result + 1);
      result := Wrap(32, result + 1);
    }
    if round == 0x8000_0000 {
      LowBit(result);
      Unwrapped(32, result + result % 2);
      result := Wrap(32, result + And(result, 1));
    }
  }

  lemma LowBit(x: nat)
    ensures And(x, 1) == x % 2
  {
    AndMask(x, 1);
    assert Pow2(1) == 2;
  }

  /** Significand and exponent by the round word; adding the exponent lets a
      significand that rounded up to 2^24 carry into it. */
  method RoundByWord(a: nat) returns (result: nat)
    requires 0 < a < Pow2(32)
    ensures SINGLE.Valid() && Delivers(SINGLE, result, 0, Rounded(a as real, 24))
  {
    hide Pow2, Xor, Shl, Wrap, BitLen, ScaleB, Rounded, Delivers, RoundRatio;
    SingleFields();
    var exponent := 31 - Clz(32, a);
    ghost var significand: nat;
    if exponent <= 23 {
      ShiftUp(32, 24, a, exponent + 1);
      significand := Shl(32, a, 23 - exponent);
      ClearTop(significand);
      result := Xor(Shl(32, a, 23 - exponent), 0x80_0000);
    } else {
      var shift := exponent - 23;
      QuotientRange(a, exponent);
      RoundedInteger(a, 24, shift);
      significand := RoundRatio(a, Pow2(shift));
      result := ShiftDownRounding(a, shift);
    }
    ExponentField(exponent + 127, result);
    result := Wrap(32, result + Shl(32, exponent + 127, 23));
    SinglePacked(exponent, significand, result, Rounded(a as real, 24));
  }

  lemma SinglePacked(exponent: nat, significand: nat, result: nat, y: real)
    requires exponent <= 127 && 0x80_0000 <= significand <= 0x100_0000
    requires result == (exponent + 126) * 0x80_0000 + significand && y == ScaleB(significand as real, exponent - 23)
    ensures SINGLE.Valid() && Delivers(SINGLE, result, 0, y)
  {
    SingleFields();
    hide Pow2, ScaleB, Delivers;
    PackedDelivers(SINGLE, 0, exponent, significand);
  }

  lemma QuotientRange(a: nat, exponent: nat)
    requires 23 <= exponent && Pow2(exponent) <= a < Pow2(exponent + 1)
    ensures 0x80_0000 <= a / Pow2(exponent - 23) < 0x100_0000
  {
    SingleFields();
    hide Pow2;
    var k := exponent - 23;
    Pow2Add(23, k);
    Pow2Add(24, k);
    QuotientBetween(a, Pow2(k), Pow2(23), Pow2(24));
  }

  lemma ExponentField(w: nat, result: nat)
    requires w <= 255 && result <= 0x80_0000
    ensures Wrap(32, result + Shl(32, w, 23)) == w * 0x80_0000 + result
  {
    hide Pow2;
    SingleFields();
    Pow2Values();
    Unwrapped(32, w * 0x80_0000);
    Unwrapped(32, w * 0x80_0000 + result);
  }

  /** Or-ing a sign into a delivered positive pattern. */
  lemma DeliversSigned(f: Format, r: nat, sign: nat, y: real)
    requires f.Valid() && Delivers(f, r, 0, y) && (sign == 0 || sign == f.SignBit())
    ensures Delivers(f, Or(r, sign), sign, y)
  {
    hide Pow2, Pow2R, Or, Magnitude;
    ConstantsAgree(f);
    AbsOfSigned(f, r, sign);
  }

  /** __floatunsisf. */
  method FloatWordUnsigned(a: nat) returns (r: nat)
    requires a < Pow2(32)
    ensures SINGLE.Valid() && Converted(SINGLE, a, r)
  {
    hide Pow2, Delivers, Rounded;
    if a == 0 {
      return 0;
    }
    r := RoundByWord(a);
  }

  /** __floatsisf: -a wraps for the least integer, whose pattern is still |a|. */
  method FloatWordSigned(value: int) returns (r: nat)
    requires InRange(32, value)
    ensures SINGLE.Valid() && Converted(SINGLE, value, r)
  {
    hide Delivers, Rounded, Or, Wrap;
    SingleFields();
    Pow2Values();
    var a := value;
    if a == 0 {
      return 0;
    }
    var sign := 0;
    if a < 0 {
      sign := 0x8000_0000;
      NegatedPattern(a);
      a := ToSigned(32, -a);
    }
    InRangeKept(32, a);
    r := RoundByWord(Wrap(32, a));
    DeliversSigned(SINGLE, r, sign, Rounded(Abs(value) as real, 24));
    r := Or(r, sign);
  }

  lemma NegatedPattern(a: int)
    requires InRange(32, a) && a < 0
    ensures Wrap(32, ToSigned(32, -a)) == -a
  {
    Pow2Values();
    hide Pow2;
    DivModUnique(-a, Pow2(32), 0, -a);
    if a == Min(32) {
      DivModUnique(a, Pow2(32), -1, -a);
    }
  }

  /** The two signed conversions of a 32-bit integer, by different rounding
      algorithms, give the same bits. */
  method SignedConversionsAgree(a: int) returns (byRoundWord: nat, byPqr: nat)
    requires InRange(32, a)
    ensures SINGLE.Valid() && Converted(SINGLE, a, byRoundWord) && byPqr == byRoundWord
  {
    hide Converted;
    Widened(a);
    byRoundWord := FloatWordSigned(a);
    byPqr := FloatSignedSingle(64, a);
    ConvertedUnique(SINGLE, a, byRoundWord, byPqr);
  }

  lemma Widened(a: int)
    requires InRange(32, a)
    ensures InRange(64, a)
  {
    Pow2Values();
  }

  /** And so do the two unsigned ones. */
  method UnsignedConversionsAgree(a: nat) returns (byRoundWord: nat, byPqr: nat)
    requires a < Pow2(32)
    ensures SINGLE.Valid() && Converted(SINGLE, a, byRoundWord) && byPqr == byRoundWord
  {
    hide Converted;
    Pow2Monotone(32, 64);
    byRoundWord := FloatWordUnsigned(a);
    byPqr := FloatUnsignedSingle(64, a);
    ConvertedUnique(SINGLE, a, byRoundWord, byPqr);
  }

  // ---- where conversion overflows ----

  lemma TopBounds(p: nat, k: nat)
    requires 2 <= p && 0 < k
    ensures Pow2(p) * (2 * Pow2(k - 1)) == Pow2(p + k) && Pow2(k) == 2 * Pow2(k - 1)
    ensures 2 <= Pow2(p) && Pow2(p) % 2 == 0
    ensures Pow2(p + k - 1) < Pow2(p + k) - Pow2(k - 1) < Pow2(p + k)
  {
    hide Pow2;
    Pow2Add(p, k);
    Pow2AsDouble(k);
    Pow2AsDouble(p);
    Pow2Monotone(0, p - 1);
    Pow2AsDouble(p + k);
    Pow2Monotone(k, p + k - 1);
    PowersBelowFive();
  }

  /** Half a last place below the next power of two rounds up to it, and the
      integer before that does not. */
  lemma RoundedNearTop(p: nat, k: nat)
    requires 2 <= p && 0 < k
    ensures Pow2(p + k) - Pow2(k - 1) > 1
    ensures Rounded((Pow2(p + k) - Pow2(k - 1)) as real, p) == Pow2R(p + k)
    ensures Rounded((Pow2(p + k) - Pow2(k - 1) - 1) as real, p) < Pow2R(p + k)
  {
    hide Rounded, Pow2R, RoundRatio, Pow2, ScaleB;
    TopBounds(p, k);
    var top := Pow2(p + k) - Pow2(k - 1);
    NearTop(Pow2(p), Pow2(k - 1), top);
    NearTop(Pow2(p), Pow2(k - 1), top - 1);
    RoundedInteger(top, p, k);
    RoundedInteger(top - 1, p, k);
    Pow2RIsPow2(p);
    ScaleBPow2R(p, k);
    ScaleBOrder(Pow2(p) as real, (Pow2(p) - 1) as real, k);
  }

  /** An integer of p + k bits rounds up to the next power of two from half a last
      place below it. */
  lemma RoundsUpToPower(a: nat, p: nat, k: nat)
    requires 2 <= p && 0 < k && 0 < a < Pow2(p + k)
    ensures Rounded(a as real, p) >= Pow2R(p + k) <==> a >= Pow2(p + k) - Pow2(k - 1)
  {
    hide Rounded, Pow2R, Pow2;
    RoundedNearTop(p, k);
    var top := Pow2(p + k) - Pow2(k - 1);
    if a >= top {
      RoundedMonotone(top as real, a as real, p);
    } else {
      RoundedMonotone(a as real, (top - 1) as real, p);
    }
  }

  lemma NearTop(t: nat, h: nat, x: nat)
    requires t >= 2 && h > 0 && t % 2 == 0
    requires x == t * (2 * h) - h || x == t * (2 * h) - h - 1
    ensures RoundRatio(x, 2 * h) == if x == t * (2 * h) - h then t else t - 1
  {
    MulDistribute(t, 1, 2 * h);
    DivModUnique(x, 2 * h, t - 1, x - (t - 1) * (2 * h));
  }

  /** A 128-bit integer becomes the single-precision infinity exactly from
      2^128 - 2^103 on. */
  lemma InfinityThreshold(a: nat, r: nat)
    requires a < Pow2(128)
    requires SINGLE.Valid() && Converted(SINGLE, a, r)
    ensures r == SINGLE.InfRep() <==> a >= Pow2(128) - Pow2(103)
  {
    hide Rounded, Pow2R, Pow2, Magnitude;
    SingleFields();
    ConstantsAgree(SINGLE);
    Pow2Monotone(103, 128);
    if a > 0 {
      RoundsUpToPower(a, 24, 104);
      AbsOfSigned(SINGLE, SINGLE.InfRep(), 0);
    }
  }
}

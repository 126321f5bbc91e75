/** Rounding of positive reals to a number of significant bits, to nearest with
    ties to even (section 4.3.1 of IEEE 754-2008), with an unbounded exponent.
    This is the reference the floating-point routines are held to. */
module Rounding {
  import opened Arithmetic
  import opened Bits

  /** x * 2^e, the scaleB of section 5.3.3 of IEEE 754-2008. */
  function ScaleB(x: real, e: int): real
    decreases if e >= 0 then e else -e
  {
    if e == 0 then x
    else if e > 0 then 2.0 * ScaleB(x, e - 1)
    else ScaleB(x, e + 1) / 2.0
  }

  /** Two to an integer power. */
  function Pow2R(e: int): (r: real)
    ensures r > 0.0
  {
    ScaleBSign(1.0, e);
    ScaleB(1.0, e)
  }

  // ---- powers of two and scaling ----

  lemma MulReals(x: real, y: real, z: real)
    requires x <= y && 0.0 <= z
    ensures x * z <= y * z
    ensures x < y && 0.0 < z ==> x * z < y * z
  {}

  lemma ScaleBStep(x: real, e: int)
    ensures ScaleB(x, e + 1) == 2.0 * ScaleB(x, e)
  {}

  lemma Pow2RStep(e: int)
    ensures Pow2R(e + 1) == 2.0 * Pow2R(e)
  {
    ScaleBStep(1.0, e);
  }

  lemma Pow2RValues()
    ensures Pow2R(0) == 1.0 && Pow2R(1) == 2.0
  {}

  /** A whole number scaled up is a whole number. */
  lemma {:induction false} ScaleBWhole(n: int, e: nat)
    ensures ScaleB(n as real, e) == (n * Pow2(e)) as real
  {
    if e > 0 {
      ScaleBWhole(n, e - 1);
      MulAssoc(n, 2, Pow2(e - 1));
    }
  }

  lemma Pow2RIsPow2(n: nat)
    ensures Pow2R(n) == Pow2(n) as real
  {
    ScaleBWhole(1, n);
  }

  lemma ScaleBZero(x: real)
    ensures ScaleB(x, 0) == x
  {}

  /** Scalings compose. */
  lemma {:induction false} ScaleBCompose(x: real, d: int, e: int)
    ensures ScaleB(ScaleB(x, d), e) == ScaleB(x, d + e)
    decreases if e >= 0 then e else -e
  {
    if e > 0 {
      ScaleBCompose(x, d, e - 1);
      ScaleBStep(x, d + e - 1);
    } else if e < 0 {
      ScaleBCompose(x, d, e + 1);
      ScaleBStep(x, d + e);
    }
  }

  lemma {:induction false} ScaleBOrder(x: real, y: real, e: int)
    ensures x <= y <==> ScaleB(x, e) <= ScaleB(y, e)
    ensures x == y <==> ScaleB(x, e) == ScaleB(y, e)
    decreases if e >= 0 then e else -e
  {
    if e > 0 {
      ScaleBOrder(x, y, e - 1);
    } else if e < 0 {
      ScaleBOrder(x, y, e + 1);
    }
  }

  lemma {:induction false} ScaleBNothing(e: int)
    ensures ScaleB(0.0, e) == 0.0
    decreases if e >= 0 then e else -e
  {
    if e > 0 {
      ScaleBNothing(e - 1);
    } else if e < 0 {
      ScaleBNothing(e + 1);
    }
  }

  lemma ScaleBSign(x: real, e: int)
    ensures x > 0.0 <==> ScaleB(x, e) > 0.0
    ensures x == 0.0 <==> ScaleB(x, e) == 0.0
  {
    ScaleBOrder(0.0, x, e);
    ScaleBOrder(x, 0.0, e);
    ScaleBNothing(e);
  }

  lemma {:induction false} ScaleBDifference(x: real, y: real, e: int)
    ensures ScaleB(x - y, e) == ScaleB(x, e) - ScaleB(y, e)
    decreases if e >= 0 then e else -e
  {
    if e > 0 {
      ScaleBDifference(x, y, e - 1);
    } else if e < 0 {
      ScaleBDifference(x, y, e + 1);
    }
  }

  lemma ScaleBPow2R(d: int, e: int)
    ensures ScaleB(Pow2R(d), e) == Pow2R(d + e)
  {
    ScaleBCompose(1.0, d, e);
  }

  lemma {:induction false} Pow2RMonotone(d: int, e: int)
    requires d <= e
    ensures Pow2R(d) <= Pow2R(e)
    ensures d < e ==> 2.0 * Pow2R(d) <= Pow2R(e)
    decreases e - d
  {
    hide Pow2R, Pow2;
    if d < e {
      Pow2RMonotone(d, e - 1);
      Pow2RStep(e - 1);
    }
  }

  // ---- the exponent ----

  lemma FloorExponent(x: real)
    requires x >= 1.0
    ensures BitLen(x.Floor) >= 1
    ensures Pow2R(BitLen(x.Floor) - 1) <= x < Pow2R(BitLen(x.Floor))
  {
    hide Pow2, Pow2R, BitLen;
    var b := BitLen(x.Floor);
    Pow2RIsPow2(b);
    Pow2RIsPow2(b - 1);
    assert x.Floor + 1 <= Pow2(b);
  }

  function FloorLog(x: real): (e: int)
    requires x >= 1.0
    ensures Pow2R(e) <= x < Pow2R(e + 1)
  {
    FloorExponent(x);
    BitLen(x.Floor) - 1
  }

  function Inverse(x: real): (y: real)
    requires 0.0 < x < 1.0
    ensures y > 1.0 && x * y == 1.0
  {
    ReciprocalOf(x);
    1.0 / x
  }

  /** The binary exponent: the e with 2^e <= x < 2^(e+1). */
  function Exponent(x: real): (e: int)
    requires x > 0.0
    ensures Pow2R(e) <= x < Pow2R(e + 1)
  {
    if x >= 1.0 then FloorLog(x)
    else
      var j := FloorLog(Inverse(x));
      ReciprocalExponent(x, j);
      if x == Pow2R(-j) then -j else -j - 1
  }

  lemma ReciprocalOf(x: real)
    requires 0.0 < x < 1.0
    ensures 1.0 / x > 1.0 && x * (1.0 / x) == 1.0
  {
    var y := 1.0 / x;
    assert x * y == 1.0;
    if y <= 1.0 {
      if y <= 0.0 { MulReals(y, 0.0, x); }
      MulReals(y, 1.0, x);
    }
  }

  lemma ReciprocalExponent(x: real, j: int)
    requires 0.0 < x < 1.0
    requires Pow2R(j) <= Inverse(x) < Pow2R(j + 1)
    ensures Pow2R(-j - 1) < x <= Pow2R(-j)
    ensures Pow2R(-j) < Pow2R(-j + 1)
  {
    hide Pow2R, Pow2, Inverse;
    Pow2RStep(-j);
    Pow2RReciprocal(j, x, Inverse(x));
    Pow2RReciprocal(j + 1, x, Inverse(x));
  }

  /** y = 1/x compares with 2^j as 2^-j compares with x. */
  lemma Pow2RReciprocal(j: int, x: real, y: real)
    requires x > 0.0 && y > 0.0 && x * y == 1.0
    ensures Pow2R(j) <= y <==> x <= Pow2R(-j)
    ensures y < Pow2R(j) <==> Pow2R(-j) < x
  {
    hide ScaleB;
    ScaleBTimes(x, y, -j);
    ScaleBOrder(Pow2R(j), y, -j);
    ScaleBPow2R(j, -j);
    Pow2RValues();
    ReciprocalScaled(x, y, ScaleB(y, -j), Pow2R(-j));
  }

  lemma {:induction false} ScaleBTimes(x: real, y: real, e: int)
    ensures x * ScaleB(y, e) == ScaleB(x * y, e)
    decreases if e >= 0 then e else -e
  {
    if e > 0 {
      ScaleBTimes(x, y, e - 1);
    } else if e < 0 {
      ScaleBTimes(x, y, e + 1);
    }
  }

  lemma ReciprocalScaled(x: real, y: real, z: real, p: real)
    requires x > 0.0 && y > 0.0 && x * z == p
    ensures 1.0 <= z <==> x <= p
    ensures z < 1.0 <==> p < x
  {
    if 1.0 <= z { MulReals(1.0, z, x); } else { MulReals(z, 1.0, x); }
  }

  lemma ExponentUnique(x: real, e: int)
    requires x > 0.0 && Pow2R(e) <= x < Pow2R(e + 1)
    ensures Exponent(x) == e
  {
    hide Exponent, Pow2R;
    var c := Exponent(x);
    if c < e {
      Pow2RMonotone(c + 1, e);
    } else if e < c {
      Pow2RMonotone(e + 1, c);
    }
  }

  // ---- rounding ----

  /** The integer nearest to x, the even one when two are equally near. */
  function RoundInt(x: real): (m: nat)
    requires x >= 0.0
  {
    var f := x.Floor;
    var d := x - f as real;
    if d > 0.5 || (d == 0.5 && f % 2 == 1) then f + 1 else f
  }

  /** The exponent of the last of p significant places of x. */
  function LastPlace(x: real, p: nat): int
    requires x > 0.0
  {
    Exponent(x) - p + 1
  }

  /** x counted in last places. */
  function Scaled(x: real, p: nat): (y: real)
    requires x > 0.0
    ensures y > 0.0
  {
    ScaleBSign(x, -LastPlace(x, p));
    ScaleB(x, -LastPlace(x, p))
  }

  /** The significand of x rounded to p bits: from 2^(p-1) to 2^p. */
  function Significand(x: real, p: nat): (m: nat)
    requires x > 0.0
  {
    RoundInt(Scaled(x, p))
  }

  /** x rounded to p significant bits. */
  function Rounded(x: real, p: nat): (y: real)
    requires x > 0.0
  {
    ScaleB(Significand(x, p) as real, LastPlace(x, p))
  }

  function AbsR(x: real): real { if x < 0.0 then -x else x }

  lemma NearestInt(y: real, k: int)
    requires y >= 0.0
    ensures AbsR(y - RoundInt(y) as real) <= AbsR(y - k as real)
    ensures AbsR(y - RoundInt(y) as real) == AbsR(y - k as real) && k != RoundInt(y) ==> RoundInt(y) % 2 == 0
  {
    var f := y.Floor;
    if k <= f {
      assert k as real <= f as real;
    } else {
      assert (f + 1) as real <= k as real;
    }
  }

  lemma RoundIntBetween(x: real, lo: nat, hi: int)
    requires lo as real <= x <= hi as real
    ensures lo <= RoundInt(x) <= hi
  {
    NearestInt(x, lo);
    NearestInt(x, hi);
  }

  lemma RoundIntMonotone(x: real, y: real)
    requires 0.0 <= x <= y
    ensures RoundInt(x) <= RoundInt(y)
  {
    if x.Floor != y.Floor {
      assert x.Floor + 1 <= y.Floor;
    }
  }

  /** Scaled to its last place, x lies in [2^(p-1), 2^p). */
  lemma ScaledRange(x: real, p: nat)
    requires x > 0.0 && p > 0
    ensures Pow2(p - 1) as real <= Scaled(x, p) < Pow2(p) as real
    ensures x == ScaleB(Scaled(x, p), LastPlace(x, p))
    ensures Pow2(p - 1) <= Significand(x, p) <= Pow2(p)
  {
    hide Exponent, Pow2R, Pow2, RoundInt, ScaleB;
    var e, k := Exponent(x), LastPlace(x, p);
    Pow2RIsPow2(p - 1);
    Pow2RIsPow2(p);
    ScaleBOrder(Pow2R(e), x, -k);
    ScaleBOrder(Pow2R(e + 1), x, -k);
    ScaleBPow2R(e, -k);
    ScaleBPow2R(e + 1, -k);
    ScaleBCompose(x, -k, k);
    ScaleBZero(x);
    RoundIntBetween(Scaled(x, p), Pow2(p - 1), Pow2(p));
  }

  // ---- Rounded is the nearest ----

  /** A p-bit number with a smaller last place is below 2^(p-1) last places. */
  lemma BelowGrid(p: nat, n: nat, j: int, e: int)
    requires p > 0 && n <= Pow2(p) && j < e
    ensures ScaleB(n as real, j) <= ScaleB(Pow2(p - 1) as real, e)
  {
    hide Pow2R, Pow2, ScaleB;
    Pow2RIsPow2(p - 1);
    Pow2RIsPow2(p);
    ScaleBOrder(n as real, Pow2R(p), j);
    ScaleBPow2R(p, j);
    ScaleBPow2R(p - 1, e);
    Pow2RMonotone(p + j, p - 1 + e);
  }

  /** A number with a larger last place is a whole number of smaller ones. */
  lemma OnGrid(n: nat, j: int, e: int)
    requires e <= j
    ensures ScaleB(n as real, j) == ScaleB((n * Pow2(j - e)) as real, e)
  {
    hide Pow2R, Pow2, ScaleB;
    ScaleBWhole(n, j - e);
    ScaleBCompose(n as real, j - e, e);
  }

  /** Every p-bit number is a whole number of last places of x, or lies below
      the whole number 2^(p-1) of them. */
  lemma OnOrBelowGrid(p: nat, n: nat, j: int, e: int) returns (k: int)
    requires p > 0 && n <= Pow2(p)
    ensures ScaleB(n as real, j) == ScaleB(k as real, e)
         || (k == Pow2(p - 1) && ScaleB(n as real, j) <= ScaleB(k as real, e))
  {
    hide ScaleB;
    if e <= j {
      OnGrid(n, j, e);
      k := n * Pow2(j - e);
    } else {
      BelowGrid(p, n, j, e);
      k := Pow2(p - 1);
    }
  }

  lemma ScaleBDistance(x: real, y: real, e: int)
    ensures AbsR(ScaleB(x, e) - ScaleB(y, e)) == ScaleB(AbsR(x - y), e)
  {
    hide ScaleB;
    ScaleBDifference(x, y, e);
    ScaleBDifference(y, x, e);
    ScaleBOrder(x, y, e);
  }

  /** Distances scale. */
  lemma ScaledNearer(y: real, m: real, k: real, e: int)
    requires AbsR(y - m) <= AbsR(y - k)
    ensures AbsR(ScaleB(y, e) - ScaleB(m, e)) <= AbsR(ScaleB(y, e) - ScaleB(k, e))
    ensures AbsR(ScaleB(y, e) - ScaleB(m, e)) == AbsR(ScaleB(y, e) - ScaleB(k, e)) ==> AbsR(y - m) == AbsR(y - k)
    ensures k <= y ==> ScaleB(k, e) <= ScaleB(y, e)
  {
    hide ScaleB, AbsR;
    ScaleBDistance(y, m, e);
    ScaleBDistance(y, k, e);
    ScaleBOrder(AbsR(y - m), AbsR(y - k), e);
    ScaleBOrder(k, y, e);
  }

  /** What is nearer than w is nearer than anything that lies beyond w. */
  lemma NearerThanBeyond(x: real, r: real, w: real, v: real)
    requires AbsR(x - r) <= AbsR(x - w) && (v == w || v <= w <= x)
    ensures AbsR(x - r) <= AbsR(x - v)
    ensures AbsR(x - r) == AbsR(x - v) ==> v == w
  {}

  /** Among all numbers of p significant bits, Rounded picks the nearest; when
      it is not the only nearest one its significand is even. */
  lemma RoundedIsNearest(x: real, p: nat, n: nat, j: int)
    requires x > 0.0 && p > 0 && n <= Pow2(p)
    ensures var v := ScaleB(n as real, j);
      && AbsR(x - Rounded(x, p)) <= AbsR(x - v)
      && (AbsR(x - Rounded(x, p)) == AbsR(x - v) && v != Rounded(x, p) ==> Significand(x, p) % 2 == 0)
  {
    hide Exponent, Pow2R, Pow2, LastPlace, Scaled, RoundInt, AbsR, ScaleB;
    ScaledRange(x, p);
    var k := OnOrBelowGrid(p, n, j, LastPlace(x, p));
    NearestInt(Scaled(x, p), k);
    ScaledNearer(Scaled(x, p), Significand(x, p) as real, k as real, LastPlace(x, p));
    NearerThanBeyond(x, Rounded(x, p), ScaleB(k as real, LastPlace(x, p)), ScaleB(n as real, j));
  }

  /** A p-bit number is its own rounding. */
  lemma RoundedExact(p: nat, n: nat, j: int)
    requires p > 0 && 0 < n <= Pow2(p)
    ensures ScaleB(n as real, j) > 0.0
    ensures Rounded(ScaleB(n as real, j), p) == ScaleB(n as real, j)
  {
    hide ScaleB, Rounded;
    ScaleBSign(n as real, j);
    RoundedIsNearest(ScaleB(n as real, j), p, n, j);
  }

  // ---- Rounded preserves order ----

  lemma BinadeBounds(x: real, p: nat)
    requires x > 0.0 && p > 0
    ensures Pow2R(Exponent(x)) <= Rounded(x, p) <= Pow2R(Exponent(x) + 1)
  {
    hide Exponent, Pow2R, Pow2, RoundInt, ScaleB, Scaled;
    ScaledRange(x, p);
    Pow2RIsPow2(p - 1);
    Pow2RIsPow2(p);
    ScaleBPow2R(p - 1, LastPlace(x, p));
    ScaleBPow2R(p, LastPlace(x, p));
    ScaleBOrder(Pow2R(p - 1), Significand(x, p) as real, LastPlace(x, p));
    ScaleBOrder(Significand(x, p) as real, Pow2R(p), LastPlace(x, p));
  }

  lemma RoundedMonotoneInBinade(x: real, y: real, p: nat)
    requires 0.0 < x <= y && p > 0 && Exponent(x) == Exponent(y)
    ensures Rounded(x, p) <= Rounded(y, p)
  {
    hide Exponent, Pow2R, Pow2, RoundInt, ScaleB;
    ScaleBOrder(x, y, -LastPlace(y, p));
    RoundIntMonotone(Scaled(x, p), Scaled(y, p));
    ScaleBOrder(Significand(x, p) as real, Significand(y, p) as real, LastPlace(y, p));
  }

  /** Rounding preserves order. */
  lemma RoundedMonotone(x: real, y: real, p: nat)
    requires 0.0 < x <= y && p > 0
    ensures Rounded(x, p) <= Rounded(y, p)
  {
    hide Exponent, Pow2R, Pow2, RoundInt, Rounded;
    var d, e := Exponent(x), Exponent(y);
    if e < d {
      Pow2RMonotone(e + 1, d);
    }
    if d == e {
      RoundedMonotoneInBinade(x, y, p);
    } else {
      BinadeBounds(x, p);
      BinadeBounds(y, p);
      Pow2RMonotone(d + 1, e);
    }
  }

  // ---- rounding a quotient of integers ----

  /** The integer nearest to n / d, the even one when two are equally near. */
  function RoundRatio(n: nat, d: nat): (m: nat)
    requires d > 0
  {
    DivModIdentity(n, d);
    var q, r := n / d, n % d;
    if 2 * r > d || (2 * r == d && q % 2 == 1) then q + 1 else q
  }

  function Ratio(n: int, d: int): real
    requires d > 0
  {
    n as real / d as real
  }

  lemma QuotientOrder(n: real, d: real, k: real)
    requires d > 0.0
    ensures k * d <= n <==> k <= n / d
    ensures k * d < n <==> k < n / d
  {
    var q := n / d;
    assert q * d == n;
    if k <= q { MulReals(k, q, d); } else { MulReals(q, k, d); }
  }

  lemma RatioOrder(n: int, d: int, k: int)
    requires d > 0
    ensures k * d <= n <==> k as real <= Ratio(n, d)
    ensures k * d < n <==> (k as real) < Ratio(n, d)
  {
    QuotientOrder(n as real, d as real, k as real);
    assert k as real * d as real == (k * d) as real;
  }

  lemma RoundRatioIsRoundInt(n: nat, d: nat)
    requires d > 0
    ensures Ratio(n, d) >= 0.0 && RoundInt(Ratio(n, d)) == RoundRatio(n, d)
  {
    hide RoundInt, RoundRatio, Ratio;
    DivModIdentity(n, d);
    var q := n / d;
    MulDistribute(q, 1, d);
    RatioOrder(n, d, 0);
    RatioOrder(n, d, q);
    RatioOrder(n, d, q + 1);
    RatioOrder(2 * n, d, 2 * q + 1);
    MulDistribute(2 * q, 1, d);
    MulAssoc(2, q, d);
    RatioDouble(n, d);
    RoundIntByHalf(Ratio(n, d), q);
    RoundRatioByHalf(n, d);
  }

  lemma RatioDouble(n: int, d: int)
    requires d > 0
    ensures Ratio(2 * n, d) == 2.0 * Ratio(n, d)
  {
    assert (2 * n) as real == 2.0 * n as real;
    DivideDouble(n as real, d as real);
  }

  lemma DivideDouble(n: real, d: real)
    requires d > 0.0
    ensures (2.0 * n) / d == 2.0 * (n / d)
  {}

  lemma RoundIntByHalf(x: real, q: nat)
    requires q as real <= x < (q + 1) as real
    ensures 2.0 * x < (2 * q + 1) as real ==> RoundInt(x) == q
    ensures 2.0 * x > (2 * q + 1) as real ==> RoundInt(x) == q + 1
    ensures 2.0 * x == (2 * q + 1) as real ==> RoundInt(x) == q + q % 2
  {
    assert x.Floor == q;
  }

  lemma RoundRatioByHalf(n: nat, d: nat)
    requires d > 0
    ensures var q, r := n / d, n % d;
      RoundRatio(n, d) == if 2 * r > d then q + 1 else if 2 * r < d then q else q + q % 2
  {}

  lemma HalveQuotient(x: real, y: real)
    requires y > 0.0
    ensures (x / 2.0) / y == x / y / 2.0 && x / (2.0 * y) == x / y / 2.0
    ensures (2.0 * x) / y == 2.0 * (x / y) && x / (y / 2.0) == 2.0 * (x / y)
  {}

  lemma {:induction false} ScaleBNumerator(x: real, y: real, e: int)
    requires y > 0.0
    ensures ScaleB(x, e) / y == ScaleB(x / y, e)
    decreases if e >= 0 then e else -e
  {
    if e > 0 {
      ScaleBNumerator(x, y, e - 1);
      HalveQuotient(ScaleB(x, e - 1), y);
    } else if e < 0 {
      ScaleBNumerator(x, y, e + 1);
      HalveQuotient(ScaleB(x, e + 1), y);
    }
  }

  lemma {:induction false} ScaleBDenominator(x: real, y: real, e: int)
    requires y > 0.0
    ensures ScaleB(y, e) > 0.0 && x / ScaleB(y, e) == ScaleB(x / y, -e)
    decreases if e >= 0 then e else -e
  {
    ScaleBSign(y, e);
    if e > 0 {
      ScaleBDenominator(x, y, e - 1);
      HalveQuotient(x, ScaleB(y, e - 1));
    } else if e < 0 {
      ScaleBDenominator(x, y, e + 1);
      HalveQuotient(x, ScaleB(y, e + 1));
    }
  }

  /** The quotient of two scaled integers. */
  lemma ScaledQuotient(n: nat, d: nat, j: int, k: int)
    requires d > 0
    ensures ScaleB(d as real, k) > 0.0
    ensures ScaleB(n as real, j) / ScaleB(d as real, k) == ScaleB(Ratio(n, d), j - k)
  {
    hide ScaleB;
    ScaleBDenominator(ScaleB(n as real, j), d as real, k);
    ScaleBNumerator(n as real, d as real, j);
    ScaleBCompose(Ratio(n, d), j, -k);
  }

  lemma ScaledNumerator(n: nat, d: nat, k: nat)
    requires d > 0
    ensures Ratio(n * Pow2(k), d) == ScaleB(Ratio(n, d), k)
  {
    hide ScaleB;
    ScaleBWhole(n, k);
    ScaleBNumerator(n as real, d as real, k);
  }

  /** Rounding n / d * 2^e, where n / d has p bits before the point. */
  lemma RoundedRatio(n: nat, d: nat, e: int, p: nat)
    requires d > 0 && p > 0
    requires Pow2(p - 1) * d <= n < Pow2(p) * d
    ensures ScaleB(Ratio(n, d), e) > 0.0
    ensures Rounded(ScaleB(Ratio(n, d), e), p) == ScaleB(RoundRatio(n, d) as real, e)
  {
    hide RoundInt, RoundRatio, Ratio, Pow2, Pow2R, Exponent, ScaleB;
    RatioOrder(n, d, Pow2(p - 1));
    RatioOrder(n, d, Pow2(p));
    ScaledRatio(Ratio(n, d), e, p);
    RoundRatioIsRoundInt(n, d);
  }

  lemma ScaledRatio(q: real, e: int, p: nat)
    requires p > 0 && Pow2(p - 1) as real <= q < Pow2(p) as real
    ensures ScaleB(q, e) > 0.0
    ensures LastPlace(ScaleB(q, e), p) == e && Scaled(ScaleB(q, e), p) == q
  {
    hide Pow2, Pow2R, Exponent, ScaleB;
    Pow2RIsPow2(p - 1);
    Pow2RIsPow2(p);
    ScaleBSign(q, e);
    ScaleBOrder(Pow2R(p - 1), q, e);
    ScaleBOrder(Pow2R(p), q, e);
    ScaleBPow2R(p - 1, e);
    ScaleBPow2R(p, e);
    ExponentUnique(ScaleB(q, e), p - 1 + e);
    ScaleBCompose(q, e, -e);
    ScaleBZero(q);
  }
}

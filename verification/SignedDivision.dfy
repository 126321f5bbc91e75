/** The signed wrappers around the unsigned dividers, and the multiplications
    with an overflow flag that are built on them. */
module SignedDivision {
  import opened Arithmetic
  import opened Bits
  import opened UnsignedDivision

  /** The range of an m-bit two's complement integer. */
  predicate InRange(m: nat, x: int)
    requires 0 < m
  {
    Min(m) <= x < Pow2(m - 1)
  }

  function Min(m: nat): int
    requires 0 < m
  {
    0 - Pow2(m - 1)
  }

  /** What an m-bit signed variable holds after being given x. */
  function ToSigned(m: nat, x: int): (r: int)
    requires 0 < m
    ensures InRange(m, r)
  {
    Signed(m, Wrap(m, x))
  }

  function Abs(x: int): nat { if x < 0 then -x else x }

  /** Division that truncates toward zero, as C99 requires (section 6.5.5). */
  function TruncDiv(a: int, b: int): int
    requires b != 0
  {
    if (a < 0) == (b < 0) then Abs(a) / Abs(b) else -(Abs(a) / Abs(b))
  }

  /** The remainder that goes with it. */
  function TruncMod(a: int, b: int): int
    requires b != 0
  {
    if a < 0 then -(Abs(a) % Abs(b)) else Abs(a) % Abs(b)
  }

  /** Quotient and remainder are the only pair that adds up with a remainder
      smaller than the divisor and of the dividend's sign. */
  lemma TruncationIsC99(a: int, b: int, q: int, r: int)
    requires b != 0
    ensures q == TruncDiv(a, b) && r == TruncMod(a, b)
       <==> a == q * b + r && Abs(r) < Abs(b) && (r == 0 || (r < 0) == (a < 0))
  {
    var n, d := Abs(a), Abs(b);
    DivModIdentity(n, d);
    var qn := if (a < 0) == (b < 0) then q else -q;
    var rn := if a < 0 then -r else r;
    assert q * b == (if a < 0 then -(qn * d) else qn * d) by {
      MulSigns(q, b);
    }
    if a == q * b + r && Abs(r) < Abs(b) && (r == 0 || (r < 0) == (a < 0)) {
      DivModUnique(n, d, qn, rn);
    }
  }

  lemma MulSigns(x: int, y: int)
    ensures (-x) * y == -(x * y) == x * (-y) && (-x) * (-y) == x * y
  {}

  /** The remainder is what the quotient leaves. */
  lemma TruncModFromDiv(a: int, b: int)
    requires b != 0
    ensures TruncMod(a, b) == a - TruncDiv(a, b) * b
  {
    TruncationIsC99(a, b, TruncDiv(a, b), TruncMod(a, b));
  }

  /** Reading a value back from its own pattern. */
  lemma InRangeKept(m: nat, x: int)
    requires 0 < m && InRange(m, x)
    ensures ToSigned(m, x) == x
    ensures Wrap(m, x) == if x >= 0 then x else x + Pow2(m)
  {
    DivModUnique(x, Pow2(m), if x >= 0 then 0 else -1, if x >= 0 then x else x + Pow2(m));
  }

  /** a >> (m - 1) for a signed a: all ones for a negative a, else zero. */
  lemma SignMask(m: nat, x: int)
    requires 0 < m && InRange(m, x)
    ensures Sar(m, Wrap(m, x), m - 1) == if x < 0 then Pow2(m) - 1 else 0
  {
    InRangeKept(m, x);
    SarSign(m, Wrap(m, x));
  }

  /** (x ^ s) - s negates when s is all ones and does nothing when s is zero. */
  lemma ConditionalNegate(m: nat, x: nat, s: nat)
    requires x < Pow2(m) && (s == 0 || s == Pow2(m) - 1)
    ensures Wrap(m, Xor(x, s) - s) == if s == 0 then x else Wrap(m, 0 - x)
  {
    if s == 0 {
      DivModUnique(x, Pow2(m), 0, x);
    } else {
      XorMask(x, m);
    }
  }

  /** The pattern of the absolute value, which is exact even for the least integer. */
  lemma AbsolutePattern(m: nat, x: int)
    requires 0 < m && InRange(m, x)
    ensures var s := Sar(m, Wrap(m, x), m - 1);
      Wrap(m, Xor(Wrap(m, x), s) - s) == Abs(x)
  {
    hide Sar, Wrap, Xor;
    SignMask(m, x);
    InRangeKept(m, x);
    ConditionalNegate(m, Wrap(m, x), Sar(m, Wrap(m, x), m - 1));
    if x < 0 {
      NegatePattern(m, x);
    }
  }

  lemma NegatePattern(m: nat, x: int)
    requires 0 < m && InRange(m, x) && x < 0
    ensures Wrap(m, -(x + Pow2(m))) == -x
  {
    DivModUnique(-(x + Pow2(m)), Pow2(m), -1, -x);
  }

  /** The two sign masks combined: all ones exactly when the signs differ. */
  lemma SignsDiffer(m: nat, x: nat, y: nat)
    requires (x == 0 || x == Pow2(m) - 1) && (y == 0 || y == Pow2(m) - 1)
    ensures Xor(x, y) == if x == y then 0 else Pow2(m) - 1
  {
    XorMask(x, m);
  }

  /** Putting the sign back on a magnitude. */
  lemma SignRestored(m: nat, x: nat, s: nat)
    requires 0 < m && x <= Pow2(m - 1) && (s == 0 || s == Pow2(m) - 1)
    ensures Signed(m, Wrap(m, Xor(x, s) - s))
         == if s == 0 then (if x == Pow2(m - 1) then Min(m) else x) else 0 - x
  {
    ConditionalNegate(m, x, s);
    if s != 0 {
      InRangeKept(m, 0 - x);
    }
  }

  lemma QuotientBound(n: nat, d: nat, q: nat, r: nat)
    requires 0 < d && n == q * d + r && r < d
    ensures q == n / d && r == n % d && q <= n
    ensures d > 1 && n > 0 ==> q < n
  {
    DivModUnique(n, d, q, r);
    MulMonotone(1, d, q);
    if d > 1 {
      MulMonotone(2, d, q);
    }
  }

  /** __divdi3 for w = 32: truncating division, except that the least integer
      divided by -1 wraps back to itself. */
  method Divdi3(w: nat, a: int, b: int) returns (q: int)
    requires 2 <= w <= 0x8000_0000
    requires InRange(2 * w, a) && InRange(2 * w, b) && b != 0
    ensures q == if a == Min(2 * w) && b == -1 then Min(2 * w) else TruncDiv(a, b)
  {
    hide Pow2, Xor, Sar, Wrap, Signed;
    var m := 2 * w;
    var pa, pb := Wrap(m, a), Wrap(m, b);
    var sa, sb := Sar(m, pa, m - 1), Sar(m, pb, m - 1);
    AbsolutePattern(m, a);
    AbsolutePattern(m, b);
    SignMask(m, a);
    SignMask(m, b);
    SignsDiffer(m, sa, sb);
    pa := Wrap(m, Xor(pa, sa) - sa);
    pb := Wrap(m, Xor(pb, sb) - sb);
    sa := Xor(sa, sb);
    var quotient, _ := UDivMod(w, pa, pb);
    QuotientBound(Abs(a), Abs(b), quotient, Abs(a) - quotient * Abs(b));
    SignRestored(m, quotient, sa);
    q := Signed(m, Wrap(m, Xor(quotient, sa) - sa));
  }

  /** __moddi3 for w = 32: the remainder takes the dividend's sign. */
  method Moddi3(w: nat, a: int, b: int) returns (rem: int)
    requires 2 <= w <= 0x8000_0000
    requires InRange(2 * w, a) && InRange(2 * w, b) && b != 0
    ensures rem == TruncMod(a, b)
  {
    hide Pow2, Xor, Sar, Wrap, Signed;
    var m := 2 * w;
    var pa, pb := Wrap(m, a), Wrap(m, b);
    AbsolutePattern(m, b);
    var s := Sar(m, pb, m - 1);
    pb := Wrap(m, Xor(pb, s) - s);
    AbsolutePattern(m, a);
    SignMask(m, a);
    s := Sar(m, pa, m - 1);
    pa := Wrap(m, Xor(pa, s) - s);
    var quotient, r := UDivMod(w, pa, pb);
    QuotientBound(Abs(a), Abs(b), quotient, r);
    SignRestored(m, r, s);
    rem := Signed(m, Wrap(m, Xor(r, s) - s));
  }

  /** a - q * b, computed in m bits, is the remainder even when the quotient wrapped. */
  lemma RemainderFromQuotient(m: nat, a: int, b: int, q: int)
    requires 1 < m && InRange(m, a) && InRange(m, b) && b != 0
    requires q == if a == Min(m) && b == -1 then Min(m) else TruncDiv(a, b)
    ensures ToSigned(m, a - ToSigned(m, q * b)) == TruncMod(a, b)
  {
    TruncModFromDiv(a, b);
    if a == Min(m) && b == -1 {
      assert Wrap(m, Pow2(m - 1)) == Pow2(m - 1) by {
        DivModUnique(Pow2(m - 1), Pow2(m), 0, Pow2(m - 1));
      }
      assert ToSigned(m, q * b) == a;
      InRangeKept(m, 0);
    } else {
      ProductInRange(m, a, b);
      InRangeKept(m, q * b);
      InRangeKept(m, TruncMod(a, b));
    }
  }

  lemma ProductInRange(m: nat, a: int, b: int)
    requires 0 < m && InRange(m, a) && InRange(m, b) && b != 0
    ensures InRange(m, TruncDiv(a, b) * b) && InRange(m, TruncMod(a, b))
  {
    var n, d := Abs(a), Abs(b);
    DivModIdentity(n, d);
    MulSigns(n / d, d);
    assert Abs(TruncDiv(a, b) * b) == n / d * d;
    assert 0 <= n / d * d <= n;
    assert n % d <= n;
  }

  /** __divmoddi4 for w = 32. */
  method Divmoddi4(w: nat, a: int, b: int) returns (q: int, rem: int)
    requires 2 <= w <= 0x8000_0000
    requires InRange(2 * w, a) && InRange(2 * w, b) && b != 0
    ensures q == if a == Min(2 * w) && b == -1 then Min(2 * w) else TruncDiv(a, b)
    ensures rem == TruncMod(a, b)
  {
    q := Divdi3(w, a, b);
    rem := ToSigned(2 * w, a - ToSigned(2 * w, q * b));
    RemainderFromQuotient(2 * w, a, b, q);
  }

  /** __divsi3 for w = 32, over the one-word divider. */
  method Divsi3(w: nat, a: int, b: int) returns (q: int)
    requires 2 <= w <= 0x8000_0000
    requires InRange(w, a) && InRange(w, b) && b != 0
    ensures q == if a == Min(w) && b == -1 then Min(w) else TruncDiv(a, b)
  {
    hide Pow2, Xor, Sar, Wrap, Signed;
    var pa, pb := Wrap(w, a), Wrap(w, b);
    var sa, sb := Sar(w, pa, w - 1), Sar(w, pb, w - 1);
    AbsolutePattern(w, a);
    AbsolutePattern(w, b);
    SignMask(w, a);
    SignMask(w, b);
    SignsDiffer(w, sa, sb);
    pa := Wrap(w, Xor(pa, sa) - sa);
    pb := Wrap(w, Xor(pb, sb) - sb);
    sa := Xor(sa, sb);
    var quotient := UDivWord(w, pa, pb);
    MulDistribute(quotient, 1, pb);
    QuotientBound(Abs(a), Abs(b), quotient, Abs(a) - quotient * Abs(b));
    SignRestored(w, quotient, sa);
    q := Signed(w, Wrap(w, Xor(quotient, sa) - sa));
  }

  /** __modsi3 for w = 32. */
  method Modsi3(w: nat, a: int, b: int) returns (rem: int)
    requires 2 <= w <= 0x8000_0000
    requires InRange(w, a) && InRange(w, b) && b != 0
    ensures rem == TruncMod(a, b)
  {
    var q := Divsi3(w, a, b);
    rem := ToSigned(w, a - ToSigned(w, q * b));
    RemainderFromQuotient(w, a, b, q);
  }

  // ---- multiplication with an overflow flag ----

  /** A product of magnitudes exceeds a bound exactly when one factor exceeds
      the bound divided by the other. */
  lemma ProductExceeds(x: nat, y: nat, bound: nat)
    requires 0 < y
    ensures x > bound / y <==> x * y > bound
  {
    DivModIdentity(bound, y);
    if x > bound / y {
      MulMonotone(bound / y + 1, x, y);
      MulDistribute(bound / y, 1, y);
    } else {
      MulMonotone(x, bound / y, y);
    }
  }

  lemma ProductOfMagnitudes(a: int, b: int)
    ensures a * b == if (a < 0) == (b < 0) then Abs(a) * Abs(b) else 0 - Abs(a) * Abs(b)
  {
    MulSigns(a, b);
  }

  /** The least integer times b stays in range only for b = 0 and b = 1. */
  lemma MinTimes(m: nat, b: int)
    requires 0 < m
    ensures InRange(m, Min(m) * b) <==> b == 0 || b == 1
    ensures Min(m) * b == b * Min(m)
  {
    var p := Pow2(m - 1);
    MulSigns(p, b);
    if b >= 2 {
      MulMonotone(2, b, p);
    } else if b < 0 {
      MulMonotone(1, -b, p);
    }
  }

  lemma SmallFactor(m: nat, a: int, b: int)
    requires 0 < m && InRange(m, a) && InRange(m, b)
    requires a != Min(m) && b != Min(m) && (Abs(a) < 2 || Abs(b) < 2)
    ensures InRange(m, a * b)
  {
    ProductOfMagnitudes(a, b);
    if Abs(a) < 2 {
      assert Abs(a) * Abs(b) <= Abs(b);
    } else {
      assert Abs(a) * Abs(b) <= Abs(a);
    }
  }

  /** What the two guard divisions decide. */
  lemma GuardDecides(m: nat, a: int, b: int)
    requires 1 < m && InRange(m, a) && InRange(m, b) && Abs(b) >= 2
    ensures (a < 0) == (b < 0) ==>
      (Abs(a) > TruncDiv(Pow2(m - 1) - 1, Abs(b)) <==> !InRange(m, a * b))
    ensures (a < 0) != (b < 0) ==>
      (Abs(a) > TruncDiv(Min(m), 0 - Abs(b)) <==> !InRange(m, a * b))
  {
    ProductOfMagnitudes(a, b);
    ProductExceeds(Abs(a), Abs(b), Pow2(m - 1) - 1);
    ProductExceeds(Abs(a), Abs(b), Pow2(m - 1));
  }

  /** __mulodi4 for w = 32, with its guards computed by __divdi3. */
  method Mulodi4(w: nat, a: int, b: int) returns (result: int, overflow: int)
    requires 2 <= w <= 0x8000_0000
    requires InRange(2 * w, a) && InRange(2 * w, b)
    ensures result == ToSigned(2 * w, a * b)
    ensures overflow == if InRange(2 * w, a * b) then 0 else 1
    ensures overflow == 0 ==> result == a * b
  {
    var n := 2 * w;
    var MIN := Min(n);
    var MAX := Pow2(n - 1) - 1;
    overflow := 0;
    result := ToSigned(n, a * b);
    if InRange(n, a * b) {
      InRangeKept(n, a * b);
    }
    if a == MIN {
      MinTimes(n, b);
      if b != 0 && b != 1 {
        overflow := 1;
      }
      return;
    }
    if b == MIN {
      MinTimes(n, a);
      if a != 0 && a != 1 {
        overflow := 1;
      }
      return;
    }
    var sa, absA := SignAndMagnitude(n, a);
    var sb, absB := SignAndMagnitude(n, b);
    if absA < 2 || absB < 2 {
      SmallFactor(n, a, b);
      return;
    }
    GuardDecides(n, a, b);
    if sa == sb {
      var limit := Divdi3(w, MAX, absB);
      if absA > limit {
        overflow := 1;
      }
    } else {
      var limit := Divdi3(w, MIN, -absB);
      if absA > limit {
        overflow := 1;
      }
    }
  }

  /** sa = a >> (N - 1) and abs_a = (a ^ sa) - sa, as signed values. */
  method SignAndMagnitude(m: nat, a: int) returns (s: int, magnitude: int)
    requires 1 < m && InRange(m, a) && a != Min(m)
    ensures s == if a < 0 then -1 else 0
    ensures magnitude == Abs(a)
  {
    var pattern := Wrap(m, a);
    var mask := Sar(m, pattern, m - 1);
    AbsolutePattern(m, a);
    SignMask(m, a);
    s := Signed(m, mask);
    magnitude := Signed(m, Wrap(m, Xor(pattern, mask) - mask));
  }

  /** __mulosi4 for w = 32, with its guards computed by __divsi3. */
  method Mulosi4(w: nat, a: int, b: int) returns (result: int, overflow: int)
    requires 2 <= w <= 0x8000_0000
    requires InRange(w, a) && InRange(w, b)
    ensures result == ToSigned(w, a * b)
    ensures overflow == if InRange(w, a * b) then 0 else 1
    ensures overflow == 0 ==> result == a * b
  {
    var MIN := Min(w);
    var MAX := Pow2(w - 1) - 1;
    overflow := 0;
    result := ToSigned(w, a * b);
    if InRange(w, a * b) {
      InRangeKept(w, a * b);
    }
    if a == MIN {
      MinTimes(w, b);
      if b != 0 && b != 1 {
        overflow := 1;
      }
      return;
    }
    if b == MIN {
      MinTimes(w, a);
      if a != 0 && a != 1 {
        overflow := 1;
      }
      return;
    }
    var sa, absA := SignAndMagnitude(w, a);
    var sb, absB := SignAndMagnitude(w, b);
    if absA < 2 || absB < 2 {
      SmallFactor(w, a, b);
      return;
    }
    GuardDecides(w, a, b);
    if sa == sb {
      var limit := Divsi3(w, MAX, absB);
      if absA > limit {
        overflow := 1;
      }
    } else {
      var limit := Divsi3(w, MIN, -absB);
      if absA > limit {
        overflow := 1;
      }
    }
  }
}

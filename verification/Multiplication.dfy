/** Double-width products out of half-word products: wideMultiply of fp_lib.h
    and muldi3.c. */
module Multiplication {
  import opened Arithmetic
  import opened Bits
  import opened UnsignedDivision
  import opened SignedDivision

  /** A product of two-digit numbers. */
  lemma SchoolbookProduct(a1: int, a0: int, b1: int, b0: int, base: int)
    ensures (a1 * base + a0) * (b1 * base + b0)
         == a1 * b1 * (base * base) + (a1 * b0 + a0 * b1) * base + a0 * b0
  {
    MulDistribute(a1 * base, a0, b1 * base + b0);
    MulDistribute(b1 * base, b0, a1 * base);
    MulDistribute(b1 * base, b0, a0);
    MulAssoc(a1 * base, b1, base);
    MulAssoc(a1, base, b1);
    MulAssoc(a1 * b1, base, base);
    MulAssoc(a1, base, b0);
    MulAssoc(a0, b1, base);
    MulDistribute(a1 * b0, a0 * b1, base);
  }

  /** The product of two digits, with room for two more digits. */
  lemma DigitProductBound(x: nat, y: nat, base: nat)
    requires x < base && y < base
    ensures 0 <= x * y && x * y + 2 * (base - 1) < base * base
  {
    MulMonotone(x, base - 1, y);
    MulMonotone(y, base - 1, base - 1);
    MulDistribute(base, 1, base);
    MulDistribute(base, 1, base - 1);
  }

  lemma Halves(h: nat, x: nat)
    requires x < Pow2(2 * h)
    ensures And(x, Pow2(h) - 1) == x % Pow2(h) && Shr(x, h) == x / Pow2(h) < Pow2(h)
    ensures x == x / Pow2(h) * Pow2(h) + x % Pow2(h)
  {
    AndMask(x, h);
    SplitBound(h, x);
  }

  lemma HighDigitFits(high: int, low: int, base: nat, product: nat)
    requires 0 < base && product < base * base
    requires product == high * base + low && 0 <= low < base
    ensures 0 <= high < base
  {
    if high < 0 {
      MulMonotone(high, -1, base);
    } else if high >= base {
      MulMonotone(base, high, base);
    }
  }

  /** The values of the two result words, in terms of the four digit products. */
  lemma WideSums(base: nat, ll: nat, lh: nat, hl: nat, hh: nat, r1: nat, product: nat)
    requires 0 < base
    requires product == hh * (base * base) + (hl + lh) * base + ll
    requires r1 == ll / base + lh % base + hl % base
    ensures product == (lh / base + hl / base + r1 / base + hh) * (base * base) + (r1 % base * base + ll % base)
    ensures r1 % base * base + ll % base < base * base
  {
    DivModIdentity(ll, base);
    DivModIdentity(lh, base);
    DivModIdentity(hl, base);
    DivModIdentity(r1, base);
    DigitsBound(r1 % base, base, ll % base, base);
    var x, y, z := lh / base, hl / base, r1 / base;
    MulDistribute(x * base + y * base, lh % base + hl % base, base);
    MulDistribute(x * base, y * base, base);
    MulAssoc(x, base, base);
    MulAssoc(y, base, base);
    MulDistribute(ll / base, lh % base + hl % base, base);
    MulDistribute(z * base, r1 % base, base);
    MulAssoc(z, base, base);
    MulDistribute(x + y, z, base * base);
    MulDistribute(x, y, base * base);
    MulDistribute(x + y + z, hh, base * base);
  }

  /** The double-precision wideMultiply for h = 32: the exact 128-bit product. */
  method WideMultiply(h: nat, a: nat, b: nat) returns (hi: nat, lo: nat)
    requires 2 <= h && a < Pow2(2 * h) && b < Pow2(2 * h)
    ensures hi < Pow2(2 * h) && lo < Pow2(2 * h)
    ensures hi * Pow2(2 * h) + lo == a * b
  {
    hide And, Shr, Shl, Wrap, Pow2;
    var w := 2 * h;
    ghost var base := Pow2(h);
    Pow2Add(h, h);
    Halves(h, a);
    Halves(h, b);
    var loMask := Pow2(h) - 1;
    var aLo, aHi, bLo, bHi := And(a, loMask), Shr(a, h), And(b, loMask), Shr(b, h);
    DigitProductBound(aLo, bLo, base);
    DigitProductBound(aLo, bHi, base);
    DigitProductBound(aHi, bLo, base);
    DigitProductBound(aHi, bHi, base);
    Unwrapped(w, aLo * bLo);
    Unwrapped(w, aLo * bHi);
    Unwrapped(w, aHi * bLo);
    Unwrapped(w, aHi * bHi);
    var plolo, plohi := Wrap(w, aLo * bLo), Wrap(w, aLo * bHi);
    var philo, phihi := Wrap(w, aHi * bLo), Wrap(w, aHi * bHi);
    SchoolbookProduct(aHi, aLo, bHi, bLo, base);
    DigitProductBound(a, b, Pow2(w));
    hi, lo := WideSum(h, a * b, plolo, plohi, philo, phihi);
  }

  lemma FourBelow(h: nat)
    requires 2 <= h
    ensures 4 <= Pow2(h)
  {
    Pow2Monotone(2, h);
    assert Pow2(2) == 4;
  }

  lemma RoomForCarries(h: nat)
    requires 2 <= h
    ensures Pow2(2 * h) == Pow2(h) * Pow2(h) && 4 * Pow2(h) <= Pow2(2 * h)
  {
    hide Pow2;
    FourBelow(h);
    Pow2Add(h, h);
    MulMonotone(4, Pow2(h), Pow2(h));
  }

  lemma ShlByHalf(h: nat, x: nat)
    ensures Shl(2 * h, x, h) == x % Pow2(h) * Pow2(h)
  {
    assert 2 * h - h == h;
    ShlKeepsLow(2 * h, x, h);
  }

  /** The carries of the low half fit one word. */
  lemma MiddleSumFits(h: nat, plolo: nat, plohi: nat, philo: nat)
    requires 2 <= h && plolo < Pow2(2 * h) && plohi < Pow2(2 * h) && philo < Pow2(2 * h)
    ensures var mask := Pow2(h) - 1; var sum := Shr(plolo, h) + And(plohi, mask) + And(philo, mask);
      Wrap(2 * h, sum) == sum == plolo / Pow2(h) + plohi % Pow2(h) + philo % Pow2(h)
  {
    hide And, Shr, Wrap, Pow2;
    RoomForCarries(h);
    Halves(h, plolo);
    Halves(h, plohi);
    Halves(h, philo);
    Unwrapped(2 * h, Shr(plolo, h) + And(plohi, Pow2(h) - 1) + And(philo, Pow2(h) - 1));
  }

  /** The low result word: r0 + (r1 << h) does not wrap. */
  lemma LowWordFits(h: nat, plolo: nat, r1: nat)
    requires 2 <= h && plolo < Pow2(2 * h) && r1 < Pow2(2 * h)
    ensures Wrap(2 * h, And(plolo, Pow2(h) - 1) + Shl(2 * h, r1, h)) == r1 % Pow2(h) * Pow2(h) + plolo % Pow2(h)
  {
    hide And, Shl, Shr, Wrap, Pow2;
    RoomForCarries(h);
    Halves(h, plolo);
    ShlByHalf(h, r1);
    var base, digit, low := Pow2(h), r1 % Pow2(h), plolo % Pow2(h);
    DigitsBound(digit, base, low, base);
    Unwrapped(2 * h, low + digit * base);
  }

  lemma WideTotal(h: nat, plolo: nat, plohi: nat, philo: nat, phihi: nat, r1: nat, lo: nat, product: nat)
    requires 2 <= h && plohi < Pow2(2 * h) && philo < Pow2(2 * h) && r1 < Pow2(2 * h)
    requires product == phihi * (Pow2(h) * Pow2(h)) + (philo + plohi) * Pow2(h) + plolo
    requires r1 == plolo / Pow2(h) + plohi % Pow2(h) + philo % Pow2(h)
    requires lo == r1 % Pow2(h) * Pow2(h) + plolo % Pow2(h)
    ensures (Shr(plohi, h) + Shr(philo, h) + Shr(r1, h) + phihi) * Pow2(2 * h) + lo == product
    ensures lo < Pow2(2 * h)
  {
    hide And, Shr, Pow2;
    RoomForCarries(h);
    Halves(h, plohi);
    Halves(h, philo);
    Halves(h, r1);
    WideSums(Pow2(h), plolo, plohi, philo, phihi, r1, product);
  }

  /** The second half of wideMultiply: adding up the four products with their carries. */
  method WideSum(h: nat, ghost product: nat, plolo: nat, plohi: nat, philo: nat, phihi: nat)
    returns (hi: nat, lo: nat)
    requires 2 <= h && product < Pow2(2 * h) * Pow2(2 * h)
    requires plolo < Pow2(2 * h) && plohi < Pow2(2 * h) && philo < Pow2(2 * h) && phihi < Pow2(2 * h)
    requires product == phihi * (Pow2(h) * Pow2(h)) + (philo + plohi) * Pow2(h) + plolo
    ensures hi < Pow2(2 * h) && lo < Pow2(2 * h)
    ensures hi * Pow2(2 * h) + lo == product
  {
    hide And, Shr, Shl, Wrap, Pow2;
    var w, loMask := 2 * h, Pow2(h) - 1;
    var r0 := And(plolo, loMask);
    MiddleSumFits(h, plolo, plohi, philo);
    var r1 := Wrap(w, Shr(plolo, h) + And(plohi, loMask) + And(philo, loMask));
    LowWordFits(h, plolo, r1);
    lo := Wrap(w, r0 + Shl(w, r1, h));
    WideTotal(h, plolo, plohi, philo, phihi, r1, lo, product);
    ghost var high := Shr(plohi, h) + Shr(philo, h) + Shr(r1, h) + phihi;
    HighDigitFits(high, lo, Pow2(w), product);
    Unwrapped(w, high);
    hi := Wrap(w, Shr(plohi, h) + Shr(philo, h) + Shr(r1, h) + phihi);
  }

  /** One column of the schoolbook scheme: add a digit product to a digit and
      split the sum. */
  lemma Column(base: nat, digit: nat, x: nat, y: nat, total: nat)
    requires digit < base && x < base && y < base && total == digit + x * y
    ensures total < base * base
    ensures total / base < base && total % base < base
    ensures total == total / base * base + total % base
  {
    DigitProductBound(x, y, base);
    DivModIdentity(total, base);
    if total / base >= base {
      MulMonotone(base, total / base, base);
    }
  }

  /** A digit put above a low digit makes a word, and neither is disturbed. */
  lemma DigitAboveLow(h: nat, low: nat, digit: nat)
    requires 2 <= h && low < Pow2(h) && digit < Pow2(h)
    ensures var sum := Wrap(2 * h, low + Shl(2 * h, digit, h));
      sum < Pow2(2 * h) && sum / Pow2(h) == digit && sum % Pow2(h) == low
  {
    hide Shl, Wrap, Pow2;
    var base := Pow2(h);
    RoomForCarries(h);
    ShlByHalf(h, digit);
    DivModUnique(digit, base, 0, digit);
    DigitsBound(digit, base, low, base);
    Unwrapped(2 * h, low + digit * base);
    DivModUnique(digit * base + low, base, digit, low);
  }

  /** Adding a digit product to a digit, and the sum's low digit to a low word. */
  method AddColumn(h: nat, low: nat, digit: nat, x: nat, y: nat) returns (sum: nat, carry: nat)
    requires 2 <= h && low < Pow2(h) && digit < Pow2(h) && x < Pow2(h) && y < Pow2(h)
    ensures sum < Pow2(2 * h) && carry < Pow2(h)
    ensures sum / Pow2(h) < Pow2(h) && sum % Pow2(h) == low
    ensures digit + x * y == carry * Pow2(h) + sum / Pow2(h)
  {
    hide And, Shr, Shl, Wrap, Pow2;
    var w := 2 * h;
    RoomForCarries(h);
    ghost var total := digit + x * y;
    Column(Pow2(h), digit, x, y, total);
    Unwrapped(w, total);
    var t := Wrap(w, digit + x * y);
    Halves(h, t);
    carry := Shr(t, h);
    DigitAboveLow(h, low, And(t, Pow2(h) - 1));
    sum := Wrap(w, low + Shl(w, And(t, Pow2(h) - 1), h));
  }

  /** __muldsi3 for h = 16: the full product of two words, as two words. */
  method Muldsi3(h: nat, a: nat, b: nat) returns (high: nat, low: nat)
    requires 2 <= h && a < Pow2(2 * h) && b < Pow2(2 * h)
    ensures high < Pow2(2 * h) && low < Pow2(2 * h)
    ensures Join(2 * h, high, low) == a * b
  {
    hide And, Shr, Shl, Wrap, Pow2;
    var w := 2 * h;
    ghost var base := Pow2(h);
    RoomForCarries(h);
    Halves(h, a);
    Halves(h, b);
    ghost var a1, a0, b1, b0 := a / base, a % base, b / base, b % base;
    var mask := Pow2(h) - 1;
    Column(base, 0, a0, b0, a0 * b0);
    Unwrapped(w, And(a, mask) * And(b, mask));
    low := Wrap(w, And(a, mask) * And(b, mask));
    Halves(h, low);
    var t := Shr(low, h);
    low := And(low, mask);
    ghost var x1, x0 := t, low;
    low, high := AddColumn(h, low, t, Shr(a, h), And(b, mask));
    ghost var t1 := high;
    Halves(h, low);
    t := Shr(low, h);
    ghost var t0 := t;
    low := And(low, mask);
    var carry: nat;
    low, carry := AddColumn(h, low, t, Shr(b, h), And(a, mask));
    DivModIdentity(low, base);
    Recombine(a, b, a1, a0, b1, b0, base, Pow2(w), x1, x0, t1, t0, carry, low / base, low);
    high := HighWordSum(w, a, b, low, high, carry, Shr(a, h) * Shr(b, h));
  }

  /** The high word of a product of two words is a word. */
  lemma HighWordFits(w: nat, a: nat, b: nat, low: nat, sum: nat)
    requires a < Pow2(w) && b < Pow2(w) && low < Pow2(w) && a * b == sum * Pow2(w) + low
    ensures sum < Pow2(w)
  {
    hide Pow2;
    DigitProductBound(a, b, Pow2(w));
    HighDigitFits(sum, low, Pow2(w), a * b);
  }

  method HighWordSum(w: nat, ghost a: nat, ghost b: nat, ghost low: nat, high: nat, carry: nat, top: nat) returns (sum: nat)
    requires a < Pow2(w) && b < Pow2(w) && low < Pow2(w)
    requires a * b == (high + carry + top) * Pow2(w) + low
    ensures sum == high + carry + top < Pow2(w)
  {
    hide Pow2, Wrap;
    HighWordFits(w, a, b, low, high + carry + top);
    Unwrapped(w, high + carry);
    Unwrapped(w, high + carry + top);
    sum := Wrap(w, high + carry);
    sum := Wrap(w, sum + top);
  }

  lemma Recombine(a: nat, b: nat, a1: nat, a0: nat, b1: nat, b0: nat, base: nat, p: nat,
                  x1: nat, x0: nat, t1: nat, t0: nat, u1: nat, u0: nat, low: nat)
    requires a == a1 * base + a0 && b == b1 * base + b0 && p == base * base
    requires a0 * b0 == x1 * base + x0
    requires x1 + a1 * b0 == t1 * base + t0
    requires t0 + b1 * a0 == u1 * base + u0
    requires low == u0 * base + x0
    ensures a * b == (t1 + u1 + a1 * b1) * p + low
  {
    SchoolbookProduct(a1, a0, b1, b0, base);
    assert a1 * b0 + a0 * b1 + x1 == t1 * base + u1 * base + u0;
    MulDistribute(a1 * b0 + a0 * b1, x1, base);
    MulDistribute(t1 * base, u1 * base, base);
    MulDistribute(t1 * base + u1 * base, u0, base);
    MulAssoc(t1, base, base);
    MulAssoc(u1, base, base);
    MulDistribute(t1, u1, base * base);
    MulDistribute(t1 + u1, a1 * b1, base * base);
  }

  /** Only the low word of the cross products matters. */
  lemma LowProduct(w: nat, xh: int, xl: nat, yh: int, yl: nat, high: nat, low: nat, cross: int)
    requires xl * yl == high * Pow2(w) + low && low < Pow2(w)
    requires cross == xh * yl + xl * yh
    ensures Wrap(2 * w, (xh * Pow2(w) + xl) * (yh * Pow2(w) + yl)) == Join(w, Wrap(w, high + cross), low)
  {
    var base := Pow2(w);
    Pow2Add(w, w);
    SchoolbookProduct(xh, xl, yh, yl, base);
    MulDistribute(high, cross, base);
    ModAddMultiple((high + cross) * base + low, xh * yh, base * base);
    ReduceHigh(high + cross, base, low);
  }

  /** __muldi3 for w = 32: the signed product modulo 2^64. */
  method Muldi3(w: nat, a: int, b: int) returns (product: int)
    requires 4 <= w && w % 2 == 0
    requires InRange(2 * w, a) && InRange(2 * w, b)
    ensures product == ToSigned(2 * w, a * b)
  {
    hide Wrap, Pow2;
    var x, y := Wrap(2 * w, a), Wrap(2 * w, b);
    SplitBound(w, x);
    SplitBound(w, y);
    var xHigh, xLow, yHigh, yLow := x / Pow2(w), x % Pow2(w), y / Pow2(w), y % Pow2(w);
    assert 2 * (w / 2) == w;
    var high, low := Muldsi3(w / 2, xLow, yLow);
    LowProduct(w, xHigh, xLow, yHigh, yLow, high, low, xHigh * yLow + xLow * yHigh);
    high := Wrap(w, high + (xHigh * yLow + xLow * yHigh));
    WrapOfProduct(2 * w, a, b);
    product := Signed(2 * w, Join(w, high, low));
  }

  lemma WrapOfProduct(m: nat, a: int, b: int)
    ensures Wrap(m, Wrap(m, a) * Wrap(m, b)) == Wrap(m, a * b)
  {
    ModProduct(Pow2(m), a, b);
  }
}

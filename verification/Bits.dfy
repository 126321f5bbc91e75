/** Machine words as naturals below a power of two, with the C bit operators.
    Every operator that can leave the word takes the word's width. */
module Bits {
  import opened Arithmetic

  function Pow2(n: nat): (p: nat)
    ensures p > 0
  {
    if n == 0 then 1 else 2 * Pow2(n - 1)
  }

  lemma {:induction false} Pow2Add(m: nat, n: nat)
    ensures Pow2(m + n) == Pow2(m) * Pow2(n)
  {
    if m > 0 {
      Pow2Add(m - 1, n);
      assert Pow2(m + n) == 2 * (Pow2(m - 1) * Pow2(n));
    }
  }

  lemma {:induction false} Pow2Monotone(m: nat, n: nat)
    requires m <= n
    ensures Pow2(m) <= Pow2(n)
    ensures m < n ==> 2 * Pow2(m) <= Pow2(n)
  {
    if m < n {
      Pow2Monotone(m, n - 1);
    }
  }

  lemma Pow2Values()
    ensures Pow2(4) == 0x10 && Pow2(8) == 0x100 && Pow2(16) == 0x1_0000
    ensures Pow2(31) == 0x8000_0000 && Pow2(32) == 0x1_0000_0000
    ensures Pow2(63) == 0x8000_0000_0000_0000 && Pow2(64) == 0x1_0000_0000_0000_0000
  {
    PowersBelowFive();
    hide Pow2;
    Pow2Add(4, 4);
    Pow2Add(8, 8);
    Pow2Add(16, 16);
    Pow2Add(32, 32);
    Pow2AsDouble(32);
    Pow2AsDouble(64);
  }

  lemma PowersBelowFive()
    ensures Pow2(0) == 1 && Pow2(1) == 2 && Pow2(2) == 4 && Pow2(3) == 8 && Pow2(4) == 16
  {}

  /** The number of significant bits: the b with 2^(b-1) <= x < 2^b. */
  function BitLen(x: nat): (b: nat)
    ensures x < Pow2(b)
    ensures x > 0 ==> b > 0 && Pow2(b - 1) <= x
  {
    if x == 0 then 0 else 1 + BitLen(x / 2)
  }

  lemma BitLenUnique(x: nat, b: nat)
    requires 0 < b && Pow2(b - 1) <= x < Pow2(b)
    ensures BitLen(x) == b
  {
    var c := BitLen(x);
    if c < b {
      Pow2Monotone(c, b - 1);
    } else if b < c {
      Pow2Monotone(b, c - 1);
    }
  }

  lemma BitLenBound(x: nat, n: nat)
    requires x < Pow2(n)
    ensures BitLen(x) <= n
  {
    if x > 0 && n < BitLen(x) {
      Pow2Monotone(n, BitLen(x) - 1);
    }
  }

  /** The number of trailing zero bits of a nonzero word. */
  function TrailingZeros(x: nat): (z: nat)
    requires x > 0
    ensures x % Pow2(z) == 0 && x / Pow2(z) % 2 == 1
  {
    if x % 2 == 1 then 0
    else
      var z := TrailingZeros(x / 2);
      HalveDivides(x, z);
      z + 1
  }

  lemma HalveDivides(x: nat, z: nat)
    requires x % 2 == 0
    ensures x / Pow2(z + 1) == x / 2 / Pow2(z)
    ensures x % Pow2(z + 1) == 2 * (x / 2 % Pow2(z))
  {
    HalveFirst(x, Pow2(z));
  }

  // ---- the bit operators ----

  function And(x: nat, y: nat): nat {
    if x == 0 || y == 0 then 0
    else 2 * And(x / 2, y / 2) + (if x % 2 == 1 && y % 2 == 1 then 1 else 0)
  }

  function Or(x: nat, y: nat): nat {
    if x == 0 then y else if y == 0 then x
    else 2 * Or(x / 2, y / 2) + (if x % 2 == 1 || y % 2 == 1 then 1 else 0)
  }

  function Xor(x: nat, y: nat): nat {
    if x == 0 then y else if y == 0 then x
    else 2 * Xor(x / 2, y / 2) + (if x % 2 != y % 2 then 1 else 0)
  }

  function Bit(x: nat, i: nat): nat {
    x / Pow2(i) % 2
  }

  function Shl(w: nat, x: nat, k: nat): (r: nat)
    ensures r < Pow2(w)
  {
    x * Pow2(k) % Pow2(w)
  }

  function Shr(x: nat, k: nat): nat {
    DivModIdentity(x, Pow2(k));
    x / Pow2(k)
  }

  lemma ShrDivides(x: nat, k: nat)
    ensures Shr(x, k) == x / Pow2(k)
  {}

  function Wrap(w: nat, x: int): (r: nat)
    ensures r < Pow2(w)
  {
    x % Pow2(w)
  }

  function Not(w: nat, x: nat): nat
    requires x < Pow2(w)
  {
    Pow2(w) - 1 - x
  }

  /** The signed reading of a w-bit pattern. */
  function Signed(w: nat, x: nat): int
    requires 0 < w
  {
    if x < Pow2(w - 1) then x else x - Pow2(w)
  }

  function BoolToInt(b: bool): nat { if b then 1 else 0 }

  lemma AndHalf(x: nat, y: nat)
    ensures And(x, y) == 2 * And(x / 2, y / 2) + (if x % 2 == 1 && y % 2 == 1 then 1 else 0)
  {}

  lemma XorHalf(x: nat, y: nat)
    ensures Xor(x, y) == 2 * Xor(x / 2, y / 2) + (if x % 2 != y % 2 then 1 else 0)
    ensures Xor(x, y) / 2 == Xor(x / 2, y / 2)
  {}

  lemma AndNothing(x: nat)
    ensures And(x, Pow2(0) - 1) == x % Pow2(0)
  {}

  lemma AndOdd(x: nat, y: nat, z: nat)
    requires z == 2 * y + 1
    ensures And(x, z) == 2 * And(x / 2, y) + x % 2
  {
    DivModUnique(z, 2, y, 1);
    AndHalf(x, z);
  }

  lemma AndMaskStep(x: nat, h: nat, b: nat, p: nat)
    requires x == 2 * h + b && b < 2 && p > 0 && And(h, p - 1) == h % p
    ensures And(x, 2 * p - 1) == x % (2 * p)
  {
    hide And;
    DivModUnique(x, 2, h, b);
    AndOdd(x, p - 1, 2 * p - 1);
    HalveFirst(x, p);
  }

  lemma {:induction false} AndMask(x: nat, k: nat)
    ensures And(x, Pow2(k) - 1) == x % Pow2(k)
  {
    hide And, Pow2;
    if k == 0 {
      AndNothing(x);
    } else {
      var h, b := x / 2, x % 2;
      AndMask(h, k - 1);
      AndMaskStep(x, h, b, Pow2(k - 1));
      Pow2AsDouble(k);
    }
  }

  lemma {:induction false} AndCommutes(x: nat, y: nat)
    ensures And(x, y) == And(y, x)
  {
    if x != 0 && y != 0 {
      AndCommutes(x / 2, y / 2);
    }
  }

  lemma {:induction false} OrCommutes(x: nat, y: nat)
    ensures Or(x, y) == Or(y, x)
  {
    if x != 0 && y != 0 {
      OrCommutes(x / 2, y / 2);
    }
  }

  lemma {:induction false} AndBound(x: nat, y: nat)
    ensures And(x, y) <= x && And(x, y) <= y
  {
    if x != 0 && y != 0 {
      AndBound(x / 2, y / 2);
    }
  }

  lemma OrEven(h: nat, x: nat)
    ensures Or(2 * h, x) == 2 * Or(h, x / 2) + x % 2
    ensures Or(h, 0) == h
  {}

  /** Or of two numbers without a bit in common is their sum. */
  lemma {:induction false} OrDisjoint(hi: nat, lo: nat, k: nat)
    requires lo < Pow2(k)
    ensures Or(hi * Pow2(k), lo) == hi * Pow2(k) + lo
    ensures Or(lo, hi * Pow2(k)) == hi * Pow2(k) + lo
  {
    hide Or, Pow2;
    var x := hi * Pow2(k);
    if k == 0 {
      PowersBelowFive();
      OrEven(x, lo);
    } else {
      var half := hi * Pow2(k - 1);
      Pow2AsDouble(k);
      MulAssoc(hi, 2, Pow2(k - 1));
      OrDisjoint(hi, lo / 2, k - 1);
      OrEven(half, lo);
    }
    OrCommutes(x, lo);
  }

  lemma XorOdd(x: nat, y: nat, z: nat)
    requires z == 2 * y + 1
    ensures Xor(x, z) == 2 * Xor(x / 2, y) + 1 - x % 2
  {
    assert z / 2 == y && z % 2 == 1;
    XorHalf(x, z);
  }

  lemma {:induction false} XorMask(x: nat, k: nat)
    requires x < Pow2(k)
    ensures Xor(x, Pow2(k) - 1) == Pow2(k) - 1 - x
  {
    if k == 0 {
      assert Pow2(0) - 1 == 0;
    } else {
      hide Xor, Pow2;
      Pow2AsDouble(k);
      XorOdd(x, Pow2(k - 1) - 1, Pow2(k) - 1);
      XorMask(x / 2, k - 1);
    }
  }

  /** A word and its predecessor share no bit exactly when the word is a power of two. */
  lemma {:induction false} AndPredecessor(x: nat)
    requires x > 0
    ensures And(x, x - 1) == 0 <==> x == Pow2(TrailingZeros(x))
  {
    if x % 2 == 1 {
      if x > 1 {
        assert (x - 1) / 2 == x / 2;
        AndSelf(x / 2);
      }
    } else {
      AndPredecessor(x / 2);
      assert (x - 1) / 2 == x / 2 - 1;
    }
  }

  lemma TrailingZerosDoubled(x: nat, y: nat)
    requires x > 0 && y == 2 * x
    ensures TrailingZeros(y) == TrailingZeros(x) + 1
    ensures TrailingZeros(1) == 0
  {
    assert y % 2 == 0 && y / 2 == x;
  }

  lemma {:induction false} TrailingZerosOfPower(k: nat)
    ensures TrailingZeros(Pow2(k)) == k
  {
    hide Pow2, TrailingZeros;
    PowersBelowFive();
    if k == 0 {
      TrailingZerosDoubled(1, 2);
    } else {
      TrailingZerosOfPower(k - 1);
      Pow2AsDouble(k);
      TrailingZerosDoubled(Pow2(k - 1), Pow2(k));
    }
  }

  lemma {:induction false} AndSelf(x: nat)
    ensures And(x, x) == x
  {
    if x > 0 {
      AndSelf(x / 2);
    }
  }
  
  lemma {:induction false} AndBit(x: nat, k: nat)
    ensures And(x, Pow2(k)) == Bit(x, k) * Pow2(k)
  {
    hide And, Bit, Pow2;
    if k == 0 {
      AndOne(x);
    } else {
      Pow2AsDouble(k);
      AndDoubled(x, Pow2(k - 1), Pow2(k));
      AndBit(x / 2, k - 1);
      BitHalf(x, k);
      MulAssoc(Bit(x, k), 2, Pow2(k - 1));
    }
  }

  lemma AndOne(x: nat)
    ensures And(x, Pow2(0)) == Bit(x, 0) * Pow2(0)
  {
    AndOdd(x, 0, 1);
    assert And(x / 2, 0) == 0;
    LowestBit(x);
  }

  lemma BitHalf(x: nat, k: nat)
    requires k > 0
    ensures Bit(x, k) == Bit(x / 2, k - 1)
  {
    HalveFirst(x, Pow2(k - 1));
  }

  lemma {:induction false} OrBit(x: nat, k: nat)
    ensures Or(x, Pow2(k)) == if Bit(x, k) == 1 then x else x + Pow2(k)
  {
    if k > 0 {
      OrBit(x / 2, k - 1);
      BitHalf(x, k);
      assert Pow2(k) / 2 == Pow2(k - 1) && Pow2(k) % 2 == 0;
    } else {
      assert Or(x / 2, 0) == x / 2;
    }
  }

  lemma {:induction false} XorBit(x: nat, y: nat, k: nat)
    ensures Bit(Xor(x, y), k) == if Bit(x, k) != Bit(y, k) then 1 else 0
  {
    hide Xor, Bit;
    XorHalf(x, y);
    if k == 0 {
      LowestBit(x);
      LowestBit(y);
      LowestBit(Xor(x, y));
    } else {
      XorBit(x / 2, y / 2, k - 1);
      BitHalf(x, k);
      BitHalf(y, k);
      BitHalf(Xor(x, y), k);
    }
  }

  lemma {:induction false} AndBits(x: nat, y: nat, k: nat)
    ensures Bit(And(x, y), k) == 1 <==> Bit(x, k) == 1 && Bit(y, k) == 1
  {
    hide And, Bit;
    AndHalf(x, y);
    if k == 0 {
      LowestBit(x);
      LowestBit(y);
      LowestBit(And(x, y));
    } else {
      AndBits(x / 2, y / 2, k - 1);
      BitHalf(x, k);
      BitHalf(y, k);
      BitHalf(And(x, y), k);
    }
  }

  lemma OrHalf(x: nat, y: nat)
    ensures Or(x, y) == 2 * Or(x / 2, y / 2) + (if x % 2 == 1 || y % 2 == 1 then 1 else 0)
  {
    assert Or(x / 2, 0) == x / 2 && Or(0, y / 2) == y / 2;
  }

  lemma {:induction false} OrBits(x: nat, y: nat, k: nat)
    ensures Bit(Or(x, y), k) == 1 <==> Bit(x, k) == 1 || Bit(y, k) == 1
  {
    hide Or, Bit;
    OrHalf(x, y);
    if k == 0 {
      LowestBit(x);
      LowestBit(y);
      LowestBit(Or(x, y));
    } else {
      OrBits(x / 2, y / 2, k - 1);
      BitHalf(x, k);
      BitHalf(y, k);
      BitHalf(Or(x, y), k);
    }
  }

  lemma BitIsBit(x: nat, k: nat)
    ensures Bit(x, k) == 0 || Bit(x, k) == 1
  {
    hide Pow2;
  }

  /** Reducing to w bits leaves the bits below. */
  lemma BitOfLow(x: nat, w: nat, k: nat)
    requires k < w
    ensures Bit(x % Pow2(w), k) == Bit(x, k)
  {
    hide Pow2;
    Pow2Add(w - k, k);
    DigitOfRemainder(x, Pow2(k), Pow2(w - k));
    Pow2AsDouble(w - k);
    MulAssoc(Pow2(w - k - 1), 2, 1);
    ModOfMod(x / Pow2(k), Pow2(w - k - 1), 2);
  }

  lemma LowestBit(x: nat)
    ensures Bit(x, 0) == x % 2
  {
    assert Pow2(0) == 1;
  }

  lemma OrZero(x: nat, y: nat)
    ensures Or(x, y) == 0 <==> x == 0 && y == 0
  {}

  /** x with its low bit set when flag holds. */
  function OrInto(x: nat, flag: bool): nat {
    if flag && x % 2 == 0 then x + 1 else x
  }

  lemma OrOne(x: nat, b: bool)
    ensures Or(x, BoolToInt(b)) == OrInto(x, b)
  {
    OrBit(x, 0);
    assert Pow2(0) == 1;
    assert Bit(x, 0) == x % 2;
    assert Or(x, 0) == x;
  }

  lemma Unwrapped(N: nat, x: nat)
    requires x < Pow2(N)
    ensures Wrap(N, x) == x % Pow2(N) == x
  {
    DivModUnique(x, Pow2(N), 0, x);
  }

  /** The low bits of an exclusive or. */
  lemma {:induction false} XorLow(x: nat, y: nat, k: nat)
    ensures Xor(x, y) % Pow2(k) == Xor(x % Pow2(k), y % Pow2(k)) < Pow2(k)
  {
    if k == 0 {
      assert Xor(0, 0) == 0;
    } else {
      hide Xor, Pow2;
      var u: nat, v: nat := x % Pow2(k), y % Pow2(k);
      HalfOfLow(x, k);
      HalfOfLow(y, k);
      XorLow(x / 2, y / 2, k - 1);
      XorHalf(x, y);
      XorHalf(u, v);
      HalfOfLow(Xor(x, y), k);
    }
  }

  lemma HalfOfLow(x: nat, k: nat)
    requires k > 0
    ensures x % Pow2(k) / 2 == x / 2 % Pow2(k - 1) && x % Pow2(k) % 2 == x % 2
    ensures x % Pow2(k) == 2 * (x / 2 % Pow2(k - 1)) + x % 2
    ensures Pow2(k) == 2 * Pow2(k - 1)
  {
    Pow2AsDouble(k);
    hide Pow2;
    HalveFirst(x, Pow2(k - 1));
  }

  lemma HalfOfHigh(x: nat, k: nat)
    requires k > 0
    ensures x / Pow2(k) == x / 2 / Pow2(k - 1)
  {
    Pow2AsDouble(k);
    hide Pow2;
    HalveFirst(x, Pow2(k - 1));
  }

  lemma Pow2AsDouble(k: nat)
    requires k > 0
    ensures Pow2(k) == 2 * Pow2(k - 1)
  {}

  lemma MaskHalf(k: nat)
    requires k > 0
    ensures (Pow2(k) - 1) / 2 == Pow2(k - 1) - 1 && (Pow2(k) - 1) % 2 == 1
  {
    Pow2AsDouble(k);
    hide Pow2;
  }

  lemma {:induction false} XorWithBit(x: nat, k: nat)
    ensures Bit(x, k) == 1 ==> Xor(x, Pow2(k)) + Pow2(k) == x
    ensures Bit(x, k) == 0 ==> Xor(x, Pow2(k)) == x + Pow2(k)
  {
    if k > 0 {
      XorWithBit(x / 2, k - 1);
      BitHalf(x, k);
      assert Pow2(k) / 2 == Pow2(k - 1) && Pow2(k) % 2 == 0;
      XorHalf(x, Pow2(k));
    } else {
      assert Xor(x / 2, 0) == x / 2;
      XorHalf(x, 1);
    }
  }

  lemma BitOfZero(k: nat)
    ensures Bit(0, k) == 0
  {
    DivModUnique(0, Pow2(k), 0, 0);
  }

  /** The top bit of a word. */
  lemma TopBit(x: nat, k: nat)
    requires x < Pow2(k + 1)
    ensures Bit(x, k) == if x >= Pow2(k) then 1 else 0
  {
    if x >= Pow2(k) {
      DivModUnique(x, Pow2(k), 1, x - Pow2(k));
    } else {
      DivModUnique(x, Pow2(k), 0, x);
    }
  }

  lemma AndDoubled(x: nat, y: nat, z: nat)
    requires z == 2 * y
    ensures And(x, z) == 2 * And(x / 2, y)
  {
    assert z / 2 == y && z % 2 == 0;
  }

  lemma AndFullMask(w: nat, x: nat, mask: nat)
    requires x < Pow2(w) && mask == Pow2(w) - Pow2(0)
    ensures And(x, mask) == x - x % Pow2(0)
  {
    AndMask(x, w);
    hide And;
    DivModUnique(x, Pow2(w), 0, x);
  }

  lemma {:induction false} AndHighBits(w: nat, x: nat, k: nat, mask: nat)
    requires k <= w && x < Pow2(w) && mask == Pow2(w) - Pow2(k)
    ensures And(x, mask) == x - x % Pow2(k)
  {
    hide And, Pow2;
    if k == 0 {
      AndFullMask(w, x, mask);
    } else {
      Pow2AsDouble(w);
      Pow2AsDouble(k);
      Pow2Monotone(k - 1, w - 1);
      var half: nat := Pow2(w - 1) - Pow2(k - 1);
      AndDoubled(x, half, mask);
      AndHighBits(w - 1, x / 2, k - 1, half);
      HalfOfLow(x, k);
    }
  }

  /** Clearing the low bits. */
  lemma AndHighMask(w: nat, x: nat, k: nat)
    requires k <= w && x < Pow2(w)
    ensures Pow2(k) <= Pow2(w)
    ensures And(x, Pow2(w) - Pow2(k)) == x - x % Pow2(k)
  {
    hide And, Pow2;
    Pow2Monotone(k, w);
    AndHighBits(w, x, k, Pow2(w) - Pow2(k));
  }

  /** Arithmetic right shift of a w-bit pattern. */
  function Sar(w: nat, x: nat, k: nat): (r: nat)
    requires 0 < w
    ensures r < Pow2(w)
  {
    Wrap(w, Signed(w, x) / Pow2(k))
  }

  lemma SignedQuotientLow(w: nat, x: nat, k: nat, j: nat)
    requires 0 < w && x < Pow2(w) && k + j <= w
    ensures Signed(w, x) / Pow2(k) % Pow2(j) == x / Pow2(k) % Pow2(j)
  {
    hide Pow2;
    if x >= Pow2(w - 1) {
      Pow2Add(w - k - j, j);
      Pow2Add(w - k, k);
      QuotientLow(x, 1, Pow2(w), Pow2(k), Pow2(w - k), Pow2(w - k - j), Pow2(j));
    }
  }

  /** The low bits of an arithmetic shift are bits of the word. */
  lemma SarLow(w: nat, x: nat, k: nat, j: nat)
    requires 0 < w && x < Pow2(w) && k + j <= w
    ensures Sar(w, x, k) % Pow2(j) == x / Pow2(k) % Pow2(j)
  {
    hide Pow2, Signed;
    SignedQuotientLow(w, x, k, j);
    Pow2Add(w - j, j);
    ModOfMod(Signed(w, x) / Pow2(k), Pow2(w - j), Pow2(j));
  }

  /** The number of leading zero bits of a nonzero w-bit word. */
  function Clz(w: nat, x: nat): nat
    requires 0 < x < Pow2(w)
  {
    BitLenBound(x, w);
    w - BitLen(x)
  }

  /** Shifting right by all but one bit copies the sign bit everywhere. */
  lemma SarSign(w: nat, x: nat)
    requires 0 < w && x < Pow2(w)
    ensures Sar(w, x, w - 1) == if x < Pow2(w - 1) then 0 else Pow2(w) - 1
  {
    if x < Pow2(w - 1) {
      DivModUnique(x, Pow2(w - 1), 0, x);
      assert 0 % Pow2(w) == 0;
    } else {
      var p := Pow2(w - 1);
      DivModUnique(x - 2 * p, p, -1, x - p);
      DivModUnique(-1, Pow2(w), -1, Pow2(w) - 1);
    }
  }

  /** A left shift keeps the low bits only. */
  lemma ShlKeepsLow(w: nat, x: nat, k: nat)
    requires k <= w
    ensures Shl(w, x, k) == x % Pow2(w - k) * Pow2(k)
  {
    Pow2Add(w - k, k);
    ScaleDivMod(x, Pow2(w - k), Pow2(k));
  }

  lemma ShrBound(x: nat, w: nat, k: nat)
    requires k <= w && x < Pow2(w)
    ensures Shr(x, k) < Pow2(w - k)
  {
    hide Pow2;
    Pow2Add(w - k, k);
    DivModIdentity(x, Pow2(k));
    var q := x / Pow2(k);
    if q >= Pow2(w - k) {
      MulMonotone(Pow2(w - k), q, Pow2(k));
    }
  }

  // ---- pairs of words ----

  /** The value of the pair high:low of w-bit words. */
  function Join(w: nat, high: nat, low: nat): nat { high * Pow2(w) + low }

  lemma JoinBound(w: nat, high: nat, low: nat)
    requires high < Pow2(w) && low < Pow2(w)
    ensures Join(w, high, low) < Pow2(2 * w)
    ensures Join(w, high, low) / Pow2(w) == high && Join(w, high, low) % Pow2(w) == low
  {
    hide Pow2;
    Pow2Add(w, w);
    DigitsBound(high, Pow2(w), low, Pow2(w));
    DivModUnique(Join(w, high, low), Pow2(w), high, low);
  }

  lemma ShiftRightDigits(high: nat, low: nat, p: nat, m: nat)
    requires 0 < p && 0 < m
    ensures (high * (p * m) + low) / p == high / p * (p * m) + (high % p * m + low / p)
  {
    var hq, hr, lq, lr := high / p, high % p, low / p, low % p;
    var a, b := hq * (p * m), hr * m;
    calc {
      high * (p * m) + low;
      { assert high == hq * p + hr; }
      (hq * p + hr) * (p * m) + low;
      { MulDistribute(hq * p, hr, p * m); }
      hq * p * (p * m) + hr * (p * m) + low;
      { MulAssoc(hq, p * m, p); MulAssoc(hr, m, p); MulAssoc(hr, p, m); }
      a * p + b * p + low;
      { assert low == lq * p + lr; MulDistribute(a, b, p); MulDistribute(a + b, lq, p); }
      (a + b + lq) * p + lr;
    }
    DivModUnique(high * (p * m) + low, p, a + b + lq, lr);
  }

  /** The words of a two-word right shift by less than a word. */
  lemma ShiftRightPair(w: nat, high: nat, low: nat, k: nat)
    requires 0 < k < w && high < Pow2(w) && low < Pow2(w)
    ensures Or(Shl(w, high, w - k), Shr(low, k)) == high % Pow2(k) * Pow2(w - k) + low / Pow2(k)
    ensures Or(Shl(w, high, w - k), Shr(low, k)) < Pow2(w)
    ensures Join(w, Shr(high, k), Or(Shl(w, high, w - k), Shr(low, k))) == Join(w, high, low) / Pow2(k)
  {
    hide Or, Shl;
    var p, m := Pow2(k), Pow2(w - k);
    Pow2Add(k, w - k);
    ShlKeepsLow(w, high, w - k);
    ShrBound(low, w, k);
    OrDisjoint(high % p, Shr(low, k), w - k);
    DigitsBound(high % p, p, low / p, m);
    ShiftRightDigits(high, low, p, m);
  }
}

module Reciprocal {
  import opened Arithmetic

  const TWO31: nat := 0x8000_0000
  const TWO32: nat := 0x1_0000_0000
  const TWO63: nat := 0x8000_0000_0000_0000
  const TWO64: nat := 0x1_0000_0000_0000_0000
  const TWO126: nat := 0x4000_0000_0000_0000_0000_0000_0000_0000

  // 2^32 times (3/4 + 1/sqrt(2)), the constant term of the linear guess.
  const GUESS: nat := 0x1_7504_f333

  // Bounds on the deficit before each step, over the whole range of b and over
  // its lower half.
  const ERROR0: int := 184224973 * 0xffff_ffff
  const ERROR0_LOW: int := 593430175606112256

  // What is missing from x * b to reach 2^63: zero for an exact reciprocal.
  function Deficit(x: int, b: int): int { TWO63 - x * b }

  // One untruncated step.  The new deficit is the square of the old one, up
  // to the two truncations.
  lemma StepContracts(x: nat, b: nat, c: nat, next: nat)
    requires 0 < b
    requires c == TWO32 - x * b / TWO32
    requires next == x * c / TWO31
    ensures var e := Deficit(x, b); var e' := Deficit(next, b);
      && TWO63 * e' >= e * e - (TWO32 - 1) * (TWO63 - e)
      && TWO63 * e' < e * e + TWO63 * b
  {
    var u, xc := x * b, x * c;
    var e := TWO63 - u;
    assert TWO64 - u <= c * TWO32 <= TWO64 - u + (TWO32 - 1);
    DifferenceOfSquares(TWO63, e);
    assert TWO63 + e == TWO64 - u;
    MulMonotone(TWO64 - u, c * TWO32, u);
    MulMonotone(c * TWO32, TWO64 - u + (TWO32 - 1), u);
    MulDistribute(TWO64 - u, TWO32 - 1, u);
    MulAssoc(u, c, TWO32);
    MulMonotone(next * TWO31, xc, b);
    MulMonotone(xc - TWO31, next * TWO31, b);
    MulDistribute(xc, TWO31, b);
    MulAssoc(x, c, b);
    MulAssoc(next, TWO31, b);
    assert xc - TWO31 < next * TWO31;
    MulMonotone(xc - TWO31 + 1, next * TWO31, b);
    MulDistribute(xc - TWO31, 1, b);
  }

  lemma StepBounds(x: nat, b: nat, c: nat, next: nat, bound: int)
    requires 0 < b
    requires c == TWO32 - x * b / TWO32
    requires next == x * c / TWO31
    requires -bound <= Deficit(x, b) <= bound
    ensures -(TWO32 - 1) <= Deficit(next, b) <= bound * bound / TWO63 + b
  {
    var e, e' := Deficit(x, b), Deficit(next, b);
    StepContracts(x, b, c, next);
    SquareMonotone(e, bound);
    QuadraticFloor(e, TWO32 - 1);
    var sq, sqb := e * e, bound * bound;
    assert TWO63 * e' >= sq + (TWO32 - 1) * e - (TWO32 - 1) * TWO63;
    assert TWO63 * e' < sqb + TWO63 * b;
  }

  // The linear guess is good to about 3.5 bits over the whole range of b, and
  // to almost 4 bits over its lower half.
  lemma FirstGuess(b: nat)
    requires TWO31 <= b < TWO32
    ensures -ERROR0 <= Deficit(GUESS - b, b) <= ERROR0
    ensures b <= 3 * 0x4000_0000 ==> -ERROR0_LOW <= Deficit(GUESS - b, b) <= ERROR0_LOW
  {
    var e, sq := Deficit(GUESS - b, b), b * b;
    assert (GUESS - b) * b == GUESS * b - sq;
    QuadraticBetween(b, TWO31, TWO32);
    assert (TWO31 + TWO32) * b == 3 * TWO31 * b;
    QuadraticFloor(b, -(GUESS as int));
    assert -(GUESS as int) * b == -(GUESS * b);
  }

  // One step before the product is cut to 32 bits.
  function Refined(x: nat, b: nat): nat {
    x * ((-(x * b / TWO32)) % TWO32) / TWO31
  }

  /** The 32-bit correction word does not wrap. */
  lemma CorrectionWord(u: int)
    requires TWO32 <= u < TWO64
    ensures (-(u / TWO32)) % TWO32 == TWO32 - u / TWO32
    ensures 0 < TWO32 - u / TWO32
  {
    DivModUnique(-(u / TWO32), TWO32, -1, TWO32 - u / TWO32);
  }

  lemma RefinedBounds(x: nat, b: nat, bound: int)
    requires TWO31 < b < TWO32 && x < TWO32
    requires -bound <= Deficit(x, b) <= bound <= TWO63 / 2
    ensures Refined(x, b) <= TWO32 - 1
    ensures -(TWO32 - 1) <= Deficit(Refined(x, b), b) <= bound * bound / TWO63 + b
  {
    CorrectionWord(x * b);
    var c, next := TWO32 - x * b / TWO32, Refined(x, b);
    StepBounds(x, b, c, next, bound);
    if TWO32 <= next {
      MulMonotone(TWO32, next, b);
      assert false;
    }
  }

  // The bounds after the first and the second step.
  const ERROR1: int := 67877685617060745
  const ERROR2: int := 499537457710634
  const ERROR1_LOW: int := 38181198982682542
  const ERROR2_LOW: int := 158058642814246

  lemma RefinedAtOne(x: nat, c: nat, next: nat)
    requires x < TWO32 && 2 <= x
    requires c == TWO32 - x / 2
    requires next == x * c / TWO31
    ensures Refined(x, TWO31) == next
  {
    DivModUnique(x * TWO31, TWO32, x / 2, x % 2 * TWO31);
    CorrectionWord(x * TWO31);
  }

  // At b = 1.0 the third step is exactly 2^32, which 32 bits cut to zero.
  lemma StepsAtOne()
    ensures Refined(GUESS - TWO31, TWO31) == 4287065294
    ensures Refined(4287065294, TWO31) == 4294952757
    ensures Refined(4294952757, TWO31) == TWO32
  {
    assert 4110742323 * 2239596135 / 0x8000_0000 == 4287065294;
    RefinedAtOne(4110742323, 2239596135, 4287065294);
    RefinedAtOne(4287065294, 2151434649, 4294952757);
    RefinedAtOne(4294952757, 2147490918, TWO32);
  }

  // Three steps from the linear guess: none but the last can leave 32 bits.
  lemma ThreeSteps(b: nat)
    requires TWO31 <= b < TWO32
    ensures var x1 := Refined(GUESS - b, b); var x2 := Refined(x1, b); var x3 := Refined(x2, b);
      && x1 < TWO32 && x2 < TWO32 && x3 <= TWO32
      && -(TWO32 - 1) <= Deficit(x3, b) <= 10 * b
  {
    if b == TWO31 {
      StepsAtOne();
    } else {
      var low := b <= 3 * 0x4000_0000;
      FirstGuess(b);
      RefinedBounds(GUESS - b, b, if low then ERROR0_LOW else ERROR0);
      var x1 := Refined(GUESS - b, b);
      RefinedBounds(x1, b, if low then ERROR1_LOW else ERROR1);
      var x2 := Refined(x1, b);
      RefinedBounds(x2, b, if low then ERROR2_LOW else ERROR2);
    }
  }

  /** One refinement, cut to 32 bits: the pair of lines the source writes three times. */
  method NewtonStep(reciprocal: nat, q31b: nat) returns (refined: nat)
    ensures refined == Refined(reciprocal, q31b) % TWO32
  {
    var correction := (-(reciprocal * q31b / TWO32)) % TWO32;
    refined := reciprocal * correction / TWO31 % TWO32;
  }

  /** The 32-bit reciprocal. A stored zero stands for 2^32. */
  method Newton(q31b: nat) returns (reciprocal: nat)
    requires TWO31 <= q31b < TWO32
    ensures reciprocal < TWO32
    ensures var exact := if reciprocal == 0 then TWO32 else reciprocal;
      -(TWO32 - 1) <= Deficit(exact, q31b) <= 10 * q31b
  {
    hide Refined, Deficit;
    ThreeSteps(q31b);
    reciprocal := (0x7504_f333 - q31b) % TWO32;
    assert reciprocal == GUESS - q31b;
    reciprocal := NewtonStep(reciprocal, q31b);
    reciprocal := NewtonStep(reciprocal, q31b);
    ghost var x3 := Refined(reciprocal, q31b);
    reciprocal := NewtonStep(reciprocal, q31b);
    PositiveReciprocal(x3, q31b);
  }

  lemma PositiveReciprocal(x: nat, b: nat)
    requires Deficit(x, b) <= 10 * b && b < TWO32
    ensures x > 0
  {}

  // ---- the double-width step of __divdf3 ----

  const TWO95: nat := 0x8000_0000_0000_0000_0000_0000
  const TWO96: nat := 0x1_0000_0000_0000_0000_0000_0000
  const TWO190: nat := 0x4000_0000_0000_0000_0000_0000_0000_0000_0000_0000_0000_0000

  /** The last step, on a 64-bit divisor b: how far the result stays below 2^126 / b. */
  lemma WideStepContracts(x: nat, b: nat, c: nat, next: nat)
    requires c == TWO64 - x * b / TWO32
    requires next == x * c / TWO32
    ensures var d := TWO95 - x * b;
      && TWO64 * (next * b) <= TWO190 - d * d + (TWO32 - 1) * (x * b)
      && TWO64 * (next * b) >= TWO190 - d * d - TWO64 * b
  {
    var u, v, xc, nb := x * b, x * b * c, x * c, next * b;
    var d := TWO95 - u;
    assert TWO96 - u <= c * TWO32 <= TWO96 - u + (TWO32 - 1);
    DifferenceOfSquares(TWO95, d);
    assert (TWO95 + d) == TWO96 - u;
    MulMonotone(TWO96 - u, c * TWO32, u);
    MulMonotone(c * TWO32, TWO96 - u + (TWO32 - 1), u);
    MulDistribute(TWO96 - u, TWO32 - 1, u);
    MulAssoc(u, c, TWO32);
    MulMonotone(next * TWO32, xc, b);
    MulMonotone(xc - TWO32, next * TWO32, b);
    MulAssoc(x, c, b);
    MulAssoc(next, TWO32, b);
    MulDistribute(xc, TWO32, b);
    assert v == xc * b;
  }

  lemma DifferenceOfSquares(x: int, y: int)
    ensures (x + y) * (x - y) == x * x - y * y
  {}

  /** The square of a deficit of at most 11 units. */
  lemma WideSquare(d: int, b: nat)
    requires -(11 * b) <= d <= 11 * b && b <= TWO64
    ensures 0 <= d * d <= 121 * TWO64 * b
  {
    SquareMonotone(d, 11 * b);
    MulMonotone(b, TWO64, b);
    assert 11 * b * (11 * b) == 121 * (b * b);
  }

  /** The 64-bit reciprocal, less 2, as a fraction of 2^63: strictly below
      2^126 / b, and by at most 124 units, so by less than 2^-56. */
  lemma WideReciprocal(x: nat, high: nat, low: nat, b: nat, c: nat, next: nat)
    requires TWO31 <= high < TWO32 && low < TWO32 && b == high * TWO32 + low
    requires x < TWO32 && -(TWO31 as int) <= Deficit(x, high) <= 11 * high
    requires c == TWO64 - x * b / TWO32
    requires next == x * c / TWO32
    ensures 0 < TWO126 - (next - 2) * b <= 124 * b
  {
    var u, d := x * b, TWO95 - x * b;
    var xl := x * low;
    assert u == x * high * TWO32 + xl;
    MulMonotone(x, TWO32 - 1, low);
    MulMonotone(0, x, low);
    assert d == Deficit(x, high) * TWO32 - xl;
    WideSquare(d, b);
    WideStepContracts(x, b, c, next);
    MulDistribute(next, 2, b);
    var nb, sq := next * b, d * d;
    assert u <= TWO95 + 3 * TWO64;
  }

  /** c = -(x * high + (x * low >> 32)) is the rounded-up 2^64 - x * b / 2^32. */
  lemma WideCorrection(x: nat, high: nat, low: nat)
    ensures x * high + x * low / TWO32 == x * (high * TWO32 + low) / TWO32
  {
    ModAddMultiple(x * low, x * high, TWO32);
    MulAssoc(x, high, TWO32);
    MulOverSum(x, high * TWO32, low);
  }

  lemma MulOverSum(x: int, y: int, z: int)
    ensures x * (y + z) == x * y + x * z
  {}
}

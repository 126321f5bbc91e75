/** Small facts of integer arithmetic that the solver does not find by itself. */
module Arithmetic {

  lemma MulMonotone(x: int, y: int, k: int)
    requires x <= y && 0 <= k
    ensures x * k <= y * k
  {}

  lemma MulAssoc(a: int, b: int, c: int)
    ensures a * (b * c) == a * b * c == a * c * b
  {}

  lemma MulDistribute(a: int, b: int, c: int)
    ensures (a + b) * c == a * c + b * c
    ensures (a - b) * c == a * c - b * c
  {}

  lemma DivModIdentity(x: int, d: int)
    requires 0 < d
    ensures x == x / d * d + x % d && 0 <= x % d < d
    ensures 0 <= x ==> 0 <= x / d <= x
  {
    var q := x / d;
    if 0 <= x {
      if q < 0 {
        MulMonotone(q, -1, d);
      }
      MulMonotone(1, d, q);
    }
  }

  lemma QuotientBetween(n: nat, d: nat, lo: nat, hi: nat)
    requires d > 0 && lo * d <= n < hi * d
    ensures lo <= n / d < hi
  {
    DivModIdentity(n, d);
    var q := n / d;
    if q < lo {
      MulMonotone(q + 1, lo, d);
      MulDistribute(q, 1, d);
    }
    if q >= hi {
      MulMonotone(hi, q, d);
    }
  }

  /** A two-digit number is below the product of the two bases. */
  lemma DigitsBound(r: int, m: int, s: int, p: int)
    requires 0 <= r < m && 0 <= s < p
    ensures 0 <= r * p + s < m * p
  {
    MulMonotone(0, r, p);
    MulMonotone(r + 1, m, p);
    MulDistribute(r, 1, p);
  }

  /** A common factor comes out of a quotient and stays in the remainder. */
  lemma ScaleDivMod(x: int, m: int, p: int)
    requires 0 < m && 0 < p
    ensures 0 < m * p && x * p / (m * p) == x / m
    ensures x * p % (m * p) == x % m * p
  {
    var q, r := x / m, x % m;
    DigitsBound(r, m, 0, p);
    MulDistribute(q * m, r, p);
    MulAssoc(q, m, p);
    DivModUnique(x * p, m * p, q, r * p);
  }

  lemma SquareMonotone(e: int, bound: int)
    requires -bound <= e <= bound
    ensures 0 <= e * e <= bound * bound
  {
    assert (bound - e) * (bound + e) >= 0;
    assert (bound - e) * (bound + e) == bound * bound - e * e;
  }

  lemma SquareOfSum(x: int, y: int)
    ensures (x + y) * (x + y) == x * x + 2 * (x * y) + y * y
  {}

  // The least value of a monic quadratic.
  lemma QuadraticFloor(e: int, k: int)
    ensures 4 * (e * e + k * e) + k * k >= 0
  {
    SquareOfSum(2 * e, k);
    SquareMonotone(2 * e + k, if 2 * e + k >= 0 then 2 * e + k else -(2 * e + k));
  }

  // Between its roots a monic quadratic is not positive.
  lemma QuadraticBetween(b: int, lo: int, hi: int)
    requires lo <= b <= hi
    ensures b * b <= (lo + hi) * b - lo * hi
  {
    assert (b - lo) * (hi - b) >= 0;
    assert (b - lo) * (hi - b) == (lo + hi) * b - lo * hi - b * b;
  }

  lemma NoMultipleInside(k: int, d: int)
    requires 0 < d && -d < k * d < d
    ensures k == 0
  {
    if k > 0 {
      MulMonotone(1, k, d);
    } else if k < 0 {
      MulMonotone(k, -1, d);
    }
  }

  lemma DivModUnique(x: int, d: int, q: int, r: int)
    requires 0 < d && x == q * d + r && 0 <= r < d
    ensures x / d == q && x % d == r
  {
    var q', r' := x / d, x % d;
    assert x == q' * d + r';
    assert (q - q') * d == q * d - q' * d;
    NoMultipleInside(q - q', d);
  }

  /** Dividing by 2p is halving, then dividing by p. */
  lemma HalveFirst(x: nat, p: nat)
    requires 0 < p
    ensures x / (2 * p) == x / 2 / p
    ensures x % (2 * p) == 2 * (x / 2 % p) + x % 2
  {
    var q, r := x / 2 / p, x / 2 % p;
    assert x / 2 == q * p + r;
    assert x == q * (2 * p) + (2 * r + x % 2);
    DivModUnique(x, 2 * p, q, 2 * r + x % 2);
  }

  lemma DivideTwice(x: int, p: nat, q: nat)
    requires 0 < p && 0 < q
    ensures 0 < p * q && x / p / q == x / (p * q)
    ensures x % (p * q) == (x / p % q) * p + x % p
  {
    var a, b := x / p, x % p;
    var c, d := a / q, a % q;
    DigitsBound(d, q, b, p);
    MulDistribute(c * q, d, p);
    MulAssoc(c, q, p);
    DivModUnique(x, q * p, c, d * p + b);
  }

  /** Reducing to two digits leaves the upper of them. */
  lemma DigitOfRemainder(x: nat, i: nat, e: nat)
    requires 0 < i && 0 < e
    ensures 0 < e * i && x % (e * i) / i == x / i % e && x % (e * i) % i == x % i
  {
    DivideTwice(x, i, e);
    DivModUnique(x % (e * i), i, x / i % e, x % i);
  }

  /** Adding a multiple of the modulus changes nothing. */
  lemma ModAddMultiple(x: int, k: int, m: int)
    requires 0 < m
    ensures (x + k * m) % m == x % m
    ensures (x + k * m) / m == x / m + k
  {
    assert x + k * m == (x / m + k) * m + x % m;
    DivModUnique(x + k * m, m, x / m + k, x % m);
  }

  /** Reducing first by a multiple of the modulus changes nothing. */
  lemma ModOfMod(x: int, n: nat, m: nat)
    requires 0 < n && 0 < m
    ensures 0 < n * m && x % (n * m) % m == x % m
  {
    MulMonotone(1, n, m);
    DivModIdentity(x, n * m);
    MulAssoc(x / (n * m), n, m);
    ModAddMultiple(x % (n * m), x / (n * m) * n, m);
  }

  /** Taking a multiple of w = n * m * k off a number before dividing by k does
      not show in the quotient's remainder modulo m. */
  lemma QuotientLow(x: int, c: int, w: nat, k: nat, p: nat, n: nat, m: nat)
    requires 0 < k && 0 < m && w == p * k && p == n * m
    ensures (x - c * w) / k % m == x / k % m
  {
    var cp, cn := c * p, c * n;
    MulAssoc(c, p, k);
    MulAssoc(c, n, m);
    MulNegate(cp, k);
    MulNegate(cn, m);
    ModAddMultiple(x, -cp, k);
    assert x + (-cp) * k == x - c * w;
    ModAddMultiple(x / k, -cn, m);
  }

  lemma MulNegate(x: int, y: int)
    ensures (-x) * y == -(x * y)
  {}

  /** A difference may be formed from remainders. */
  lemma ModSubtract(x: int, y: int, m: int)
    requires 0 < m
    ensures (x % m - y % m) % m == (x - y) % m
  {
    var j, k := x / m, y / m;
    MulDistribute(j, k, m);
    assert x - y == x % m - y % m + (j - k) * m by {
      DivModIdentity(x, m);
      DivModIdentity(y, m);
    }
    ModAddMultiple(x % m - y % m, j - k, m);
  }

  lemma ExpandProduct(x: int, y: int, a: int, b: int, p: int, q: int, m: int)
    requires a == p * m + x && b == q * m + y
    ensures a * b == x * y + (p * b + x * q) * m
  {
    MulDistribute(p * m, x, b);
    MulAssoc(p, m, b);
    MulDistribute(q * m, y, x);
    MulAssoc(x, q, m);
    MulDistribute(p * b, x * q, m);
  }

  /** A product may be formed from remainders. */
  lemma ModProduct(m: nat, a: int, b: int)
    requires 0 < m
    ensures a * b % m == (a % m) * (b % m) % m
  {
    DivModIdentity(a, m);
    DivModIdentity(b, m);
    ExpandProduct(a % m, b % m, a, b, a / m, b / m, m);
    ModAddMultiple((a % m) * (b % m), a / m * b + a % m * (b / m), m);
  }

  /** Reducing the high digit reduces the number. */
  lemma ReduceHigh(exact: int, base: nat, low: nat)
    requires 0 < base && low < base
    ensures 0 < base * base && (exact * base + low) % (base * base) == exact % base * base + low
  {
    var k, r := exact / base, exact % base;
    DivModIdentity(exact, base);
    MulDistribute(k * base, r, base);
    MulAssoc(k, base, base);
    DigitsBound(r, base, low, base);
    DivModUnique(exact * base + low, base * base, k, r * base + low);
  }
}

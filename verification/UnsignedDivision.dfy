/** The shift-subtract dividers: udivmoddi4.c, udivmodti4.c and udivsi3.c. */
module UnsignedDivision {
  import opened Arithmetic
  import opened Bits

  lemma ShiftLeftDigits(high: nat, low: nat, half: nat, base: nat)
    requires 0 < half && base == 2 * half && low < base
    ensures 2 * (high * base + low) % (2 * (half * base))
         == (2 * (high % half) + low / half) * base + 2 * (low % half)
  {
    var top, rest := high / half, high % half * base + low;
    DigitsBound(high % half, half, low, base);
    MulDistribute(top * half, high % half, base);
    MulAssoc(top, half, base);
    DivModUnique(high * base + low, half * base, top, rest);
    ScaleDivMod(high * base + low, half * base, 2);
    MulDistribute(2 * (high % half), low / half, base);
    MulAssoc(2, high % half, base);
    MulAssoc(low / half, 2, half);
  }

  /** A two-word left shift by one that brings in a bit. */
  lemma ShiftLeftPair(w: nat, high: nat, low: nat, carry: nat)
    requires 0 < w && high < Pow2(w) && low < Pow2(w) && carry < 2
    ensures Or(Shl(w, low, 1), carry) < Pow2(w)
    ensures Or(Shl(w, high, 1), Shr(low, w - 1)) < Pow2(w)
    ensures Join(w, Or(Shl(w, high, 1), Shr(low, w - 1)), Or(Shl(w, low, 1), carry))
         == 2 * Join(w, high, low) % Pow2(2 * w) + carry
  {
    hide Or, Shl;
    var half := Pow2(w - 1);
    assert Pow2(1) == 2;
    ShlKeepsLow(w, low, 1);
    ShlKeepsLow(w, high, 1);
    ShrBound(low, w, w - 1);
    OrDisjoint(low % half, carry, 1);
    OrDisjoint(high % half, Shr(low, w - 1), 1);
    Pow2Add(w - 1, w);
    ShiftLeftDigits(high, low, half, Pow2(w));
  }

  /** The branch-free comparison: the sign of d - r - 1 tells whether d <= r exactly
      when the difference is representable as a signed m-bit number. */
  lemma BorrowTrick(m: nat, d: nat, r: nat)
    requires 0 < m && d < Pow2(m) && r < Pow2(m)
    ensures Sar(m, Wrap(m, d - r - 1), m - 1) == (if d <= r then Pow2(m) - 1 else 0)
       <==> 0 - Pow2(m - 1) <= d - r - 1 < Pow2(m - 1)
  {
    hide Pow2, Sar;
    Pow2AsDouble(m);
    SarSign(m, Wrap(m, d - r - 1));
    if d <= r {
      DivModUnique(d - r - 1, Pow2(m), -1, Pow2(m) + (d - r - 1));
    } else {
      DivModUnique(d - r - 1, Pow2(m), 0, d - r - 1);
    }
  }

  /** What the loop knows of r keeps the difference representable. */
  lemma LoopDifference(m: nat, d: nat, r: nat)
    requires 0 < m && d < Pow2(m) && r < Pow2(m)
    requires if d <= Pow2(m - 1) then r < 2 * d else r >= Pow2(m - 1)
    ensures 0 - Pow2(m - 1) <= d - r - 1 < Pow2(m - 1)
  {
    Pow2AsDouble(m);
  }

  /** What the loop keeps: after some steps the quotient bits found so far are
      `found`, split between the low end of q and the pending carry. */
  ghost predicate Dividing(m: nat, n: nat, d: nat, k: nat, sr: nat, q: nat, carry: nat, r: nat, found: nat) {
    && sr <= k < m
    && found < Pow2(k - sr)
    && carry == found % 2
    && q == n % Pow2(sr) * Pow2(m - sr) + found / 2
    && n / Pow2(sr) == found * d + r
    && r < d
  }

  /** The next bit of n, and what it leaves. */
  lemma NextBit(n: nat, sr: nat)
    requires 0 < sr
    ensures n / Pow2(sr - 1) == 2 * (n / Pow2(sr)) + n / Pow2(sr - 1) % 2
    ensures n % Pow2(sr) == n / Pow2(sr - 1) % 2 * Pow2(sr - 1) + n % Pow2(sr - 1)
  {
    hide Pow2;
    Pow2AsDouble(sr);
    DivideTwice(n, Pow2(sr - 1), 2);
    DivModIdentity(n, Pow2(sr - 1));
  }

  /** The top bit of q is the next bit of n, and shifting q left makes room for
      the pending carry. */
  lemma NextQuotientWord(bit: nat, digits: nat, low: nat, h: nat, s: nat, s2: nat, half: nat, q: nat, top: nat, top2: nat)
    requires bit < 2 && low < h && half < s && top == h * s && top2 == 2 * top && s2 == 2 * s
    requires digits == bit * h + low && q == digits * s + half
    ensures q / top == bit && 2 * q % top2 == low * s2 + 2 * half
  {
    DigitsBound(low, h, half, s);
    MulDistribute(bit * h, low, s);
    MulAssoc(bit, h, s);
    var rest := low * s + half;
    DivModUnique(q, top, bit, rest);
    ScaleDivMod(q, top, 2);
    MulAssoc(low, 2, s);
  }

  /** Long division: bringing down a bit and subtracting the divisor if it fits. */
  lemma BringDown(n: nat, n': nat, found: nat, d: nat, r: nat, bit: nat)
    requires n == found * d + r && n' == 2 * n + bit && r < d && bit < 2
    ensures var r' := 2 * r + bit; var c := BoolToInt(d <= r');
      n' == (2 * found + c) * d + (if d <= r' then r' - d else r')
  {
    var c := BoolToInt(d <= 2 * r + bit);
    MulDistribute(2 * found, c, d);
    MulAssoc(2, found, d);
  }

  lemma DividingNext(m: nat, n: nat, d: nat, k: nat, sr: nat, found: nat, q: nat, c: nat, r: nat)
    requires 0 < sr <= k < m && found < Pow2(k - sr) && c < 2 && r < d
    requires q == n % Pow2(sr - 1) * Pow2(m - (sr - 1)) + found
    requires n / Pow2(sr - 1) == (2 * found + c) * d + r
    ensures Dividing(m, n, d, k, sr - 1, q, c, r, 2 * found + c)
  {
    Pow2AsDouble(k - sr + 1);
    hide Pow2;
    assert (2 * found + c) / 2 == found && (2 * found + c) % 2 == c;
  }

  lemma DividingMeans(m: nat, n: nat, d: nat, k: nat, sr: nat, q: nat, carry: nat, r: nat, found: nat)
    requires Dividing(m, n, d, k, sr, q, carry, r, found)
    ensures sr <= k < m && found < Pow2(k - sr) && carry == found % 2 && r < d
    ensures n % Pow2(sr) >= 0 && q == n % Pow2(sr) * Pow2(m - sr) + found / 2
    ensures n / Pow2(sr) == found * d + r
  {}

  lemma DividingStep(m: nat, n: nat, d: nat, k: nat, sr: nat, q: nat, carry: nat, r: nat, found: nat)
    requires Dividing(m, n, d, k, sr, q, carry, r, found) && 0 < sr
    ensures 0 <= q / Pow2(m - 1) < 2
    ensures var r' := 2 * r + q / Pow2(m - 1); var c := BoolToInt(d <= r');
      Dividing(m, n, d, k, sr - 1, 2 * q % Pow2(m) + carry, c, if d <= r' then r' - d else r', 2 * found + c)
    ensures q / Pow2(m - 1) == n / Pow2(sr - 1) % 2
  {
    hide Dividing, Pow2, BoolToInt;
    DividingMeans(m, n, d, k, sr, q, carry, r, found);
    var bit: nat := n / Pow2(sr - 1) % 2;
    DivModIdentity(n, Pow2(sr));
    DivModIdentity(n, Pow2(sr - 1));
    NextBit(n, sr);
    Pow2Add(sr - 1, m - sr);
    Pow2AsDouble(m);
    Pow2AsDouble(m - sr + 1);
    Pow2Monotone(k - sr, m - sr);
    NextQuotientWord(bit, n % Pow2(sr), n % Pow2(sr - 1), Pow2(sr - 1), Pow2(m - sr), Pow2(m - (sr - 1)),
      found / 2, q, Pow2(m - 1), Pow2(m));
    BringDown(n / Pow2(sr), n / Pow2(sr - 1), found, d, r, bit);
    var r' := 2 * r + bit;
    var c := BoolToInt(d <= r');
    AtMostOne(d <= r');
    DividingNext(m, n, d, k, sr, found, 2 * q % Pow2(m) + carry, c, if d <= r' then r' - d else r');
  }

  lemma AtMostOne(b: bool)
    ensures BoolToInt(b) < 2
  {}

  lemma TopBitOfPair(w: nat, high: nat, low: nat)
    requires 0 < w && high < Pow2(w) && low < Pow2(w)
    ensures Shr(high, w - 1) == Join(w, high, low) / Pow2(2 * w - 1) < 2
  {
    ShrBound(high, w, w - 1);
    JoinBound(w, high, low);
    Pow2Add(w, w - 1);
    DivideTwice(Join(w, high, low), Pow2(w), Pow2(w - 1));
  }

  lemma AndAllOnes(x: nat, m: nat)
    requires x < Pow2(m)
    ensures And(x, Pow2(m) - 1) == x && And(Pow2(m) - 1, x) == x
  {
    AndMask(x, m);
    AndCommutes(x, Pow2(m) - 1);
    DivModUnique(x, Pow2(m), 0, x);
  }

  /** The mask s is all ones or zero, so it selects d or nothing. */
  lemma MaskedSubtract(m: nat, d: nat, r: nat, s: nat)
    requires 0 < m && d < Pow2(m) && r < Pow2(m)
    requires if d <= Pow2(m - 1) then r < 2 * d else r >= Pow2(m - 1)
    requires s == Sar(m, Wrap(m, d - r - 1), m - 1)
    ensures And(s, 1) == BoolToInt(d <= r)
    ensures Wrap(m, r - And(d, s)) == if d <= r then r - d else r
  {
    LoopDifference(m, d, r);
    BorrowTrick(m, d, r);
    if d <= r {
      AndAllOnes(d, m);
      assert Pow2(1) == 2;
      AndMask(s, 1);
      DivModUnique(r - d, Pow2(m), 0, r - d);
    } else {
      DivModUnique(r, Pow2(m), 0, r);
    }
  }

  lemma SplitBound(w: nat, all: nat)
    requires all < Pow2(2 * w)
    ensures 0 <= all / Pow2(w) < Pow2(w)
    ensures Join(w, all / Pow2(w), all % Pow2(w)) == all
  {
    hide Pow2;
    assert 2 * w - w == w;
    ShrBound(all, 2 * w, w);
    DivModIdentity(all, Pow2(w));
  }

  /** The shifted remainder does not overflow, and the comparison will be sound. */
  lemma ShiftedRemainder(m: nat, n: nat, d: nat, k: nat, sr: nat, q: nat, carry: nat, r: nat, found: nat)
    requires Dividing(m, n, d, k, sr, q, carry, r, found) && 0 < sr
    requires n < Pow2(m) && d < Pow2(m)
    requires d > Pow2(m - 1) ==> k == 1 && n >= Pow2(m - 1)
    ensures var r' := 2 * r + q / Pow2(m - 1);
      && 2 * r % Pow2(m) + q / Pow2(m - 1) == r' < Pow2(m)
      && if d <= Pow2(m - 1) then r' < 2 * d else r' >= Pow2(m - 1)
  {
    DividingStep(m, n, d, k, sr, q, carry, r, found);
    if d > Pow2(m - 1) {
      assert found == 0 && sr == 1;
      assert Pow2(0) == 1 && Pow2(1) == 2;
      assert n / 2 == r && q / Pow2(m - 1) == n % 2;
    }
    DivModUnique(2 * r, Pow2(m), 0, 2 * r);
  }

  lemma Finish(m: nat, n: nat, d: nat, k: nat, q: nat, carry: nat, r: nat, found: nat)
    requires Dividing(m, n, d, k, 0, q, carry, r, found)
    ensures Or(Shl(m, q, 1), carry) == found
    ensures n == found * d + r && r < d
  {
    assert Pow2(0) == 1 && Pow2(1) == 2;
    assert q == found / 2;
    Pow2Monotone(k, m - 1);
    ShlKeepsLow(m, q, 1);
    DivModUnique(q, Pow2(m - 1), 0, q);
    OrDisjoint(q, carry, 1);
  }

  /** Shifting r:q left by one, word by word. */
  lemma ShiftFourWords(w: nat, qh: nat, ql: nat, rh: nat, rl: nat, pending: nat)
    requires 0 < w && pending < 2
    requires qh < Pow2(w) && ql < Pow2(w) && rh < Pow2(w) && rl < Pow2(w)
    requires 2 * Join(w, rh, rl) + Join(w, qh, ql) / Pow2(2 * w - 1) < Pow2(2 * w)
    ensures Or(Shl(w, rh, 1), Shr(rl, w - 1)) < Pow2(w) && Or(Shl(w, rl, 1), Shr(qh, w - 1)) < Pow2(w)
    ensures Or(Shl(w, qh, 1), Shr(ql, w - 1)) < Pow2(w) && Or(Shl(w, ql, 1), pending) < Pow2(w)
    ensures Join(w, Or(Shl(w, rh, 1), Shr(rl, w - 1)), Or(Shl(w, rl, 1), Shr(qh, w - 1)))
         == 2 * Join(w, rh, rl) + Join(w, qh, ql) / Pow2(2 * w - 1)
    ensures Join(w, Or(Shl(w, qh, 1), Shr(ql, w - 1)), Or(Shl(w, ql, 1), pending))
         == 2 * Join(w, qh, ql) % Pow2(2 * w) + pending
  {
    var r := 2 * Join(w, rh, rl);
    TopBitOfPair(w, qh, ql);
    ShiftLeftPair(w, rh, rl, Shr(qh, w - 1));
    ShiftLeftPair(w, qh, ql, pending);
    DivModUnique(r, Pow2(2 * w), 0, r);
  }

  /** The branch-free part of the loop body. */
  method SubtractIfFits(w: nat, d: nat, all: nat) returns (rh: nat, rl: nat, carry: nat)
    requires 0 < w && d < Pow2(2 * w) && all < Pow2(2 * w)
    requires if d <= Pow2(2 * w - 1) then all < 2 * d else all >= Pow2(2 * w - 1)
    ensures rh < Pow2(w) && rl < Pow2(w)
    ensures carry == BoolToInt(d <= all)
    ensures Join(w, rh, rl) == if d <= all then all - d else all
  {
    hide Sar, Wrap, And, Pow2;
    var s := Sar(2 * w, Wrap(2 * w, d - all - 1), 2 * w - 1);
    MaskedSubtract(2 * w, d, all, s);
    carry := And(s, 1);
    var r := Wrap(2 * w, all - And(d, s));
    SplitBound(w, r);
    rh, rl := r / Pow2(w), r % Pow2(w);
  }

  /** One pass of the loop body: shift r:q left by one bringing in the pending
      carry, then subtract d from r if it fits. */
  method DivideBit(w: nat, d: nat, qHigh: nat, qLow: nat, rHigh: nat, rLow: nat, pending: nat)
    returns (qh: nat, ql: nat, rh: nat, rl: nat, carry: nat)
    requires 0 < w && d < Pow2(2 * w) && pending < 2
    requires qHigh < Pow2(w) && qLow < Pow2(w) && rHigh < Pow2(w) && rLow < Pow2(w)
    requires var r' := 2 * Join(w, rHigh, rLow) + Join(w, qHigh, qLow) / Pow2(2 * w - 1);
      && r' < Pow2(2 * w)
      && if d <= Pow2(2 * w - 1) then r' < 2 * d else r' >= Pow2(2 * w - 1)
    ensures qh < Pow2(w) && ql < Pow2(w) && rh < Pow2(w) && rl < Pow2(w)
    ensures Join(w, qh, ql) == 2 * Join(w, qHigh, qLow) % Pow2(2 * w) + pending
    ensures var r' := 2 * Join(w, rHigh, rLow) + Join(w, qHigh, qLow) / Pow2(2 * w - 1);
      && carry == BoolToInt(d <= r')
      && Join(w, rh, rl) == (if d <= r' then r' - d else r')
  {
    ShiftFourWords(w, qHigh, qLow, rHigh, rLow, pending);
    rh := Or(Shl(w, rHigh, 1), Shr(rLow, w - 1));
    rl := Or(Shl(w, rLow, 1), Shr(qHigh, w - 1));
    qh := Or(Shl(w, qHigh, 1), Shr(qLow, w - 1));
    ql := Or(Shl(w, qLow, 1), pending);
    var all := Join(w, rh, rl);
    rh, rl, carry := SubtractIfFits(w, d, all);
  }

  method ShiftSubtract(w: nat, ghost n: nat, d: nat, shift: nat,
                       qHigh: nat, qLow: nat, rHigh: nat, rLow: nat) returns (q: nat, r: nat)
    requires 0 < w && n < Pow2(2 * w) && 0 < d < Pow2(2 * w) && 0 < shift < 2 * w
    requires qHigh < Pow2(w) && qLow < Pow2(w) && rHigh < Pow2(w) && rLow < Pow2(w)
    requires Join(w, qHigh, qLow) == n % Pow2(shift) * Pow2(2 * w - shift)
    requires Join(w, rHigh, rLow) == n / Pow2(shift) < d
    requires d > Pow2(2 * w - 1) ==> shift == 1 && n >= Pow2(2 * w - 1)
    ensures n == q * d + r && r < d
  {
    hide Dividing, Pow2, Join, Or, Shl;
    var qh: nat, ql: nat, rh: nat, rl: nat, sr: nat := qHigh, qLow, rHigh, rLow, shift;
    var carry: nat := 0;
    ghost var m, found: nat := 2 * w, 0;
    DividingStart(m, n, d, shift, Join(w, qh, ql), Join(w, rh, rl));
    while sr > 0
      invariant sr <= shift
      invariant qh < Pow2(w) && ql < Pow2(w) && rh < Pow2(w) && rl < Pow2(w) && carry < 2
      invariant Dividing(m, n, d, shift, sr, Join(w, qh, ql), carry, Join(w, rh, rl), found)
    {
      DividingStep(m, n, d, shift, sr, Join(w, qh, ql), carry, Join(w, rh, rl), found);
      ShiftedRemainder(m, n, d, shift, sr, Join(w, qh, ql), carry, Join(w, rh, rl), found);
      qh, ql, rh, rl, carry := DivideBit(w, d, qh, ql, rh, rl, carry);
      found := 2 * found + carry;
      sr := sr - 1;
    }
    Finish(m, n, d, shift, Join(w, qh, ql), carry, Join(w, rh, rl), found);
    q := Or(Shl(2 * w, Join(w, qh, ql), 1), carry);
    r := Join(w, rh, rl);
  }

  lemma DividingStart(m: nat, n: nat, d: nat, shift: nat, q: nat, r: nat)
    requires shift < m && q == n % Pow2(shift) * Pow2(m - shift) && r == n / Pow2(shift) < d
    ensures Dividing(m, n, d, shift, shift, q, 0, r, 0)
  {
    assert Pow2(0) == 1;
  }

  // ---- setting up the loop ----

  /** The first words of q and r for a shift of less than a word. */
  lemma StartBelowWord(w: nat, high: nat, low: nat, k: nat)
    requires 0 < k < w && high < Pow2(w) && low < Pow2(w)
    ensures Join(w, Shl(w, low, w - k), 0) == Join(w, high, low) % Pow2(k) * Pow2(2 * w - k)
    ensures Join(w, Shr(high, k), Or(Shl(w, high, w - k), Shr(low, k))) == Join(w, high, low) / Pow2(k)
    ensures Or(Shl(w, high, w - k), Shr(low, k)) < Pow2(w) && Shr(high, k) < Pow2(w)
  {
    hide Or, Shl;
    ShiftRightPair(w, high, low, k);
    ShlKeepsLow(w, low, w - k);
    ShrBound(high, w, k);
    Pow2Monotone(w - k, w);
    Pow2Add(k, w - k);
    Pow2Add(w - k, w);
    ModOfMultiple(high * Pow2(w - k), Pow2(k), low);
    MulAssoc(high, Pow2(k), Pow2(w - k));
    MulAssoc(low % Pow2(k), Pow2(w - k), Pow2(w));
  }

  lemma ModOfMultiple(c: int, p: int, x: int)
    requires 0 < p
    ensures (c * p + x) % p == x % p
  {
    ModAddMultiple(x, c, p);
  }

  /** The same for a shift of exactly a word. */
  lemma StartAtWord(w: nat, high: nat, low: nat)
    requires high < Pow2(w) && low < Pow2(w)
    ensures Join(w, low, 0) == Join(w, high, low) % Pow2(w) * Pow2(2 * w - w)
    ensures Join(w, 0, high) == Join(w, high, low) / Pow2(w)
  {
    JoinBound(w, high, low);
  }

  lemma ScaledDigits(high: nat, low: nat, p: nat, m: nat)
    requires 0 < p && 0 < m
    ensures (high % p * (p * m) + low) * m == (high % p * m + low / p) * (p * m) + low % p * m
  {
    var hr, lq, lr := high % p, low / p, low % p;
    MulDistribute(hr * (p * m), low, m);
    MulAssoc(hr, p * m, m);
    MulDistribute(hr * m, lq, p * m);
    assert low == lq * p + lr;
    MulDistribute(lq * p, lr, m);
    MulAssoc(lq, p, m);
  }

  /** The same for a shift of more than a word. */
  lemma StartAboveWord(w: nat, high: nat, low: nat, j: nat)
    requires 0 < j < w && high < Pow2(w) && low < Pow2(w)
    ensures Or(Shl(w, high, w - j), Shr(low, j)) < Pow2(w) && Shr(high, j) < Pow2(w)
    ensures Join(w, Or(Shl(w, high, w - j), Shr(low, j)), Shl(w, low, w - j))
         == Join(w, high, low) % Pow2(w + j) * Pow2(w - j)
    ensures Join(w, 0, Shr(high, j)) == Join(w, high, low) / Pow2(w + j)
  {
    hide Or, Shl;
    var p, m := Pow2(j), Pow2(w - j);
    ShiftRightPair(w, high, low, j);
    ShrBound(high, w, j);
    Pow2Monotone(w - j, w);
    ShlKeepsLow(w, low, w - j);
    Pow2Add(j, w - j);
    Pow2Add(w, j);
    JoinBound(w, high, low);
    DivideTwice(Join(w, high, low), Pow2(w), p);
    ScaledDigits(high, low, p, m);
  }

  /** The bit-length argument: shifting n right until it is shorter than d makes it smaller. */
  lemma ShiftedBelow(n: nat, bits: nat, k: nat, d: nat)
    requires n < Pow2(bits) && k <= bits && Pow2(bits - k) <= d
    ensures n / Pow2(k) < d
  {
    hide Pow2;
    ShrBound(n, bits, k);
  }

  /** A pair is as long as its high word and a word more. */
  lemma PairLength(w: nat, high: nat, low: nat)
    requires 0 < high < Pow2(w) && low < Pow2(w)
    ensures Pow2(w + BitLen(high) - 1) <= Join(w, high, low) < Pow2(w + BitLen(high))
  {
    var l := BitLen(high);
    Pow2Add(l - 1, w);
    Pow2Add(l, w);
    MulMonotone(Pow2(l - 1), high, Pow2(w));
    DigitsBound(high, Pow2(l), low, Pow2(w));
  }

  /** The divisor with a nonzero high word: what the difference of the leading
      zero counts says. */
  lemma ShiftForWideDivisor(w: nat, nh: nat, nl: nat, dh: nat, dl: nat)
    requires 0 < nh < Pow2(w) && nl < Pow2(w) && 0 < dh < Pow2(w) && dl < Pow2(w)
    ensures BitLen(nh) <= w && BitLen(dh) <= w
    ensures var n, d, k := Join(w, nh, nl), Join(w, dh, dl), BitLen(nh) - BitLen(dh) + 1;
      if k <= 0 then n < d
      else n / Pow2(k) < d && (d > Pow2(2 * w - 1) ==> k == 1 && n >= Pow2(2 * w - 1))
  {
    hide Pow2, BitLen, Join;
    var ln, ld := BitLen(nh), BitLen(dh);
    BitLenBound(nh, w);
    BitLenBound(dh, w);
    PairLength(w, nh, nl);
    PairLength(w, dh, dl);
    ShiftFromLengths(w, Join(w, nh, nl), Join(w, dh, dl), ln, ld);
  }

  /** The same for numbers of which only the lengths are known. */
  lemma ShiftFromLengths(w: nat, n: nat, d: nat, ln: nat, ld: nat)
    requires 0 < ln <= w && 0 < ld <= w
    requires Pow2(w + ln - 1) <= n < Pow2(w + ln) && Pow2(w + ld - 1) <= d < Pow2(w + ld)
    ensures ln < ld ==> n < d
    ensures ln >= ld ==> n / Pow2(ln - ld + 1) < d
    ensures ln >= ld && d > Pow2(2 * w - 1) ==> ln == ld && n >= Pow2(2 * w - 1)
  {
    hide Pow2;
    if ln < ld {
      Pow2Monotone(w + ln, w + ld - 1);
    } else {
      LongDivisor(w, d, ld);
      ShiftedBelow(n, w + ln, ln - ld + 1, d);
    }
  }

  lemma LongDivisor(w: nat, d: nat, ld: nat)
    requires 0 < ld <= w && d < Pow2(w + ld)
    ensures d > Pow2(2 * w - 1) ==> ld == w
  {
    hide Pow2;
    if ld < w {
      Pow2Monotone(w + ld, 2 * w - 1);
    }
  }

  /** Dividing both numbers by a common power of the base. */
  lemma DivideHighWords(nh: nat, nl: nat, dh: nat, base: nat)
    requires 0 < dh && nl < base
    ensures nh * base + nl == nh / dh * (dh * base) + (nh % dh * base + nl)
    ensures nh % dh * base + nl < dh * base
  {
    MulDistribute(nh / dh * dh, nh % dh, base);
    MulAssoc(nh / dh, dh, base);
    DigitsBound(nh % dh, dh, nl, base);
  }

  /** Division by a power of two is a shift and a mask. */
  lemma PowerOfTwoDivisor(x: nat, d: nat)
    requires 0 < d && And(d, d - 1) == 0
    ensures d == Pow2(TrailingZeros(d))
    ensures And(x, d - 1) == x % d && Shr(x, TrailingZeros(d)) == x / d
  {
    AndPredecessor(d);
    AndMask(x, TrailingZeros(d));
  }

  /** K X / K 0: the low word of the divisor is zero. */
  method DivideByHighWord(w: nat, nh: nat, nl: nat, dh: nat) returns (quotient: nat, rem: nat)
    requires 2 <= w <= 0x8000_0000
    requires 0 < nh < Pow2(w) && nl < Pow2(w) && 0 < dh < Pow2(w)
    ensures Join(w, nh, nl) == quotient * Join(w, dh, 0) + rem && rem < Join(w, dh, 0)
  {
    hide And, Or, Shl, Wrap, Pow2, BitLen;
    DivideHighWords(nh, nl, dh, Pow2(w));
    if nl == 0 {
      rem := Join(w, nh % dh, 0);
      quotient := nh / dh;
      return;
    }
    if And(dh, dh - 1) == 0 {
      PowerOfTwoDivisor(nh, dh);
      rem := Join(w, And(nh, dh - 1), nl);
      quotient := Shr(nh, TrailingZeros(dh));
      return;
    }
    ShiftForWideDivisor(w, nh, nl, dh, 0);
    LongerThanOneBit(dh);
    var sr := Wrap(32, Clz(w, dh) - Clz(w, nh));
    UnsignedDifference(Clz(w, dh), Clz(w, nh), w);
    if sr > w - 2 {
      return 0, Join(w, nh, nl);
    }
    sr := sr + 1;
    StartBelowWord(w, nh, nl, sr);
    var ql := 0;
    var qh := Shl(w, nl, w - sr);
    var rh := Shr(nh, sr);
    var rl := Or(Shl(w, nh, w - sr), Shr(nl, sr));
    JoinBound(w, nh, nl);
    JoinBound(w, dh, 0);
    quotient, rem := ShiftSubtract(w, Join(w, nh, nl), Join(w, dh, 0), sr, qh, ql, rh, rl);
  }

  /** A word that is not a power of two has at least two bits. */
  lemma LongerThanOneBit(d: nat)
    requires 0 < d && And(d, d - 1) != 0
    ensures BitLen(d) >= 2
  {}

  /** The difference of two leading-zero counts, taken in 32-bit unsigned arithmetic. */
  lemma UnsignedDifference(x: nat, y: nat, w: nat)
    requires x <= w && y <= w && 2 <= w <= 0x8000_0000
    ensures x >= y ==> Wrap(32, x - y) == x - y
    ensures x < y ==> Wrap(32, x - y) > w - 1
  {
    Pow2Values();
    if x >= y {
      DivModUnique(x - y, Pow2(32), 0, x - y);
    } else {
      DivModUnique(x - y, Pow2(32), -1, x - y + Pow2(32));
    }
  }

  lemma ShiftForNarrowDivisor(w: nat, nh: nat, nl: nat, dl: nat)
    requires 2 <= w && 0 < nh < Pow2(w) && nl < Pow2(w) && 0 < dl < Pow2(w)
    requires And(dl, dl - 1) != 0
    ensures var sr := 1 + w + Clz(w, dl) - Clz(w, nh);
      2 <= sr < 2 * w && Join(w, nh, nl) / Pow2(sr) < dl
    ensures Join(w, nh, nl) < Pow2(2 * w) && dl <= Pow2(2 * w - 1) && dl < Pow2(2 * w)
  {
    hide Pow2, BitLen, And, Join;
    Pow2Monotone(w, 2 * w);
    BitLenBound(nh, w);
    BitLenBound(dl, w);
    LongerThanOneBit(dl);
    PairLength(w, nh, nl);
    JoinBound(w, nh, nl);
    Pow2Monotone(w, 2 * w - 1);
    ShiftedBelow(Join(w, nh, nl), w + BitLen(nh), 1 + w + Clz(w, dl) - Clz(w, nh), dl);
  }

  /** K X / 0 K: the divisor fits one word. */
  method DivideByLowWord(w: nat, nh: nat, nl: nat, dl: nat) returns (quotient: nat, rem: nat)
    requires 2 <= w <= 0x8000_0000
    requires 0 < nh < Pow2(w) && nl < Pow2(w) && 0 < dl < Pow2(w)
    ensures Join(w, nh, nl) == quotient * dl + rem && rem < dl
  {
    hide And, Or, Shl, Shr, Wrap, Pow2, BitLen, TrailingZeros, Clz, Join;
    ghost var n := Join(w, nh, nl);
    var qh, ql, rh, rl;
    if And(dl, dl - 1) == 0 {
      ghost var z := TrailingZeros(dl);
      PowerOfTwoDivisor(nl, dl);
      rem := And(nl, dl - 1);
      if dl == 1 {
        return Join(w, nh, nl), rem;
      }
      ShiftByTrailingZeros(w, nh, nl, dl);
      var sr := TrailingZeros(dl);
      qh := Shr(nh, sr);
      ql := Or(Shl(w, nh, w - sr), Shr(nl, sr));
      return Join(w, qh, ql), rem;
    }
    ShiftForNarrowDivisor(w, nh, nl, dl);
    var sr := 1 + w + Clz(w, dl) - Clz(w, nh);
    if sr == w {
      StartAtWord(w, nh, nl);
      ql := 0;
      qh := nl;
      rh := 0;
      rl := nh;
    } else if sr < w {
      StartBelowWord(w, nh, nl, sr);
      ql := 0;
      qh := Shl(w, nl, w - sr);
      rh := Shr(nh, sr);
      rl := Or(Shl(w, nh, w - sr), Shr(nl, sr));
    } else {
      StartAboveWord(w, nh, nl, sr - w);
      ql := Shl(w, nl, 2 * w - sr);
      qh := Or(Shl(w, nh, 2 * w - sr), Shr(nl, sr - w));
      rh := 0;
      rl := Shr(nh, sr - w);
    }
    quotient, rem := ShiftSubtract(w, n, dl, sr, qh, ql, rh, rl);
  }

  lemma ShiftByTrailingZeros(w: nat, nh: nat, nl: nat, dl: nat)
    requires nh < Pow2(w) && nl < Pow2(w) && 1 < dl < Pow2(w) && And(dl, dl - 1) == 0
    ensures var sr := TrailingZeros(dl);
      && 0 < sr < w
      && Join(w, nh, nl) == Join(w, Shr(nh, sr), Or(Shl(w, nh, w - sr), Shr(nl, sr))) * dl + nl % dl
  {
    hide And, Or, Shl, Shr, Pow2, TrailingZeros, Join;
    var sr := TrailingZeros(dl);
    PowerOfTwoDivisor(nl, dl);
    TrailingZerosBelow(w, dl);
    StartBelowWord(w, nh, nl, sr);
    LowWordRemainder(w, nh, nl, sr);
    DivModIdentity(Join(w, nh, nl), dl);
  }

  lemma TrailingZerosBelow(w: nat, d: nat)
    requires 1 < d < Pow2(w) && d == Pow2(TrailingZeros(d))
    ensures 0 < TrailingZeros(d) < w
  {
    hide Pow2, TrailingZeros;
    PowersBelowFive();
    if TrailingZeros(d) >= w {
      Pow2Monotone(w, TrailingZeros(d));
    }
  }

  /** The low bits of a pair are those of its low word. */
  lemma LowWordRemainder(w: nat, high: nat, low: nat, k: nat)
    requires k <= w
    ensures Join(w, high, low) % Pow2(k) == low % Pow2(k)
  {
    hide Pow2;
    Pow2Add(w - k, k);
    MultipleVanishes(high, Pow2(w - k), Pow2(k), Pow2(w), low);
  }

  lemma MultipleVanishes(high: nat, a: nat, d: nat, p: nat, low: nat)
    requires 0 < d && p == a * d
    ensures (high * p + low) % d == low % d
  {
    MulAssoc(high, a, d);
    ModAddMultiple(low, high * a, d);
  }

  /** K X / K K. */
  method DivideByPair(w: nat, nh: nat, nl: nat, dh: nat, dl: nat) returns (quotient: nat, rem: nat)
    requires 2 <= w <= 0x8000_0000
    requires 0 < nh < Pow2(w) && nl < Pow2(w) && 0 < dh < Pow2(w) && dl < Pow2(w)
    ensures Join(w, nh, nl) == quotient * Join(w, dh, dl) + rem && rem < Join(w, dh, dl)
  {
    hide And, Or, Shl, Wrap, Pow2, BitLen;
    ShiftForWideDivisor(w, nh, nl, dh, dl);
    var sr := Wrap(32, Clz(w, dh) - Clz(w, nh));
    UnsignedDifference(Clz(w, dh), Clz(w, nh), w);
    if sr > w - 1 {
      return 0, Join(w, nh, nl);
    }
    sr := sr + 1;
    var qh, rh, rl;
    var ql := 0;
    if sr == w {
      StartAtWord(w, nh, nl);
      qh := nl;
      rh := 0;
      rl := nh;
    } else {
      StartBelowWord(w, nh, nl, sr);
      qh := Shl(w, nl, w - sr);
      rh := Shr(nh, sr);
      rl := Or(Shl(w, nh, w - sr), Shr(nl, sr));
    }
    JoinBound(w, nh, nl);
    JoinBound(w, dh, dl);
    quotient, rem := ShiftSubtract(w, Join(w, nh, nl), Join(w, dh, dl), sr, qh, ql, rh, rl);
  }

  lemma HighWord(w: nat, high: nat, low: nat)
    ensures high == 0 ==> Join(w, high, low) == low
    ensures high > 0 ==> Join(w, high, low) >= Pow2(w) + low
  {
    if high > 0 {
      MulMonotone(1, high, Pow2(w));
    }
  }

  /** __udivmoddi4 for w = 32, __udivmodti4 for w = 64. */
  method UDivMod(w: nat, a: nat, b: nat) returns (quotient: nat, rem: nat)
    requires 2 <= w <= 0x8000_0000
    requires a < Pow2(2 * w) && 0 < b < Pow2(2 * w)
    ensures a == quotient * b + rem && rem < b
  {
    hide Pow2, Join;
    SplitBound(w, a);
    SplitBound(w, b);
    var nh, nl := a / Pow2(w), a % Pow2(w);
    var dh, dl := b / Pow2(w), b % Pow2(w);
    HighWord(w, nh, nl);
    HighWord(w, dh, dl);
    if nh == 0 {
      if dh == 0 {
        DivModIdentity(nl, dl);
        return nl / dl, nl % dl;
      }
      return 0, nl;
    }
    if dl == 0 {
      quotient, rem := DivideByHighWord(w, nh, nl, dh);
    } else if dh == 0 {
      quotient, rem := DivideByLowWord(w, nh, nl, dl);
    } else {
      quotient, rem := DivideByPair(w, nh, nl, dh, dl);
    }
  }

  // ---- the one-word divider, udivsi3.c ----

  /** A one-word left shift by one that brings in a bit. */
  lemma ShiftLeftWord(w: nat, x: nat, carry: nat)
    requires 0 < w && carry < 2
    ensures Or(Shl(w, x, 1), carry) == 2 * x % Pow2(w) + carry < Pow2(w)
  {
    assert Pow2(1) == 2;
    ShlKeepsLow(w, x, 1);
    OrDisjoint(x % Pow2(w - 1), carry, 1);
    ScaleDivMod(x, Pow2(w - 1), 2);
  }

  lemma ShorterIsSmaller(n: nat, d: nat)
    requires BitLen(n) < BitLen(d)
    ensures n < d
  {
    if d > 0 {
      Pow2Monotone(BitLen(n), BitLen(d) - 1);
    }
  }

  lemma ShiftForWord(w: nat, n: nat, d: nat, k: nat)
    requires 0 < n < Pow2(w) && 0 < d < Pow2(w)
    requires k == BitLen(n) - BitLen(d) + 1 && 0 < k < w
    ensures n / Pow2(k) < d
    ensures d > Pow2(w - 1) ==> k == 1 && n >= Pow2(w - 1)
  {
    hide Pow2, BitLen;
    var ln, ld := BitLen(n), BitLen(d);
    BitLenBound(n, w);
    ShiftedBelow(n, ln, k, d);
    if d > Pow2(w - 1) && ld < w {
      Pow2Monotone(ld, w - 1);
    }
  }

  lemma LengthOne(d: nat)
    requires BitLen(d) == 1
    ensures d == 1
  {
    assert Pow2(0) == 1 && Pow2(1) == 2;
  }

  /** __udivsi3 for w = 32.  Division by zero is answered with zero. */
  method UDivWord(w: nat, n: nat, d: nat) returns (q: nat)
    requires 2 <= w <= 0x8000_0000 && n < Pow2(w) && d < Pow2(w)
    ensures d == 0 ==> q == 0
    ensures d != 0 ==> q * d <= n < (q + 1) * d
  {
    hide Or, And, Shl, Wrap, Sar, Pow2, BitLen;
    if d == 0 {
      return 0;
    }
    if n == 0 {
      return 0;
    }
    UnsignedDifference(Clz(w, d), Clz(w, n), w);
    var sr := Wrap(32, Clz(w, d) - Clz(w, n));
    if sr > w - 1 {
      ShorterIsSmaller(n, d);
      return 0;
    }
    if sr == w - 1 {
      LengthOne(d);
      return n;
    }
    sr := sr + 1;
    ShiftForWord(w, n, d, sr);
    q := LoopOneWord(w, n, d, sr);
  }

  method LoopOneWord(w: nat, n: nat, d: nat, shift: nat) returns (q: nat)
    requires n < Pow2(w) && 0 < d < Pow2(w) && 0 < shift < w
    requires n / Pow2(shift) < d
    requires d > Pow2(w - 1) ==> shift == 1 && n >= Pow2(w - 1)
    ensures q * d <= n < (q + 1) * d
  {
    hide Dividing, Or, And, Shl, Wrap, Sar, Pow2;
    var sr: nat := shift;
    ShlKeepsLow(w, n, w - sr);
    q := Shl(w, n, w - sr);
    var r: nat := Shr(n, sr);
    var carry: nat := 0;
    ghost var found: nat := 0;
    DividingStart(w, n, d, shift, q, r);
    while sr > 0
      invariant sr <= shift
      invariant q < Pow2(w) && carry < 2
      invariant Dividing(w, n, d, shift, sr, q, carry, r, found)
    {
      DividingStep(w, n, d, shift, sr, q, carry, r, found);
      ShiftedRemainder(w, n, d, shift, sr, q, carry, r, found);
      ShiftLeftWord(w, r, Shr(q, w - 1));
      ShiftLeftWord(w, q, carry);
      r := Or(Shl(w, r, 1), Shr(q, w - 1));
      q := Or(Shl(w, q, 1), carry);
      var s := Sar(w, Wrap(w, d - r - 1), w - 1);
      MaskedSubtract(w, d, r, s);
      carry := And(s, 1);
      r := Wrap(w, r - And(d, s));
      found := 2 * found + carry;
      sr := sr - 1;
    }
    Finish(w, n, d, shift, q, carry, r, found);
    q := Or(Shl(w, q, 1), carry);
    MulDistribute(q, 1, d);
  }
}

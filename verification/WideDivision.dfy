/** Double-word arithmetic in portable code, and the division of a double word by a double word. */
module WideDivision {
  import opened Words
  import opened LongDivision

  // ----- the high word of a product

  /** The high word of a product from digit products, for signed and unsigned top digits alike. */
  lemma HighFromDigits(b: nat, x1: int, x0: nat, y1: int, y0: nat)
    requires b > 0 && x0 < b && y0 < b
    ensures var t := x1 * y0 + (x0 * y0) / b;
            x1 * y1 + t / b + (x0 * y1 + t % b) / b == ((x1 * b + x0) * (y1 * b + y0)) / (b * b)
  {
    var z := x0 * y0;
    var t := x1 * y0 + z / b;
    var m := x0 * y1 + t % b;
    ExpandProduct(b, x1, x0, y1, y0);
    DivModForm(z, b);
    DivModForm(t, b);
    DivModForm(m, b);
    CollectDigits(b, x1 * y1, x0 * y1, x1 * y0, z / b, z % b, t / b, t % b, m / b, m % b);
    var lo := (m % b) * b + z % b;
    MulMonotone(b, m % b, b - 1);
    Distribute(b, b, -1);
    MulMonotone(b, 0, m % b);
    DivModUnique((x1 * b + x0) * (y1 * b + y0), b * b, x1 * y1 + t / b + m / b, lo);
  }

  lemma ExpandProduct(b: int, x1: int, x0: int, y1: int, y0: int)
    ensures (x1 * b + x0) * (y1 * b + y0) == (x1 * y1) * (b * b) + (x1 * y0 + x0 * y1) * b + x0 * y0
  {
  }

  lemma CollectDigits(b: int, x1y1: int, x0y1: int, x1y0: int, zh: int, zl: int, th: int, tl: int, mh: int, ml: int)
    requires x1y0 + zh == th * b + tl && x0y1 + tl == mh * b + ml
    ensures x1y1 * (b * b) + (x1y0 + x0y1) * b + (zh * b + zl) == (x1y1 + th + mh) * (b * b) + (ml * b + zl)
  {
  }

  /** The high word of an unsigned product, as the portable code computes it. */
  function MulHighUnsigned(h: nat, x: nat, y: nat): int {
    var b := Pow2(h);
    var x0, x1, y0, y1 := x % b, x / b, y % b, y / b;
    var temp := x1 * y0 + (x0 * y0) / b;
    x1 * y1 + temp / b + (temp % b + x0 * y1) / b
  }

  /** The high word of a signed product, as the portable code computes it; shifts right of negative
      values round down. */
  function MulHighSigned(h: nat, x: int, y: int): int {
    var b := Pow2(h);
    var x0, y0, x1, y1 := x % b, y % b, x / b, y / b;
    var t := x1 * y0 + (x0 * y0) / b;
    var w1 := x0 * y1 + t % b;
    x1 * y1 + t / b + w1 / b
  }

  lemma MulHighSignedExact(h: nat, x: int, y: int)
    ensures MulHighSigned(h, x, y) == (x * y) / Pow2(2 * h)
  {
    var b := Pow2(h);
    assert (x / b) * b + x % b == x && (y / b) * b + y % b == y by {
      DivModForm(x, b);
      DivModForm(y, b);
    }
    assert Pow2(2 * h) == b * b by { Pow2Add(h, h); }
    HighFromDigits(b, x / b, x % b, y / b, y % b);
  }

  lemma MulHighUnsignedExact(h: nat, x: nat, y: nat)
    ensures MulHighUnsigned(h, x, y) == (x * y) / Pow2(2 * h)
  {
    MulHighSignedExact(h, x, y);
  }

  /** A digit product plus a digit fits a word. */
  lemma DigitSumFits(b: nat, x: nat, y: nat, c: nat)
    requires x < b && y < b && c < b
    ensures x * y + c < b * b
  {
    MulMonotone(x, y, b - 1);
    MulMonotone(b - 1, x, b - 1);
    Distribute(b - 1, b, -1);
    Distribute(b, b, -1);
  }

  lemma HighDigitFits(b: nat, x: nat, y: nat)
    requires x < b && y < b
    ensures 0 <= (x * y) / b < b
  {
    ProductBelowSquare(b, x, y);
    DivAtLeast(x * y, b, b);
    MulMonotone(x, 0, y);
    DivAtLeast(x * y, b, 0);
  }

  lemma SignedDigitSumFits(half: int, x: int, y: int, c: int)
    requires -half <= x < half && 0 <= y < 2 * half && 0 <= c < 2 * half
    ensures -(half * (2 * half)) <= x * y + c < half * (2 * half)
  {
    var b := 2 * half;
    assert x * y <= (half - 1) * (b - 1) by {
      MulMonotone(y, x, half - 1);
      MulMonotone(half - 1, y, b - 1);
    }
    assert -(half * b) <= x * y by {
      MulMonotone(y, -half, x);
      MulMonotone(half, y, b);
    }
    assert (half - 1) * (b - 1) == half * b - half - b + 1;
  }

  /** No intermediate sum of the unsigned computation leaves a word of two digits to base `b`. */
  lemma MulHighUnsignedFits(b: nat, x1: nat, x0: nat, y1: nat, y0: nat)
    requires x1 < b && x0 < b && y1 < b && y0 < b
    ensures var temp := x1 * y0 + (x0 * y0) / b;
            temp < b * b && temp % b + x0 * y1 < b * b
  {
    HighDigitFits(b, x0, y0);
    var c := (x0 * y0) / b;
    DigitSumFits(b, x1, y0, c);
    var d := (x1 * y0 + c) % b;
    DigitSumFits(b, x0, y1, d);
  }

  /** Nor does any of the signed computation, whose top digits are signed. */
  lemma MulHighSignedFits(half: int, x1: int, x0: int, y1: int, y0: int)
    requires half > 0 && -half <= x1 < half && -half <= y1 < half && 0 <= x0 < 2 * half && 0 <= y0 < 2 * half
    ensures var b := 2 * half;
            var t := x1 * y0 + (x0 * y0) / b;
            var w1 := x0 * y1 + t % b;
            -(half * b) <= t < half * b && -(half * b) <= w1 < half * b
  {
    var b := 2 * half;
    HighDigitFits(b, x0, y0);
    var c := (x0 * y0) / b;
    SignedDigitSumFits(half, x1, y0, c);
    var d := (x1 * y0 + c) % b;
    SignedDigitSumFits(half, y1, x0, d);
  }

  // ----- pairs of words

  datatype Pair = Pair(hi: nat, lo: nat)

  /** The number a pair of words stands for. */
  function Value(w: nat, p: Pair): int { p.hi * Pow2(w) + p.lo }

  predicate IsPair(w: nat, p: Pair) { p.hi < Pow2(w) && p.lo < Pow2(w) }

  lemma ValueRange(w: nat, p: Pair)
    requires IsPair(w, p)
    ensures 0 <= Value(w, p) < Pow2(w) * Pow2(w)
  {
    ProductBelowSquare(Pow2(w), p.hi, p.lo);
    MulMonotone(Pow2(w), 0, p.hi);
  }

  /** Shifts a pair left by a positive amount and right by a negative one. */
  function ShiftPairBy(w: nat, p: Pair, shift: int): Pair
    requires -shift < w && shift < w
  {
    if shift > 0 then Pair(Or(Shl(w, p.hi, shift), Shr(p.lo, w - shift)), Shl(w, p.lo, shift))
    else if shift < 0 then Pair(Shr(p.hi, -shift), Or(Shr(p.lo, -shift), Shl(w, p.hi, w + shift)))
    else p
  }

  /** A left shift that loses no bits multiplies. */
  lemma ShiftLeftValue(w: nat, p: Pair, s: nat)
    requires s < w && IsPair(w, p) && p.hi * Pow2(s) < Pow2(w)
    ensures Value(w, ShiftPairBy(w, p, s)) == Value(w, p) * Pow2(s)
    ensures IsPair(w, ShiftPairBy(w, p, s))
  {
    if s == 0 {
      assert Pow2(0) == 1;
    } else {
      NormalizeTop(w, p.hi, p.lo, s);
      NormalizeDividend(w, p.hi, p.lo, s);
      TopFits(w, p.hi, Shr(p.lo, w - s), s);
    }
  }

  lemma BlockFits(p: nat, q: nat, hi: nat, c: nat)
    requires hi * p < q * p && c < p
    ensures hi * p + c < q * p
  {
    if hi >= q { MulMonotone(p, q, hi); }
    MulMonotone(p, hi + 1, q);
    Distribute(p, hi, 1);
  }

  lemma TopFits(w: nat, hi: nat, c: nat, s: nat)
    requires s <= w && hi * Pow2(s) < Pow2(w) && c < Pow2(s)
    ensures hi * Pow2(s) + c < Pow2(w)
  {
    Pow2Add(w - s, s);
    BlockFits(Pow2(s), Pow2(w - s), hi, c);
  }

  /** The words of a right shift, over the two powers that split a word at the shift. */
  lemma ShiftRightParts(p: nat, q: nat, hi: nat, lo: nat)
    requires p > 0 && q > 0
    ensures (hi * q) % (p * q) == (hi % p) * q
    ensures (hi / p) * (p * q) + (hi % p) * q + lo / p == (hi * (p * q) + lo) / p
  {
    DivMulCancel(hi, p, q);
    DivModForm(hi, p);
    Distribute(q, (hi / p) * p, hi % p);
    Associate(hi / p, p, q);
    assert (hi / p) * (p * q) + (hi % p) * q == hi * q;
    DivModForm(lo, p);
    Associate(hi, q, p);
    Distribute(p, hi * q, lo / p);
    DivModUnique(hi * (p * q) + lo, p, hi * q + lo / p, lo % p);
  }

  /** The low word of a right shift: bits of the low word below bits of the high one. */
  lemma ShiftRightLow(w: nat, hi: nat, lo: nat, s: nat)
    requires s <= w && hi < Pow2(w) && lo < Pow2(w)
    ensures Or(Shr(lo, s), Shl(w, hi, w - s)) == (hi % Pow2(s)) * Pow2(w - s) + Shr(lo, s) < Pow2(w)
  {
    var x, y := Pow2(s), Pow2(w - s);
    var c := hi % x;
    ShrBound(w, lo, s);
    OrDisjoint(c, Shr(lo, s), w - s);
    OrCommutes(Shr(lo, s), c * y);
    assert Shl(w, hi, w - s) == c * y by {
      Pow2Add(s, w - s);
      DivMulCancel(hi, x, y);
    }
    assert c * y + Shr(lo, s) < Pow2(w) by {
      MulStrict(y, c, x);
      Pow2Add(s, w - s);
      BlockFits(y, x, c, Shr(lo, s));
    }
  }

  lemma ShiftRightWords(w: nat, hi: nat, lo: nat, s: nat)
    requires s <= w
    ensures Shr(hi, s) * Pow2(w) + ((hi % Pow2(s)) * Pow2(w - s) + Shr(lo, s)) == (hi * Pow2(w) + lo) / Pow2(s)
  {
    var p, q, m := Pow2(s), Pow2(w - s), Pow2(w);
    assert m == p * q by { Pow2Add(s, w - s); }
    ShiftRightParts(p, q, hi, lo);
  }

  /** A right shift divides, rounding down. */
  lemma ShiftRightValue(w: nat, p: Pair, s: int)
    requires 0 < s < w && IsPair(w, p)
    ensures Value(w, ShiftPairBy(w, p, -s)) == Value(w, p) / Pow2(s)
    ensures IsPair(w, ShiftPairBy(w, p, -s)) && ShiftPairBy(w, p, -s).hi == p.hi / Pow2(s)
  {
    assert Shr(p.hi, s) < Pow2(w) by {
      ShrBound(w, p.hi, s);
      Pow2Monotone(w - s, w);
    }
    ShiftRightLow(w, p.hi, p.lo, s);
    ShiftRightWords(w, p.hi, p.lo, s);
  }

  /** A pair is determined by its value. */
  lemma PairOfValue(w: nat, p: Pair, hi: int, lo: int)
    requires IsPair(w, p) && 0 <= lo < Pow2(w) && Value(w, p) == hi * Pow2(w) + lo
    ensures p.hi == hi && p.lo == lo
  {
    DivModUnique(Value(w, p), Pow2(w), hi, lo);
    DivModUnique(Value(w, p), Pow2(w), p.hi, p.lo);
  }

  /** Wrapping both words of a value that fits a pair loses nothing. */
  lemma WrapPair(w: nat, hi: int, lo: int)
    requires 0 <= lo < Pow2(w) && 0 <= hi * Pow2(w) + lo < Pow2(w) * Pow2(w)
    ensures Wrap(w, hi) == hi
  {
    var m := Pow2(w);
    if hi < 0 { MulMonotone(m, hi, -1); }
    if hi >= m { MulMonotone(m, m, hi); }
    WrapSmall(w, hi);
  }

  /** The comparison of pairs, high words first. */
  predicate AtLeast(p: Pair, q: Pair) { p.hi > q.hi || (p.hi == q.hi && p.lo >= q.lo) }

  lemma AtLeastValue(w: nat, p: Pair, q: Pair)
    requires IsPair(w, p) && IsPair(w, q)
    ensures AtLeast(p, q) <==> Value(w, p) >= Value(w, q)
  {
    var m := Pow2(w);
    if p.hi > q.hi {
      MulMonotone(m, q.hi + 1, p.hi);
      Distribute(m, q.hi, 1);
    } else if p.hi < q.hi {
      MulMonotone(m, p.hi + 1, q.hi);
      Distribute(m, p.hi, 1);
    }
  }

  /** Subtraction of pairs with a borrow between the words. */
  function Minus(w: nat, p: Pair, q: Pair): Pair {
    Pair(Wrap(w, p.hi - (q.hi + if p.lo < q.lo then 1 else 0)), Wrap(w, p.lo - q.lo))
  }

  lemma BorrowBalances(m: int, ph: int, pl: int, qh: int, ql: int, borrow: int)
    ensures (ph - (qh + borrow)) * m + (pl - ql + borrow * m) == (ph * m + pl) - (qh * m + ql)
  {
  }

  lemma MinusValue(w: nat, p: Pair, q: Pair)
    requires IsPair(w, p) && IsPair(w, q) && Value(w, q) <= Value(w, p)
    ensures IsPair(w, Minus(w, p, q)) && Value(w, Minus(w, p, q)) == Value(w, p) - Value(w, q)
  {
    ValueRange(w, p);
    ValueRange(w, q);
    var borrow := if p.lo < q.lo then 1 else 0;
    var lo := p.lo - q.lo + borrow * Pow2(w);
    assert Wrap(w, p.lo - q.lo) == lo by {
      WrapShift(w, p.lo - q.lo, borrow);
      WrapSmall(w, lo);
    }
    BorrowBalances(Pow2(w), p.hi, p.lo, q.hi, q.lo, borrow);
    WrapPair(w, p.hi - (q.hi + borrow), lo);
  }

  /** One less, unless already zero. */
  function Decremented(w: nat, p: Pair): Pair {
    if p.hi != 0 || p.lo != 0 then Minus(w, p, Pair(0, 1)) else p
  }

  lemma DecrementedValue(w: nat, p: Pair)
    requires w > 0 && IsPair(w, p)
    ensures IsPair(w, Decremented(w, p))
    ensures Value(w, Decremented(w, p)) == if Value(w, p) == 0 then 0 else Value(w, p) - 1
  {
    ValueRange(w, p);
    Pow2Monotone(0, w);
    if p.hi != 0 || p.lo != 0 {
      if p.hi != 0 { MulMonotone(Pow2(w), 1, p.hi); }
      MinusValue(w, p, Pair(0, 1));
    }
  }

  /** One more, with a carry between the words. */
  function Incremented(w: nat, p: Pair): Pair {
    var lo := Wrap(w, p.lo + 1);
    Pair(Wrap(w, p.hi + if lo == 0 then 1 else 0), lo)
  }

  lemma IncrementedValue(w: nat, p: Pair)
    requires w > 0 && IsPair(w, p) && Value(w, p) + 1 < Pow2(w) * Pow2(w)
    ensures IsPair(w, Incremented(w, p)) && Value(w, Incremented(w, p)) == Value(w, p) + 1
  {
    var m := Pow2(w);
    ValueRange(w, p);
    if p.lo + 1 == m {
      WrapShift(w, 0, 1);
      WrapSmall(w, 0);
      Distribute(m, p.hi, 1);
      WrapPair(w, p.hi + 1, 0);
    } else {
      WrapSmall(w, p.lo + 1);
      WrapPair(w, p.hi, p.lo + 1);
    }
  }

  /** The low pair of a product of pairs. */
  function TimesLow(h: nat, p: Pair, q: Pair): Pair {
    Pair(Wrap(2 * h, p.hi * q.lo + p.lo * q.hi + MulHighUnsigned(h, p.lo, q.lo)), Wrap(2 * h, p.lo * q.lo))
  }

  lemma TimesLowValue(h: nat, p: Pair, q: Pair)
    requires IsPair(2 * h, p) && IsPair(2 * h, q)
    requires 0 <= Value(2 * h, p) * Value(2 * h, q) < Pow2(2 * h) * Pow2(2 * h)
    ensures IsPair(2 * h, TimesLow(h, p, q))
    ensures Value(2 * h, TimesLow(h, p, q)) == Value(2 * h, p) * Value(2 * h, q)
  {
    var w := 2 * h;
    var m := Pow2(w);
    MulHighUnsignedExact(h, p.lo, q.lo);
    ExpandProduct(m, p.hi, p.lo, q.hi, q.lo);
    var z := p.lo * q.lo;
    var cross := p.hi * q.lo + p.lo * q.hi + z / m;
    DivModForm(z, m);
    DivModForm(cross, m);
    LowPair(m, p.hi * q.hi, p.hi * q.lo + p.lo * q.hi, z, Value(w, p) * Value(w, q));
  }

  lemma LowPair(m: nat, top: int, mid: int, z: int, product: int)
    requires m > 0 && product == top * (m * m) + mid * m + z && 0 <= product < m * m
    ensures product == ((mid + z / m) % m) * m + z % m
  {
    var cross := mid + z / m;
    DivModForm(z, m);
    DivModForm(cross, m);
    Distribute(m, mid, z / m);
    Distribute(m, (cross / m) * m, cross % m);
    Associate(cross / m, m, m);
    Distribute(m * m, top, cross / m);
    var lo := (cross % m) * m + z % m;
    assert product == (top + cross / m) * (m * m) + lo;
    ProductBelowSquare(m, cross % m, z % m);
    MulMonotone(m, 0, cross % m);
    DivModUnique(product, m * m, top + cross / m, lo);
    DivModUnique(product, m * m, 0, product);
  }

  // ----- a double word by a double word

  lemma CancelLess(a: int, b: int, p: int)
    requires p > 0
    ensures a * p <= b * p ==> a <= b
    ensures a * p < b * p ==> a < b
  {
  }

  /** Dropping the low word of the normalized divisor makes it smaller by less than `2 * r`. */
  lemma TruncatedDivisor(m: nat, p: nat, r: nat, v: nat, v1: nat)
    requires p > 0 && r > 0 && m == 2 * (p * r) && v1 * m <= v * p < (v1 + 1) * m
    ensures 2 * r * v1 <= v < 2 * r * v1 + 2 * r
  {
  }

  /** The quotient is small because the normalized divisor is large. */
  lemma QuotientSmall(m: nat, p: nat, u: nat, v: nat, v1: nat, q: nat)
    requires v > 0 && q * v <= u < m * m && v1 * m <= v * p && m <= 2 * v1
    ensures q + 1 <= 2 * p
  {
    MulMonotone(m, m, 2 * v1);
    Associate(2, v1, m);
    Associate(2, p, v);
    CancelLess(q, 2 * p, v);
  }

  lemma EstimateSlack(m: nat, p: nat, r: nat, v1: nat, q: nat)
    requires p > 0 && r > 0 && m == 2 * (p * r) && m <= 2 * v1 && q + 1 <= 2 * p
    ensures (q + 1) * (2 * r - 1) <= 2 * r * v1
  {
    MulMonotone(2 * r - 1, q + 1, 2 * p);
    assert 2 * p * (2 * r - 1) == 2 * m - 2 * p;
    assert r * m <= 2 * r * v1 by {
      MulMonotone(r, m, 2 * v1);
      Associate(r, 2, v1);
    }
    if r >= 2 {
      MulMonotone(m, 2, r);
    } else {
      assert r == 1;
    }
  }

  /** The estimate with the truncated divisor is right or one too large. */
  lemma QuotientEstimate(m: nat, p: nat, r: nat, u: nat, v: nat, v1: nat)
    requires p > 0 && r > 0 && m == 2 * (p * r)
    requires v > 0 && v1 * m <= v * p < (v1 + 1) * m && m <= 2 * v1 && u < m * m
    ensures 2 * r * v1 > 0
    ensures u / v <= u / (2 * r * v1) <= u / v + 1
    ensures u / v + 1 <= m
  {
    var d, q := 2 * r * v1, u / v;
    assert q * v <= u by { DivModForm(u, v); }
    assert q + 1 <= 2 * p by { QuotientSmall(m, p, u, v, v1, q); }
    assert p <= p * r by { MulMonotone(p, 1, r); }
    assert d > 0 by { MulMonotone(2 * r, 1, v1); }
    assert d <= v < d + 2 * r by { TruncatedDivisor(m, p, r, v, v1); }
    assert (q + 1) * (2 * r - 1) <= d by { EstimateSlack(m, p, r, v1, q); }
    EstimateBrackets(u, v, d, 2 * r, q);
  }

  lemma EstimateBrackets(u: nat, v: nat, d: nat, slack: nat, q: nat)
    requires 0 < d <= v < d + slack && q == u / v && (q + 1) * (slack - 1) <= d
    ensures q <= u / d <= q + 1
  {
    DivModForm(u, v);
    MulMonotone(q, d, v);
    DivAtLeast(u, d, q);
    Distribute(v, q, 1);
    MulMonotone(q + 1, v, d + (slack - 1));
    Distribute(q + 1, d, slack - 1);
    Distribute(d, q + 1, 1);
    DivAtLeast(u, d, q + 2);
  }

  /** The normalized divisor in pairs: its high word `v1` and the powers around the shift. */
  lemma NormalizedPair(w: nat, v: Pair)
    requires w > 1 && IsPair(w, v) && v.hi > 0
    ensures var n := LeadingZeros(w, v.hi);
            && n < w && IsPair(w, ShiftPairBy(w, v, n))
            && Pow2(w) == 2 * (Pow2(n) * Pow2(w - 1 - n))
            && var v1 := ShiftPairBy(w, v, n).hi;
               v1 * Pow2(w) <= Value(w, v) * Pow2(n) < (v1 + 1) * Pow2(w) && Pow2(w) <= 2 * v1
  {
    var n := LeadingZeros(w, v.hi);
    LeadingZerosNormalize(w, v.hi);
    BitLengthBrackets(v.hi);
    Pow2Add(n, w - 1 - n);
    ShiftLeftValue(w, v, n);
    var t := ShiftPairBy(w, v, n);
    Distribute(Pow2(w), t.hi, 1);
    TopWordKept(w, v, n);
  }

  lemma TopWordKept(w: nat, v: Pair, n: nat)
    requires n < w && IsPair(w, v) && v.hi * Pow2(n) < Pow2(w)
    ensures v.hi * Pow2(n) <= ShiftPairBy(w, v, n).hi
  {
    if n == 0 {
      assert Pow2(0) == 1;
    } else {
      NormalizeTop(w, v.hi, v.lo, n);
    }
  }

  /** Halving, dividing by the truncated divisor and undoing the normalization is one division. */
  lemma EstimateIsOneDivision(u: nat, v1: nat, p: nat, r: nat)
    requires v1 > 0 && p > 0 && r > 0
    ensures p * r > 0 && 2 * r * v1 > 0 && (u / 2 / v1) * p / (p * r) == u / (2 * r * v1)
  {
    DivDiv(u, 2, v1);
    DivDiv(u, 2 * v1, r);
    DivMulCancel(u / 2 / v1, r, p);
    assert 2 * v1 * r == 2 * r * v1;
    assert r * p == p * r;
  }

  /** The estimate of the quotient: right or one too large. */
  method EstimateQuotient(h: nat, u: Pair, v: Pair) returns (e: Pair)
    requires h > 0 && IsPair(2 * h, u) && IsPair(2 * h, v) && v.hi > 0
    ensures IsPair(2 * h, e) && Value(2 * h, v) > 0
    ensures var q := Value(2 * h, u) / Value(2 * h, v);
            q <= Value(2 * h, e) <= q + 1 && q < Pow2(2 * h)
  {
    var w := 2 * h;
    var n := LeadingZeros(w, v.hi);
    NormalizedPair(w, v);
    var v1 := ShiftPairBy(w, v, n).hi;
    var u1 := ShiftPairBy(w, u, -1);
    HalfIsBelow(w, u, v1);
    var q1, r1 := DivideTwoByOne(h, u1.hi, u1.lo, v1);
    DivModUnique(Value(w, u1), v1, q1, r1);
    e := ScaleEstimate(w, q1, n);
    EstimateFinished(w, u, v, n, v1, q1, Value(w, e));
  }

  /** The quotient word shifted up by `n` and down by all but one bit of a word. */
  method ScaleEstimate(w: nat, q1: nat, n: nat) returns (e: Pair)
    requires w > 1 && n < w && q1 < Pow2(w)
    ensures IsPair(w, e) && Value(w, e) == (q1 * Pow2(n)) / Pow2(w - 1)
  {
    var scaled := ShiftPairBy(w, Pair(0, q1), n);
    ShiftLeftValue(w, Pair(0, q1), n);
    ShiftRightValue(w, scaled, w - 1);
    e := ShiftPairBy(w, scaled, -(w - 1));
  }

  lemma HalfIsBelow(w: nat, u: Pair, v1: nat)
    requires w > 1 && IsPair(w, u) && Pow2(w) <= 2 * v1
    ensures IsPair(w, ShiftPairBy(w, u, -1)) && ShiftPairBy(w, u, -1).hi < v1
    ensures Value(w, ShiftPairBy(w, u, -1)) == Value(w, u) / 2
  {
    ShiftRightValue(w, u, 1);
    assert Pow2(1) == 2;
  }

  lemma EstimateFinished(w: nat, u: Pair, v: Pair, n: nat, v1: nat, q1: nat, e: int)
    requires w > 1 && IsPair(w, u) && IsPair(w, v) && v.hi > 0 && n < w
    requires Pow2(w) == 2 * (Pow2(n) * Pow2(w - 1 - n)) && Pow2(w) <= 2 * v1
    requires v1 * Pow2(w) <= Value(w, v) * Pow2(n) < (v1 + 1) * Pow2(w)
    requires q1 == Value(w, u) / 2 / v1 && e == (q1 * Pow2(n)) / Pow2(w - 1)
    ensures Value(w, v) > 0
    ensures var q := Value(w, u) / Value(w, v); q <= e <= q + 1 && q < Pow2(w)
  {
    ValueRange(w, u);
    MulMonotone(Pow2(w), 1, v.hi);
    QuotientEstimate(Pow2(w), Pow2(n), Pow2(w - 1 - n), Value(w, u), Value(w, v), v1);
    EstimateIsOneDivision(Value(w, u), v1, Pow2(n), Pow2(w - 1 - n));
  }

  /** Taking one off an estimate that may be one too large leaves a remainder below twice the divisor. */
  lemma LoweredEstimate(u: nat, v: nat, e: nat, d: nat)
    requires v > 0 && u / v <= e <= u / v + 1 && d == if e == 0 then 0 else e - 1
    ensures 0 <= d * v <= u < (d + 2) * v
    ensures d == u / v || d + 1 == u / v
  {
    var q := u / v;
    DivModForm(u, v);
    MulMonotone(v, d, q);
    MulMonotone(v, 0, d);
    Distribute(v, q, 1);
    MulMonotone(v, q + 1, d + 2);
  }

  lemma OneMoreStep(u: int, v: int, d: int, r: int)
    requires r == u - d * v && 0 <= r && u < (d + 2) * v && v > 0
    ensures r < v ==> d == u / v
    ensures r >= v ==> d + 1 == u / v && r - v == u - (d + 1) * v && r - v < v
  {
    Distribute(v, d, 2);
    Distribute(v, d, 1);
    if r < v {
      DivModUnique(u, v, d, r);
    } else {
      DivModUnique(u, v, d + 1, r - v);
    }
  }

  /** Raises a quotient that may be one too small, keeping the remainder in step. */
  method CorrectQuotient(w: nat, u: Pair, v: Pair, d: Pair, rem: Pair) returns (q: nat, r: Pair)
    requires w > 0 && IsPair(w, u) && IsPair(w, v) && IsPair(w, d) && IsPair(w, rem)
    requires 0 < Value(w, v) && Value(w, u) < (Value(w, d) + 2) * Value(w, v)
    requires Value(w, rem) == Value(w, u) - Value(w, d) * Value(w, v)
    requires Value(w, u) / Value(w, v) < Pow2(w)
    ensures q == Value(w, u) / Value(w, v)
    ensures IsPair(w, r) && Value(w, r) == Value(w, u) - q * Value(w, v) && Value(w, r) < Value(w, v)
  {
    var d' := d;
    r := rem;
    ValueRange(w, rem);
    ValueRange(w, d);
    OneMoreStep(Value(w, u), Value(w, v), Value(w, d), Value(w, rem));
    AtLeastValue(w, rem, v);
    if AtLeast(rem, v) {
      MulMonotone(Pow2(w), 1, Pow2(w));
      IncrementedValue(w, d);
      d' := Incremented(w, d);
      MinusValue(w, rem, v);
      r := Minus(w, rem, v);
    }
    PairOfValue(w, d', 0, Value(w, d'));
    assert d'.hi == 0;
    q := d'.lo;
  }

  /** Divides one double word by another. The quotient is exact whenever it fits a word; otherwise,
      which takes a divisor of one word, both results are the largest word. */
  method DivideTwoByTwo(h: nat, u: Pair, v: Pair) returns (q: nat, r: Pair)
    requires h > 0 && IsPair(2 * h, u) && IsPair(2 * h, v)
    ensures v.hi > 0 || u.hi < v.lo ==>
              Value(2 * h, u) == q * Value(2 * h, v) + Value(2 * h, r) && 0 <= Value(2 * h, r) < Value(2 * h, v)
    ensures v.hi == 0 && u.hi >= v.lo ==> q == Pow2(2 * h) - 1 && r == Pair(0, Pow2(2 * h) - 1)
    ensures IsPair(2 * h, r) && q < Pow2(2 * h)
  {
    var w := 2 * h;
    if v.hi == 0 {
      var rem;
      q, rem := DivideTwoByOne(h, u.hi, u.lo, v.lo);
      return q, Pair(0, rem);
    }
    var e := EstimateQuotient(h, u, v);
    ValueRange(w, u);
    ValueRange(w, e);
    DecrementedValue(w, e);
    var d := Decremented(w, e);
    LoweredEstimate(Value(w, u), Value(w, v), Value(w, e), Value(w, d));
    TimesLowValue(h, d, v);
    var product := TimesLow(h, d, v);
    MinusValue(w, u, product);
    var rem := Minus(w, u, product);
    q, r := CorrectQuotient(w, u, v, d, rem);
    ValueRange(w, r);
  }

  /** The case in which `DivideTwoByTwo` is exact is the one in which the quotient fits a word. */
  lemma QuotientFitsWord(w: nat, u: Pair, v: Pair)
    requires IsPair(w, u) && IsPair(w, v) && Value(w, v) > 0
    ensures v.hi > 0 || u.hi < v.lo <==> Value(w, u) / Value(w, v) < Pow2(w)
  {
    var m := Pow2(w);
    ValueRange(w, u);
    DivAtLeast(Value(w, u), Value(w, v), m);
    if v.hi > 0 {
      MulMonotone(m, 1, v.hi);
      MulMonotone(m, m, Value(w, v));
    } else if u.hi < v.lo {
      DigitBelowBase(m, u.hi, v.lo, u.lo);
    } else {
      MulMonotone(m, v.lo, u.hi);
    }
  }
}

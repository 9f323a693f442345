/** The portable double-word divisions under libdivide, for words of `2 * h` bits split into two
    digits of `h` bits. */
module LongDivision {
  import opened Words

  // ----- one quotient digit

  /** How far an estimated digit `q` overshoots can be read off the low digit alone. */
  lemma DigitTest(b: nat, un: nat, v1: nat, v0: nat, next: nat, q: int, rhat: int)
    requires q * v1 + rhat == un
    ensures q * (v1 * b + v0) - (un * b + next) == q * v0 - (b * rhat + next)
  {
  }

  lemma FirstEstimateHigh(b: nat, un: nat, v1: nat, v0: nat, next: nat, q: nat)
    requires next < b && un < (q + 1) * v1
    ensures un * b + next < (q + 1) * (v1 * b + v0)
  {
    MulMonotone(b, un + 1, (q + 1) * v1);
    Distribute(b, un, 1);
    Associate(b, q + 1, v1);
    Distribute(q + 1, v1 * b, v0);
    MulMonotone(q + 1, 0, v0);
  }

  lemma FirstEstimateBound(b: nat, un: nat, v1: nat, v0: nat)
    requires v1 < b <= 2 * v1 && v0 < b && un < v1 * b + v0
    ensures un / v1 <= b + 1
  {
    Distribute(v1, b, 2);
    DivAtLeast(un, v1, b + 2);
  }

  /** The true digit is below the base because the leading part is below the divisor. */
  lemma DigitBelowBase(b: nat, un: nat, v: nat, next: nat)
    requires next < b && un < v
    ensures un * b + next < b * v
  {
    MulMonotone(b, un + 1, v);
    Distribute(b, un, 1);
  }

  lemma ProductBelowSquare(b: nat, x: nat, y: nat)
    requires x < b && y < b
    ensures x * y < b * b && b * x + y < b * b
  {
    MulMonotone(x, y, b - 1);
    MulMonotone(b, x, b - 1);
    Distribute(b, b, -1);
  }

  lemma ProductFits(h: nat, x: nat, y: nat)
    requires x < Pow2(h) && y < Pow2(h)
    ensures Wrap(2 * h, x * y) == x * y
  {
    assert x * y < Pow2(2 * h) by {
      Pow2Add(h, h);
      ProductBelowSquare(Pow2(h), x, y);
    }
    WrapSmall(2 * h, x * y);
  }

  lemma DigitsFit(h: nat, hi: nat, lo: nat)
    requires hi < Pow2(h) && lo < Pow2(h)
    ensures Wrap(2 * h, Pow2(h) * hi + lo) == Pow2(h) * hi + lo
  {
    assert Pow2(h) * hi + lo < Pow2(2 * h) by {
      Pow2Add(h, h);
      ProductBelowSquare(Pow2(h), hi, lo);
    }
    WrapSmall(2 * h, Pow2(h) * hi + lo);
  }

  lemma NoWrap(h: nat, q: nat, v0: nat, rhat: nat, next: nat)
    requires q < Pow2(h) && v0 < Pow2(h) && rhat < Pow2(h) && next < Pow2(h)
    ensures Wrap(2 * h, q * v0) == q * v0
    ensures Wrap(2 * h, Pow2(h) * rhat + next) == Pow2(h) * rhat + next
  {
    ProductFits(h, q, v0);
    DigitsFit(h, rhat, next);
  }

  /** Once the partial remainder needs more than a digit, the estimate cannot be too large. */
  lemma BreakIsRight(b: nat, v0: nat, next: nat, q: nat, rhat: nat)
    requires q <= b && v0 < b <= rhat
    ensures q * v0 <= b * rhat + next
  {
  }

  /** What the loop that corrects an estimated digit keeps: the estimate is not too small. */
  ghost predicate Estimate(b: nat, un: nat, v1: nat, v0: nat, next: nat, q: int, rhat: int) {
    && 0 <= q <= b + 1 && 0 <= rhat && q * v1 + rhat == un
    && un * b + next < (q + 1) * (v1 * b + v0)
  }

  lemma FirstDigit(b: nat, un: nat, v1: nat, v0: nat, next: nat)
    requires v1 < b <= 2 * v1 && v0 < b && next < b && un < v1 * b + v0
    ensures var q := un / v1; un - q * v1 < b && Estimate(b, un, v1, v0, next, q, un - q * v1)
  {
    var q := un / v1;
    assert un == q * v1 + un % v1;
    Distribute(v1, q, 1);
    FirstEstimateHigh(b, un, v1, v0, next, q);
    FirstEstimateBound(b, un, v1, v0);
  }

  /** What the loop tests: the estimate is a digit and not too large. */
  predicate Accepted(h: nat, v0: nat, next: nat, q: int, rhat: int) {
    q < Pow2(h) && Wrap(2 * h, q * v0) <= Wrap(2 * h, Pow2(h) * rhat + next)
  }

  lemma EstimateLowered(h: nat, un: nat, v1: nat, v0: nat, next: nat, q: int, rhat: int)
    requires var b := Pow2(h); v1 < b && v0 < b && next < b && un < v1 * b + v0 && rhat < b
    requires Estimate(Pow2(h), un, v1, v0, next, q, rhat) && !Accepted(h, v0, next, q, rhat)
    ensures Estimate(Pow2(h), un, v1, v0, next, q - 1, rhat + v1)
  {
    var b := Pow2(h);
    var v, n := v1 * b + v0, un * b + next;
    Distribute(v1, q, -1);
    assert n < q * v by {
      if q < b {
        NoWrap(h, q, v0, rhat, next);
        DigitTest(b, un, v1, v0, next, q, rhat);
      } else {
        DigitBelowBase(b, un, v, next);
        MulMonotone(v, b, q);
      }
    }
    if q <= 0 { MulMonotone(v, q, 0); }
  }

  lemma EstimateExact(h: nat, un: nat, v1: nat, v0: nat, next: nat, q: int, rhat: int)
    requires var b := Pow2(h); v1 < b && v0 < b && next < b && un < v1 * b + v0
    requires Estimate(Pow2(h), un, v1, v0, next, q, rhat)
    requires (Accepted(h, v0, next, q, rhat) && rhat < Pow2(h)) || (q <= Pow2(h) <= rhat)
    ensures q == (un * Pow2(h) + next) / (v1 * Pow2(h) + v0) && q < Pow2(h)
  {
    var b := Pow2(h);
    var v, n := v1 * b + v0, un * b + next;
    DigitTest(b, un, v1, v0, next, q, rhat);
    if rhat < b { NoWrap(h, q, v0, rhat, next); } else { BreakIsRight(b, v0, next, q, rhat); }
    assert q * v <= n;
    Distribute(v, q, 1);
    DivModUnique(n, v, q, n - q * v);
    DigitBelowBase(b, un, v, next);
    if q >= b { MulMonotone(v, b, q); }
  }

  /** Estimates `(un * b + next) / (v1 * b + v0)` from the leading digits and corrects the estimate.
      The comparison is made in words of `2 * h` bits. */
  method QuotientDigit(h: nat, un: nat, v1: nat, v0: nat, next: nat) returns (q: nat)
    requires var b := Pow2(h); v1 < b <= 2 * v1 && v0 < b && next < b && un < v1 * b + v0
    ensures q == (un * Pow2(h) + next) / (v1 * Pow2(h) + v0)
    ensures q < Pow2(h)
  {
    var b := Pow2(h);
    q := un / v1;
    var rhat := un - q * v1;
    FirstDigit(b, un, v1, v0, next);
    while !Accepted(h, v0, next, q, rhat)
      invariant rhat < b && Estimate(b, un, v1, v0, next, q, rhat)
      decreases q
    {
      EstimateLowered(h, un, v1, v0, next, q, rhat);
      q := q - 1;
      rhat := rhat + v1;
      if rhat >= b { break; }
    }
    EstimateExact(h, un, v1, v0, next, q, rhat);
  }

  // ----- a double word by a word

  /** Shifting a double word left by `s`, stated over the two powers that split a word at `s`. */
  lemma ShiftPair(p: nat, q: nat, u1: nat, u0: nat)
    requires p > 0 && q > 0 && u0 < p * q
    ensures u0 / q < p
    ensures (u0 * p) % (p * q) == (u0 % q) * p
    ensures (u1 * p + u0 / q) * (p * q) + (u0 % q) * p == (u1 * (p * q) + u0) * p
  {
    var hi, lo := u0 / q, u0 % q;
    DivAtLeast(u0, q, p);
    DivMulCancel(u0, q, p);
    assert p * q == q * p;
    Distribute(p * q, u1 * p, hi);
    Distribute(p, u1 * (p * q), u0);
    Associate(p, u1, p * q);
    Distribute(p, hi * q, lo);
    Associate(p, hi, q);
  }

  /** The normalized operands: the divisor's top bit set, dividend shifted by as much. */
  ghost predicate Normalized(w: nat, u1: nat, u0: nat, v: nat, s: nat, vn: nat, un64: nat, un10: nat) {
    && vn == v * Pow2(s) && vn < Pow2(w) <= 2 * vn
    && un64 < vn && un10 < Pow2(w)
    && un64 * Pow2(w) + un10 == (u1 * Pow2(w) + u0) * Pow2(s)
  }

  lemma ScaledBracket(p: nat, c: nat, v: nat)
    requires p > 0 && c <= v < 2 * c
    ensures v * p < p * (2 * c) <= 2 * (v * p)
  {
  }

  lemma LeadingZerosNormalize(w: nat, v: nat)
    requires 0 < v < Pow2(w)
    ensures LeadingZeros(w, v) <= w
    ensures v * Pow2(LeadingZeros(w, v)) < Pow2(w) <= 2 * (v * Pow2(LeadingZeros(w, v)))
  {
    var k := BitLength(v);
    BitLengthBrackets(v);
    BitLengthWithin(v, w);
    ScaledBracket(Pow2(w - k), Pow2(k - 1), v);
    Pow2Add(w - k, k);
  }

  lemma TopDigitFits(u1: nat, v: nat, p: nat, hi: nat)
    requires u1 < v && hi < p
    ensures u1 * p + hi < v * p
  {
    MulMonotone(p, u1 + 1, v);
    Distribute(p, u1, 1);
  }

  lemma NormalizeTop(w: nat, u1: nat, u0: nat, s: nat)
    requires u0 < Pow2(w) && s <= w && u1 * Pow2(s) < Pow2(w)
    ensures Shr(u0, w - s) < Pow2(s)
    ensures Or(Shl(w, u1, s), Shr(u0, w - s)) == u1 * Pow2(s) + Shr(u0, w - s)
  {
    ShlSmall(w, u1, s);
    ShrBound(w, u0, w - s);
    OrDisjoint(u1, Shr(u0, w - s), s);
  }

  lemma NormalizeDividend(w: nat, u1: nat, u0: nat, s: nat)
    requires u0 < Pow2(w) && s <= w
    ensures (u1 * Pow2(s) + Shr(u0, w - s)) * Pow2(w) + Shl(w, u0, s) == (u1 * Pow2(w) + u0) * Pow2(s)
  {
    var p, q, m := Pow2(s), Pow2(w - s), Pow2(w);
    assert m == p * q by { Pow2Add(s, w - s); }
    ShiftPair(p, q, u1, u0);
    assert Shl(w, u0, s) == (u0 % q) * p && Shr(u0, w - s) == u0 / q;
  }

  /** The normalizing shifts of the code produce normalized operands. */
  lemma Normalize(w: nat, u1: nat, u0: nat, v: nat, s: nat)
    requires u1 < v < Pow2(w) && u0 < Pow2(w) && s == LeadingZeros(w, v)
    ensures s <= w
    ensures Normalized(w, u1, u0, v, s, Shl(w, v, s), Or(Shl(w, u1, s), Shr(u0, w - s)), Shl(w, u0, s))
  {
    LeadingZerosNormalize(w, v);
    ShlSmall(w, v, s);
    TopDigitFits(u1, v, Pow2(s), 0);
    NormalizeTop(w, u1, u0, s);
    TopDigitFits(u1, v, Pow2(s), Shr(u0, w - s));
    NormalizeDividend(w, u1, u0, s);
  }

  lemma SplitWord(h: nat, x: nat)
    requires x < Pow2(2 * h)
    ensures x == Shr(x, h) * Pow2(h) + x % Pow2(h) && Shr(x, h) < Pow2(h)
  {
    ShrBound(2 * h, x, h);
    DivModForm(x, Pow2(h));
  }

  /** The top digit of a normalized divisor has its top bit set. */
  lemma NormalizedTopDigit(h: nat, vn: nat)
    requires h > 0 && vn < Pow2(2 * h) <= 2 * vn
    ensures Pow2(h) <= 2 * Shr(vn, h)
  {
    var c := Pow2(h - 1);
    Pow2Add(h - 1, h);
    Pow2Add(1, 2 * h - 1);
    DivAtLeast(vn, Pow2(h), c);
  }

  /** The wrapping multiply-and-subtract leaves the true remainder. */
  lemma DigitRemainder(w: nat, v: nat, n: nat, q: nat)
    requires 0 < v < Pow2(w) && q == n / v
    ensures Wrap(w, n - q * v) == n % v == n - q * v
  {
    assert n == q * v + n % v;
    WrapSmall(w, n - q * v);
  }

  lemma TwoDigits(b: nat, v: nat, un64: nat, un1: nat, un0: nat, q1: nat, un21: nat, q0: nat, r: nat)
    requires un64 * b + un1 == q1 * v + un21
    requires un21 * b + un0 == q0 * v + r
    ensures un64 * (b * b) + (un1 * b + un0) == (q1 * b + q0) * v + r
  {
  }

  lemma Denormalize(n: nat, v: nat, p: nat, q: nat, r: nat)
    requires v > 0 && p > 0 && r < v * p && n * p == q * (v * p) + r
    ensures n == q * v + r / p && r / p < v
  {
    DivMulCancel(n, v, p);
    DivModUnique(n * p, v * p, q, r);
    DivModUnique((n % v) * p, p, n % v, 0);
  }

  /** Divides the double word `u1, u0` by `v`. When the quotient does not fit a word, both results
      are the largest word. */
  method DivideTwoByOne(h: nat, u1: nat, u0: nat, v: nat) returns (q: nat, r: nat)
    requires h > 0 && u1 < Pow2(2 * h) && u0 < Pow2(2 * h) && v < Pow2(2 * h)
    ensures u1 < v ==> q * v + r == u1 * Pow2(2 * h) + u0 && r < v && q < Pow2(2 * h)
    ensures u1 >= v ==> q == r == Pow2(2 * h) - 1
  {
    var w, b := 2 * h, Pow2(h);
    if u1 >= v { return Pow2(w) - 1, Pow2(w) - 1; }
    var s := LeadingZeros(w, v);
    var vn, un64, un10 := v, u1, u0;
    Normalize(w, u1, u0, v, s);
    if s > 0 {
      vn := Shl(w, v, s);
      un64 := Or(Shl(w, u1, s), Shr(u0, w - s));
      un10 := Shl(w, u0, s);
    } else {
      assert Pow2(0) == 1;
    }
    assert Normalized(w, u1, u0, v, s, vn, un64, un10);
    q, r := DivideNormalized(h, vn, un64, un10);
    Denormalize(u1 * Pow2(w) + u0, v, Pow2(s), q, r);
    r := Shr(r, s);
    QuotientFits(u1, u0, v, Pow2(w), q, r);
  }

  lemma QuotientFits(u1: nat, u0: nat, v: nat, m: nat, q: nat, r: nat)
    requires u1 < v && u0 < m && q * v + r == u1 * m + u0
    ensures q < m
  {
    DigitBelowBase(m, u1, v, u0);
    if q >= m { MulMonotone(v, m, q); }
  }

  /** One digit and the part of the dividend it leaves, by a wrapping multiply-and-subtract. */
  method DigitStep(h: nat, vn: nat, vn1: nat, vn0: nat, un: nat, next: nat) returns (q: nat, un': nat)
    requires vn < Pow2(2 * h) && vn == vn1 * Pow2(h) + vn0
    requires vn1 < Pow2(h) <= 2 * vn1 && vn0 < Pow2(h) && next < Pow2(h) && un < vn
    ensures un * Pow2(h) + next == q * vn + un' && un' < vn && q < Pow2(h)
  {
    q := QuotientDigit(h, un, vn1, vn0, next);
    DigitRemainder(2 * h, vn, un * Pow2(h) + next, q);
    un' := Wrap(2 * h, un * Pow2(h) + next - q * vn);
  }

  /** The two digits of the quotient by a divisor whose top bit is set. */
  method DivideNormalized(h: nat, vn: nat, un64: nat, un10: nat) returns (q: nat, r: nat)
    requires h > 0 && vn < Pow2(2 * h) <= 2 * vn && un64 < vn && un10 < Pow2(2 * h)
    ensures q * vn + r == un64 * Pow2(2 * h) + un10 && r < vn
  {
    var b := Pow2(h);
    SplitWord(h, vn);
    SplitWord(h, un10);
    NormalizedTopDigit(h, vn);
    var vn1, vn0 := Shr(vn, h), vn % b;
    var un1, un0 := Shr(un10, h), un10 % b;
    var q1, un21 := DigitStep(h, vn, vn1, vn0, un64, un1);
    var q0;
    q0, r := DigitStep(h, vn, vn1, vn0, un21, un0);
    q := q1 * b + q0;
    TwoDigits(b, vn, un64, un1, un0, q1, un21, q0, r);
    Pow2Add(h, h);
  }
}

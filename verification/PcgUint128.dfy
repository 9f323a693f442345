/** The product of the four-word integers of the random number generator, its carries set by hand, and when it
    is right. */
module PcgUint128 {
  import opened Words
  import opened LimbInteger
  import opened LimbMultiply

  // ----- carries

  /** A sum of two words and a carry: the word, and whether it wrapped. */
  function AddWithCarry(w: nat, x: nat, y: nat, carry: bool): (r: (nat, bool))
    requires w > 0 && x < Pow2(w) && y < Pow2(w)
    ensures r.0 < Pow2(w)
    ensures r.0 + (if r.1 then Pow2(w) else 0) == x + y + if carry then 1 else 0
  {
    var half := Wrap(w, y + if carry then 1 else 0);
    var result := Wrap(w, x + half);
    Pow2Monotone(1, w);
    WrapOnce(w, y + if carry then 1 else 0);
    WrapOnce(w, x + half);
    (result, half < y || result < x)
  }

  lemma WrapOnce(w: nat, x: nat)
    requires x < 2 * Pow2(w)
    ensures Wrap(w, x) == if x < Pow2(w) then x else x - Pow2(w)
  {
    if x < Pow2(w) { WrapSmall(w, x); } else { DivModUnique(x, Pow2(w), 1, x - Pow2(w)); }
  }

  predicate IsX4(w: nat, r: seq<nat>) { |r| == 4 && IsWide(w, r) }

  /** A carry chain from the word at 1 up. */
  method AddAtOne(w: nat, r: seq<nat>, y: nat) returns (s: seq<nat>, ghost c: nat)
    requires w > 0 && IsX4(w, r) && y < Pow2(w)
    ensures IsX4(w, s) && s[0] == r[0]
    ensures Number(w, s) + c * Modulus(w, 4) == Number(w, r) + y * Pow2(w)
  {
    var (v1, c1) := AddWithCarry(w, r[1], y, false);
    var (v2, c2) := AddWithCarry(w, r[2], 0, c1);
    var (v3, c3) := AddWithCarry(w, r[3], 0, c2);
    s := [r[0], v1, v2, v3];
    c := if c3 then 1 else 0;
    FourLimbs(Pow2(w), r);
    FourLimbs(Pow2(w), s);
    ChainFromOne(Pow2(w), r[1], r[2], r[3], y, v1, v2, v3, if c1 then 1 else 0, if c2 then 1 else 0, c);
  }

  lemma ChainFromOne(b: int, x1: int, x2: int, x3: int, y: int, v1: int, v2: int, v3: int, c1: int, c2: int, c3: int)
    requires v1 + c1 * b == x1 + y && v2 + c2 * b == x2 + c1 && v3 + c3 * b == x3 + c2
    ensures v1 * b + v2 * (b * b) + v3 * (b * (b * b)) + c3 * ((b * b) * (b * b))
         == x1 * b + x2 * (b * b) + x3 * (b * (b * b)) + y * b
  {
    var d, e := b * b, b * (b * b);
    assert v1 * b + c1 * d == x1 * b + y * b by { Distribute(b, v1, c1 * b); Distribute(b, x1, y); }
    assert v2 * d + c2 * e == x2 * d + c1 * d by { Distribute(d, v2, c2 * b); Distribute(d, x2, c1); }
    assert v3 * e + c3 * (d * d) == x3 * e + c2 * e by { Distribute(e, v3, c3 * b); Distribute(e, x3, c2); }
  }

  /** Two words added at 2 and 3. */
  method AddAtTwo(w: nat, r: seq<nat>, y: nat, z: nat) returns (s: seq<nat>, ghost c: nat)
    requires w > 0 && IsX4(w, r) && y < Pow2(w) && z < Pow2(w)
    ensures IsX4(w, s) && s[0] == r[0]
    ensures Number(w, s) + c * Modulus(w, 4)
         == Number(w, r) + (y + z * Pow2(w)) * (Pow2(w) * Pow2(w))
  {
    var (v2, c2) := AddWithCarry(w, r[2], y, false);
    var (v3, c3) := AddWithCarry(w, r[3], z, c2);
    s := [r[0], r[1], v2, v3];
    c := if c3 then 1 else 0;
    AddedAtTwo(w, r, s, y, z, if c2 then 1 else 0, c);
  }

  lemma AddedAtTwo(w: nat, r: seq<nat>, s: seq<nat>, y: int, z: int, c2: int, c3: int)
    requires |r| == |s| == 4 && s[0] == r[0] && s[1] == r[1]
    requires s[2] + c2 * Pow2(w) == r[2] + y && s[3] + c3 * Pow2(w) == r[3] + z + c2
    ensures Number(w, s) + c3 * Modulus(w, 4) == Number(w, r) + (y + z * Pow2(w)) * (Pow2(w) * Pow2(w))
  {
    FourLimbs(Pow2(w), r);
    FourLimbs(Pow2(w), s);
    ChainFromTwo(Pow2(w), r[2], r[3], y, z, s[2], s[3], c2, c3);
  }

  lemma ChainFromTwo(b: int, x2: int, x3: int, y: int, z: int, v2: int, v3: int, c2: int, c3: int)
    requires v2 + c2 * b == x2 + y && v3 + c3 * b == x3 + z + c2
    ensures v2 * (b * b) + v3 * (b * (b * b)) + c3 * ((b * b) * (b * b))
         == x2 * (b * b) + x3 * (b * (b * b)) + (y + z * b) * (b * b)
  {
    var d, e := b * b, b * (b * b);
    assert v2 * d + c2 * e == x2 * d + y * d by { Distribute(d, v2, c2 * b); Distribute(d, x2, y); }
    assert v3 * e + c3 * (d * d) == x3 * e + z * e + c2 * e by {
      Distribute(e, v3, c3 * b);
      Distribute(e, x3 + z, c2);
      Distribute(e, x3, z);
    }
    Distribute(d, y, z * b);
    assert (z * b) * d == z * e;
  }

  /** The upper half, taken as one double word. */
  method AddToUpperHalf(w: nat, r: seq<nat>, t: nat) returns (s: seq<nat>, ghost c: nat)
    requires w > 0 && IsX4(w, r)
    ensures IsX4(w, s)
    ensures Number(w, s) + c * Modulus(w, 4) == Number(w, r) + t * (Pow2(w) * Pow2(w))
  {
    var b := Pow2(w);
    var sum := r[2] + Times(r[3], b) + t;
    var upper := Wrap(2 * w, sum);
    Pow2Add(w, w);
    DivAtLeast(upper, b, b);
    var v2, v3 := Wrap(w, upper), Shr(upper, w);
    s := [r[0], r[1], v2, v3];
    c := Shr(sum, 2 * w);
    DivModForm(sum, b * b);
    DivModForm(upper, b);
    FourLimbs(b, r);
    FourLimbs(b, s);
    UpperHalf(b, r[2], r[3], t, v2, v3, c);
  }

  lemma UpperHalf(b: int, x2: int, x3: int, t: int, v2: int, v3: int, c: int)
    requires (v3 * b + v2) + c * (b * b) == x2 + x3 * b + t
    ensures v2 * (b * b) + v3 * (b * (b * b)) + c * ((b * b) * (b * b))
         == x2 * (b * b) + x3 * (b * (b * b)) + t * (b * b)
  {
    var d := b * b;
    Distribute(d, v3 * b + v2, c * d);
    Distribute(d, v3 * b, v2);
    Distribute(d, x2 + x3 * b, t);
    Distribute(d, x2, x3 * b);
    assert (v3 * b) * d == v3 * (b * d) && (x3 * b) * d == x3 * (b * d);
  }

  /** How far a product is shifted for its high word: a literal, whatever the width of a word. */
  const HIGH_SHIFT := 32

  /** The word taken for the high one. */
  function HighWord(w: nat, p: nat): nat { Wrap(w, Shr(p, HIGH_SHIFT)) }

  /** How much the word taken exceeds the true high word of a product. */
  function Miss(w: nat, x: nat, y: nat): int { HighWord(w, Times(x, y)) - Quotient(Times(x, y), Pow2(w)) }

  /** A product of words and what its high word misses. */
  predicate Taken(w: nat, x: nat, y: nat, p: int) { p == x * y + Miss(w, x, y) * Pow2(w) }

  /** A product of words as the two words that are taken for it. */
  method WordProduct(w: nat, x: nat, y: nat) returns (lo: nat, hi: nat, ghost taken: int)
    requires x < Pow2(w) && y < Pow2(w)
    ensures lo < Pow2(w) && hi < Pow2(w) && taken == lo + hi * Pow2(w) && Taken(w, x, y, taken)
  {
    var b, p := Pow2(w), Times(x, y);
    DivModForm(p, b);
    lo, hi := Wrap(w, p), HighWord(w, p);
    taken := lo + Times(hi, b);
    Distribute(b, Quotient(p, b), Miss(w, x, y));
  }

  lemma FirstRow(w: nat, l00: nat, h00: nat, h10: nat)
    requires w > 0 && l00 < Pow2(w) && h00 < Pow2(w) && h10 < Pow2(w)
    ensures IsX4(w, [l00, h00, h10, 0])
    ensures Number(w, [l00, h00, h10, 0]) == l00 + h00 * Pow2(w) + h10 * (Pow2(w) * Pow2(w))
  {
    FourLimbs(Pow2(w), [l00, h00, h10, 0]);
  }

  /** Everything that is added up, put together. */
  lemma RowsAddUp(b: int, m: int, p00: int, p10: int, p01: int, p11: int, t: int, l10: int, h10: int, l01: int,
                  h01: int, n0: int, n1: int, n2: int, n3: int, n4: int, n5: int,
                  c1: int, c2: int, c3: int, c4: int, c5: int)
    requires p10 == l10 + h10 * b && p01 == l01 + h01 * b
    requires n0 == p00 + h10 * (b * b)
    requires n1 + c1 * m == n0 + l10 * b
    requires n2 + c2 * m == n1 + (h01 + 0 * b) * (b * b)
    requires n3 + c3 * m == n2 + l01 * b
    requires n4 + c4 * m == n3 + p11 * (b * b)
    requires n5 + c5 * m == n4 + t * (b * b)
    ensures n5 + (c1 + c2 + c3 + c4 + c5) * m
         == p00 + b * (p10 + p01) + (b * b) * (t + p11)
  {
    assert (c1 + c2 + c3 + c4 + c5) * m == c1 * m + c2 * m + c3 * m + c4 * m + c5 * m;
    Distribute(b, l10 + h10 * b, l01 + h01 * b);
    Distribute(b, l10, h10 * b);
    Distribute(b, l01, h01 * b);
    Associate(b, h10, b);
    Associate(b, h01, b);
    assert b * (h10 * b) == h10 * (b * b) && b * (h01 * b) == h01 * (b * b);
    Distribute(b * b, t, p11);
  }

  /** What the three upper high words miss. */
  function UpperMiss(w: nat, x: seq<nat>, y: seq<nat>): int
    requires |x| == |y| == 4
  {
    Miss(w, x[1], y[0]) + Miss(w, x[0], y[1]) + Miss(w, x[1], y[1]) * Pow2(w)
  }

  /** What the high words that were missed add to the product. */
  function Slip(w: nat, x: seq<nat>, y: seq<nat>): int
    requires |x| == |y| == 4
  {
    var b := Pow2(w);
    Miss(w, x[0], y[0]) * b + UpperMiss(w, x, y) * (b * b)
  }

  /** The product modulo `2^4w`, but for the high words missed. */
  method Product(w: nat, x: seq<nat>, y: seq<nat>) returns (r: seq<nat>)
    requires w > 0 && IsX4(w, x) && IsX4(w, y)
    ensures IsX4(w, r) && Number(w, r) == (Number(w, x) * Number(w, y) + Slip(w, x, y)) % Modulus(w, 4)
  {
    var b := Pow2(w);
    var l00, h00, p00 := WordProduct(w, x[0], y[0]);
    var l10, h10, p10 := WordProduct(w, x[1], y[0]);
    var l01, h01, p01 := WordProduct(w, x[0], y[1]);
    var l11, h11, p11 := WordProduct(w, x[1], y[1]);
    FirstRow(w, l00, h00, h10);
    var r0 := [l00, h00, h10, 0];
    var r1, c1 := AddAtOne(w, r0, l10);
    var r2, c2 := AddAtTwo(w, r1, h01, 0);
    var r3, c3 := AddAtOne(w, r2, l01);
    var r4, c4 := AddAtTwo(w, r3, l11, h11);
    var x23 := LimbMultiply.UpperHalf(w, x);
    var y23 := LimbMultiply.UpperHalf(w, y);
    var t := Times(x[0] + Times(x[1], b), y23) + Times(x23, y[0] + Times(y[1], b));
    ghost var c5;
    r, c5 := AddToUpperHalf(w, r4, t);
    RowsAddUp(b, Modulus(w, 4), p00, p10, p01, p11, t, l10, h10, l01, h01,
              Number(w, r0), Number(w, r1), Number(w, r2), Number(w, r3), Number(w, r4), Number(w, r),
              c1, c2, c3, c4, c5);
    Collected(w, x, y, r, c1 + c2 + c3 + c4 + c5, x23, y23, p00, p10, p01, p11, t);
  }

  /** What was missed, taken out of the four products. */
  lemma MissesApart(b: int, p00: int, p10: int, p01: int, p11: int, t: int, m00: int, m10: int, m01: int, m11: int)
    ensures (p00 + m00 * b) + b * ((p10 + m10 * b) + (p01 + m01 * b)) + (b * b) * (t + (p11 + m11 * b))
         == p00 + b * (p10 + p01) + (b * b) * (t + p11) + (m00 * b + (m10 + m01 + m11 * b) * (b * b))
  {
    var d := b * b;
    Distribute(b, p10 + p01, (m10 + m01) * b);
    assert (p10 + m10 * b) + (p01 + m01 * b) == (p10 + p01) + (m10 + m01) * b;
    Associate(b, m10 + m01, b);
    Distribute(d, t + p11, m11 * b);
    Distribute(d, m10 + m01, m11 * b);
  }

  lemma Collected(w: nat, x: seq<nat>, y: seq<nat>, r: seq<nat>, c: nat, x23: nat, y23: nat,
                  p00: int, p10: int, p01: int, p11: int, t: int)
    requires IsX4(w, x) && IsX4(w, y) && IsX4(w, r)
    requires Number(w, x) == x[0] + x[1] * Pow2(w) + x23 * (Pow2(w) * Pow2(w))
    requires Number(w, y) == y[0] + y[1] * Pow2(w) + y23 * (Pow2(w) * Pow2(w))
    requires Taken(w, x[0], y[0], p00) && Taken(w, x[1], y[0], p10)
    requires Taken(w, x[0], y[1], p01) && Taken(w, x[1], y[1], p11)
    requires t == (x[0] + x[1] * Pow2(w)) * y23 + x23 * (y[0] + y[1] * Pow2(w))
    requires Number(w, r) + c * Modulus(w, 4)
          == p00 + Pow2(w) * (p10 + p01) + (Pow2(w) * Pow2(w)) * (t + p11)
    ensures Number(w, r) == (Number(w, x) * Number(w, y) + Slip(w, x, y)) % Modulus(w, 4)
  {
    var q := c + x23 * y23;
    CollectedSum(Pow2(w), x[0], x[1], x23, y[0], y[1], y23, Miss(w, x[0], y[0]), Miss(w, x[1], y[0]),
                 Miss(w, x[0], y[1]), Miss(w, x[1], y[1]), p00, p10, p01, p11, t,
                 Number(w, x), Number(w, y), Number(w, r), c, Modulus(w, 4)) by {
      ModulusOfFour(w);
    }
    NumberBound(w, r);
    Residue(Number(w, x) * Number(w, y) + Slip(w, x, y), Modulus(w, 4), q, Number(w, r));
  }

  lemma ModulusOfFour(w: nat)
    ensures Modulus(w, 4) == (Pow2(w) * Pow2(w)) * (Pow2(w) * Pow2(w))
  {
    FourLimbs(Pow2(w), [0, 0, 0, 0]);
  }

  lemma CollectedSum(b: int, x0: int, x1: int, x23: int, y0: int, y1: int, y23: int,
                     m00: int, m10: int, m01: int, m11: int, p00: int, p10: int, p01: int, p11: int, t: int,
                     nx: int, ny: int, n: int, c: int, m: int)
    requires m == (b * b) * (b * b)
    requires nx == x0 + x1 * b + x23 * (b * b) && ny == y0 + y1 * b + y23 * (b * b)
    requires p00 == x0 * y0 + m00 * b && p10 == x1 * y0 + m10 * b
    requires p01 == x0 * y1 + m01 * b && p11 == x1 * y1 + m11 * b
    requires t == (x0 + x1 * b) * y23 + x23 * (y0 + y1 * b)
    requires n + c * m == p00 + b * (p10 + p01) + (b * b) * (t + p11)
    ensures nx * ny + (m00 * b + (m10 + m01 + m11 * b) * (b * b)) == n + (c + x23 * y23) * m
  {
    MissesApart(b, x0 * y0, x1 * y0, x0 * y1, x1 * y1, t, m00, m10, m01, m11);
    ProductByHalves(x0, x1, x23, y0, y1, y23, b);
    Distribute(m, c, x23 * y23);
  }

  // ----- when the product is right

  /** `Product` gives the product modulo `2^4w`. */
  predicate RightProduct(w: nat, x: seq<nat>, y: seq<nat>)
    requires |x| == |y| == 4
  {
    var exact := Number(w, x) * Number(w, y);
    (exact + Slip(w, x, y)) % Modulus(w, 4) == exact % Modulus(w, 4)
  }

  lemma SameResidue(x: int, s: int, m: int)
    requires m > 0
    ensures (x + s) % m == x % m <==> s % m == 0
  {
    DivModForm(s, m);
    ModShift(x + s % m, m, s / m);
    DivModForm(x, m);
    ModShift(x % m + s % m, m, x / m);
    var u := x % m + s % m;
    if u < m { DivModUnique(u, m, 0, u); } else { DivModUnique(u, m, 1, u - m); }
  }

  lemma MissBound(w: nat, x: nat, y: nat)
    requires x < Pow2(w) && y < Pow2(w)
    ensures var b: int := Pow2(w); -b < Miss(w, x, y) < b
  {
    DigitProduct(x, y, Pow2(w));
    DivAtLeast(Times(x, y), Pow2(w), Pow2(w));
  }

  lemma Cancel(a: int, c: int, b: int)
    requires b > 0 && a * b == c * b
    ensures a == c
  {
  }

  lemma MultipleOfSquare(d: int, high: int)
    requires d > 0
    ensures d * d > 0 && ((high * d) % (d * d) == 0 <==> high % d == 0)
  {
    DivModForm(high, d);
    if high % d == 0 {
      Associate(high / d, d, d);
      DivModUnique(high * d, d * d, high / d, 0);
    }
    if (high * d) % (d * d) == 0 {
      var k := (high * d) / (d * d);
      DivModForm(high * d, d * d);
      Associate(k, d, d);
      Cancel(high, k * d, d);
      DivModUnique(high, d, k, 0);
    }
  }

  lemma LowDigitVanishes(b: int, low: int, high: int, k: int)
    requires b > 0 && -b < low < b
    requires low * b + high * (b * b) == k * ((b * b) * (b * b))
    ensures low == 0
  {
    var d := b * b;
    var z := k * d - high;
    assert low * b == (z * b) * b by {
      Distribute(d, k * d, -high);
      assert k * (d * d) == (k * d) * d;
      Associate(z, b, b);
    }
    Cancel(low, z * b, b);
    SmallMultiple(z, b);
  }

  /** A number in base `b` whose lowest digit is small is a multiple of `b^4` only digit by digit. */
  lemma DigitsVanish(b: int, low: int, high: int)
    requires b > 0 && -b < low < b
    ensures (low * b + high * (b * b)) % ((b * b) * (b * b)) == 0 <==> low == 0 && high % (b * b) == 0
  {
    var d := b * b;
    MultipleOfSquare(d, high);
    var s := low * b + high * d;
    if s % (d * d) == 0 {
      DivModForm(s, d * d);
      LowDigitVanishes(b, low, high, s / (d * d));
    }
  }

  lemma SlipVanishes(w: nat, x: seq<nat>, y: seq<nat>)
    requires IsX4(w, x) && IsX4(w, y)
    ensures Slip(w, x, y) % Modulus(w, 4) == 0 <==>
              Miss(w, x[0], y[0]) == 0 && UpperMiss(w, x, y) % (Pow2(w) * Pow2(w)) == 0
  {
    MissBound(w, x[0], y[0]);
    ModulusOfFour(w);
    DigitsVanish(Pow2(w), Miss(w, x[0], y[0]), UpperMiss(w, x, y));
  }

  /** The product of two given numbers is right if and only if the high word of the lowest product is, and
      what the others miss cancels. */
  lemma RightProductIff(w: nat, x: seq<nat>, y: seq<nat>)
    requires IsX4(w, x) && IsX4(w, y)
    ensures RightProduct(w, x, y) <==>
              Miss(w, x[0], y[0]) == 0 && UpperMiss(w, x, y) % (Pow2(w) * Pow2(w)) == 0
  {
    SameResidue(Number(w, x) * Number(w, y), Slip(w, x, y), Modulus(w, 4));
    SlipVanishes(w, x, y);
  }

  lemma NothingMissed(w: nat, x: nat, y: nat)
    requires x < Pow2(w) && y < Pow2(w) && (w == HIGH_SHIFT || w == 1)
    ensures Miss(w, x, y) == 0
  {
    var p := Times(x, y);
    DigitProduct(x, y, Pow2(w));
    if w == 1 {
      assert Pow2(1) == 2 && p <= 1;
      Pow2Monotone(1, HIGH_SHIFT);
      DivModUnique(p, Pow2(HIGH_SHIFT), 0, p);
    } else {
      DivAtLeast(p, Pow2(w), Pow2(w));
      WrapSmall(w, Shr(p, w));
    }
  }

  /** At 32-bit words every product is right. */
  lemma RightAtThirtyTwo(x: seq<nat>, y: seq<nat>)
    requires IsX4(HIGH_SHIFT, x) && IsX4(HIGH_SHIFT, y)
    ensures RightProduct(HIGH_SHIFT, x, y)
  {
    NothingMissed(HIGH_SHIFT, x[0], y[0]);
    NothingMissed(HIGH_SHIFT, x[1], y[0]);
    NothingMissed(HIGH_SHIFT, x[0], y[1]);
    NothingMissed(HIGH_SHIFT, x[1], y[1]);
  }

  lemma PowerQuotient(n: nat, k: nat)
    requires k <= n
    ensures Quotient(Pow2(n), Pow2(k)) == Pow2(n - k)
  {
    Pow2Add(n - k, k);
    DivModUnique(Pow2(n), Pow2(k), Pow2(n - k), 0);
  }

  /** The word taken for the high one of a power of two. */
  lemma HighWordOfPower(w: nat, n: nat)
    ensures HighWord(w, Pow2(n)) == if HIGH_SHIFT <= n < w + HIGH_SHIFT then Pow2(n - HIGH_SHIFT) else 0
  {
    if n < HIGH_SHIFT {
      Pow2Monotone(n, HIGH_SHIFT);
      DivModUnique(Pow2(n), Pow2(HIGH_SHIFT), 0, Pow2(n));
      WrapSmall(w, 0);
    } else {
      PowerQuotient(n, HIGH_SHIFT);
      if n < w + HIGH_SHIFT {
        Pow2Monotone(n - HIGH_SHIFT, w);
        WrapSmall(w, Pow2(n - HIGH_SHIFT));
      } else {
        PowerQuotient(n - HIGH_SHIFT, w);
        Pow2Add(n - HIGH_SHIFT - w, w);
        DivModUnique(Pow2(n - HIGH_SHIFT), Pow2(w), Pow2(n - HIGH_SHIFT - w), 0);
      }
    }
  }

  /** At every other width the square of the top bit of a word is wrong. */
  lemma TopBitMissed(w: nat)
    requires w > 1 && w != HIGH_SHIFT
    ensures Miss(w, Pow2(w - 1), Pow2(w - 1)) != 0
  {
    var n := 2 * w - 2;
    Pow2Add(w - 1, w - 1);
    HighWordOfPower(w, n);
    PowerQuotient(n, w);
    if HIGH_SHIFT <= n < w + HIGH_SHIFT {
      if w < HIGH_SHIFT { Pow2Monotone(n - HIGH_SHIFT, w - 2); } else { Pow2Monotone(w - 2, n - HIGH_SHIFT); }
    }
  }

  /** Every product is right if and only if the words have 32 bits (or one). */
  lemma RightEverywhereIff(w: nat)
    requires w > 0
    ensures (forall x, y :: IsX4(w, x) && IsX4(w, y) ==> RightProduct(w, x, y)) <==> w == 32 || w == 1
  {
    if w == HIGH_SHIFT || w == 1 {
      forall x, y | IsX4(w, x) && IsX4(w, y) ensures RightProduct(w, x, y) {
        NothingMissed(w, x[0], y[0]);
        NothingMissed(w, x[1], y[0]);
        NothingMissed(w, x[0], y[1]);
        NothingMissed(w, x[1], y[1]);
      }
    } else {
      var top := [Pow2(w - 1), 0, 0, 0];
      assert IsX4(w, top);
      TopBitMissed(w);
      RightProductIff(w, top, top);
    }
  }

  lemma NoMissAtZero(w: nat, x: nat)
    ensures Miss(w, 0, x) == 0 && Miss(w, x, 0) == 0
  {
    assert Times(0, x) == 0 && Times(x, 0) == 0;
    DivModUnique(0, Pow2(HIGH_SHIFT), 0, 0);
    WrapSmall(w, 0);
    DivModUnique(0, Pow2(w), 0, 0);
  }

  lemma LoneWord(w: nat, x: nat)
    requires x < Pow2(w)
    ensures IsX4(w, [x, 0, 0, 0]) && Number(w, [x, 0, 0, 0]) == x
  {
    FourLimbs(Pow2(w), [x, 0, 0, 0]);
  }

  lemma LoneSlip(w: nat, x: seq<nat>)
    requires |x| == 4 && x[1] == 0
    ensures Slip(w, x, x) == Miss(w, x[0], x[0]) * Pow2(w)
  {
    NoMissAtZero(w, x[0]);
    NoMissAtZero(w, 0);
    SlipOfLowest(Pow2(w), Miss(w, x[0], x[0]), Miss(w, x[1], x[0]), Miss(w, x[0], x[1]), Miss(w, x[1], x[1]));
  }

  lemma SlipOfLowest(b: int, m00: int, m10: int, m01: int, m11: int)
    requires m10 == m01 == m11 == 0
    ensures m00 * b + (m10 + m01 + m11 * b) * (b * b) == m00 * b
  {
  }

  /** With words of `2n` bits, more than 32, the square of `2^n` comes out as `2^(4n-32)`: with 64-bit words
      that of 2^32 as 2^96. */
  lemma WrongSquare(n: nat)
    requires 32 < 2 * n
    ensures var w := 2 * n;
            var x := [Pow2(n), 0, 0, 0];
            IsX4(w, x) && Number(w, x) * Number(w, x) == Pow2(w) < Modulus(w, 4)
            && (Number(w, x) * Number(w, x) + Slip(w, x, x)) % Modulus(w, 4) == Pow2(2 * w - 32)
  {
    var w := 2 * n;
    Pow2Add(n, n);
    Pow2Monotone(n, w);
    LoneWord(w, Pow2(n));
    LoneSlip(w, [Pow2(n), 0, 0, 0]);
    HighWordOfPower(w, w);
    PowerQuotient(w, w);
    Distribute(Pow2(w), Pow2(w - HIGH_SHIFT), -1);
    Pow2Add(w - HIGH_SHIFT, w);
    PowerBelowModulus(w, w);
    PowerBelowModulus(w, 2 * w - HIGH_SHIFT);
  }

  lemma PowerBelowModulus(w: nat, n: nat)
    requires n < 4 * w
    ensures Pow2(n) < Modulus(w, 4) && Pow2(n) % Modulus(w, 4) == Pow2(n)
  {
    Pow2Add(w, w);
    Pow2Add(2 * w, 2 * w);
    ModulusOfFour(w);
    Pow2Monotone(n, 4 * w);
    DivModUnique(Pow2(n), Modulus(w, 4), 0, Pow2(n));
  }
}

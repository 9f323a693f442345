/** Bitwise operations on wide integers, and what becomes of the sign of a narrower operand. */
module LimbBits {
  import opened Words
  import opened LimbInteger
  import opened LimbCompare
  import opened LimbShift

  lemma HalfOfSum(x: nat, a: nat, p: nat, c: nat)
    requires x == a * (2 * p) + c
    ensures x / 2 == a * p + c / 2 && x % 2 == c % 2
  {
  }

  lemma OrUnfold(x: nat, y: nat)
    ensures Or(x, y) == 2 * Or(x / 2, y / 2) + if x % 2 == 1 || y % 2 == 1 then 1 else 0
  {
  }

  /** Or works on the two parts of a number separately. */
  lemma {:induction false} OrSplit(x: nat, y: nat, a: nat, b: nat, c: nat, d: nat, m: nat)
    requires c < Pow2(m) && d < Pow2(m) && x == a * Pow2(m) + c && y == b * Pow2(m) + d
    ensures Or(x, y) == Or(a, b) * Pow2(m) + Or(c, d)
    ensures Or(c, d) < Pow2(m)
    decreases m
  {
    if m > 0 {
      var p := Pow2(m - 1);
      HalfOfSum(x, a, p, c);
      HalfOfSum(y, b, p, d);
      OrSplit(x / 2, y / 2, a, b, c / 2, d / 2, m - 1);
      Associate(Or(a, b), 2, p);
      OrUnfold(x, y);
      OrUnfold(c, d);
    }
  }

  lemma {:induction false} AndSplit(x: nat, y: nat, a: nat, b: nat, c: nat, d: nat, m: nat)
    requires c < Pow2(m) && d < Pow2(m) && x == a * Pow2(m) + c && y == b * Pow2(m) + d
    ensures And(x, y) == And(a, b) * Pow2(m) + And(c, d)
    ensures And(c, d) < Pow2(m)
    decreases m
  {
    if m > 0 {
      var p := Pow2(m - 1);
      HalfOfSum(x, a, p, c);
      HalfOfSum(y, b, p, d);
      AndSplit(x / 2, y / 2, a, b, c / 2, d / 2, m - 1);
      Associate(And(a, b), 2, p);
      AndUnfold(x, y);
      AndUnfold(c, d);
    }
  }

  lemma PowerAsPow2(w: nat, i: nat) returns (m: nat)
    ensures Power(Pow2(w), i) == Pow2(m)
  {
    m := w * i;
    PowerOfPow2(w, i);
  }

  lemma {:induction false} OrValue(w: nat, x: seq<nat>, y: seq<nat>, z: seq<nat>, k: nat)
    requires IsWide(w, x) && IsWide(w, y) && k <= |x| == |y| == |z|
    requires forall i :: 0 <= i < |x| ==> z[i] == Or(x[i], y[i])
    ensures Value(Pow2(w), z, k) == Or(Value(Pow2(w), x, k), Value(Pow2(w), y, k))
  {
    if k > 0 {
      OrValue(w, x, y, z, k - 1);
      ValueBound(Pow2(w), x, k - 1);
      ValueBound(Pow2(w), y, k - 1);
      var m := PowerAsPow2(w, k - 1);
      OrSplit(Value(Pow2(w), x, k), Value(Pow2(w), y, k), x[k - 1], y[k - 1],
              Value(Pow2(w), x, k - 1), Value(Pow2(w), y, k - 1), m);
    }
  }

  lemma {:induction false} AndValue(w: nat, x: seq<nat>, y: seq<nat>, z: seq<nat>, k: nat)
    requires IsWide(w, x) && IsWide(w, y) && k <= |x| == |y| == |z|
    requires forall i :: 0 <= i < |x| ==> z[i] == And(x[i], y[i])
    ensures Value(Pow2(w), z, k) == And(Value(Pow2(w), x, k), Value(Pow2(w), y, k))
  {
    if k > 0 {
      AndValue(w, x, y, z, k - 1);
      ValueBound(Pow2(w), x, k - 1);
      ValueBound(Pow2(w), y, k - 1);
      var m := PowerAsPow2(w, k - 1);
      AndSplit(Value(Pow2(w), x, k), Value(Pow2(w), y, k), x[k - 1], y[k - 1],
              Value(Pow2(w), x, k - 1), Value(Pow2(w), y, k - 1), m);
    }
  }

  /** What is or-ed in beyond the limbs of a narrower operand is zero. */
  method Pipe(w: nat, lhs: seq<nat>, rhs: seq<nat>) returns (res: seq<nat>)
    requires IsWide(w, lhs) && IsWide(w, rhs) && |rhs| <= |lhs|
    ensures IsWide(w, res) && |res| == |lhs|
    ensures Number(w, res) == Or(Number(w, lhs), Number(w, rhs))
  {
    ghost var other := Padded(rhs, |lhs|, 0);
    PaddedNumber(w, rhs, |lhs|);
    res := lhs;
    var i := 0;
    while i < |lhs|
      invariant 0 <= i <= |lhs| == |res| && IsWide(w, res)
      invariant forall k :: 0 <= k < i ==> res[k] == Or(lhs[k], other[k])
    {
      OrSplit(lhs[i], other[i], 0, 0, lhs[i], other[i], w);
      res := res[i := Or(lhs[i], Item(rhs, i))];
      i := i + 1;
    }
    OrValue(w, lhs, other, res, |lhs|);
  }

  method Amp(w: nat, lhs: seq<nat>, rhs: seq<nat>) returns (res: seq<nat>)
    requires IsWide(w, lhs) && IsWide(w, rhs) && |rhs| <= |lhs|
    ensures IsWide(w, res) && |res| == |lhs|
    ensures Number(w, res) == And(Number(w, lhs), Number(w, rhs))
  {
    ghost var other := Padded(rhs, |lhs|, 0);
    PaddedNumber(w, rhs, |lhs|);
    res := lhs;
    var i := 0;
    while i < |lhs|
      invariant 0 <= i <= |lhs| == |res| && IsWide(w, res)
      invariant forall k :: 0 <= k < i ==> res[k] == And(lhs[k], other[k])
    {
      AndSplit(lhs[i], other[i], 0, 0, lhs[i], other[i], w);
      res := res[i := And(lhs[i], Item(rhs, i))];
      i := i + 1;
    }
    AndValue(w, lhs, other, res, |lhs|);
  }

  // ----- the sign of a narrower operand

  lemma {:induction false} OrWithOnes(x: nat, w: nat)
    requires x < Pow2(w)
    ensures Or(x, Pow2(w) - 1) == Pow2(w) - 1 && Or(x, 0) == x
  {
    OrZero(x);
    OrCommutes(x, 0);
    if w > 0 {
      OrWithOnes(x / 2, w - 1);
      OrUnfold(x, Pow2(w) - 1);
    } else {
      assert x == 0;
    }
  }

  lemma AndWithOnes(x: nat, w: nat)
    requires x < Pow2(w)
    ensures And(x, Pow2(w) - 1) == x && And(x, 0) == 0
  {
    AndMask(x, w);
    WrapSmall(w, x);
    AndMask(x, 0);
    assert Pow2(0) - 1 == 0;
  }

  /** Two operands that differ where the results do. */
  lemma SameNumber(w: nat, x: seq<nat>, y: seq<nat>)
    requires IsWide(w, x) && IsWide(w, y) && |x| == |y|
    ensures Number(w, x) == Number(w, y) <==> x == y
  {
    if x != y {
      var i :| 0 <= i < |x| && x[i] != y[i];
      DifferentNumbers(Pow2(w), x, y, |x|, i);
    }
  }

  function OrLimbs(x: seq<nat>, y: seq<nat>): (z: seq<nat>)
    requires |x| == |y|
    ensures |z| == |x| && forall i :: 0 <= i < |x| ==> z[i] == Or(x[i], y[i])
  {
    seq(|x|, i requires 0 <= i < |x| => Or(x[i], y[i]))
  }

  function AndLimbs(x: seq<nat>, y: seq<nat>): (z: seq<nat>)
    requires |x| == |y|
    ensures |z| == |x| && forall i :: 0 <= i < |x| ==> z[i] == And(x[i], y[i])
  {
    seq(|x|, i requires 0 <= i < |x| => And(x[i], y[i]))
  }

  lemma OrLimbsNumber(w: nat, x: seq<nat>, y: seq<nat>)
    requires IsWide(w, x) && IsWide(w, y) && |x| == |y|
    ensures IsWide(w, OrLimbs(x, y)) && Number(w, OrLimbs(x, y)) == Or(Number(w, x), Number(w, y))
  {
    forall i | 0 <= i < |x| ensures OrLimbs(x, y)[i] < Pow2(w) {
      OrSplit(x[i], y[i], 0, 0, x[i], y[i], w);
    }
    OrValue(w, x, y, OrLimbs(x, y), |x|);
  }

  lemma AndLimbsNumber(w: nat, x: seq<nat>, y: seq<nat>)
    requires IsWide(w, x) && IsWide(w, y) && |x| == |y|
    ensures IsWide(w, AndLimbs(x, y)) && Number(w, AndLimbs(x, y)) == And(Number(w, x), Number(w, y))
  {
    forall i | 0 <= i < |x| ensures AndLimbs(x, y)[i] < Pow2(w) {
      AndSplit(x[i], y[i], 0, 0, x[i], y[i], w);
    }
    AndValue(w, x, y, AndLimbs(x, y), |x|);
  }

  /** Or-ing in a narrower operand is or-ing in its conversion if and only if that operand is not negative, or
      all bits above it are set in the other. */
  lemma PipeKeepsSign(w: nat, lhs: seq<nat>, signed: bool, rhs: seq<nat>)
    requires w > 0 && IsWide(w, lhs) && IsWide(w, rhs) && |rhs| <= |lhs|
    ensures Or(Number(w, lhs), Number(w, rhs)) == Or(Number(w, lhs), Number(w, Converted(w, signed, rhs, |lhs|)))
            <==> !(signed && IsNegative(w, rhs)) || forall i :: |rhs| <= i < |lhs| ==> lhs[i] == Pow2(w) - 1
  {
    var padded, converted := Padded(rhs, |lhs|, 0), Converted(w, signed, rhs, |lhs|);
    PaddedNumber(w, rhs, |lhs|);
    ConvertedNumber(w, signed, rhs, |lhs|);
    OrLimbsNumber(w, lhs, padded);
    OrLimbsNumber(w, lhs, converted);
    var z, z' := OrLimbs(lhs, padded), OrLimbs(lhs, converted);
    SameNumber(w, z, z');
    forall i | 0 <= i < |lhs|
      ensures z[i] == z'[i] <==> i < |rhs| || !(signed && IsNegative(w, rhs)) || lhs[i] == Pow2(w) - 1
    {
      OrWithOnes(lhs[i], w);
    }
  }

  /** And-ing with a narrower operand is and-ing with its conversion if and only if that operand is not
      negative, or all bits above it are clear in the other. */
  lemma AmpKeepsSign(w: nat, lhs: seq<nat>, signed: bool, rhs: seq<nat>)
    requires w > 0 && IsWide(w, lhs) && IsWide(w, rhs) && |rhs| <= |lhs|
    ensures And(Number(w, lhs), Number(w, rhs)) == And(Number(w, lhs), Number(w, Converted(w, signed, rhs, |lhs|)))
            <==> !(signed && IsNegative(w, rhs)) || forall i :: |rhs| <= i < |lhs| ==> lhs[i] == 0
  {
    var padded, converted := Padded(rhs, |lhs|, 0), Converted(w, signed, rhs, |lhs|);
    PaddedNumber(w, rhs, |lhs|);
    ConvertedNumber(w, signed, rhs, |lhs|);
    AndLimbsNumber(w, lhs, padded);
    AndLimbsNumber(w, lhs, converted);
    var z, z' := AndLimbs(lhs, padded), AndLimbs(lhs, converted);
    SameNumber(w, z, z');
    forall i | 0 <= i < |lhs|
      ensures z[i] == z'[i] <==> i < |rhs| || !(signed && IsNegative(w, rhs)) || lhs[i] == 0
    {
      AndWithOnes(lhs[i], w);
    }
  }

  /** A wider zero or-ed with minus one gives the largest number of the narrower type, and not of its own. */
  lemma ZeroOrMinusOne(w: nat, n: nat, m: nat, zero: seq<nat>, ones: seq<nat>)
    requires w > 1 && 0 < m < n && zero == Padded([], n, 0) && ones == Padded([], m, Pow2(w) - 1)
    ensures IsWide(w, zero) && IsWide(w, ones) && Reading(w, true, zero) == 0 && Reading(w, true, ones) == -1
    ensures Or(Number(w, zero), Number(w, ones)) == Modulus(w, m) - 1 < Modulus(w, n) - 1
    ensures Or(Number(w, zero), Number(w, Converted(w, true, ones, n))) == Modulus(w, n) - 1
  {
    assert Number(w, zero) == 0 && Reading(w, true, zero) == 0 by {
      ZeroFilledValue(Pow2(w), zero, 0, n);
      assert zero[n - 1] == 0;
    }
    LargestNumber(w, ones, m);
    LargestNumber(w, Padded([], n, Pow2(w) - 1), n);
    assert Converted(w, true, ones, n) == Padded([], n, Pow2(w) - 1);
    RoomAbove(w, m, n);
    OrZero(Modulus(w, m) - 1);
    OrZero(Modulus(w, n) - 1);
  }

  lemma LargestMasked(w: nat, n: nat, m: nat)
    requires m <= n
    ensures And(Modulus(w, n) - 1, Modulus(w, m) - 1) == Modulus(w, m) - 1
  {
    PowerOfPow2(w, m);
    PowerOfPow2(w, n);
    MulMonotone(w, m, n);
    OnesMasked(w * n, w * m);
  }

  lemma OnesMasked(a: nat, b: nat)
    requires b <= a
    ensures And(Pow2(a) - 1, Pow2(b) - 1) == Pow2(b) - 1
  {
    AndMask(Pow2(a) - 1, b);
    LowOfOnes(a, b);
  }

  /** A wider minus one and-ed with minus one gives the same. */
  lemma MinusOneAndMinusOne(w: nat, n: nat, m: nat, wide: seq<nat>, ones: seq<nat>)
    requires w > 1 && 0 < m < n && wide == Padded([], n, Pow2(w) - 1) && ones == Padded([], m, Pow2(w) - 1)
    ensures IsWide(w, wide) && IsWide(w, ones) && Reading(w, true, wide) == Reading(w, true, ones) == -1
    ensures And(Number(w, wide), Number(w, ones)) == Modulus(w, m) - 1 < Modulus(w, n) - 1
    ensures And(Number(w, wide), Number(w, Converted(w, true, ones, n))) == Modulus(w, n) - 1
  {
    LargestNumber(w, ones, m);
    LargestNumber(w, wide, n);
    assert Converted(w, true, ones, n) == wide;
    RoomAbove(w, m, n);
    LargestMasked(w, n, m);
    LargestMasked(w, n, n);
  }
}

/** Wide integers of different widths and signs: conversion between them, and comparison. */
module LimbCompare {
  import opened Words
  import opened LimbInteger

  // ----- conversion

  /** The limb at `i`, or zero beyond the last one. */
  function Item(x: seq<nat>, i: nat): nat { if i < |x| then x[i] else 0 }

  /** `n` limbs: those of `x` as far as they go, and `fill` above them. */
  function Padded(x: seq<nat>, n: nat, fill: nat): (y: seq<nat>)
    ensures |y| == n && forall i :: 0 <= i < n ==> y[i] == if i < |x| then x[i] else fill
  {
    seq(n, i requires 0 <= i => if i < |x| then x[i] else fill)
  }

  function SignFill(w: nat, signed: bool, x: seq<nat>): nat
    requires w > 0 && |x| > 0
  {
    if signed && IsNegative(w, x) then Pow2(w) - 1 else 0
  }

  /** The number `x` in a type of `n` limbs: cut off, or continued with its sign. */
  function Converted(w: nat, signed: bool, x: seq<nat>, n: nat): seq<nat>
    requires w > 0 && |x| > 0
  {
    Padded(x, n, SignFill(w, signed, x))
  }

  method FromWide(w: nat, n: nat, signed: bool, x: seq<nat>) returns (res: seq<nat>)
    requires w > 0 && IsWide(w, x)
    ensures res == Converted(w, signed, x, n)
  {
    res := seq(n, _ => 0);
    var toCopy := if n < |x| then n else |x|;
    var i := 0;
    while i < toCopy
      invariant 0 <= i <= toCopy && |res| == n
      invariant forall k :: 0 <= k < i ==> res[k] == x[k]
    {
      res := res[i := x[i]];
      i := i + 1;
    }
    var fill := if signed && IsNegative(w, x) then Pow2(w) - 1 else 0;
    while i < n
      invariant toCopy <= i <= n && |res| == n
      invariant forall k :: 0 <= k < toCopy ==> res[k] == x[k]
      invariant forall k :: toCopy <= k < i ==> res[k] == fill
    {
      res := res[i := fill];
      i := i + 1;
    }
  }

  lemma PaddedNumber(w: nat, x: seq<nat>, n: nat)
    requires IsWide(w, x) && |x| <= n
    ensures IsWide(w, Padded(x, n, 0)) && Number(w, Padded(x, n, 0)) == Number(w, x)
  {
    var y := Padded(x, n, 0);
    ValueAgrees(Pow2(w), y, x, |x|);
    ZeroFilledValue(Pow2(w), y, |x|, n);
  }

  lemma {:induction false} OnesFilledValue(b: nat, y: seq<nat>, m: nat, k: nat)
    requires m <= k <= |y| && b > 0 && forall i :: m <= i < k ==> y[i] == b - 1
    ensures Value(b, y, k) == Value(b, y, m) + Power(b, k) - Power(b, m)
    decreases k
  {
    if m < k {
      OnesFilledValue(b, y, m, k - 1);
      Distribute(Power(b, k - 1), b - 1, 1);
    }
  }

  /** The largest number of `n` limbs, read with a sign as minus one. */
  lemma LargestNumber(w: nat, ones: seq<nat>, n: nat)
    requires w > 1 && n > 0 && ones == Padded([], n, Pow2(w) - 1)
    ensures IsWide(w, ones) && IsNegative(w, ones) && Number(w, ones) == Modulus(w, n) - 1 && Modulus(w, n) > 2
  {
    OnesFilledValue(Pow2(w), ones, 0, n);
    assert Pow2(w - 1) >= 2 by { Pow2Monotone(1, w - 1); }
    assert ones[n - 1] == Pow2(w) - 1;
    MulMonotone(Pow2(w), 1, Modulus(w, n - 1));
  }

  lemma ModulusDivides(w: nat, n: nat, k: nat)
    requires n <= k
    ensures Modulus(w, k) == Modulus(w, k - n) * Modulus(w, n)
  {
    PowerAdd(Pow2(w), k - n, n);
  }

  /** Conversion keeps the number modulo the new width. */
  lemma ConvertedNumber(w: nat, signed: bool, x: seq<nat>, n: nat)
    requires w > 0 && IsWide(w, x) && n > 0
    ensures IsWide(w, Converted(w, signed, x, n)) && |Converted(w, signed, x, n)| == n
    ensures Number(w, Converted(w, signed, x, n)) == Reading(w, signed, x) % Modulus(w, n)
  {
    var y := Converted(w, signed, x, n);
    if n <= |x| {
      CutNumber(w, signed, x, n, y);
    } else {
      ValueAgrees(Pow2(w), y, x, |x|);
      NumberBound(w, y);
      ExtendedNumber(w, signed, x, n, y);
    }
  }

  lemma CutNumber(w: nat, signed: bool, x: seq<nat>, n: nat, y: seq<nat>)
    requires w > 0 && IsWide(w, x) && IsWide(w, y) && |y| == n <= |x| && y == x[..n]
    ensures Number(w, y) == Reading(w, signed, x) % Modulus(w, n)
  {
    var m := Modulus(w, n);
    var h := HighPart(Pow2(w), x, n, |x|);
    ValueAgrees(Pow2(w), y, x, n);
    NumberBound(w, y);
    ModulusDivides(w, n, |x|);
    var top := if signed && IsNegative(w, x) then Modulus(w, |x| - n) else 0;
    CutMultiple(Reading(w, signed, x), Number(w, y), h, top, m);
  }

  lemma CutMultiple(t: int, v: nat, h: int, top: int, m: nat)
    requires v < m && t == v + h * m - top * m
    ensures t % m == v
  {
    Distribute(m, h, 0 - top);
    Residue(t, m, h - top, v);
  }

  lemma ExtendedNumber(w: nat, signed: bool, x: seq<nat>, n: nat, y: seq<nat>)
    requires w > 0 && IsWide(w, x) && IsWide(w, y) && |x| < |y| == n && y == Converted(w, signed, x, n)
    requires Value(Pow2(w), y, |x|) == Number(w, x) && Number(w, y) < Modulus(w, n)
    ensures Number(w, y) == Reading(w, signed, x) % Modulus(w, n)
  {
    if signed && IsNegative(w, x) {
      OnesFilledValue(Pow2(w), y, |x|, n);
      Residue(Reading(w, signed, x), Modulus(w, n), -1, Number(w, y));
    } else {
      ZeroFilledValue(Pow2(w), y, |x|, n);
      Residue(Reading(w, signed, x), Modulus(w, n), 0, Number(w, y));
    }
  }

  // ----- comparison

  /** What the comparison finds: the signs decide, if the right operand has one, and otherwise the limbs,
      with zeros above the narrower operand. */
  predicate FoundGreater(w: nat, lhsSigned: bool, lhs: seq<nat>, rhsSigned: bool, rhs: seq<nat>)
    requires w > 0 && |lhs| > 0 && |rhs| > 0
  {
    var l, r := lhsSigned && IsNegative(w, lhs), rhsSigned && IsNegative(w, rhs);
    if rhsSigned && l != r then r else Number(w, lhs) > Number(w, rhs)
  }

  method Greater(w: nat, lhsSigned: bool, lhs: seq<nat>, rhsSigned: bool, rhs: seq<nat>) returns (r: bool)
    requires w > 0 && IsWide(w, lhs) && IsWide(w, rhs) && |rhs| <= |lhs|
    ensures r <==> FoundGreater(w, lhsSigned, lhs, rhsSigned, rhs)
  {
    var lhsNegative, rhsNegative := lhsSigned && IsNegative(w, lhs), rhsSigned && IsNegative(w, rhs);
    if rhsSigned && lhsNegative != rhsNegative {
      return rhsNegative;
    }
    ghost var other := Padded(rhs, |lhs|, 0);
    PaddedNumber(w, rhs, |lhs|);
    var n := |lhs|;
    var i := n;
    while i > 0
      invariant 0 <= i <= n
      invariant forall j :: i <= j < n ==> lhs[j] == other[j]
    {
      var item := Item(rhs, i - 1);
      if lhs[i - 1] != item {
        if lhs[i - 1] < item {
          TopDecides(Pow2(w), lhs, other, i - 1, n);
        } else {
          TopDecides(Pow2(w), other, lhs, i - 1, n);
        }
        return lhs[i - 1] > item;
      }
      i := i - 1;
    }
    assert lhs == other;
    return false;
  }

  method Equal(w: nat, lhs: seq<nat>, rhs: seq<nat>) returns (r: bool)
    requires IsWide(w, lhs) && IsWide(w, rhs) && |rhs| <= |lhs|
    ensures r <==> Number(w, lhs) == Number(w, rhs)
  {
    ghost var other := Padded(rhs, |lhs|, 0);
    PaddedNumber(w, rhs, |lhs|);
    var i := 0;
    while i < |lhs|
      invariant 0 <= i <= |lhs|
      invariant forall j :: 0 <= j < i ==> lhs[j] == other[j]
    {
      if lhs[i] != Item(rhs, i) {
        DifferentNumbers(Pow2(w), lhs, other, |lhs|, i);
        return false;
      }
      i := i + 1;
    }
    assert lhs == other;
    return true;
  }

  lemma RoomAbove(w: nat, n: nat, k: nat)
    requires w > 0 && n < k
    ensures 2 * Modulus(w, n) <= Modulus(w, k)
  {
    ModulusDivides(w, n, k);
    ModulusGrows(w, k - n);
    MulMonotone(Modulus(w, n), 2, Modulus(w, k - n));
  }

  lemma ModulusGrows(w: nat, n: nat)
    requires w > 0 && n > 0
    ensures 2 <= Modulus(w, n)
  {
    Pow2Monotone(1, w);
    MulMonotone(Pow2(w), 1, Modulus(w, n - 1));
  }

  /** A negative number has more than any number of fewer limbs in its unsigned reading. */
  lemma NegativeIsLarge(w: nat, x: seq<nat>, y: seq<nat>)
    requires w > 0 && IsWide(w, x) && IsWide(w, y) && IsNegative(w, x) && |y| < |x|
    ensures Number(w, x) > Number(w, y)
  {
    ReadingRange(w, x);
    NumberBound(w, y);
    RoomAbove(w, |y|, |x|);
  }

  /** The answer is right unless the left number is negative and the signs did not decide: then it is right
      exactly when, for two negative numbers, they have the same width or the left one is the greater, and for
      a right operand without sign, when that one has the same width and at least the residue of the left one. */
  lemma GreaterIsRight(w: nat, lhsSigned: bool, lhs: seq<nat>, rhsSigned: bool, rhs: seq<nat>)
    requires w > 0 && IsWide(w, lhs) && IsWide(w, rhs) && |rhs| <= |lhs|
    ensures var l, r := Reading(w, lhsSigned, lhs), Reading(w, rhsSigned, rhs);
            (FoundGreater(w, lhsSigned, lhs, rhsSigned, rhs) <==> l > r) <==>
              (l >= 0 || (rhsSigned && r >= 0)
               || (rhsSigned && (|lhs| == |rhs| || l > r))
               || (!rhsSigned && |lhs| == |rhs| && l + Modulus(w, |lhs|) <= r))
  {
    ReadingRange(w, lhs);
    ReadingRange(w, rhs);
    if lhsSigned && IsNegative(w, lhs) && |rhs| < |lhs| { NegativeIsLarge(w, lhs, rhs); }
  }

  /** So it is for operands of one type. */
  lemma GreaterWithinType(w: nat, signed: bool, lhs: seq<nat>, rhs: seq<nat>)
    requires w > 0 && IsWide(w, lhs) && IsWide(w, rhs) && |rhs| == |lhs|
    ensures FoundGreater(w, signed, lhs, signed, rhs) <==> Reading(w, signed, lhs) > Reading(w, signed, rhs)
  {
    GreaterIsRight(w, signed, lhs, signed, rhs);
    ReadingRange(w, lhs);
  }

  /** Equality of limbs is equality of the numbers, except that one of two negative numbers is never found equal
      when it is narrower, and that a negative number is found equal to its residue. */
  lemma EqualIsRight(w: nat, lhsSigned: bool, lhs: seq<nat>, rhsSigned: bool, rhs: seq<nat>)
    requires w > 0 && IsWide(w, lhs) && IsWide(w, rhs) && |rhs| <= |lhs|
    ensures var l, r := Reading(w, lhsSigned, lhs), Reading(w, rhsSigned, rhs);
            (Number(w, lhs) == Number(w, rhs) <==> l == r) <==>
              if (l < 0) == (r < 0) then l >= 0 || |lhs| == |rhs| || l != r
              else if r < 0 then l != r + Modulus(w, |rhs|)
              else |rhs| < |lhs| || r != l + Modulus(w, |lhs|)
  {
    ReadingRange(w, lhs);
    ReadingRange(w, rhs);
    if lhsSigned && IsNegative(w, lhs) && |rhs| < |lhs| { NegativeIsLarge(w, lhs, rhs); }
  }

  /** Every negative number in a wider type is found greater than itself, and not equal. */
  lemma NarrowNegativeMisjudged(w: nat, x: seq<nat>, n: nat)
    requires w > 0 && IsWide(w, x) && IsNegative(w, x) && |x| < n
    ensures var y := Converted(w, true, x, n);
            IsWide(w, y) && Reading(w, true, y) == Reading(w, true, x)
            && FoundGreater(w, true, y, true, x) && Number(w, y) != Number(w, x)
  {
    var y := Converted(w, true, x, n);
    ConvertedNumber(w, true, x, n);
    ValueAgrees(Pow2(w), y, x, |x|);
    OnesFilledValue(Pow2(w), y, |x|, n);
    Pow2Monotone(w - 1, w);
    assert y[n - 1] == Pow2(w) - 1;
    assert IsNegative(w, y);
    NegativeIsLarge(w, y, x);
  }

  /** Every negative number is found greater than any number of a narrower unsigned type. */
  lemma NegativeAboveUnsigned(w: nat, lhs: seq<nat>, rhs: seq<nat>)
    requires w > 0 && IsWide(w, lhs) && IsWide(w, rhs) && IsNegative(w, lhs) && |rhs| < |lhs|
    ensures Reading(w, true, lhs) < 0 <= Reading(w, false, rhs) && FoundGreater(w, true, lhs, false, rhs)
  {
    ReadingRange(w, lhs);
    NegativeIsLarge(w, lhs, rhs);
  }

  /** Every negative number is found equal to a positive one of each wider type. */
  lemma NegativeEqualsPositive(w: nat, x: seq<nat>, n: nat)
    requires w > 0 && IsWide(w, x) && IsNegative(w, x) && |x| < n
    ensures var y := Padded(x, n, 0);
            IsWide(w, y) && Reading(w, true, x) < 0 < Reading(w, true, y) && Number(w, y) == Number(w, x)
  {
    ReadingRange(w, x);
    PaddedNumber(w, x, n);
    var y := Padded(x, n, 0);
    assert y[n - 1] == 0;
  }

  // ----- the operators

  /** Whether the common type of two wide integers is signed: the wider one decides, and of the same width both
      must be. */
  predicate CommonSigned(lhsSigned: bool, n: nat, rhsSigned: bool, m: nat) {
    if n == m then lhsSigned && rhsSigned else if m < n then lhsSigned else rhsSigned
  }

  function Widest(n: nat, m: nat): nat { if n < m then m else n }

  lemma ConvertedSign(w: nat, signed: bool, x: seq<nat>, n: nat)
    requires w > 0 && IsWide(w, x) && |x| <= n
    ensures IsNegative(w, Converted(w, signed, x, n)) <==>
              if |x| == n then IsNegative(w, x) else signed && IsNegative(w, x)
  {
    var y := Converted(w, signed, x, n);
    Pow2Monotone(w - 1, w);
    assert y[n - 1] == if |x| == n then x[n - 1] else SignFill(w, signed, x);
  }

  /** What a number is read as in a type at least as wide: itself, where the type has room for it, and otherwise
      its residue. */
  lemma ConvertedReading(w: nat, signed: bool, x: seq<nat>, n: nat)
    requires w > 0 && IsWide(w, x) && |x| <= n
    ensures var v, y := Reading(w, signed, x), Converted(w, signed, x, n);
            IsWide(w, y) && |y| == n && Reading(w, false, y) == v % Modulus(w, n)
            && (v >= 0 ==> v % Modulus(w, n) == v) && (v < 0 ==> v % Modulus(w, n) == v + Modulus(w, n))
            && (signed || |x| < n || !IsNegative(w, x) ==> Reading(w, true, y) == v)
  {
    ConvertedNumber(w, signed, x, n);
    ConvertedSign(w, signed, x, n);
    NumberBound(w, x);
    ReadingRange(w, x);
    ModulusDivides(w, |x|, n);
    MulMonotone(Modulus(w, |x|), 1, Modulus(w, n - |x|));
    var v, m := Reading(w, signed, x), Modulus(w, n);
    if v >= 0 { DivModUnique(v, m, 0, v); } else { DivModUnique(v, m, -1, v + m); }
  }

  /** Comparison of any two wide integers, in their common type. */
  method OperatorGreater(w: nat, lhsSigned: bool, lhs: seq<nat>, rhsSigned: bool, rhs: seq<nat>) returns (found: bool)
    requires w > 0 && IsWide(w, lhs) && IsWide(w, rhs)
    ensures var l, r, m := Reading(w, lhsSigned, lhs), Reading(w, rhsSigned, rhs), Modulus(w, |rhs|);
            (found <==> l > r) <==>
              (l >= 0 || (rhsSigned && (r >= 0 || |lhs| <= |rhs| || l > r))
               || (!rhsSigned && |lhs| <= |rhs| && l + m <= r))
  {
    var n, signed := Widest(|lhs|, |rhs|), CommonSigned(lhsSigned, |lhs|, rhsSigned, |rhs|);
    ConvertedReading(w, lhsSigned, lhs, n);
    ReadingRange(w, lhs);
    var converted := FromWide(w, n, lhsSigned, lhs);
    found := Greater(w, signed, converted, rhsSigned, rhs);
    GreaterIsRight(w, signed, converted, rhsSigned, rhs);
    ReadingRange(w, rhs);
  }

  /** Equality of any two wide integers, in their common type. */
  method OperatorEqual(w: nat, lhsSigned: bool, lhs: seq<nat>, rhsSigned: bool, rhs: seq<nat>) returns (found: bool)
    requires w > 0 && IsWide(w, lhs) && IsWide(w, rhs)
    ensures var l, r, m := Reading(w, lhsSigned, lhs), Reading(w, rhsSigned, rhs), Modulus(w, |rhs|);
            (found <==> l == r) <==>
              (l == r ==> l >= 0 || |lhs| <= |rhs|) && (r < 0 ==> l != r + m)
              && (l < 0 && |lhs| <= |rhs| ==> r != l + m)
  {
    var n, signed := Widest(|lhs|, |rhs|), CommonSigned(lhsSigned, |lhs|, rhsSigned, |rhs|);
    ConvertedReading(w, lhsSigned, lhs, n);
    var converted := FromWide(w, n, lhsSigned, lhs);
    found := Equal(w, converted, rhs);
    EqualIsRight(w, signed, converted, rhsSigned, rhs);
    ReadingRange(w, lhs);
    ReadingRange(w, rhs);
  }
}

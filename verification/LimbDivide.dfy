/** Division of wide integers by shifting and subtracting, and its signed forms. */
module LimbDivide {
  import opened Words
  import opened LimbInteger
  import opened LimbCompare
  import opened LimbBits
  import opened LimbShift

  /** The 128-bit division of the compiler traps on zero, before the test that reports it. */
  datatype Outcome = Divided(quotient: seq<nat>, remainder: seq<nat>) | DivisionByZero | Trap

  /** A small number in `n` limbs. */
  function Small(n: nat, v: nat): seq<nat> { seq(n, i => if i == 0 then v else 0) }

  lemma SmallIsNumber(w: nat, n: nat, v: nat)
    requires n > 0 && v < Pow2(w)
    ensures IsWide(w, Small(n, v)) && |Small(n, v)| == n && Number(w, Small(n, v)) == v
  {
    var x := Small(n, v);
    ZeroFilledValue(Pow2(w), x, 1, n);
    assert Value(Pow2(w), x, 1) == Value(Pow2(w), x, 0) + x[0] * Power(Pow2(w), 0);
  }

  lemma HalfModulus(w: nat, n: nat)
    requires w > 0 && n > 0
    ensures w * n > 0 && Modulus(w, n) == 2 * Pow2(w * n - 1)
  {
    MulMonotone(w, 1, n);
    PowerOfPow2(w, n);
  }

  /** The top bit of a number below `2h`. */
  lemma TopBit(v: nat, h: nat)
    requires h > 0 && v < 2 * h
    ensures v / h == if v < h then 0 else 1
  {
  }

  /** Whether the denominator can be doubled: it does not exceed the numerator and its top bit is clear. */
  method CanDouble(w: nat, denominator: seq<nat>, numerator: seq<nat>) returns (r: bool)
    requires w > 2 && IsWide(w, denominator) && IsWide(w, numerator) && |denominator| == |numerator|
    ensures r <==> Number(w, denominator) <= Number(w, numerator)
                   && 2 * Number(w, denominator) < Modulus(w, |denominator|)
  {
    var n := |denominator|;
    Pow2Monotone(1, w);
    HalfModulus(w, n);
    SmallIsNumber(w, n, 1);
    NumberBound(w, denominator);
    TopBit(Number(w, denominator), Pow2(w * n - 1));
    var greater := Greater(w, false, denominator, false, numerator);
    var top := ShiftRight(w, false, denominator, w * n - 1);
    var bit := Amp(w, top, Small(n, 1));
    assert Pow2(1) == 2;
    AndMask(Number(w, top), 1);
    var clear := IsZero(w, bit);
    return !greater && clear;
  }

  /** Doubling without overflow. */
  method Double(w: nat, x: seq<nat>) returns (res: seq<nat>)
    requires w > 2 && IsWide(w, x) && 2 * Number(w, x) < Modulus(w, |x|)
    ensures IsWide(w, res) && |res| == |x| && Number(w, res) == 2 * Number(w, x)
  {
    MulMonotone(w, 1, |x|);
    res := ShiftLeft(w, x, 1);
    assert Pow2(1) == 2;
    DivModUnique(2 * Number(w, x), Modulus(w, |x|), 0, 2 * Number(w, x));
  }

  method Halve(w: nat, x: seq<nat>) returns (res: seq<nat>)
    requires w > 2 && IsWide(w, x)
    ensures IsWide(w, res) && |res| == |x| && Number(w, res) == Number(w, x) / 2
  {
    MulMonotone(w, 1, |x|);
    res := ShiftRight(w, false, x, 1);
    assert Pow2(1) == 2;
  }

  lemma ScaledBit(d: nat, p: nat)
    requires d > 0
    ensures p <= d * p && d * (2 * p) == 2 * (d * p)
  {
  }

  /** The denominator as far up as the numerator needs, and the bit that counts it. */
  method ScaleUp(w: nat, numerator: seq<nat>, denominator: seq<nat>)
      returns (scaled: seq<nat>, x: seq<nat>, ghost t: nat)
    requires w > 2 && IsWide(w, numerator) && IsWide(w, denominator) && |numerator| == |denominator|
    requires Number(w, denominator) > 0
    ensures IsWide(w, scaled) && IsWide(w, x) && |scaled| == |x| == |numerator|
    ensures Number(w, x) == Pow2(t) && Number(w, scaled) == Number(w, denominator) * Pow2(t)
    ensures Number(w, numerator) < 2 * Number(w, scaled)
  {
    var n := |numerator|;
    ghost var d := Number(w, denominator);
    Pow2Monotone(1, w);
    SmallIsNumber(w, n, 1);
    NumberBound(w, numerator);
    scaled, x, t := denominator, Small(n, 1), 0;
    var more := CanDouble(w, scaled, numerator);
    while more
      invariant IsWide(w, scaled) && IsWide(w, x) && |scaled| == |x| == n
      invariant Number(w, x) == Pow2(t) && Number(w, scaled) == d * Pow2(t)
      invariant more <==> Number(w, scaled) <= Number(w, numerator) && 2 * Number(w, scaled) < Modulus(w, n)
      decreases Modulus(w, n) - Number(w, scaled)
    {
      ScaledBit(d, Pow2(t));
      x := Double(w, x);
      scaled := Double(w, scaled);
      t := t + 1;
      more := CanDouble(w, scaled, numerator);
    }
  }

  /** The numbers in the second loop: bit `t` of the quotient is the next to be decided. */
  predicate DividingNumbers(num: nat, d: nat, rest: nat, den: nat, x: nat, quo: nat, t: int, k: nat) {
    && t >= -1
    && quo == k * Pow2(t + 1)
    && num == quo * d + rest
    && if t >= 0 then x == Pow2(t) && den == d * Pow2(t) && rest < 2 * den else x == 0 && rest < d
  }

  predicate Dividing(w: nat, n: nat, num: nat, d: nat, numerator: seq<nat>, denominator: seq<nat>, x: seq<nat>,
                     quotient: seq<nat>, t: int, k: nat) {
    && IsWide(w, numerator) && IsWide(w, denominator) && IsWide(w, x) && IsWide(w, quotient)
    && |numerator| == |denominator| == |x| == |quotient| == n
    && DividingNumbers(num, d, Number(w, numerator), Number(w, denominator), Number(w, x), Number(w, quotient), t, k)
  }

  lemma SetBit(k: nat, t: nat)
    ensures Or(k * Pow2(t + 1), Pow2(t)) == k * Pow2(t + 1) + Pow2(t) == (2 * k + 1) * Pow2(t)
    ensures k * Pow2(t + 1) == (2 * k) * Pow2(t)
  {
    OrDisjoint(k, Pow2(t), t + 1);
    Associate(k, 2, Pow2(t));
    Distribute(Pow2(t), 2 * k, 1);
  }

  lemma HalfOf(v: nat, d: nat, t: nat)
    requires v == d * Pow2(t)
    ensures t > 0 ==> v / 2 == d * Pow2(t - 1)
    ensures t == 0 ==> v == d
  {
  }

  lemma StepNumbers(num: nat, d: nat, rest: nat, den: nat, x: nat, quo: nat, t: nat, k: nat, rest': nat, quo': nat)
    requires DividingNumbers(num, d, rest, den, x, quo, t, k)
    requires if den <= rest then rest' == rest - den && quo' == Or(quo, x) else rest' == rest && quo' == quo
    ensures DividingNumbers(num, d, rest', den / 2, x / 2, quo', t - 1, if den <= rest then 2 * k + 1 else 2 * k)
  {
    SetBit(k, t);
    Distribute(d, quo, Pow2(t));
    HalfOf(x, 1, t);
    HalfOf(den, d, t);
  }

  /** One bit of the quotient. */
  method DivideStep(w: nat, numerator: seq<nat>, denominator: seq<nat>, x: seq<nat>, quotient: seq<nat>,
                    ghost num: nat, ghost d: nat, ghost t: nat, ghost k: nat)
      returns (num': seq<nat>, den': seq<nat>, x': seq<nat>, quo': seq<nat>, ghost k': nat)
    requires w > 2 && Dividing(w, |x|, num, d, numerator, denominator, x, quotient, t, k)
    ensures Dividing(w, |x|, num, d, num', den', x', quo', t - 1, k')
  {
    num', quo', k' := numerator, quotient, 2 * k;
    var greater := Greater(w, false, denominator, false, numerator);
    if !greater {
      num' := Subtract(w, numerator, denominator);
      quo' := Pipe(w, quotient, x);
      k' := 2 * k + 1;
    }
    x' := Halve(w, x);
    den' := Halve(w, denominator);
    StepNumbers(num, d, Number(w, numerator), Number(w, denominator), Number(w, x), Number(w, quotient), t, k,
                Number(w, num'), Number(w, quo'));
  }

  /** Subtraction without underflow. */
  method Subtract(w: nat, x: seq<nat>, y: seq<nat>) returns (res: seq<nat>)
    requires w > 0 && IsWide(w, x) && IsWide(w, y) && |x| == |y| && Number(w, y) <= Number(w, x)
    ensures IsWide(w, res) && |res| == |x| && Number(w, res) == Number(w, x) - Number(w, y)
  {
    ghost var rest := Number(w, x) - Number(w, y);
    NumberBound(w, x);
    DivModUnique(rest, Modulus(w, |x|), 0, rest);
    res := Minus(w, x, y);
  }

  /** Two limbs are divided by the compiler's 128-bit integers. */
  predicate Native(w: nat, n: nat) { w == 64 && n == 2 }

  /** What division by zero comes to. */
  function ByZero(w: nat, n: nat): Outcome { if Native(w, n) then Trap else DivisionByZero }

  method DivideNative(w: nat, numerator: seq<nat>, denominator: seq<nat>) returns (r: Outcome)
    requires IsWide(w, numerator) && IsWide(w, denominator) && |numerator| == |denominator| == 2
    ensures r.Trap? <==> Number(w, denominator) == 0
    ensures !r.Trap? ==> DividedBy(w, numerator, denominator, r)
  {
    TwoLimbs(w, numerator);
    TwoLimbs(w, denominator);
    var a := Times(numerator[1], Pow2(w)) + numerator[0];
    var b := Times(denominator[1], Pow2(w)) + denominator[0];
    if b == 0 { return Trap; }
    var c := Quotient(a, b);
    QuotientRange(a, b);
    NumberBound(w, numerator);
    var quotient := SplitNative(w, c);
    var remainder := SplitNative(w, a - Times(b, c));
    r := Divided(quotient, remainder);
  }

  /** The outcome holds quotient and remainder. */
  predicate DividedBy(w: nat, numerator: seq<nat>, denominator: seq<nat>, r: Outcome) {
    && Number(w, denominator) > 0 && r.Divided?
    && IsWide(w, r.quotient) && IsWide(w, r.remainder)
    && |r.quotient| == |r.remainder| == |numerator|
    && Number(w, r.quotient) == Number(w, numerator) / Number(w, denominator)
    && Number(w, r.remainder) == Number(w, numerator) % Number(w, denominator)
  }

  /** Quotient and remainder. */
  method Divide(w: nat, numerator: seq<nat>, denominator: seq<nat>) returns (r: Outcome)
    requires w > 2 && IsWide(w, numerator) && IsWide(w, denominator) && |numerator| == |denominator|
    ensures if Number(w, denominator) == 0 then r == if w == 64 && |numerator| == 2 then Trap else DivisionByZero
            else DividedBy(w, numerator, denominator, r)
  {
    var n := |numerator|;
    if Native(w, n) {
      r := DivideNative(w, numerator, denominator);
      return;
    }
    ghost var num, d := Number(w, numerator), Number(w, denominator);
    var zero := IsZero(w, denominator);
    if zero { return DivisionByZero; }
    SmallIsNumber(w, n, 0);
    var quotient := Small(n, 0);
    var den, x, top := ScaleUp(w, numerator, denominator);
    var rest := numerator;
    ghost var t: int, k: nat := top, 0;
    var done := IsZero(w, x);
    while !done
      invariant Dividing(w, n, num, d, rest, den, x, quotient, t, k)
      invariant done <==> Number(w, x) == 0
      decreases t
    {
      rest, den, x, quotient, k := DivideStep(w, rest, den, x, quotient, num, d, t, k);
      t := t - 1;
      done := IsZero(w, x);
    }
    DivModUnique(num, d, Number(w, quotient), Number(w, rest));
    return Divided(quotient, rest);
  }

  // ----- signs

  /** A residue read back as the number it came from. */
  lemma ReadingOfResidue(w: nat, signed: bool, x: seq<nat>, v: int)
    requires w > 0 && IsWide(w, x) && Number(w, x) == v % Modulus(w, |x|)
    requires if signed then -1 * Modulus(w, |x|) <= 2 * v < Modulus(w, |x|) else 0 <= v < Modulus(w, |x|)
    ensures Reading(w, signed, x) == v
  {
    var m := Modulus(w, |x|);
    ReadingRange(w, x);
    if v >= 0 { DivModUnique(v, m, 0, v); } else { DivModUnique(v, m, -1, v + m); }
  }

  /** The quotient of magnitudes is no larger than the dividend. */
  lemma QuotientRange(l: nat, r: nat)
    requires r > 0
    ensures 0 <= l / r <= l && (r > 1 && l > 0 ==> l / r < l)
    ensures 0 <= l % r < r && l == r * (l / r) + l % r
  {
    DivAtLeast(l, r, 0);
    DivAtLeast(l, r, l + 1);
    DivAtLeast(l, r, l);
    MulMonotone(l, 1, r);
    if r > 1 { MulMonotone(l, 2, r); }
  }

  lemma TruncDivMagnitude(l: int, r: int)
    requires r != 0
    ensures var q := Abs(l) / Abs(r);
            TruncDiv(l, r) == if (l < 0) != (r < 0) then 0 - q else q
  {
  }

  /** The right operand as the type of the left one reads it. */
  function Divisor(w: nat, lhsSigned: bool, n: nat, rhsSigned: bool, rhs: seq<nat>): int
    requires w > 0 && n > 0 && |rhs| > 0
  {
    Reading(w, lhsSigned, Converted(w, rhsSigned, rhs, n))
  }

  /** An unsigned right operand of the same width that becomes negative in the type of the left one: its
      magnitude is taken and its sign is not. */
  predicate SignOverlooked(w: nat, lhsSigned: bool, n: nat, rhsSigned: bool, rhs: seq<nat>)
    requires w > 0 && |rhs| > 0
  {
    lhsSigned && !rhsSigned && |rhs| == n && IsNegative(w, rhs)
  }

  /** The number divided by is the right operand itself, modulo the width of the left one; of a signed type
      it is exactly that, unless its sign is overlooked. */
  lemma DivisorIs(w: nat, lhsSigned: bool, n: nat, rhsSigned: bool, rhs: seq<nat>)
    requires w > 0 && n > 0 && IsWide(w, rhs) && |rhs| <= n
    ensures var r, d := Reading(w, rhsSigned, rhs), Divisor(w, lhsSigned, n, rhsSigned, rhs);
            && (d == 0 <==> r == 0)
            && d % Modulus(w, n) == r % Modulus(w, n)
            && (!lhsSigned ==> d == r % Modulus(w, n))
            && (lhsSigned && !SignOverlooked(w, lhsSigned, n, rhsSigned, rhs) ==> d == r)
  {
    ConvertedReading(w, rhsSigned, rhs, n);
    ReadingRange(w, Converted(w, rhsSigned, rhs, n));
    var r, m := Reading(w, rhsSigned, rhs), Modulus(w, n);
    ModShift(r, m, 1);
    ModShift(r % m, m, -1);
    DivModForm(r, m);
  }

  /** Division towards zero, by the right operand in the type of the left one. The least number divided by
      minus one wraps to itself; nothing else does. */
  method OperatorSlash(w: nat, lhsSigned: bool, lhs: seq<nat>, rhsSigned: bool, rhs: seq<nat>) returns (r: Outcome)
    requires w > 2 && IsWide(w, lhs) && IsWide(w, rhs) && |rhs| <= |lhs|
    ensures Reading(w, rhsSigned, rhs) == 0 ==> r == ByZero(w, |lhs|)
    ensures var a, b := Reading(w, lhsSigned, lhs), Divisor(w, lhsSigned, |lhs|, rhsSigned, rhs);
            Reading(w, rhsSigned, rhs) != 0 ==>
              b != 0 && r.Divided? && IsWide(w, r.quotient) && |r.quotient| == |lhs|
              && Number(w, r.quotient)
                 == TruncDiv(a, if SignOverlooked(w, lhsSigned, |lhs|, rhsSigned, rhs) then 0 - b else b)
                    % Modulus(w, |lhs|)
  {
    ghost var a, b := Reading(w, lhsSigned, lhs), Divisor(w, lhsSigned, |lhs|, rhsSigned, rhs);
    DivisorIs(w, lhsSigned, |lhs|, rhsSigned, rhs);
    ConvertedNumber(w, rhsSigned, rhs, |lhs|);
    ConvertedSign(w, rhsSigned, rhs, |lhs|);
    ReadingRange(w, lhs);
    var numerator := MakePositive(w, lhsSigned, lhs);
    var converted := FromWide(w, |lhs|, rhsSigned, rhs);
    ReadingRange(w, converted);
    var denominator := MakePositive(w, lhsSigned, converted);
    r := Divide(w, numerator, denominator);
    if r.Divided? {
      TruncDivMagnitude(a, b);
      TruncDivMagnitude(a, 0 - b);
      if lhsSigned && (rhsSigned && IsNegative(w, rhs)) != IsNegative(w, lhs) {
        var q := UnaryMinus(w, r.quotient);
        r := Divided(q, r.remainder);
      } else {
        NumberBound(w, r.quotient);
        DivModUnique(Number(w, r.quotient), Modulus(w, |lhs|), 0, Number(w, r.quotient));
      }
    }
  }

  /** The remainder, with the sign of the dividend. */
  method OperatorPercent(w: nat, lhsSigned: bool, lhs: seq<nat>, rhsSigned: bool, rhs: seq<nat>) returns (r: Outcome)
    requires w > 2 && IsWide(w, lhs) && IsWide(w, rhs) && |rhs| <= |lhs|
    ensures Reading(w, rhsSigned, rhs) == 0 ==> r == ByZero(w, |lhs|)
    ensures var a, b := Reading(w, lhsSigned, lhs), Divisor(w, lhsSigned, |lhs|, rhsSigned, rhs);
            Reading(w, rhsSigned, rhs) != 0 ==>
              b != 0 && r.Divided? && IsWide(w, r.remainder) && |r.remainder| == |lhs|
              && Reading(w, lhsSigned, r.remainder) == a - b * TruncDiv(a, b)
  {
    ghost var a, b := Reading(w, lhsSigned, lhs), Divisor(w, lhsSigned, |lhs|, rhsSigned, rhs);
    DivisorIs(w, lhsSigned, |lhs|, rhsSigned, rhs);
    ConvertedNumber(w, rhsSigned, rhs, |lhs|);
    ReadingRange(w, lhs);
    var numerator := MakePositive(w, lhsSigned, lhs);
    var converted := FromWide(w, |lhs|, rhsSigned, rhs);
    ReadingRange(w, converted);
    NumberBound(w, converted);
    NumberBound(w, lhs);
    var denominator := MakePositive(w, lhsSigned, converted);
    r := Divide(w, numerator, denominator);
    if r.Divided? {
      RemainderSign(a, b, Modulus(w, |lhs|), lhsSigned);
      ghost var v := a - b * TruncDiv(a, b);
      if lhsSigned && IsNegative(w, lhs) {
        var m := UnaryMinus(w, r.remainder);
        r := Divided(r.quotient, m);
      } else {
        DivModUnique(v, Modulus(w, |lhs|), 0, v);
      }
      ReadingOfResidue(w, lhsSigned, r.remainder, v);
    }
  }

  lemma Negations(x: int, y: int)
    ensures (0 - x) * y == 0 - x * y && x * (0 - y) == 0 - x * y
  {
  }

  /** The part of the dividend that the truncated quotient accounts for. */
  lemma TruncatedPart(a: int, b: int)
    requires b != 0
    ensures b * TruncDiv(a, b) == if a < 0 then 0 - Abs(b) * (Abs(a) / Abs(b)) else Abs(b) * (Abs(a) / Abs(b))
  {
    var q := Abs(a) / Abs(b);
    TruncDivMagnitude(a, b);
    Negations(b, q);
  }

  lemma RemainderSign(a: int, b: int, m: nat, signed: bool)
    requires b != 0
    requires if signed then -1 * m <= 2 * a < m && -1 * m <= 2 * b < m else 0 <= a < m && 0 <= b < m
    ensures var r := Abs(a) % Abs(b);
            a - b * TruncDiv(a, b) == if a < 0 then 0 - r else r
    ensures var v := a - b * TruncDiv(a, b); if signed then -1 * m <= 2 * v < m else 0 <= v < m
  {
    TruncatedPart(a, b);
    QuotientRange(Abs(a), Abs(b));
    MulMonotone(Abs(b), 0, Abs(a) / Abs(b));
  }

  /** What the signed quotient reads as. */
  lemma SlashReading(w: nat, x: seq<nat>, a: int, b: int)
    requires w > 0 && IsWide(w, x) && b != 0
    requires -1 * Modulus(w, |x|) <= 2 * a < Modulus(w, |x|)
    requires Number(w, x) == TruncDiv(a, b) % Modulus(w, |x|)
    ensures Reading(w, true, x)
         == if 2 * a == -1 * Modulus(w, |x|) && b == -1 then a else TruncDiv(a, b)
  {
    TruncDivMagnitude(a, b);
    QuotientRange(Abs(a), Abs(b));
    var m: int := Modulus(w, |x|);
    if 2 * a == -1 * m && b == -1 {
      ModShift(a, m, 1);
      ReadingOfResidue(w, true, x, a);
    } else {
      ReadingOfResidue(w, true, x, TruncDiv(a, b));
    }
  }

  // ----- the sign that is overlooked

  lemma SmallQuotient(l: nat, d: nat)
    requires d > 0
    ensures l / d <= l && (l / d == 0 <==> l < d) && (d <= l < 2 * d ==> l / d == 1)
  {
    QuotientRange(l, d);
    DivAtLeast(l, d, 1);
    DivAtLeast(l, d, 2);
  }

  /** Magnitudes below the modulus, with the same sign, differ modulo it. */
  lemma SignedResidues(q: nat, other: nat, negative: bool, m: nat)
    requires q < m && other < m
    ensures (if negative then 0 - q else q) % m == (if negative then 0 - other else other) % m <==> q == other
  {
    SignedResidue(q, negative, m);
    SignedResidue(other, negative, m);
  }

  lemma SignedResidue(q: nat, negative: bool, m: nat)
    requires q < m
    ensures (if negative then 0 - q else q) % m == if negative && q > 0 then m - q else q
  {
    if negative && q > 0 { DivModUnique(0 - q, m, -1, m - q); } else { DivModUnique(q, m, 0, q); }
  }

  lemma OverlookedMagnitude(l: nat, r: nat, m: nat)
    requires 2 * l <= m <= 2 * r < 2 * m
    ensures l / (m - r) < m && l / r < m
    ensures l / (m - r) == l / r <==> l + r < m || (2 * l == m && 2 * r == m)
  {
    SmallQuotient(l, m - r);
    SmallQuotient(l, r);
  }

  /** A quotient of magnitudes as a truncated one: positive divisors keep the sign of the dividend. */
  lemma TruncatedMagnitude(a: int, d: int) returns (t: int, q: nat)
    requires d > 0
    ensures t == TruncDiv(a, d) && q == Abs(a) / d && t == if a < 0 then 0 - q else q
  {
    TruncDivMagnitude(a, d);
    t, q := TruncDiv(a, d), Abs(a) / d;
  }

  lemma OverlookedQuotient(a: int, r: int, m: int) returns (found: int, right: int)
    requires m > 0 && -1 * m <= 2 * a < m && m <= 2 * r < 2 * m
    ensures found == TruncDiv(a, m - r) && right == TruncDiv(a, r)
    ensures found % m == right % m <==> Abs(a) + r < m || (2 * a == -1 * m && 2 * r == m)
  {
    OverlookedMagnitude(Abs(a), r, m);
    var q, other;
    found, q := TruncatedMagnitude(a, m - r);
    right, other := TruncatedMagnitude(a, r);
    SignedResidues(q, other, a < 0, m);
  }

  /** When the quotient is right although the sign was overlooked: the dividend is short of the magnitude taken for
      the divisor, so that the quotient is zero either way, or the least number is divided by its own magnitude. */
  lemma OverlookedIff(w: nat, lhs: seq<nat>, rhs: seq<nat>)
    requires w > 0 && IsWide(w, lhs) && IsWide(w, rhs) && |lhs| == |rhs| && IsNegative(w, rhs)
    ensures var a, r, m := Reading(w, true, lhs), Reading(w, false, rhs), Modulus(w, |lhs|);
            var b := Divisor(w, true, |lhs|, false, rhs);
            && SignOverlooked(w, true, |lhs|, false, rhs) && b < 0 < r
            && (TruncDiv(a, 0 - b) % m == TruncDiv(a, r) % m <==>
                  Abs(a) + r < m || (2 * a == -1 * m && 2 * r == m))
  {
    ReadingRange(w, lhs);
    ReadingRange(w, rhs);
    NumberBound(w, rhs);
    assert Converted(w, false, rhs, |lhs|) == rhs;
    var found, right := OverlookedQuotient(Reading(w, true, lhs), Reading(w, false, rhs), Modulus(w, |lhs|));
  }

  /** One, signed, by the largest unsigned number of the same width: one is found where zero is right. */
  lemma OneByLargest(w: nat, n: nat, one: seq<nat>, ones: seq<nat>)
    requires w > 2 && n > 0 && one == Small(n, 1) && ones == Padded([], n, Pow2(w) - 1)
    ensures IsWide(w, one) && IsWide(w, ones) && |one| == n && SignOverlooked(w, true, n, false, ones)
    ensures Reading(w, true, one) == 1
    ensures var b, r := Divisor(w, true, n, false, ones), Reading(w, false, ones);
            b == -1 && r == Modulus(w, n) - 1 > 1 && TruncDiv(1, 0 - b) == 1 && TruncDiv(1, r) == 0
  {
    assert IsWide(w, one) && |one| == n && Reading(w, true, one) == 1 by {
      Pow2Monotone(1, w - 1);
      SmallIsNumber(w, n, 1);
      assert !IsNegative(w, one);
    }
    LargestNumber(w, ones, n);
    assert Divisor(w, true, n, false, ones) == -1 by { assert Converted(w, false, ones, n) == ones; }
    QuotientOfOne(Modulus(w, n) - 1);
  }

  lemma QuotientOfOne(r: int)
    requires r > 1
    ensures TruncDiv(1, r) == 0
  {
    DivModUnique(1, r, 0, 1);
  }

  // ----- the operators

  /** The sign is never overlooked in the common type of two operands. */
  lemma CommonKeepsSign(w: nat, lhsSigned: bool, n: nat, rhsSigned: bool, rhs: seq<nat>)
    requires w > 0 && IsWide(w, rhs) && n > 0
    ensures var m, signed := Widest(n, |rhs|), CommonSigned(lhsSigned, n, rhsSigned, |rhs|);
            var r, d := Reading(w, rhsSigned, rhs), Divisor(w, signed, m, rhsSigned, rhs);
            && !SignOverlooked(w, signed, m, rhsSigned, rhs)
            && d == (if signed then r else r % Modulus(w, m)) && (d == 0 <==> r == 0)
  {
    var m, signed := Widest(n, |rhs|), CommonSigned(lhsSigned, n, rhsSigned, |rhs|);
    DivisorIs(w, signed, m, rhsSigned, rhs);
  }

  /** Division of any two wide integers: towards zero, of the numbers themselves if their common type is signed and
      of their residues if not. */
  method CommonSlash(w: nat, lhsSigned: bool, lhs: seq<nat>, rhsSigned: bool, rhs: seq<nat>) returns (out: Outcome)
    requires w > 2 && IsWide(w, lhs) && IsWide(w, rhs)
    ensures var n, signed := Widest(|lhs|, |rhs|), CommonSigned(lhsSigned, |lhs|, rhsSigned, |rhs|);
            var l, r, m := Reading(w, lhsSigned, lhs), Reading(w, rhsSigned, rhs), Modulus(w, n);
            var a, b := if signed then l else l % m, if signed then r else r % m;
            if r == 0 then out == ByZero(w, n)
            else b != 0 && out.Divided? && IsWide(w, out.quotient) && |out.quotient| == n
                 && Number(w, out.quotient) == TruncDiv(a, b) % m
  {
    var n, signed := Widest(|lhs|, |rhs|), CommonSigned(lhsSigned, |lhs|, rhsSigned, |rhs|);
    ConvertedReading(w, lhsSigned, lhs, n);
    CommonKeepsSign(w, lhsSigned, |lhs|, rhsSigned, rhs);
    var converted := FromWide(w, n, lhsSigned, lhs);
    out := OperatorSlash(w, signed, converted, rhsSigned, rhs);
  }

  /** And the remainder that goes with it. */
  method CommonPercent(w: nat, lhsSigned: bool, lhs: seq<nat>, rhsSigned: bool, rhs: seq<nat>) returns (out: Outcome)
    requires w > 2 && IsWide(w, lhs) && IsWide(w, rhs)
    ensures var n, signed := Widest(|lhs|, |rhs|), CommonSigned(lhsSigned, |lhs|, rhsSigned, |rhs|);
            var l, r, m := Reading(w, lhsSigned, lhs), Reading(w, rhsSigned, rhs), Modulus(w, n);
            var a, b := if signed then l else l % m, if signed then r else r % m;
            if r == 0 then out == ByZero(w, n)
            else b != 0 && out.Divided? && IsWide(w, out.remainder) && |out.remainder| == n
                 && Reading(w, signed, out.remainder) == a - b * TruncDiv(a, b)
  {
    var n, signed := Widest(|lhs|, |rhs|), CommonSigned(lhsSigned, |lhs|, rhsSigned, |rhs|);
    ConvertedReading(w, lhsSigned, lhs, n);
    CommonKeepsSign(w, lhsSigned, |lhs|, rhsSigned, rhs);
    var converted := FromWide(w, n, lhsSigned, lhs);
    out := OperatorPercent(w, signed, converted, rhsSigned, rhs);
  }
}

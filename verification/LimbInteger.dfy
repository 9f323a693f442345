/** Wide integers: a fixed number of `w`-bit limbs, least significant first. Addition and subtraction
    with their two passes of carries, and the reading of a number with its sign. */
module LimbInteger {
  import opened Words

  // ----- the number a sequence of limbs stands for

  /** The number in the `k` low digits, in base `b`. */
  function Value(b: nat, x: seq<nat>, k: nat): nat
    requires k <= |x|
  {
    if k == 0 then 0 else Value(b, x, k - 1) + x[k - 1] * Power(b, k - 1)
  }

  predicate IsWide(w: nat, x: seq<nat>) { |x| > 0 && forall i :: 0 <= i < |x| ==> x[i] < Pow2(w) }

  /** The unsigned reading. */
  function Number(w: nat, x: seq<nat>): nat { Value(Pow2(w), x, |x|) }

  /** One more than the largest number of `n` limbs. */
  function Modulus(w: nat, n: nat): (m: nat)
    ensures m > 0
  {
    Power(Pow2(w), n)
  }

  lemma {:induction false} ValueBound(b: nat, x: seq<nat>, k: nat)
    requires k <= |x| && forall i :: 0 <= i < k ==> x[i] < b
    ensures Value(b, x, k) < Power(b, k)
  {
    if k > 0 {
      ValueBound(b, x, k - 1);
      TopDigit(Value(b, x, k - 1), Power(b, k - 1), x[k - 1], b);
    }
  }

  lemma TopDigit(v: nat, p: nat, d: nat, b: nat)
    requires v < p && d < b
    ensures v + d * p < b * p
  {
    MulMonotone(p, d + 1, b);
    Distribute(p, d, 1);
  }

  lemma {:induction false} ValueAgrees(b: nat, x: seq<nat>, y: seq<nat>, k: nat)
    requires k <= |x| && k <= |y| && forall i :: 0 <= i < k ==> x[i] == y[i]
    ensures Value(b, x, k) == Value(b, y, k)
  {
    if k > 0 { ValueAgrees(b, x, y, k - 1); }
  }

  lemma {:induction false} ValueUpdate(b: nat, x: seq<nat>, i: nat, v: nat, k: nat)
    requires i < k <= |x|
    ensures Value(b, x[i := v], k) == Value(b, x, k) + (v - x[i]) * Power(b, i)
  {
    if i == k - 1 {
      ValueAgrees(b, x, x[i := v], k - 1);
      Distribute(Power(b, i), v - x[i], x[i]);
    } else {
      ValueUpdate(b, x, i, v, k - 1);
    }
  }

  /** The limbs above `j` weigh a multiple of `b^j`. */
  lemma {:induction false} HighPart(b: nat, x: seq<nat>, j: nat, k: nat) returns (h: nat)
    requires j <= k <= |x|
    ensures Value(b, x, k) == Value(b, x, j) + h * Power(b, j)
    decreases k
  {
    if j == k {
      h := 0;
    } else {
      var h' := HighPart(b, x, j, k - 1);
      var p := Power(b, k - 1 - j);
      PowerAdd(b, k - 1 - j, j);
      Associate(x[k - 1], p, Power(b, j));
      Distribute(Power(b, j), h', x[k - 1] * p);
      h := h' + x[k - 1] * p;
    }
  }

  lemma {:induction false} ZeroFilledValue(b: nat, y: seq<nat>, m: nat, k: nat)
    requires m <= k <= |y| && forall i :: m <= i < k ==> y[i] == 0
    ensures Value(b, y, k) == Value(b, y, m)
    decreases k
  {
    if m < k { ZeroFilledValue(b, y, m, k - 1); }
  }

  lemma NumberBound(w: nat, x: seq<nat>)
    requires IsWide(w, x)
    ensures Number(w, x) < Modulus(w, |x|)
  {
    ValueBound(Pow2(w), x, |x|);
  }

  lemma Residue(t: int, m: nat, q: int, v: nat)
    requires v < m && t == v + q * m
    ensures t % m == v
  {
    DivModUnique(t, m, q, v);
  }

  // ----- the compiler's double words

  lemma TwoLimbs(w: nat, x: seq<nat>)
    requires |x| == 2
    ensures Number(w, x) == x[1] * Pow2(w) + x[0] && Modulus(w, 2) == Pow2(w) * Pow2(w)
  {
    assert Value(Pow2(w), x, 1) == x[0] && Power(Pow2(w), 1) == Pow2(w);
  }

  /** A double word as two limbs. */
  method SplitNative(w: nat, v: nat) returns (x: seq<nat>)
    requires v < Modulus(w, 2)
    ensures IsWide(w, x) && |x| == 2 && Number(w, x) == v
  {
    var b := Pow2(w);
    x := [Wrap(w, v), Shr(v, w)];
    TwoLimbs(w, x);
    DivModForm(v, b);
    DivAtLeast(v, b, b);
  }

  // ----- pending carries

  /** What the carries out of the `k` low limbs are worth. */
  function Carries(b: nat, flags: seq<bool>, k: nat): nat
    requires k <= |flags|
  {
    if k == 0 then 0 else Carries(b, flags, k - 1) + if flags[k - 1] then Power(b, k) else 0
  }

  lemma {:induction false} CarriesAgree(b: nat, f: seq<bool>, g: seq<bool>, k: nat)
    requires k <= |f| && k <= |g| && forall i :: 0 <= i < k ==> f[i] == g[i]
    ensures Carries(b, f, k) == Carries(b, g, k)
  {
    if k > 0 { CarriesAgree(b, f, g, k - 1); }
  }

  lemma {:induction false} CarriesSet(b: nat, f: seq<bool>, i: nat, k: nat)
    requires i < k <= |f| && !f[i]
    ensures Carries(b, f[i := true], k) == Carries(b, f, k) + Power(b, i + 1)
  {
    if i == k - 1 {
      CarriesAgree(b, f, f[i := true], k - 1);
    } else {
      CarriesSet(b, f, i, k - 1);
    }
  }

  lemma {:induction false} NoCarries(b: nat, f: seq<bool>, j: nat, k: nat)
    requires j <= k <= |f| && forall i :: j <= i < k ==> !f[i]
    ensures Carries(b, f, k) == Carries(b, f, j)
    decreases k
  {
    if j < k { NoCarries(b, f, j, k - 1); }
  }

  // ----- addition

  /** The limbs of the sum without carries between them; the flags say where one is due. */
  method AddLimbs(w: nat, lhs: seq<nat>, rhs: seq<nat>) returns (res: seq<nat>, overflows: seq<bool>)
    requires IsWide(w, lhs) && IsWide(w, rhs) && |rhs| <= |lhs|
    ensures IsWide(w, res) && |res| == |overflows| == |lhs|
    ensures Number(w, lhs) + Number(w, rhs) == Number(w, res) + Carries(Pow2(w), overflows, |lhs|)
    ensures forall i :: 0 <= i < |res| && overflows[i] ==> res[i] + 1 < Pow2(w)
  {
    var n := |lhs|;
    ghost var b := Pow2(w);
    res := lhs;
    overflows := seq(n, _ => false);
    NoCarries(b, overflows, 0, n);
    var i := 0;
    while i < |rhs|
      invariant 0 <= i <= |rhs|
      invariant IsWide(w, res) && |res| == |overflows| == n
      invariant forall j :: i <= j < n ==> res[j] == lhs[j]
      invariant forall j :: i <= j < n ==> !overflows[j]
      invariant forall j :: 0 <= j < n && overflows[j] ==> res[j] + 1 < b
      invariant Number(w, lhs) + Value(b, rhs, i) == Number(w, res) + Carries(b, overflows, n)
    {
      var sum := Wrap(w, res[i] + rhs[i]);
      AddLimb(b, res, overflows, rhs, i, sum);
      overflows := overflows[i := sum < rhs[i]];
      res := res[i := sum];
      i := i + 1;
    }
  }

  lemma AddLimb(b: nat, res: seq<nat>, flags: seq<bool>, rhs: seq<nat>, i: nat, sum: nat)
    requires i < |rhs| <= |res| == |flags| && !flags[i]
    requires res[i] < b && rhs[i] < b && sum == (res[i] + rhs[i]) % b
    ensures sum < rhs[i] <==> res[i] + rhs[i] == sum + b
    ensures sum < rhs[i] ==> sum + 1 < b
    ensures Value(b, res[i := sum], |res|) + Carries(b, flags[i := sum < rhs[i]], |res|)
         == Value(b, res, |res|) + Carries(b, flags, |res|) + (Value(b, rhs, i + 1) - Value(b, rhs, i))
  {
    var t := res[i] + rhs[i];
    var p := Power(b, i);
    if t < b { DivModUnique(t, b, 0, t); } else { DivModUnique(t, b, 1, t - b); }
    ValueUpdate(b, res, i, sum, |res|);
    if sum < rhs[i] {
      CarriesSet(b, flags, i, |res|);
      assert (sum - res[i]) * p + b * p == rhs[i] * p by { Distribute(p, sum - res[i], b); }
    } else {
      assert flags[i := false] == flags;
    }
  }

  /** A carry into a limb that takes it. */
  lemma CarryTaken(b: nat, res: seq<nat>, flags: seq<bool>, i: nat)
    requires 1 <= i < |res| == |flags| && flags[i - 1]
    ensures Value(b, res[i := res[i] + 1], |res|) - Carries(b, flags, i)
         == Value(b, res, |res|) - Carries(b, flags, i - 1)
  {
    ValueUpdate(b, res, i, res[i] + 1, |res|);
  }

  /** A carry into a full limb, which passes it on. */
  lemma CarryPassed(b: nat, res: seq<nat>, flags: seq<bool>, i: nat)
    requires 1 <= i < |res| == |flags| && flags[i - 1] && !flags[i] && res[i] + 1 == b
    ensures var f := flags[i := true];
            Value(b, res[i := 0], |res|) + Carries(b, f, |res|) - Carries(b, f, i)
            == Value(b, res, |res|) + Carries(b, flags, |res|) - Carries(b, flags, i - 1)
  {
    var p := Power(b, i);
    ValueUpdate(b, res, i, 0, |res|);
    CarriesSet(b, flags, i, |res|);
    CarriesAgree(b, flags, flags[i := true], i);
    FullLimb(res[i], b, p);
  }

  lemma FullLimb(r: int, b: int, p: int)
    requires r + 1 == b
    ensures (0 - r) * p + b * p == p
  {
    Distribute(p, 0 - r, b);
  }

  /** The sum, less whole multiples of the modulus. */
  method Plus(w: nat, lhs: seq<nat>, rhs: seq<nat>) returns (res: seq<nat>)
    requires IsWide(w, lhs) && IsWide(w, rhs) && |rhs| <= |lhs|
    ensures IsWide(w, res) && |res| == |lhs|
    ensures Number(w, res) == (Number(w, lhs) + Number(w, rhs)) % Modulus(w, |lhs|)
  {
    var n := |lhs|;
    ghost var b := Pow2(w);
    ghost var total := Number(w, lhs) + Number(w, rhs);
    var overflows;
    res, overflows := AddLimbs(w, lhs, rhs);
    var i := 1;
    while i < n
      invariant 1 <= i <= n
      invariant IsWide(w, res) && |res| == |overflows| == n
      invariant forall j :: i <= j < n && overflows[j] ==> res[j] + 1 < b
      invariant total == Number(w, res) + Carries(b, overflows, n) - Carries(b, overflows, i - 1)
    {
      if overflows[i - 1] {
        if res[i] + 1 == Pow2(w) {
          CarryPassed(b, res, overflows, i);
          res := res[i := 0];
          overflows := overflows[i := true];
        } else {
          CarryTaken(b, res, overflows, i);
          res := res[i := res[i] + 1];
        }
      }
      i := i + 1;
    }
    NumberBound(w, res);
    Residue(total, Modulus(w, n), if overflows[n - 1] then 1 else 0, Number(w, res));
  }

  // ----- subtraction

  /** The limbs of the difference without borrows between them. */
  method SubtractLimbs(w: nat, lhs: seq<nat>, rhs: seq<nat>) returns (res: seq<nat>, underflows: seq<bool>)
    requires IsWide(w, lhs) && IsWide(w, rhs) && |rhs| <= |lhs|
    ensures IsWide(w, res) && |res| == |underflows| == |lhs|
    ensures Number(w, lhs) - Number(w, rhs) == Number(w, res) - Carries(Pow2(w), underflows, |lhs|)
    ensures forall i :: 0 <= i < |res| && underflows[i] ==> res[i] > 0
  {
    var n := |lhs|;
    ghost var b := Pow2(w);
    res := lhs;
    underflows := seq(n, _ => false);
    NoCarries(b, underflows, 0, n);
    var i := 0;
    while i < |rhs|
      invariant 0 <= i <= |rhs|
      invariant IsWide(w, res) && |res| == |underflows| == n
      invariant forall j :: i <= j < n ==> res[j] == lhs[j]
      invariant forall j :: i <= j < n ==> !underflows[j]
      invariant forall j :: 0 <= j < n && underflows[j] ==> res[j] > 0
      invariant Number(w, lhs) - Value(b, rhs, i) == Number(w, res) - Carries(b, underflows, n)
    {
      var l: int, r: int := res[i], rhs[i];
      SubtractLimb(b, res, underflows, rhs, i, Wrap(w, l - r));
      underflows := underflows[i := l < r];
      res := res[i := Wrap(w, l - r)];
      i := i + 1;
    }
  }

  lemma SubtractLimb(b: nat, res: seq<nat>, flags: seq<bool>, rhs: seq<nat>, i: nat, diff: nat)
    requires i < |rhs| <= |res| == |flags| && !flags[i]
    requires res[i] < b && rhs[i] < b && diff == Difference(res[i], rhs[i]) % b
    ensures res[i] < rhs[i] ==> diff > 0
    ensures Value(b, res[i := diff], |res|) - Carries(b, flags[i := res[i] < rhs[i]], |res|)
         == Value(b, res, |res|) - Carries(b, flags, |res|) - (Value(b, rhs, i + 1) - Value(b, rhs, i))
  {
    DifferenceWraps(res[i], rhs[i], b, Power(b, i));
    ValueUpdate(b, res, i, diff, |res|);
    if res[i] < rhs[i] {
      CarriesSet(b, flags, i, |res|);
    } else {
      assert flags[i := false] == flags;
    }
  }

  function Difference(x: int, y: int): int { x - y }

  lemma DifferenceWraps(x: int, y: int, b: int, p: int)
    requires 0 <= x < b && 0 <= y < b
    ensures var d := Difference(x, y) % b;
            (x < y ==> d > 0) && (d - x) * p == (if x < y then b * p else 0) - y * p
  {
    var t := x - y;
    if t >= 0 {
      DivModUnique(t, b, 0, t);
    } else {
      DivModUnique(t, b, -1, t + b);
      Distribute(p, b, 0 - y);
    }
  }

  lemma BorrowTaken(b: nat, res: seq<nat>, flags: seq<bool>, i: nat)
    requires 1 <= i < |res| == |flags| && flags[i - 1] && res[i] > 0
    ensures Value(b, res[i := res[i] - 1], |res|) + Carries(b, flags, i)
         == Value(b, res, |res|) + Carries(b, flags, i - 1)
  {
    ValueUpdate(b, res, i, res[i] - 1, |res|);
  }

  lemma BorrowPassed(b: nat, res: seq<nat>, flags: seq<bool>, i: nat)
    requires 1 <= i < |res| == |flags| && flags[i - 1] && !flags[i] && res[i] == 0 && b > 0
    ensures var f := flags[i := true];
            Value(b, res[i := b - 1], |res|) - Carries(b, f, |res|) + Carries(b, f, i)
            == Value(b, res, |res|) - Carries(b, flags, |res|) + Carries(b, flags, i - 1)
  {
    var p := Power(b, i);
    ValueUpdate(b, res, i, b - 1, |res|);
    CarriesSet(b, flags, i, |res|);
    CarriesAgree(b, flags, flags[i := true], i);
    Distribute(p, b - 1, 1);
  }

  /** The difference, plus whole multiples of the modulus. */
  method Minus(w: nat, lhs: seq<nat>, rhs: seq<nat>) returns (res: seq<nat>)
    requires IsWide(w, lhs) && IsWide(w, rhs) && |rhs| <= |lhs|
    ensures IsWide(w, res) && |res| == |lhs|
    ensures Number(w, res) == (Number(w, lhs) - Number(w, rhs)) % Modulus(w, |lhs|)
  {
    var n := |lhs|;
    ghost var b := Pow2(w);
    ghost var total := Number(w, lhs) - Number(w, rhs);
    var underflows;
    res, underflows := SubtractLimbs(w, lhs, rhs);
    var i := 1;
    while i < n
      invariant 1 <= i <= n
      invariant IsWide(w, res) && |res| == |underflows| == n
      invariant forall j :: i <= j < n && underflows[j] ==> res[j] > 0
      invariant total == Number(w, res) - Carries(b, underflows, n) + Carries(b, underflows, i - 1)
    {
      if underflows[i - 1] {
        if res[i] == 0 {
          BorrowPassed(b, res, underflows, i);
          underflows := underflows[i := true];
          res := res[i := Pow2(w) - 1];
        } else {
          BorrowTaken(b, res, underflows, i);
          res := res[i := res[i] - 1];
        }
      }
      i := i + 1;
    }
    NumberBound(w, res);
    Residue(total, Modulus(w, n), if underflows[n - 1] then -1 else 0, Number(w, res));
  }

  // ----- the signed reading

  predicate IsNegative(w: nat, x: seq<nat>)
    requires w > 0 && |x| > 0
  {
    x[|x| - 1] >= Pow2(w - 1)
  }

  /** The number read as two's complement when the type is signed. */
  function Reading(w: nat, signed: bool, x: seq<nat>): int
    requires w > 0 && |x| > 0
  {
    Number(w, x) - if signed && IsNegative(w, x) then Modulus(w, |x|) else 0
  }

  /** The top bit tells the two halves of the range apart. */
  lemma ReadingRange(w: nat, x: seq<nat>)
    requires w > 0 && IsWide(w, x)
    ensures IsNegative(w, x) <==> 2 * Number(w, x) >= Modulus(w, |x|)
    ensures Modulus(w, |x|) % 2 == 0
    ensures -1 * (Modulus(w, |x|) / 2) <= Reading(w, true, x) < Modulus(w, |x|) / 2
    ensures Reading(w, true, x) < 0 <==> IsNegative(w, x)
  {
    var n := |x| - 1;
    NumberBound(w, x);
    ValueBound(Pow2(w), x, n);
    HalfRange(Value(Pow2(w), x, n), Power(Pow2(w), n), x[n], Pow2(w - 1));
  }

  lemma HalfRange(v: nat, p: nat, d: nat, h: nat)
    requires v < p
    ensures (2 * h) * p == 2 * (h * p)
    ensures d >= h <==> v + d * p >= h * p
  {
    if d >= h { MulMonotone(p, h, d); } else { TopDigit(v, p, d, h); }
  }

  /** Bitwise complement. */
  method Complement(w: nat, x: seq<nat>) returns (res: seq<nat>)
    requires IsWide(w, x)
    ensures IsWide(w, res) && |res| == |x|
    ensures Number(w, res) == Modulus(w, |x|) - 1 - Number(w, x)
  {
    var n := |x|;
    ghost var b := Pow2(w);
    res := x;
    var i := 0;
    while i < n
      invariant 0 <= i <= n && |res| == n && IsWide(w, res)
      invariant forall j :: i <= j < n ==> res[j] == x[j]
      invariant forall j :: 0 <= j < i ==> res[j] == b - 1 - x[j]
    {
      res := res[i := Pow2(w) - 1 - res[i]];
      i := i + 1;
    }
    ComplementValue(b, x, res, n);
  }

  lemma {:induction false} ComplementValue(b: nat, x: seq<nat>, y: seq<nat>, k: nat)
    requires k <= |x| && k <= |y| && forall i :: 0 <= i < k ==> x[i] + y[i] == b - 1
    ensures Value(b, x, k) + Value(b, y, k) == Power(b, k) - 1
  {
    if k > 0 {
      ComplementValue(b, x, y, k - 1);
      var p := Power(b, k - 1);
      Distribute(p, x[k - 1], y[k - 1]);
      Distribute(p, b - 1, 1);
    }
  }

  /** The limbs of a small number. */
  lemma SmallNumber(w: nat, x: nat)
    requires x < Pow2(w)
    ensures IsWide(w, [x]) && Number(w, [x]) == x
  {
    assert Value(Pow2(w), [x], 0) == 0;
  }

  /** Negation, which is exact except that the least signed number is its own negative. */
  method UnaryMinus(w: nat, x: seq<nat>) returns (res: seq<nat>)
    requires w > 0 && IsWide(w, x)
    ensures IsWide(w, res) && |res| == |x|
    ensures Number(w, res) == (0 - Number(w, x)) % Modulus(w, |x|)
  {
    Pow2Monotone(1, w);
    SmallNumber(w, 1);
    var flipped := Complement(w, x);
    res := Plus(w, flipped, [1]);
    ModShift(0 - Number(w, x), Modulus(w, |x|), 1);
  }

  /** The magnitude of a negative number; also right for the least one, read as unsigned. */
  lemma NegatedMagnitude(w: nat, x: seq<nat>)
    requires w > 0 && IsWide(w, x) && IsNegative(w, x)
    ensures (0 - Number(w, x)) % Modulus(w, |x|) == 0 - Reading(w, true, x)
  {
    ReadingRange(w, x);
    NumberBound(w, x);
    Residue(0 - Number(w, x), Modulus(w, |x|), -1, 0 - Reading(w, true, x));
  }

  method MakePositive(w: nat, signed: bool, x: seq<nat>) returns (res: seq<nat>)
    requires w > 0 && IsWide(w, x)
    ensures IsWide(w, res) && |res| == |x|
    ensures var v := Reading(w, signed, x); Number(w, res) == if v < 0 then 0 - v else v
  {
    ReadingRange(w, x);
    if signed && IsNegative(w, x) {
      NegatedMagnitude(w, x);
      res := UnaryMinus(w, x);
    } else {
      res := x;
    }
  }

  /** Addition of an operand that may be narrower and may be signed where the other is not. */
  method OperatorPlus(w: nat, lhs: seq<nat>, signed: bool, rhs: seq<nat>) returns (res: seq<nat>)
    requires w > 0 && IsWide(w, lhs) && IsWide(w, rhs) && |rhs| <= |lhs|
    ensures IsWide(w, res) && |res| == |lhs|
    ensures Number(w, res) == (Number(w, lhs) + Reading(w, signed, rhs)) % Modulus(w, |lhs|)
  {
    if signed && IsNegative(w, rhs) {
      NegatedMagnitude(w, rhs);
      var magnitude := UnaryMinus(w, rhs);
      res := Minus(w, lhs, magnitude);
    } else {
      res := Plus(w, lhs, rhs);
    }
  }

  method OperatorMinus(w: nat, lhs: seq<nat>, signed: bool, rhs: seq<nat>) returns (res: seq<nat>)
    requires w > 0 && IsWide(w, lhs) && IsWide(w, rhs) && |rhs| <= |lhs|
    ensures IsWide(w, res) && |res| == |lhs|
    ensures Number(w, res) == (Number(w, lhs) - Reading(w, signed, rhs)) % Modulus(w, |lhs|)
  {
    if signed && IsNegative(w, rhs) {
      NegatedMagnitude(w, rhs);
      var magnitude := UnaryMinus(w, rhs);
      res := Plus(w, lhs, magnitude);
    } else {
      res := Minus(w, lhs, rhs);
    }
  }

  // ----- comparison

  lemma {:induction false} TopDecides(b: nat, x: seq<nat>, y: seq<nat>, i: nat, n: nat)
    requires i < n <= |x| && n <= |y| && x[i] < y[i]
    requires forall j :: 0 <= j < n ==> x[j] < b && y[j] < b
    requires forall j :: i < j < n ==> x[j] == y[j]
    ensures Value(b, x, n) < Value(b, y, n)
  {
    if i == n - 1 {
      ValueBound(b, x, i);
      MulMonotone(Power(b, i), x[i] + 1, y[i]);
      Distribute(Power(b, i), x[i], 1);
    } else {
      TopDecides(b, x, y, i, n - 1);
    }
  }

  lemma {:induction false} DifferentNumbers(b: nat, x: seq<nat>, y: seq<nat>, n: nat, i: nat)
    requires i < n <= |x| && n <= |y| && x[i] != y[i]
    requires forall j :: 0 <= j < n ==> x[j] < b && y[j] < b
    ensures Value(b, x, n) != Value(b, y, n)
  {
    if x[n - 1] < y[n - 1] {
      TopDecides(b, x, y, n - 1, n);
    } else if x[n - 1] > y[n - 1] {
      TopDecides(b, y, x, n - 1, n);
    } else {
      DifferentNumbers(b, x, y, n - 1, i);
    }
  }

  lemma {:induction false} ZeroValue(b: nat, x: seq<nat>, k: nat)
    requires k <= |x| && b > 0
    ensures Value(b, x, k) == 0 <==> forall i :: 0 <= i < k ==> x[i] == 0
  {
    if k > 0 {
      ZeroValue(b, x, k - 1);
      if x[k - 1] > 0 { MulStrict(Power(b, k - 1), 0, x[k - 1]); }
    }
  }

  method IsZero(w: nat, x: seq<nat>) returns (r: bool)
    requires IsWide(w, x)
    ensures r <==> Number(w, x) == 0
  {
    ZeroValue(Pow2(w), x, |x|);
    var i := 0;
    while i < |x|
      invariant 0 <= i <= |x|
      invariant forall j :: 0 <= j < i ==> x[j] == 0
    {
      if x[i] != 0 { return false; }
      i := i + 1;
    }
    return true;
  }
}

/** Products of wide integers: four limbs by halves with carries set by hand, and the general form that
    adds one, three or seven times the multiplicand at a time. */
module LimbMultiply {
  import opened Words
  import opened LimbInteger
  import opened LimbCompare
  import opened LimbShift

  // ----- remainders of sums and products

  lemma ModAdd(x: int, y: int, m: int)
    requires m > 0
    ensures (x % m + y % m) % m == (x + y) % m
  {
    DivModForm(x, m);
    DivModForm(y, m);
    Distribute(m, x / m, y / m);
    ModShift(x % m + y % m, m, x / m + y / m);
  }

  lemma ModMul(x: int, y: int, m: int)
    requires m > 0
    ensures ((x % m) * y) % m == (x * y) % m
  {
    DivModForm(x, m);
    var q, r := x / m, x % m;
    Distribute(y, q * m, r);
    assert (q * m) * y == (q * y) * m;
    ModShift(r * y, m, q * y);
  }

  // ----- the general form

  /** Adds `f` times the multiplicand, shifted. */
  method AddShifted(w: nat, res: seq<nat>, t: seq<nat>, pos: nat, ghost l: nat, ghost f: nat, ghost done: nat)
      returns (r: seq<nat>)
    requires w > 0 && IsWide(w, res) && IsWide(w, t) && |res| == |t| && pos < w * |t|
    requires Number(w, t) == (f * l) % Modulus(w, |t|)
    requires Number(w, res) == (l * done) % Modulus(w, |t|)
    ensures IsWide(w, r) && |r| == |t|
    ensures Number(w, r) == (l * (done + f * Pow2(pos))) % Modulus(w, |t|)
  {
    var shifted := ShiftLeft(w, t, pos);
    r := Plus(w, res, shifted);
    ghost var m, p := Modulus(w, |t|), Pow2(pos);
    ModMul(f * l, p, m);
    ModAdd(l * done, (f * l) * p, m);
    assert l * (done + f * p) == l * done + (f * l) * p by {
      Distribute(l, done, f * p);
      Associate(l, f, p);
    }
  }

  /** Taking bits off the low end. */
  lemma TakeBits(item: nat, k: nat, left: nat)
    requires item < Pow2(left) && item % Pow2(k) == Pow2(k) - 1
    ensures k <= left && Shr(item, k) < Pow2(left - k)
    ensures item == Shr(item, k) * Pow2(k) + (Pow2(k) - 1)
  {
    DivModForm(item, Pow2(k));
    if left < k {
      Pow2Monotone(left, k);
      DivModUnique(item, Pow2(k), 0, item);
    } else {
      ShrBound(left, item, k);
    }
  }

  lemma DropBit(item: nat, left: nat)
    requires 0 < item < Pow2(left)
    ensures left > 0 && Shr(item, 1) < Pow2(left - 1)
    ensures item == Shr(item, 1) * 2 + item % 2 && Shr(item, 1) < item
  {
  }

  /** The sum of what is done and what is left does not change. */
  lemma Progress(done: nat, item: nat, rest: nat, k: nat, f: nat, pos: nat)
    requires item == rest * Pow2(k) + f
    ensures done + item * Pow2(pos) == (done + f * Pow2(pos)) + rest * Pow2(pos + k)
  {
    Pow2Add(k, pos);
    Distribute(Pow2(pos), rest * Pow2(k), f);
    Associate(rest, Pow2(k), Pow2(pos));
  }

  lemma Multiples(l: nat, m: nat)
    requires m > 0
    ensures (l % m + (l % m * Pow2(1)) % m) % m == (3 * l) % m
    ensures ((3 * l) % m + (l % m * Pow2(2)) % m) % m == (7 * l) % m
  {
    assert Pow2(1) == 2 && Pow2(2) == 4;
    ModMul(l, 2, m);
    ModMul(l, 4, m);
    ModAdd(l, l * 2, m);
    ModAdd(3 * l, l * 4, m);
  }

  predicate IsMultiple(w: nat, t: seq<nat>, n: nat, f: nat, l: nat) {
    IsWide(w, t) && |t| == n && Number(w, t) == (f * l) % Modulus(w, n)
  }

  /** The multiplicand and the multiples of it that are kept ready. */
  predicate Ready(w: nat, lhs: seq<nat>, lhs2: seq<nat>, lhs3: seq<nat>) {
    IsWide(w, lhs)
    && IsMultiple(w, lhs, |lhs|, 1, Number(w, lhs))
    && IsMultiple(w, lhs2, |lhs|, 3, Number(w, lhs))
    && IsMultiple(w, lhs3, |lhs|, 7, Number(w, lhs))
  }

  /** What is accumulated is the multiplicand times the part of the multiplier that is done. */
  predicate Accumulated(w: nat, lhs: seq<nat>, res: seq<nat>, done: nat) {
    IsWide(w, res) && |res| == |lhs| && Number(w, res) == (Number(w, lhs) * done) % Modulus(w, |lhs|)
  }

  /** One turn: three, two or one of the low bits of `item`, the limb of the multiplier that is left. */
  method MultiplyStep(w: nat, sum: seq<nat>, lhs: seq<nat>, lhs2: seq<nat>, lhs3: seq<nat>, item: nat, pos: nat,
                      ghost done: nat, ghost left: nat)
      returns (res: seq<nat>, rest: nat, next: nat, ghost done': nat, ghost left': nat)
    requires w > 0 && Ready(w, lhs, lhs2, lhs3) && Accumulated(w, lhs, sum, done)
    requires 0 < item < Pow2(left) && pos + left <= w * |lhs|
    ensures Accumulated(w, lhs, res, done') && rest < item
    ensures rest < Pow2(left') && next + left' == pos + left
    ensures done' + rest * Pow2(next) == done + item * Pow2(pos)
  {
    ghost var l := Number(w, lhs);
    var bits: nat;
    ghost var f: nat;
    DropBit(item, left);
    if item % 8 == 7 {
      assert Pow2(3) == 8;
      bits, f := 3, 7;
      TakeBits(item, 3, left);
      res := AddShifted(w, sum, lhs3, pos, l, 7, done);
    } else if item % 4 == 3 {
      assert Pow2(2) == 4;
      bits, f := 2, 3;
      TakeBits(item, 2, left);
      res := AddShifted(w, sum, lhs2, pos, l, 3, done);
    } else {
      assert Pow2(1) == 2;
      bits, f := 1, item % 2;
      if item % 2 == 1 {
        res := AddShifted(w, sum, lhs, pos, l, 1, done);
      } else {
        res := sum;
      }
    }
    rest, next := Shr(item, bits), pos + bits;
    done', left' := done + f * Pow2(pos), left - bits;
    Progress(done, item, rest, bits, f, pos);
  }

  /** The bits of one limb of the multiplier. */
  method MultiplyLimb(w: nat, sum: seq<nat>, lhs: seq<nat>, lhs2: seq<nat>, lhs3: seq<nat>, limb: nat, i: nat,
                      ghost before: nat)
      returns (res: seq<nat>)
    requires w > 0 && Ready(w, lhs, lhs2, lhs3) && Accumulated(w, lhs, sum, before)
    requires i < |lhs| && limb < Pow2(w)
    ensures Accumulated(w, lhs, res, before + limb * Power(Pow2(w), i))
  {
    res := sum;
    var item: nat, pos: nat := limb, w * i;
    ghost var done: nat, left: nat := before, w;
    ghost var all := before + limb * Power(Pow2(w), i);
    PowerOfPow2(w, i);
    MulMonotone(w, i + 1, |lhs|);
    Distribute(w, i, 1);
    while item > 0
      invariant Accumulated(w, lhs, res, done)
      invariant item < Pow2(left) && pos + left <= w * |lhs|
      invariant done + item * Pow2(pos) == all
      decreases item
    {
      res, item, pos, done, left := MultiplyStep(w, res, lhs, lhs2, lhs3, item, pos, done, left);
    }
  }

  /** The product, for any number of limbs. */
  method MultiplyGeneral(w: nat, lhs: seq<nat>, rhs: seq<nat>) returns (res: seq<nat>)
    requires w > 0 && IsWide(w, lhs) && IsWide(w, rhs) && |rhs| <= |lhs| && 2 < w * |lhs|
    ensures IsWide(w, res) && |res| == |lhs|
    ensures Number(w, res) == (Number(w, lhs) * Number(w, rhs)) % Modulus(w, |lhs|)
  {
    var n := |lhs|;
    ghost var l, m := Number(w, lhs), Modulus(w, n);
    res := seq(n, _ => 0);
    ZeroValue(Pow2(w), res, n);
    NumberBound(w, lhs);
    DivModUnique(l, m, 0, l);
    Multiples(l, m);
    var twice := ShiftLeft(w, lhs, 1);
    var lhs2 := Plus(w, lhs, twice);
    var fourfold := ShiftLeft(w, lhs, 2);
    var lhs3 := Plus(w, lhs2, fourfold);
    var i := 0;
    DivModUnique(0, m, 0, 0);
    while i < |rhs|
      invariant 0 <= i <= |rhs| && Accumulated(w, lhs, res, Value(Pow2(w), rhs, i))
    {
      res := MultiplyLimb(w, res, lhs, lhs2, lhs3, rhs[i], i, Value(Pow2(w), rhs, i));
      i := i + 1;
    }
  }

  // ----- four limbs by halves

  lemma FourLimbs(b: nat, x: seq<nat>)
    requires |x| == 4
    ensures Value(b, x, 4) == x[0] + x[1] * b + x[2] * (b * b) + x[3] * (b * (b * b))
    ensures Power(b, 4) == (b * b) * (b * b)
  {
    FewLimbs(b, x);
    assert Power(b, 2) == b * Power(b, 1) && Power(b, 3) == b * Power(b, 2);
    assert Value(b, x, 3) == Value(b, x, 2) + x[2] * Power(b, 2);
    Associate(b, b, b * b);
  }

  lemma FewLimbs(b: nat, x: seq<nat>)
    requires |x| >= 1
    ensures Power(b, 1) == b && Value(b, x, 1) == x[0]
    ensures |x| >= 2 ==> Value(b, x, 2) == x[0] + x[1] * b
  {
  }

  lemma ProductOfPairs(x0: int, x1: int, y0: int, y1: int, c: int)
    ensures (x0 + x1 * c) * (y0 + y1 * c) == x0 * y0 + c * (x1 * y0 + x0 * y1) + (c * c) * (x1 * y1)
  {
  }

  /** The product of the two numbers, collected by halves. */
  lemma ProductByHalves(a0: int, a1: int, a23: int, b0: int, b1: int, b23: int, b: int)
    ensures (a0 + a1 * b + a23 * (b * b)) * (b0 + b1 * b + b23 * (b * b))
         == a0 * b0 + b * (a1 * b0 + a0 * b1)
            + (b * b) * (a23 * (b0 + b1 * b) + (a0 + a1 * b) * b23 + a1 * b1)
            + ((b * b) * (b * b)) * (a23 * b23)
  {
    ProductOfPairs(a0, a1, b0, b1, b);
    ProductOfPairs(a0 + a1 * b, a23, b0 + b1 * b, b23, b * b);
    Distribute(b * b, a23 * (b0 + b1 * b) + (a0 + a1 * b) * b23, a1 * b1);
  }

  /** The limbs of the result, collected. `c1` and `c2` are the two carries. */
  lemma LimbsByHalves(b: int, r01: int, r23: int, r12: int, s: int, x: int, c1: int, c2: int, top: int, k: int)
    requires b > 0
    requires s == x + c1 * (b * b)
    requires r01 / b + (r23 % b) * b + x == r12 + c2 * (b * b)
    requires top == r23 / b + c1 + c2 - k * b
    ensures r01 % b + (r12 % b) * b + (r12 / b) * (b * b) + top * (b * (b * b))
         == r01 + b * s + (b * b) * r23 - k * ((b * b) * (b * b))
  {
    var q1, q2, q3, m1, m2, m3 := r01 / b, r12 / b, r23 / b, r01 % b, r12 % b, r23 % b;
    assert r01 == q1 * b + m1 && r12 == q2 * b + m2 && r23 == q3 * b + m3;
    CollectLimbs(b, b * b, q1, q2, q3, m1, m2, m3, s, x, c1, c2, k);
  }

  lemma CollectLimbs(b: int, d: int, q1: int, q2: int, q3: int, m1: int, m2: int, m3: int,
                     s: int, x: int, c1: int, c2: int, k: int)
    requires d == b * b && s == x + c1 * d && q1 + m3 * b + x == (q2 * b + m2) + c2 * d
    ensures m1 + m2 * b + q2 * d + (q3 + c1 + c2 - k * b) * (b * d)
         == (q1 * b + m1) + b * s + d * (q3 * b + m3) - k * (d * d)
  {
  }

  /** A sum of two words: what is left in the word and whether it wrapped. */
  lemma AddWraps(x: nat, y: nat, d: nat)
    requires x < d && y < d
    ensures var z := (x + y) % d; x + y == z + (if z < y then d else 0)
  {
  }

  lemma DigitProduct(x: nat, y: nat, b: nat)
    requires x < b && y < b
    ensures x * y < b * b
  {
  }

  function Residual(x: nat, m: nat): (r: nat)
    requires m > 0
    ensures r < m
  {
    x % m
  }

  /** The two lower partial products put together, before the cross products. */
  lemma MiddleStart(r01: nat, r23: nat, b: nat)
    requires b > 0 && r01 < b * b
    ensures (r01 / b + r23 * b) % (b * b) == r01 / b + (r23 % b) * b
  {
    DivAtLeast(r01, b, b);
    DivModForm(r23, b);
    TopDigit(r01 / b, b, r23 % b, b);
    assert r23 * b == (r23 / b) * (b * b) + (r23 % b) * b by {
      Distribute(b, (r23 / b) * b, r23 % b);
      Associate(r23 / b, b, b);
    }
    DivModUnique(r01 / b + r23 * b, b * b, r23 / b, r01 / b + (r23 % b) * b);
  }

  /** The top limb with a carry into it. */
  function Bump(top: nat, b: nat, carry: bool): (t: nat)
    requires top < b
    ensures t < b
    ensures t == top + (if carry then 1 else 0) - (if carry && top + 1 == b then b else 0)
  {
    if carry then
      assert top + 1 == b ==> b % b == 0;
      (top + 1) % b
    else top
  }

  /** A sum in a double word `d`, and whether it wrapped. */
  method AddHalves(x: nat, y: nat, d: nat) returns (sum: nat, carry: bool)
    requires x < d && y < d
    ensures sum < d && x + y == sum + if carry then d else 0
  {
    AddWraps(x, y, d);
    sum := Residual(x + y, d);
    carry := sum < y;
  }

  /** The middle limbs and the carries they give to the top one. `start` is what they hold before the
      cross products are added. */
  method AddMiddle(b: nat, d: nat, start: nat, top0: nat, x0: nat, y: nat, two: bool)
      returns (r12: nat, top: nat, ghost x: nat, ghost c1: bool, ghost c2: bool, ghost k: nat)
    requires start < d && x0 < d && y < d && (!two ==> y == 0) && top0 < b
    ensures r12 < d && top < b
    ensures x0 + y == x + (if c1 then d else 0) && start + x == r12 + (if c2 then d else 0)
    ensures top + Times(k, b) == top0 + (if c1 then 1 else 0) + (if c2 then 1 else 0)
  {
    var sum, carry := x0, false;
    if two { sum, carry := AddHalves(x0, y, d); }
    var top1 := Bump(top0, b, carry);
    var carry';
    r12, carry' := AddHalves(start, sum, d);
    top := Bump(top1, b, carry');
    x, c1, c2 := sum, carry, carry';
    k := (if carry && top0 + 1 == b then 1 else 0) + (if carry' && top1 + 1 == b then 1 else 0);
    assert k <= 2 && Times(0, b) == 0 && Times(1, b) == b && Times(2, b) == b + b;
  }

  /** The two upper limbs as one double word. */
  method UpperHalf(w: nat, x: seq<nat>) returns (h: nat)
    requires |x| in {1, 2, 4}
    ensures Number(w, x) == x[0] + Item(x, 1) * Pow2(w) + h * (Pow2(w) * Pow2(w))
  {
    var b := Pow2(w);
    h := Times(Item(x, 3), b) + Item(x, 2);
    FewLimbs(b, x);
    if |x| == 4 {
      FourLimbs(b, x);
      Distribute(b * b, x[3] * b, x[2]);
      Associate(x[3], b, b * b);
    }
  }

  /** What the carries and the reduction of the upper half leave out is a multiple of the modulus. */
  lemma HalvesProduct(b: int, a0: int, a1: int, a23: int, b0: int, b1: int, b23: int, r23: int, k: int, v: int)
    requires b > 0 && 0 <= v < (b * b) * (b * b)
    requires r23 == (a23 * (b0 + b1 * b) + (a0 + a1 * b) * b23 + a1 * b1) % (b * b)
    requires v == a0 * b0 + b * (a1 * b0 + a0 * b1) + (b * b) * r23 - k * ((b * b) * (b * b))
    ensures v == ((a0 + a1 * b + a23 * (b * b)) * (b0 + b1 * b + b23 * (b * b))) % ((b * b) * (b * b))
  {
    ProductByHalves(a0, a1, a23, b0, b1, b23, b);
    ReducedHalf(b * b, a23 * (b0 + b1 * b) + (a0 + a1 * b) * b23 + a1 * b1, a0 * b0 + b * (a1 * b0 + a0 * b1),
                k, a23 * b23, v);
  }

  lemma ReducedHalf(d: int, full: int, low: int, k: int, h: int, v: int)
    requires d > 0 && 0 <= v < d * d && v == low + d * (full % d) - k * (d * d)
    ensures v == (low + d * full + (d * d) * h) % (d * d)
  {
    DivModForm(full, d);
    Distribute(d, (full / d) * d, full % d);
    Associate(d, full / d, d);
    assert d * ((full / d) * d) == (full / d) * (d * d);
    Distribute(d * d, full / d + k, h);
    Distribute(d * d, full / d, k);
    DivModUnique(low + d * full + (d * d) * h, d * d, full / d + k + h, v);
  }

  /** The product of four limbs by one, two or four. */
  method Multiply256(w: nat, lhs: seq<nat>, rhs: seq<nat>) returns (res: seq<nat>)
    requires w > 0 && IsWide(w, lhs) && IsWide(w, rhs) && |lhs| == 4 && |rhs| in {1, 2, 4}
    ensures IsWide(w, res) && |res| == 4
    ensures Number(w, res) == (Number(w, lhs) * Number(w, rhs)) % Modulus(w, 4)
  {
    var a23 := UpperHalf(w, lhs);
    var b23 := UpperHalf(w, rhs);
    res := CombineHalves(w, lhs[0], lhs[1], a23, rhs[0], Item(rhs, 1), b23, |rhs| > 1);
  }

  /** The product of two numbers given by their two low limbs and their upper halves. */
  method CombineHalves(w: nat, a0: nat, a1: nat, a23: nat, b0: nat, b1: nat, b23: nat, two: bool)
      returns (res: seq<nat>)
    requires w > 0 && a0 < Pow2(w) && a1 < Pow2(w) && b0 < Pow2(w) && b1 < Pow2(w) && (!two ==> b1 == 0)
    ensures IsWide(w, res) && |res| == 4
    ensures var b := Pow2(w);
            Number(w, res) == ((a0 + a1 * b + a23 * (b * b)) * (b0 + b1 * b + b23 * (b * b))) % Modulus(w, 4)
  {
    ghost var b := Pow2(w);
    var a01, b01 := a0 + Times(a1, Pow2(w)), b0 + Times(b1, Pow2(w));
    var r23 := Wrap(2 * w, Times(a23, b01) + Times(a01, b23) + Times(a1, b1));
    ghost var k;
    res, k := LowerHalf(w, a0, a1, b0, b1, r23, two);
    Pow2Add(w, w);
    NumberBound(w, res);
    FourLimbs(b, res);
    HalvesProduct(b, a0, a1, a23, b0, b1, b23, r23, k, Number(w, res));
  }

  /** The limbs of the low product and the cross products, on top of an upper half. */
  method LowerHalf(w: nat, a0: nat, a1: nat, b0: nat, b1: nat, r23: nat, two: bool)
      returns (res: seq<nat>, ghost k: nat)
    requires w > 0 && a0 < Pow2(w) && a1 < Pow2(w) && b0 < Pow2(w) && b1 < Pow2(w) && r23 < Pow2(2 * w)
    requires !two ==> b1 == 0
    ensures IsWide(w, res) && |res| == 4
    ensures var b := Pow2(w);
            Number(w, res)
            == a0 * b0 + b * (a1 * b0 + a0 * b1) + (b * b) * r23 - k * ((b * b) * (b * b))
  {
    var r01, r12, top, x, c1, c2, k' := MiddleAndTop(w, a0, a1, b0, b1, r23, two);
    k := k';
    res := [Wrap(w, r01), Wrap(w, r12), Shr(r12, w), top];
    HighLimb(w, r12);
    FourLimbs(Pow2(w), res);
    Pow2Add(w, w);
    LimbsByHalves(Pow2(w), r01, r23, r12, a1 * b0 + a0 * b1, x, if c1 then 1 else 0, if c2 then 1 else 0, top, k);
  }

  lemma HighLimb(w: nat, r12: nat)
    requires r12 < Pow2(2 * w)
    ensures Shr(r12, w) < Pow2(w)
  {
    ShrBound(2 * w, r12, w);
  }

  /** The low product, and the middle and top limbs that come of it. */
  method MiddleAndTop(w: nat, a0: nat, a1: nat, b0: nat, b1: nat, r23: nat, two: bool)
      returns (r01: nat, r12: nat, top: nat, ghost x: nat, ghost c1: bool, ghost c2: bool, ghost k: nat)
    requires w > 0 && a0 < Pow2(w) && a1 < Pow2(w) && b0 < Pow2(w) && b1 < Pow2(w) && r23 < Pow2(2 * w)
    requires !two ==> b1 == 0
    ensures r01 == a0 * b0 && r12 < Pow2(2 * w) && top < Pow2(w)
    ensures a1 * b0 + a0 * b1 == x + (if c1 then Pow2(2 * w) else 0)
    ensures r01 / Pow2(w) + (r23 % Pow2(w)) * Pow2(w) + x == r12 + (if c2 then Pow2(2 * w) else 0)
    ensures top == r23 / Pow2(w) + (if c1 then 1 else 0) + (if c2 then 1 else 0) - k * Pow2(w)
  {
    var b, d := Pow2(w), Pow2(2 * w);
    Pow2Add(w, w);
    DigitProduct(a0, b0, b);
    DigitProduct(a1, b0, b);
    DigitProduct(a0, b1, b);
    r01 := Times(a0, b0);
    var start := Wrap(2 * w, Shr(r01, w) + Times(r23, b));
    MiddleStart(r01, r23, b);
    HighLimb(w, r23);
    r12, top, x, c1, c2, k := AddMiddle(b, d, start, Shr(r23, w), Times(a1, b0), Times(a0, b1), two);
  }

  /** Two limbs are multiplied by the compiler's 128-bit integers. */
  method MultiplyNative(w: nat, lhs: seq<nat>, rhs: seq<nat>) returns (res: seq<nat>)
    requires IsWide(w, lhs) && IsWide(w, rhs) && |lhs| == |rhs| == 2
    ensures IsWide(w, res) && |res| == 2
    ensures Number(w, res) == (Number(w, lhs) * Number(w, rhs)) % Modulus(w, 2)
  {
    TwoLimbs(w, lhs);
    TwoLimbs(w, rhs);
    Pow2Add(w, w);
    var a := Times(lhs[1], Pow2(w)) + lhs[0];
    var b := Times(rhs[1], Pow2(w)) + rhs[0];
    res := SplitNative(w, Wrap(2 * w, Times(a, b)));
  }

  /** The product, by whichever form the number of limbs selects. With 64-bit limbs the form for 256 bits
      reads one, two or four limbs of the right operand. */
  method Multiply(w: nat, lhs: seq<nat>, rhs: seq<nat>) returns (res: seq<nat>)
    requires w > 2 && IsWide(w, lhs) && IsWide(w, rhs) && |rhs| <= |lhs|
    requires w == 64 && |lhs| == 4 ==> |rhs| != 3
    ensures IsWide(w, res) && |res| == |lhs|
    ensures Number(w, res) == (Number(w, lhs) * Number(w, rhs)) % Modulus(w, |lhs|)
  {
    if w == 64 && |lhs| == 4 {
      res := Multiply256(w, lhs, rhs);
    } else if w == 64 && |lhs| == |rhs| == 2 {
      res := MultiplyNative(w, lhs, rhs);
    } else {
      MulMonotone(w, 1, |lhs|);
      res := MultiplyGeneral(w, lhs, rhs);
    }
  }

  // ----- signs

  /** The product of the magnitudes with the sign put back: only when the left type is signed. */
  function SignedProduct(lhsSigned: bool, l: int, r: int): int {
    if !lhsSigned && r < 0 then l * (0 - r) else l * r
  }

  lemma SignRule(l: int, r: int, m: int)
    requires m > 0
    ensures (0 - ((0 - l) * r) % m) % m == (l * r) % m
    ensures (0 - (l * (0 - r)) % m) % m == (l * r) % m
    ensures (0 - l) * (0 - r) == l * r
  {
    assert (0 - l) * r == 0 - l * r && l * (0 - r) == 0 - l * r;
    DivModForm(0 - l * r, m);
    ModShift(l * r, m, (0 - l * r) / m);
  }

  /** Multiplication; the right operand may be narrower and of a type with the other sign. */
  method OperatorStar(w: nat, lhsSigned: bool, lhs: seq<nat>, rhsSigned: bool, rhs: seq<nat>) returns (res: seq<nat>)
    requires w > 2 && IsWide(w, lhs) && IsWide(w, rhs) && |rhs| <= |lhs|
    requires w == 64 && |lhs| == 4 ==> |rhs| != 3
    ensures IsWide(w, res) && |res| == |lhs|
    ensures Number(w, res)
         == SignedProduct(lhsSigned, Reading(w, lhsSigned, lhs), Reading(w, rhsSigned, rhs)) % Modulus(w, |lhs|)
  {
    ReadingRange(w, lhs);
    ReadingRange(w, rhs);
    var x := MakePositive(w, lhsSigned, lhs);
    var y := MakePositive(w, rhsSigned, rhs);
    res := Multiply(w, x, y);
    SignRule(Reading(w, lhsSigned, lhs), Reading(w, rhsSigned, rhs), Modulus(w, |lhs|));
    if lhsSigned && IsNegative(w, lhs) != (rhsSigned && IsNegative(w, rhs)) {
      res := UnaryMinus(w, res);
    }
  }

  /** A product and its negative leave the same remainder exactly when twice the product leaves none. */
  lemma NegativeResidue(t: int, m: nat)
    requires m > 0
    ensures (0 - t) % m == t % m <==> (2 * t) % m == 0
  {
    DivModForm(0 - t, m);
    DivModForm(t, m);
    DivModForm(2 * t, m);
    var q, q', q'' := (0 - t) / m, t / m, (2 * t) / m;
    if (0 - t) % m == t % m {
      Distribute(m, q', 0 - q);
      DivModUnique(2 * t, m, q' - q, 0);
    } else if (2 * t) % m == 0 {
      ModShift(0 - t, m, q'');
      assert false;
    }
  }

  function TrailingZeros(x: nat): nat
    requires x > 0
  {
    if x % 2 == 1 then 0 else 1 + TrailingZeros(x / 2)
  }

  lemma {:induction false} PowerDivides(x: nat, k: nat)
    requires x > 0
    ensures x % Pow2(k) == 0 <==> k <= TrailingZeros(x)
    decreases k
  {
    if k > 0 {
      var p := Pow2(k - 1);
      HalvedResidue(x, p);
      if x % 2 == 0 { PowerDivides(x / 2, k - 1); }
    }
  }

  lemma {:induction false} ZerosOfProduct(x: nat, y: nat)
    requires x > 0 && y > 0
    ensures x * y > 0 && TrailingZeros(x * y) == TrailingZeros(x) + TrailingZeros(y)
    decreases x, y
  {
    MulStrict(x, 0, y);
    if x % 2 == 0 {
      ZerosOfProduct(x / 2, y);
      HalfProduct(x / 2, y);
      assert x == 2 * (x / 2);
    } else if y % 2 == 0 {
      ZerosOfProduct(x, y / 2);
      HalfProduct(y / 2, x);
      assert y == 2 * (y / 2);
    } else {
      OddProduct(x / 2, y / 2);
      assert x == 2 * (x / 2) + 1 && y == 2 * (y / 2) + 1;
    }
  }

  lemma HalfProduct(h: nat, y: nat)
    ensures (2 * h) * y == 2 * (h * y) && y * (2 * h) == 2 * (y * h)
    ensures ((2 * h) * y) % 2 == 0 && ((2 * h) * y) / 2 == h * y
  {
    assert (2 * h) * y == 2 * (h * y);
  }

  lemma OddProduct(h: nat, k: nat)
    ensures ((2 * h + 1) * (2 * k + 1)) % 2 == 1
  {
    assert (2 * h + 1) * (2 * k + 1) == 2 * (h * (2 * k + 1) + k) + 1;
  }

  lemma {:induction false} ZerosOfNegative(x: nat, k: nat)
    requires 0 < x < Pow2(k)
    ensures TrailingZeros(Pow2(k) - x) == TrailingZeros(x)
  {
    if x % 2 == 0 { ZerosOfNegative(x / 2, k - 1); }
  }

  /** When twice the product of two positive numbers is a multiple of `2^k`. */
  lemma DoubledProductVanishes(x: nat, y: nat, k: nat)
    requires x > 0 && y > 0 && k > 0
    ensures (2 * (x * y)) % Pow2(k) == 0 <==> TrailingZeros(x) + TrailingZeros(y) >= k - 1
  {
    ZerosOfProduct(x, y);
    PowerDivides(x * y, k - 1);
    HalvedResidue(2 * (x * y), Pow2(k - 1));
  }

  /** `OperatorStar` gives the product modulo the width. */
  predicate RightProduct(w: nat, lhsSigned: bool, lhs: seq<nat>, rhsSigned: bool, rhs: seq<nat>)
    requires w > 0 && |lhs| > 0 && |rhs| > 0
  {
    var l, r := Reading(w, lhsSigned, lhs), Reading(w, rhsSigned, rhs);
    SignedProduct(lhsSigned, l, r) % Modulus(w, |lhs|) == (l * r) % Modulus(w, |lhs|)
  }

  lemma NegativeLimbs(w: nat, x: seq<nat>)
    requires w > 0 && IsWide(w, x) && IsNegative(w, x)
    ensures Number(w, x) > 0 && Reading(w, true, x) < 0
    ensures TrailingZeros(0 - Reading(w, true, x)) == TrailingZeros(Number(w, x))
  {
    ReadingRange(w, x);
    NumberBound(w, x);
    PowerOfPow2(w, |x|);
    ZerosOfNegative(Number(w, x), w * |x|);
  }

  /** The product is right if and only if the left type is signed, or the right number is not negative, or the
      left one is zero, or the two have so many trailing zero bits that only the top bit of the product can be
      set. */
  lemma MixedSignsLoseTheSign(w: nat, lhsSigned: bool, lhs: seq<nat>, rhsSigned: bool, rhs: seq<nat>)
    requires w > 0 && IsWide(w, lhs) && IsWide(w, rhs)
    ensures RightProduct(w, lhsSigned, lhs, rhsSigned, rhs) <==>
              (lhsSigned || !(rhsSigned && IsNegative(w, rhs)) || Number(w, lhs) == 0
               || (Number(w, rhs) > 0
                   && TrailingZeros(Number(w, lhs)) + TrailingZeros(Number(w, rhs)) >= w * |lhs| - 1))
  {
    var r := Reading(w, rhsSigned, rhs);
    ReadingRange(w, rhs);
    if !lhsSigned && rhsSigned && IsNegative(w, rhs) {
      NegativeLimbs(w, rhs);
      var l, k := Number(w, lhs), w * |lhs|;
      PowerOfPow2(w, |lhs|);
      MulMonotone(w, 1, |lhs|);
      assert l * r == 0 - l * (0 - r);
      NegativeResidue(l * (0 - r), Modulus(w, |lhs|));
      if l > 0 { DoubledProductVanishes(l, 0 - r, k); }
    }
  }

  /** One, unsigned, times minus one comes out as one: with four limbs of 64 bits, where `2^256 - 1` is
      right. */
  lemma OneTimesMinusOne(w: nat, n: nat)
    requires w > 1 && n > 0
    ensures var one, ones := Padded([1], n, 0), Padded([], n, Pow2(w) - 1);
            IsWide(w, one) && IsWide(w, ones) && Reading(w, false, one) == 1 && Reading(w, true, ones) == -1
            && !RightProduct(w, false, one, true, ones)
            && SignedProduct(false, 1, -1) % Modulus(w, n) == 1 && (1 * -1) % Modulus(w, n) == Modulus(w, n) - 1
  {
    var one, ones := Padded([1], n, 0), Padded([], n, Pow2(w) - 1);
    AllOnes(w, ones);
    Pow2Monotone(1, w - 1);
    assert Number(w, one) == 1 by {
      SmallNumber(w, 1);
      PaddedNumber(w, [1], n);
    }
    var m := Modulus(w, n);
    assert m > 2 by {
      ModulusDivides(w, 1, n);
      assert Power(Pow2(w), 1) == Pow2(w);
      MulMonotone(Pow2(w), 1, Modulus(w, n - 1));
    }
    DivModUnique(1, m, 0, 1);
    DivModUnique(-1, m, -1, m - 1);
  }
}

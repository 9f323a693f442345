/** Shifts of wide integers by any number of bits. */
module LimbShift {
  import opened Words
  import opened LimbInteger
  import opened LimbCompare

  lemma {:induction false} PowerOfPow2(w: nat, i: nat)
    ensures Power(Pow2(w), i) == Pow2(w * i)
  {
    if i > 0 {
      PowerOfPow2(w, i - 1);
      Distribute(w, i - 1, 1);
      Pow2Add(w, w * (i - 1));
    }
  }

  /** A shift as whole limbs and bits. */
  lemma ShiftParts(w: nat, s: nat, n: nat)
    requires w > 0 && s < w * n
    ensures s == w * (s / w) + s % w && s / w < n && s % w < w
  {
  }

  lemma ShiftWeight(w: nat, q: nat, c: nat)
    ensures Pow2(w * q + c) == Pow2(c) * Power(Pow2(w), q)
  {
    PowerOfPow2(w, q);
    Pow2Add(c, w * q);
  }

  // ----- left

  /** Limb `k` of `x` shifted left by `q` limbs and `c` bits. */
  function LeftLimb(w: nat, x: seq<nat>, q: nat, c: nat, k: nat): nat
    requires c < w && q <= k < |x| + q
  {
    Wrap(w, x[k - q] * Pow2(c)) + if k > q then Shr(x[k - q - 1], w - c) else 0
  }

  /** A limb split at the bit where the shift cuts it. */
  lemma CutLeft(w: nat, d: nat, c: nat)
    requires c < w && d < Pow2(w)
    ensures Shr(d, w - c) < Pow2(c)
    ensures Wrap(w, d * Pow2(c)) == (d % Pow2(w - c)) * Pow2(c)
    ensures d * Pow2(c) == Wrap(w, d * Pow2(c)) + Shr(d, w - c) * Pow2(w)
  {
    var h := Pow2(w - c);
    Pow2Add(c, w - c);
    DivAtLeast(d, h, Pow2(c));
    DivMulCancel(d, h, Pow2(c));
    DivModForm(d * Pow2(c), Pow2(w));
  }

  /** The limb with its incoming bits. */
  lemma JoinLeft(w: nat, d: nat, below: nat, c: nat)
    requires c < w && d < Pow2(w) && below < Pow2(w)
    ensures Or(Shl(w, d, c), Shr(below, w - c)) == Wrap(w, d * Pow2(c)) + Shr(below, w - c)
    ensures Wrap(w, d * Pow2(c)) + Shr(below, w - c) < Pow2(w)
  {
    CutLeft(w, d, c);
    CutLeft(w, below, c);
    Pow2Add(w - c, c);
    JoinBits(d % Pow2(w - c), Shr(below, w - c), c, Pow2(w - c));
  }

  lemma JoinBits(hi: nat, lo: nat, c: nat, h: nat)
    requires hi < h && lo < Pow2(c)
    ensures Or(hi * Pow2(c), lo) == hi * Pow2(c) + lo < h * Pow2(c)
  {
    OrDisjoint(hi, lo, c);
    TopDigit(lo, Pow2(c), hi, h);
  }

  /** Without bits to shift the limbs only move. */
  lemma MovedLimb(w: nat, x: seq<nat>, q: nat, k: nat)
    requires 0 < w && q <= k < |x| + q && IsWide(w, x)
    ensures LeftLimb(w, x, q, 0, k) == x[k - q]
  {
    assert Pow2(0) == 1;
    WrapSmall(w, x[k - q]);
    if k > q { ShrBound(w, x[k - q - 1], w); }
  }

  predicate ShiftedLeft(w: nat, x: seq<nat>, y: seq<nat>, q: nat, c: nat)
    requires c < w
  {
    |x| == |y| && q < |x|
    && (forall k :: 0 <= k < q ==> y[k] == 0)
    && (forall k :: q <= k < |x| ==> y[k] == LeftLimb(w, x, q, c, k))
  }

  /** The bits that limb `j - 1` hands up. */
  function Outgoing(w: nat, x: seq<nat>, c: nat, j: nat): nat
    requires c < w && j <= |x|
  {
    if j == 0 then 0 else Shr(x[j - 1], w - c)
  }

  lemma {:induction false} LeftValue(w: nat, x: seq<nat>, y: seq<nat>, q: nat, c: nat, j: nat)
    requires c < w && IsWide(w, x) && ShiftedLeft(w, x, y, q, c) && q + j <= |x|
    ensures Value(Pow2(w), y, q + j) + Outgoing(w, x, c, j) * Power(Pow2(w), q + j)
         == Value(Pow2(w), x, j) * (Pow2(c) * Power(Pow2(w), q))
  {
    var b := Pow2(w);
    if j == 0 {
      ZeroValue(b, y, q);
    } else {
      LeftValue(w, x, y, q, c, j - 1);
      CutLeft(w, x[j - 1], c);
      PowerAdd(b, j - 1, q);
      assert y[q + j - 1] == LeftLimb(w, x, q, c, q + j - 1);
      LeftStep(Value(b, y, q + j - 1), Outgoing(w, x, c, j - 1), Power(b, q + j - 1), Value(b, x, j - 1),
               Power(b, j - 1), Power(b, q), Pow2(c), x[j - 1], Wrap(w, x[j - 1] * Pow2(c)),
               Outgoing(w, x, c, j), b);
    }
  }

  lemma LeftStep(vy: nat, o: nat, pqj: nat, vx: nat, pj: nat, pq: nat, z: nat, d: nat, low: nat, o': nat, b: nat)
    requires vy + o * pqj == vx * (z * pq) && pqj == pj * pq && d * z == low + o' * b
    ensures (vy + (low + o) * pqj) + o' * (b * pqj) == (vx + d * pj) * (z * pq)
  {
  }

  lemma LeftParts(w: nat, x: seq<nat>, y: seq<nat>, q: nat, c: nat, z: nat, pq: nat, m: nat)
      returns (v: nat, h: nat, pr: nat, out: nat)
    requires c < w && IsWide(w, x) && IsWide(w, y) && ShiftedLeft(w, x, y, q, c)
    requires z == Pow2(c) && pq == Power(Pow2(w), q) && m == Modulus(w, |x|)
    ensures m == pr * pq && Number(w, x) == v + h * pr && Number(w, y) + out * m == v * (z * pq) && Number(w, y) < m
  {
    var n, b := |x|, Pow2(w);
    v, pr, out := Value(b, x, n - q), Power(b, n - q), Outgoing(w, x, c, n - q);
    h := HighPart(b, x, n - q, n);
    LeftValue(w, x, y, q, c, n - q);
    PowerAdd(b, n - q, q);
    NumberBound(w, y);
  }

  lemma LeftNumber(w: nat, x: seq<nat>, y: seq<nat>, q: nat, c: nat)
    requires c < w && IsWide(w, x) && IsWide(w, y) && ShiftedLeft(w, x, y, q, c)
    ensures Number(w, y) == (Number(w, x) * (Pow2(c) * Power(Pow2(w), q))) % Modulus(w, |x|)
  {
    var v, h, pr, out := LeftParts(w, x, y, q, c, Pow2(c), Power(Pow2(w), q), Modulus(w, |x|));
    Overflowed(v, h, pr, Power(Pow2(w), q), Pow2(c), Number(w, y), out);
  }

  lemma Overflowed(v: nat, h: nat, pr: nat, pq: nat, z: nat, y: nat, o: nat)
    requires pr * pq > 0 && y < pr * pq
    requires y + o * (pr * pq) == v * (z * pq)
    ensures ((v + h * pr) * (z * pq)) % (pr * pq) == y
  {
    var m := pr * pq;
    assert (h * pr) * (z * pq) == (h * z) * m;
    Distribute(z * pq, v, h * pr);
    Distribute(m, o, h * z);
    Residue((v + h * pr) * (z * pq), m, o + h * z, y);
  }

  /** Left shift by fewer bits than the type has. */
  method ShiftLeft(w: nat, x: seq<nat>, s: nat) returns (res: seq<nat>)
    requires w > 0 && IsWide(w, x) && s < w * |x|
    ensures IsWide(w, res) && |res| == |x|
    ensures Number(w, res) == (Number(w, x) * Pow2(s)) % Modulus(w, |x|)
  {
    var n, q, c := |x|, s / w, s % w;
    ShiftParts(w, s, n);
    res := seq(n, _ => 0);
    if c > 0 {
      res := ShiftLimbsLeft(w, x, q, c);
    } else {
      var k := n;
      while k > q
        invariant q <= k <= n && |res| == n
        invariant forall j :: 0 <= j < k ==> res[j] == 0
        invariant forall j :: k <= j < n ==> res[j] == LeftLimb(w, x, q, c, j) && res[j] < Pow2(w)
      {
        k := k - 1;
        MovedLimb(w, x, q, k);
        res := res[k := x[k - q]];
      }
    }
    LeftNumber(w, x, res, q, c);
    ShiftWeight(w, q, c);
  }

  method ShiftLimbsLeft(w: nat, x: seq<nat>, q: nat, c: nat) returns (res: seq<nat>)
    requires 0 < c < w && IsWide(w, x) && q < |x|
    ensures IsWide(w, res) && ShiftedLeft(w, x, res, q, c)
  {
    var n := |x|;
    res := seq(n, _ => 0);
    res := res[n - 1 := Shl(w, x[n - 1 - q], c)];
    var k := n - 1;
    while k > q
      invariant q <= k < n && |res| == n
      invariant forall j :: 0 <= j < k ==> res[j] == 0
      invariant res[k] == Shl(w, x[k - q], c)
      invariant forall j :: k < j < n ==> res[j] == LeftLimb(w, x, q, c, j) && res[j] < Pow2(w)
    {
      var below := x[k - q - 1];
      JoinLeft(w, x[k - q], below, c);
      res := res[k := Or(res[k], Shr(below, w - c))];
      res := res[k - 1 := Shl(w, below, c)];
      k := k - 1;
    }
  }

  // ----- right

  /** The limbs as if the sign went on for ever. */
  function Extended(x: seq<nat>, fill: nat, i: nat): nat { if i < |x| then x[i] else fill }

  /** The bits that a limb hands down. */
  function Incoming(w: nat, d: nat, c: nat): nat
    requires c < w
  {
    Low(d, c) * Pow2(w - c)
  }

  function Low(d: nat, c: nat): nat { d % Pow2(c) }

  function RightLimb(w: nat, x: seq<nat>, fill: nat, q: nat, c: nat, k: nat): nat
    requires c < w && k + q < |x|
  {
    Shr(x[k + q], c) + Incoming(w, Extended(x, fill, k + q + 1), c)
  }

  predicate ShiftedRight(w: nat, x: seq<nat>, y: seq<nat>, fill: nat, q: nat, c: nat)
    requires c < w
  {
    |x| == |y| && q < |x|
    && (forall k :: 0 <= k < |x| - q ==> y[k] == RightLimb(w, x, fill, q, c, k))
    && (forall k :: |x| - q <= k < |x| ==> y[k] == fill)
  }

  /** The limb with its incoming bits. */
  lemma JoinRight(w: nat, d: nat, above: nat, c: nat)
    requires 0 < c < w && d < Pow2(w) && above < Pow2(w)
    ensures Or(Shr(d, c), Shl(w, above, w - c)) == Shr(d, c) + Incoming(w, above, c) < Pow2(w)
  {
    ShrBound(w, d, c);
    CutLeft(w, above, w - c);
    OrCommutes(Shr(d, c), Shl(w, above, w - c));
    Pow2Add(c, w - c);
    JoinBits(Low(above, c), Shr(d, c), w - c, Pow2(c));
  }

  /** A limb, its low bits dropped and those of the next one taken in. */
  lemma CutRight(w: nat, d: nat, above: nat, c: nat)
    requires c < w
    ensures (Shr(d, c) + Incoming(w, above, c)) * Pow2(c) == d - Low(d, c) + Low(above, c) * Pow2(w)
  {
    DivModForm(d, Pow2(c));
    Pow2Add(w - c, c);
    CutAtPower(Shr(d, c), Low(d, c), Low(above, c), Pow2(c), Pow2(w - c));
  }

  lemma CutAtPower(q: int, r: int, above: int, p: int, y: int)
    ensures (q + above * y) * p == (q * p + r) - r + above * (y * p)
  {
  }

  /** What is dropped, in all. */
  function Dropped(w: nat, x: seq<nat>, q: nat, c: nat): nat
    requires q < |x|
  {
    Low(x[q], c) * Power(Pow2(w), q) + Value(Pow2(w), x, q)
  }

  lemma DroppedBound(w: nat, x: seq<nat>, q: nat, c: nat)
    requires q < |x| && IsWide(w, x)
    ensures Dropped(w, x, q, c) < Pow2(c) * Power(Pow2(w), q)
  {
    ValueBound(Pow2(w), x, q);
    TopDigit(Value(Pow2(w), x, q), Power(Pow2(w), q), Low(x[q], c), Pow2(c));
  }

  lemma {:induction false} RightValue(w: nat, x: seq<nat>, y: seq<nat>, fill: nat, q: nat, c: nat, j: nat)
    requires c < w && ShiftedRight(w, x, y, fill, q, c) && q + j <= |x|
    ensures Value(Pow2(w), y, j) * (Pow2(c) * Power(Pow2(w), q)) + Dropped(w, x, q, c)
         == Value(Pow2(w), x, q + j) + Low(Extended(x, fill, q + j), c) * Power(Pow2(w), q + j)
  {
    var b := Pow2(w);
    if j > 0 {
      RightValue(w, x, y, fill, q, c, j - 1);
      var d, above := x[q + j - 1], Extended(x, fill, q + j);
      assert y[j - 1] == RightLimb(w, x, fill, q, c, j - 1);
      CutRight(w, d, above, c);
      PowerAdd(b, j - 1, q);
      RightStep(Value(b, y, j - 1), y[j - 1], Power(b, j - 1), Power(b, q), Power(b, q + j - 1), Pow2(c),
                Dropped(w, x, q, c), Value(b, x, q + j - 1), d, Low(d, c), Low(above, c), b);
    }
  }

  lemma RightStep(vy: int, y: int, pj: int, pq: int, pqj: int, z: int,
                  dropped: int, vx: int, d: int, r: int, r': int, b: int)
    requires vy * (z * pq) + dropped == vx + r * pqj
    requires y * z == d - r + r' * b && pqj == pj * pq
    ensures (vy + y * pj) * (z * pq) + dropped == (vx + d * pqj) + r' * (b * pqj)
  {
  }

  /** All ones, cut at `c` bits. */
  lemma LowOfOnes(w: nat, c: nat)
    requires c <= w
    ensures Low(Pow2(w) - 1, c) == Pow2(c) - 1
  {
    Pow2Add(w - c, c);
    Distribute(Pow2(c), Pow2(w - c) - 1, 1);
    DivModUnique(Pow2(w) - 1, Pow2(c), Pow2(w - c) - 1, Pow2(c) - 1);
  }

  /** The numbers, with what `fill` stands for taken off: nothing, or one modulus. */
  lemma RightNumber(w: nat, x: seq<nat>, y: seq<nat>, ones: bool, q: nat, c: nat)
    requires c < w && IsWide(w, x)
    requires ShiftedRight(w, x, y, if ones then Pow2(w) - 1 else 0, q, c)
    ensures var m := if ones then Modulus(w, |x|) else 0;
            (Number(w, y) - m) * (Pow2(c) * Power(Pow2(w), q)) + Dropped(w, x, q, c) == Number(w, x) - m
  {
    if ones {
      FilledNumber(w, x, y, q, c, Pow2(c), Power(Pow2(w), q), Modulus(w, |x|));
    } else {
      ZeroFilledNumber(w, x, y, q, c);
    }
  }

  /** What is kept, what is dropped and the ones that come in from above. */
  lemma OnesComeIn(w: nat, x: seq<nat>, y: seq<nat>, q: nat, c: nat, z: nat, pq: nat, pn: nat)
    requires c < w && IsWide(w, x) && ShiftedRight(w, x, y, Pow2(w) - 1, q, c)
    requires z == Pow2(c) && pq == Power(Pow2(w), q) && pn == Modulus(w, |x|)
    ensures Value(Pow2(w), y, |x| - q) * (z * pq) + Dropped(w, x, q, c) == Number(w, x) + (z - 1) * pn
  {
    LowOfOnes(w, c);
    RightValue(w, x, y, Pow2(w) - 1, q, c, |x| - q);
  }

  lemma OnesAbove(w: nat, x: seq<nat>, y: seq<nat>, q: nat, c: nat, pq: nat, pn: nat) returns (v: int, pm: int)
    requires c < w && ShiftedRight(w, x, y, Pow2(w) - 1, q, c)
    requires pq == Power(Pow2(w), q) && pn == Modulus(w, |x|)
    ensures v == Value(Pow2(w), y, |x| - q) && pm * pq == pn && Number(w, y) + pm == v + pn
  {
    v, pm := Value(Pow2(w), y, |x| - q), Power(Pow2(w), |x| - q);
    PowerAdd(Pow2(w), |x| - q, q);
    OnesFilledValue(Pow2(w), y, |x| - q, |x|);
  }

  lemma FilledNumber(w: nat, x: seq<nat>, y: seq<nat>, q: nat, c: nat, z: nat, pq: nat, pn: nat)
    requires c < w && IsWide(w, x) && ShiftedRight(w, x, y, Pow2(w) - 1, q, c)
    requires z == Pow2(c) && pq == Power(Pow2(w), q) && pn == Modulus(w, |x|)
    ensures (Number(w, y) - pn) * (z * pq) + Dropped(w, x, q, c) == Number(w, x) - pn
  {
    OnesComeIn(w, x, y, q, c, z, pq, pn);
    var v, pm := OnesAbove(w, x, y, q, c, pq, pn);
    FilledSum(v, Number(w, y), z, z - 1, pq, Dropped(w, x, q, c), Number(w, x), pm, pn);
  }

  lemma ZeroFilledNumber(w: nat, x: seq<nat>, y: seq<nat>, q: nat, c: nat)
    requires c < w && IsWide(w, x) && ShiftedRight(w, x, y, 0, q, c)
    ensures Number(w, y) * (Pow2(c) * Power(Pow2(w), q)) + Dropped(w, x, q, c) == Number(w, x)
  {
    var b, n := Pow2(w), |x|;
    ZeroFilledValue(b, y, n - q, n);
    assert Low(0, c) == 0 by { DivModUnique(0, Pow2(c), 0, 0); }
    RightValue(w, x, y, 0, q, c, n - q);
    assert 0 * Power(b, n) == 0;
  }

  lemma FilledSum(v: int, v': int, z: int, r: int, pq: int, dropped: int, vx: int, pm: int, pn: int)
    requires v * (z * pq) + dropped == vx + r * pn && r == z - 1 && pm * pq == pn && v' + pm == v + pn
    ensures (v' - pn) * (z * pq) + dropped == vx - pn
  {
  }

  /** The sign survives, and the quotient is rounded down. */
  lemma RightReading(w: nat, signed: bool, x: seq<nat>, y: seq<nat>, q: nat, c: nat)
    requires c < w && IsWide(w, x) && IsWide(w, y)
    requires ShiftedRight(w, x, y, if signed && IsNegative(w, x) then Pow2(w) - 1 else 0, q, c)
    ensures Reading(w, signed, y) == Reading(w, signed, x) / (Pow2(c) * Power(Pow2(w), q))
  {
    var ones := signed && IsNegative(w, x);
    var m := if ones then Modulus(w, |x|) else 0;
    var z := Pow2(c) * Power(Pow2(w), q);
    DroppedBound(w, x, q, c);
    RightNumber(w, x, y, ones, q, c);
    DivModUnique(Number(w, x) - m, z, Number(w, y) - m, Dropped(w, x, q, c));
    ReadingRange(w, x);
    ReadingRange(w, y);
    QuotientNearer(Reading(w, signed, x), z);
  }

  lemma QuotientNearer(x: int, z: int)
    requires z > 0
    ensures x >= 0 ==> 0 <= x / z <= x
    ensures x < 0 ==> x <= x / z < 0
  {
    DivAtLeast(x, z, 0);
    DivAtLeast(x, z, x + 1);
    DivAtLeast(x, z, x);
    if x >= 0 { MulMonotone(x + 1, 1, z); } else { MulMonotone(0 - x, 1, z); }
  }

  /** Right shift by fewer bits than the type has, rounding down; arithmetic when the type is signed. */
  method ShiftRight(w: nat, signed: bool, x: seq<nat>, s: nat) returns (res: seq<nat>)
    requires w > 0 && IsWide(w, x) && s < w * |x|
    ensures IsWide(w, res) && |res| == |x|
    ensures Reading(w, signed, res) == Reading(w, signed, x) / Pow2(s)
  {
    var n, q, c := |x|, s / w, s % w;
    ShiftParts(w, s, n);
    var negative := signed && IsNegative(w, x);
    if c > 0 {
      res := ShiftLimbsRight(w, x, negative, q, c);
    } else {
      res := MoveLimbsRight(w, x, negative, q);
    }
    RightReading(w, signed, x, res, q, c);
    ShiftWeight(w, q, c);
  }

  /** The sign, or zeros, in the `q` top limbs. */
  method Fill(x: seq<nat>, q: nat, fill: nat) returns (res: seq<nat>)
    requires q <= |x|
    ensures |res| == |x|
    ensures forall k :: 0 <= k < |x| - q ==> res[k] == x[k]
    ensures forall k :: |x| - q <= k < |x| ==> res[k] == fill
  {
    var n := |x|;
    res := x;
    var i := 0;
    while i < q
      invariant 0 <= i <= q && |res| == n
      invariant forall k :: 0 <= k < n - i ==> res[k] == x[k]
      invariant forall k :: n - i <= k < n ==> res[k] == fill
    {
      res := res[n - 1 - i := fill];
      i := i + 1;
    }
  }

  method MoveLimbsRight(w: nat, x: seq<nat>, negative: bool, q: nat) returns (res: seq<nat>)
    requires w > 0 && IsWide(w, x) && q < |x|
    ensures IsWide(w, res) && ShiftedRight(w, x, res, if negative then Pow2(w) - 1 else 0, q, 0)
  {
    var n := |x|;
    var fill := if negative then Pow2(w) - 1 else 0;
    res := seq(n, _ => 0);
    var i := 0;
    while i < n - q
      invariant 0 <= i <= n - q && |res| == n
      invariant forall k :: 0 <= k < i ==> res[k] == RightLimb(w, x, fill, q, 0, k) && res[k] < Pow2(w)
    {
      assert Pow2(0) == 1 && Low(Extended(x, fill, i + q + 1), 0) == 0 && Shr(x[i + q], 0) == x[i + q];
      res := res[i := x[i + q]];
      i := i + 1;
    }
    res := Fill(res, q, fill);
  }

  method ShiftLimbsRight(w: nat, x: seq<nat>, negative: bool, q: nat, c: nat) returns (res: seq<nat>)
    requires 0 < c < w && IsWide(w, x) && q < |x|
    ensures IsWide(w, res) && ShiftedRight(w, x, res, if negative then Pow2(w) - 1 else 0, q, c)
  {
    var n := |x|;
    var fill := if negative then Pow2(w) - 1 else 0;
    res := seq(n, _ => 0);
    res := res[0 := Shr(x[q], c)];
    var i := 1;
    while i < n - q
      invariant 1 <= i <= n - q && |res| == n
      invariant res[i - 1] == Shr(x[q + i - 1], c)
      invariant forall k :: 0 <= k < i - 1 ==> res[k] == RightLimb(w, x, fill, q, c, k) && res[k] < Pow2(w)
    {
      JoinRight(w, x[q + i - 1], x[q + i], c);
      res := res[i - 1 := Or(res[i - 1], Shl(w, x[q + i], w - c))];
      res := res[i := Shr(x[q + i], c)];
      i := i + 1;
    }
    JoinRight(w, x[n - 1], fill, c);
    if negative {
      res := res[n - 1 - q := Or(res[n - 1 - q], Shl(w, Pow2(w) - 1, w - c))];
    } else {
      assert Low(0, c) == 0 by { DivModUnique(0, Pow2(c), 0, 0); }
    }
    res := Fill(res, q, fill);
  }

  // ----- shifts by any number of bits

  lemma AllOnes(w: nat, x: seq<nat>)
    requires w > 0 && |x| > 0 && forall i :: 0 <= i < |x| ==> x[i] == Pow2(w) - 1
    ensures IsWide(w, x) && IsNegative(w, x) && Reading(w, true, x) == -1
  {
    OnesFilledValue(Pow2(w), x, 0, |x|);
  }

  lemma AllZeros(w: nat, signed: bool, n: nat)
    requires w > 0 && n > 0
    ensures var x := Padded([], n, 0); IsWide(w, x) && Reading(w, signed, x) == 0
  {
    ZeroFilledValue(Pow2(w), Padded([], n, 0), 0, n);
  }

  /** Rounding down a number that is shifted out altogether leaves its sign. */
  lemma ShiftedOut(w: nat, signed: bool, x: seq<nat>, s: nat)
    requires w > 0 && IsWide(w, x) && w * |x| <= s
    ensures Reading(w, signed, x) / Pow2(s) == if signed && IsNegative(w, x) then -1 else 0
  {
    var v, p := Reading(w, signed, x), Pow2(s);
    PowerOfPow2(w, |x|);
    Pow2Monotone(w * |x|, s);
    NumberBound(w, x);
    ReadingRange(w, x);
    if signed && IsNegative(w, x) { DivModUnique(v, p, -1, v + p); } else { DivModUnique(v, p, 0, v); }
  }

  /** The shift operator: by all the bits or more it gives zero, which is the number rounded down if and only
      if it is not negative. A negative count is taken for a very large one. */
  method OperatorShiftRight(w: nat, signed: bool, x: seq<nat>, n: int) returns (res: seq<nat>)
    requires w > 0 && IsWide(w, x)
    ensures IsWide(w, res) && |res| == |x|
    ensures n >= 0 ==> (Reading(w, signed, res) == Reading(w, signed, x) / Pow2(n) <==>
                          n < w * |x| || !(signed && IsNegative(w, x)))
    ensures n < 0 || n >= w * |x| ==> Reading(w, signed, res) == 0
  {
    if n < 0 || n >= w * |x| {
      AllZeros(w, signed, |x|);
      res := Padded([], |x|, 0);
      if n >= 0 { ShiftedOut(w, signed, x, n); }
    } else if n == 0 {
      res := x;
    } else {
      res := ShiftRight(w, signed, x, n);
    }
  }

  /** The assignment by all the bits or more leaves the sign, and so rounds down always. */
  method AssignShiftRight(w: nat, signed: bool, x: seq<nat>, n: int) returns (res: seq<nat>)
    requires w > 0 && IsWide(w, x)
    ensures IsWide(w, res) && |res| == |x|
    ensures n >= 0 ==> Reading(w, signed, res) == Reading(w, signed, x) / Pow2(n)
    ensures n < 0 ==> Reading(w, signed, res) == if signed && IsNegative(w, x) then -1 else 0
  {
    if n < 0 || n >= w * |x| {
      AllZeros(w, signed, |x|);
      AllOnes(w, Padded([], |x|, Pow2(w) - 1));
      res := Padded([], |x|, if signed && IsNegative(w, x) then Pow2(w) - 1 else 0);
      if n >= 0 { ShiftedOut(w, signed, x, n); }
    } else if n > 0 {
      res := ShiftRight(w, signed, x, n);
    } else {
      res := x;
    }
  }
}

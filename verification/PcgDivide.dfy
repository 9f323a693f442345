/** The other operations on the four-word integers of the random number generator, and division by repeated
    subtraction of a shifted divisor. */
module PcgDivide {
  import opened Words
  import opened LimbInteger
  import opened LimbShift
  import opened LimbMultiply
  import opened PcgUint128

  // ----- sums and differences

  /** A chain of four digits, each taking the carry of the one below and handing on its own. */
  lemma Chain(b: int, x0: int, x1: int, x2: int, x3: int, v0: int, v1: int, v2: int, v3: int,
              c0: int, c1: int, c2: int, c3: int)
    requires v0 + c0 * b == x0 && v1 + c1 * b == x1 + c0 && v2 + c2 * b == x2 + c1 && v3 + c3 * b == x3 + c2
    ensures v0 + v1 * b + v2 * (b * b) + v3 * (b * (b * b)) + c3 * ((b * b) * (b * b))
         == x0 + x1 * b + x2 * (b * b) + x3 * (b * (b * b))
  {
    var d, e := b * b, b * (b * b);
    assert v1 * b + c1 * d == x1 * b + c0 * b by { Distribute(b, v1, c1 * b); Distribute(b, x1, c0); }
    assert v2 * d + c2 * e == x2 * d + c1 * d by { Distribute(d, v2, c2 * b); Distribute(d, x2, c1); }
    assert v3 * e + c3 * (d * d) == x3 * e + c2 * e by { Distribute(e, v3, c3 * b); Distribute(e, x3, c2); }
  }

  /** A difference of two words and a borrow: the word, and whether it wrapped. */
  function SubWithCarry(w: nat, x: nat, y: nat, carry: bool): (r: (nat, bool))
    requires w > 0 && x < Pow2(w) && y < Pow2(w)
    ensures r.0 < Pow2(w)
    ensures r.0 - (if r.1 then Pow2(w) else 0) == x - y - if carry then 1 else 0
  {
    var half := Wrap(w, y + if carry then 1 else 0);
    var result := Wrap(w, x - half);
    Pow2Monotone(1, w);
    WrapOnce(w, y + if carry then 1 else 0);
    WrapBelow(w, x - half);
    (result, half < y || result > x)
  }

  lemma WrapBelow(w: nat, x: int)
    requires -1 * Pow2(w) <= x < Pow2(w)
    ensures Wrap(w, x) == if x < 0 then x + Pow2(w) else x
  {
    if x < 0 { DivModUnique(x, Pow2(w), -1, x + Pow2(w)); } else { WrapSmall(w, x); }
  }

  function Carry(b: int, c: bool): int { if c then b else 0 }

  function Bit(c: bool): int { if c then 1 else 0 }

  /** Four digits as one number. */
  function Join(b: int, x0: int, x1: int, x2: int, x3: int): int {
    x0 + x1 * b + x2 * (b * b) + x3 * (b * (b * b))
  }

  lemma JoinSums(b: int, x0: int, x1: int, x2: int, x3: int, y0: int, y1: int, y2: int, y3: int)
    ensures Join(b, x0 + y0, x1 + y1, x2 + y2, x3 + y3) == Join(b, x0, x1, x2, x3) + Join(b, y0, y1, y2, y3)
  {
    Distribute(b, x1, y1);
    Distribute(b * b, x2, y2);
    Distribute(b * (b * b), x3, y3);
  }

  lemma Words4(w: nat, x: seq<nat>)
    requires |x| == 4
    ensures Number(w, x) == Join(Pow2(w), x[0], x[1], x[2], x[3])
  {
    FourLimbs(Pow2(w), x);
  }

  /** Four digits with carries between them, put together. */
  lemma CarriedSum(b: int, t0: int, t1: int, t2: int, t3: int, v0: int, v1: int, v2: int, v3: int,
                   c0: bool, c1: bool, c2: bool, c3: bool)
    requires v0 + Carry(b, c0) == t0 && v1 + Carry(b, c1) == t1 + Bit(c0)
    requires v2 + Carry(b, c2) == t2 + Bit(c1) && v3 + Carry(b, c3) == t3 + Bit(c2)
    ensures Join(b, v0, v1, v2, v3) + Bit(c3) * ((b * b) * (b * b)) == Join(b, t0, t1, t2, t3)
  {
    Chain(b, t0, t1, t2, t3, v0, v1, v2, v3, Bit(c0), Bit(c1), Bit(c2), Bit(c3));
  }

  lemma BorrowedSum(b: int, t0: int, t1: int, t2: int, t3: int, v0: int, v1: int, v2: int, v3: int,
                    c0: bool, c1: bool, c2: bool, c3: bool)
    requires v0 - Carry(b, c0) == t0 && v1 - Carry(b, c1) == t1 - Bit(c0)
    requires v2 - Carry(b, c2) == t2 - Bit(c1) && v3 - Carry(b, c3) == t3 - Bit(c2)
    ensures Join(b, v0, v1, v2, v3) + (0 - Bit(c3)) * ((b * b) * (b * b)) == Join(b, t0, t1, t2, t3)
  {
    Chain(b, t0, t1, t2, t3, v0, v1, v2, v3, 0 - Bit(c0), 0 - Bit(c1), 0 - Bit(c2), 0 - Bit(c3));
  }

  lemma ResidueOfWords(w: nat, r: seq<nat>, total: int, c: int)
    requires IsX4(w, r) && Join(Pow2(w), r[0], r[1], r[2], r[3]) + c * Modulus(w, 4) == total
    ensures Number(w, r) == total % Modulus(w, 4)
  {
    Words4(w, r);
    NumberBound(w, r);
    Residue(total, Modulus(w, 4), c, Number(w, r));
  }

  /** The sum modulo `2^4w`. */
  method Plus4(w: nat, x: seq<nat>, y: seq<nat>) returns (r: seq<nat>)
    requires w > 0 && IsX4(w, x) && IsX4(w, y)
    ensures IsX4(w, r) && Number(w, r) == (Number(w, x) + Number(w, y)) % Modulus(w, 4)
  {
    var (v0, c0) := AddWithCarry(w, x[0], y[0], false);
    var (v1, c1) := AddWithCarry(w, x[1], y[1], c0);
    var (v2, c2) := AddWithCarry(w, x[2], y[2], c1);
    var (v3, c3) := AddWithCarry(w, x[3], y[3], c2);
    r := [v0, v1, v2, v3];
    Added(w, x, y, r, c0, c1, c2, c3);
  }

  lemma Added(w: nat, x: seq<nat>, y: seq<nat>, r: seq<nat>, c0: bool, c1: bool, c2: bool, c3: bool)
    requires IsX4(w, x) && IsX4(w, y) && IsX4(w, r)
    requires r[0] + Carry(Pow2(w), c0) == x[0] + y[0] && r[1] + Carry(Pow2(w), c1) == x[1] + y[1] + Bit(c0)
    requires r[2] + Carry(Pow2(w), c2) == x[2] + y[2] + Bit(c1) && r[3] + Carry(Pow2(w), c3) == x[3] + y[3] + Bit(c2)
    ensures Number(w, r) == (Number(w, x) + Number(w, y)) % Modulus(w, 4)
  {
    var b := Pow2(w);
    CarriedSum(b, x[0] + y[0], x[1] + y[1], x[2] + y[2], x[3] + y[3], r[0], r[1], r[2], r[3], c0, c1, c2, c3);
    JoinSums(b, x[0], x[1], x[2], x[3], y[0], y[1], y[2], y[3]);
    Words4(w, x);
    Words4(w, y);
    ModulusOfFour(w);
    ResidueOfWords(w, r, Number(w, x) + Number(w, y), Bit(c3));
  }

  /** The difference modulo `2^4w`. */
  method Minus4(w: nat, x: seq<nat>, y: seq<nat>) returns (r: seq<nat>)
    requires w > 0 && IsX4(w, x) && IsX4(w, y)
    ensures IsX4(w, r) && Number(w, r) == (Number(w, x) - Number(w, y)) % Modulus(w, 4)
  {
    var (v0, c0) := SubWithCarry(w, x[0], y[0], false);
    var (v1, c1) := SubWithCarry(w, x[1], y[1], c0);
    var (v2, c2) := SubWithCarry(w, x[2], y[2], c1);
    var (v3, c3) := SubWithCarry(w, x[3], y[3], c2);
    r := [v0, v1, v2, v3];
    Subtracted(w, x, y, r, c0, c1, c2, c3);
  }

  lemma Subtracted(w: nat, x: seq<nat>, y: seq<nat>, r: seq<nat>, c0: bool, c1: bool, c2: bool, c3: bool)
    requires IsX4(w, x) && IsX4(w, y) && IsX4(w, r)
    requires r[0] - Carry(Pow2(w), c0) == Difference(x[0], y[0])
    requires r[1] - Carry(Pow2(w), c1) == Difference(x[1], y[1]) - Bit(c0)
    requires r[2] - Carry(Pow2(w), c2) == Difference(x[2], y[2]) - Bit(c1)
    requires r[3] - Carry(Pow2(w), c3) == Difference(x[3], y[3]) - Bit(c2)
    ensures Number(w, r) == (Number(w, x) - Number(w, y)) % Modulus(w, 4)
  {
    var b := Pow2(w);
    BorrowedSum(b, Difference(x[0], y[0]), Difference(x[1], y[1]), Difference(x[2], y[2]), Difference(x[3], y[3]),
                r[0], r[1], r[2], r[3], c0, c1, c2, c3);
    JoinSums(b, Difference(x[0], y[0]), Difference(x[1], y[1]), Difference(x[2], y[2]), Difference(x[3], y[3]),
             y[0], y[1], y[2], y[3]);
    Words4(w, x);
    Words4(w, y);
    ModulusOfFour(w);
    ResidueOfWords(w, r, Number(w, x) - Number(w, y), 0 - Bit(c3));
  }

  // ----- comparison and logarithm

  /** The two words at `i` and `i + 1` as one. */
  function DoubleWord(w: nat, x: seq<nat>, i: nat): nat
    requires i + 1 < |x|
  {
    x[i] + Times(x[i + 1], Pow2(w))
  }

  lemma DoubleWords(w: nat, x: seq<nat>)
    requires IsX4(w, x)
    ensures Number(w, x) == DoubleWord(w, x, 0) + DoubleWord(w, x, 2) * (Pow2(w) * Pow2(w))
    ensures DoubleWord(w, x, 0) < Pow2(w) * Pow2(w)
  {
    var b := Pow2(w);
    Words4(w, x);
    Distribute(b * b, x[2], x[3] * b);
    Associate(x[3], b, b * b);
    TopDigit(x[0], b, x[1], b);
  }

  /** The upper halves decide, or the lower ones if they are equal. */
  predicate Less4(w: nat, x: seq<nat>, y: seq<nat>)
    requires |x| == |y| == 4
  {
    DoubleWord(w, x, 2) < DoubleWord(w, y, 2)
    || (DoubleWord(w, x, 2) == DoubleWord(w, y, 2) && DoubleWord(w, x, 0) < DoubleWord(w, y, 0))
  }

  lemma HighDecides(lo: int, hi: int, lo': int, hi': int, m: int)
    requires 0 <= lo < m && 0 <= lo' < m
    ensures hi < hi' ==> lo + hi * m < lo' + hi' * m
    ensures hi == hi' ==> (lo + hi * m < lo' + hi' * m <==> lo < lo')
  {
    if hi < hi' {
      MulMonotone(m, hi + 1, hi');
      Distribute(m, hi, 1);
    }
  }

  lemma LessIsLess(w: nat, x: seq<nat>, y: seq<nat>)
    requires IsX4(w, x) && IsX4(w, y)
    ensures Less4(w, x, y) <==> Number(w, x) < Number(w, y)
  {
    DoubleWords(w, x);
    DoubleWords(w, y);
    var m := Pow2(w) * Pow2(w);
    HighDecides(DoubleWord(w, x, 0), DoubleWord(w, x, 2), DoubleWord(w, y, 0), DoubleWord(w, y, 2), m);
    HighDecides(DoubleWord(w, y, 0), DoubleWord(w, y, 2), DoubleWord(w, x, 0), DoubleWord(w, x, 2), m);
  }

  /** The floor of the binary logarithm, from the highest word that is not zero. */
  method FloorLog4(w: nat, x: seq<nat>) returns (l: nat)
    requires w > 0 && IsX4(w, x) && Number(w, x) > 0
    ensures l == BitLength(Number(w, x)) - 1
  {
    ghost var b := Pow2(w);
    var i := 4;
    while true
      invariant 0 <= i <= 4 && Value(b, x, i) == Number(w, x)
      decreases i
    {
      if i == 0 { assert false; }
      i := i - 1;
      if x[i] != 0 {
        TopWord(w, x, i);
        return BitLength(x[i]) - 1 + w * i;
      }
      assert x[i] * Power(b, i) == 0;
    }
  }

  lemma TopParts(w: nat, x: seq<nat>, i: nat) returns (v: nat, b: nat, q: nat)
    requires IsWide(w, x) && i < |x|
    ensures Value(Pow2(w), x, i + 1) == v + x[i] * b && v < b == Pow2(q) && q == w * i
  {
    v, b, q := Value(Pow2(w), x, i), Power(Pow2(w), i), w * i;
    ValueBound(Pow2(w), x, i);
    PowerOfPow2(w, i);
  }

  lemma TopWord(w: nat, x: seq<nat>, i: nat)
    requires IsWide(w, x) && i < |x| && x[i] > 0
    ensures BitLength(x[i]) > 0 && BitLength(Value(Pow2(w), x, i + 1)) == BitLength(x[i]) + w * i
  {
    var v, b, q := TopParts(w, x, i);
    TopDigitLength(v, x[i], b, q);
  }

  lemma TopDigitLength(v: nat, d: nat, b: nat, q: nat)
    requires d > 0 && v < b == Pow2(q)
    ensures BitLength(d) > 0 && BitLength(v + d * b) == BitLength(d) + q
  {
    var l := BitLength(d);
    BitLengthBrackets(d);
    assert Pow2(l - 1 + q) <= d * b by {
      Pow2Add(l - 1, q);
      MulMonotone(b, Pow2(l - 1), d);
    }
    assert v + d * b < Pow2(l + q) by {
      Pow2Add(l, q);
      TopDigit(v, b, d, Pow2(l));
    }
    BitLengthUnique(v + d * b, l - 1 + q);
  }

  // ----- shifts

  /** Each word takes what the one below hands up. */
  method ShiftWords(w: nat, v: seq<nat>, shiftDiv: nat, shiftMod: nat) returns (r: seq<nat>)
    requires IsX4(w, v) && shiftDiv < 4 && 0 < shiftMod < w
    ensures IsX4(w, r) && ShiftedLeft(w, v, r, shiftDiv, shiftMod)
  {
    r := [0, 0, 0, 0];
    var out, carryover := shiftDiv, 0;
    while out < 4
      invariant shiftDiv <= out <= 4 && |r| == 4
      invariant carryover == if out > shiftDiv then Shr(v[out - shiftDiv - 1], w - shiftMod) else 0
      invariant forall k :: 0 <= k < shiftDiv ==> r[k] == 0
      invariant forall k :: shiftDiv <= k < out ==> r[k] == LeftLimb(w, v, shiftDiv, shiftMod, k) < Pow2(w)
    {
      LeftWord(w, v, shiftDiv, shiftMod, out);
      r := r[out := Or(Shl(w, v[out - shiftDiv], shiftMod), carryover)];
      carryover := Shr(v[out - shiftDiv], w - shiftMod);
      out := out + 1;
    }
  }

  method MoveWords(w: nat, v: seq<nat>, shiftDiv: nat) returns (r: seq<nat>)
    requires w > 0 && IsX4(w, v) && shiftDiv < 4
    ensures IsX4(w, r) && ShiftedLeft(w, v, r, shiftDiv, 0)
  {
    r := [0, 0, 0, 0];
    var out := shiftDiv;
    while out < 4
      invariant shiftDiv <= out <= 4 && |r| == 4
      invariant forall k :: 0 <= k < shiftDiv ==> r[k] == 0
      invariant forall k :: shiftDiv <= k < out ==> r[k] == LeftLimb(w, v, shiftDiv, 0, k) < Pow2(w)
    {
      MovedLimb(w, v, shiftDiv, out);
      r := r[out := v[out - shiftDiv]];
      out := out + 1;
    }
  }

  /** Left shift by fewer bits than there are. */
  method ShiftLeft4(w: nat, v: seq<nat>, shift: nat) returns (r: seq<nat>)
    requires w > 0 && IsX4(w, v) && shift < 4 * w
    ensures IsX4(w, r) && Number(w, r) == (Number(w, v) * Pow2(shift)) % Modulus(w, 4)
  {
    var shiftDiv, shiftMod := shift / w, shift % w;
    ShiftParts(w, shift, 4);
    if shiftMod > 0 {
      r := ShiftWords(w, v, shiftDiv, shiftMod);
    } else {
      r := MoveWords(w, v, shiftDiv);
    }
    LeftNumber(w, v, r, shiftDiv, shiftMod);
    ShiftWeight(w, shiftDiv, shiftMod);
  }

  lemma LeftWord(w: nat, v: seq<nat>, q: nat, c: nat, k: nat)
    requires 0 < c < w && IsWide(w, v) && q <= k < |v|
    ensures var carryover := if k > q then Shr(v[k - q - 1], w - c) else 0;
            Or(Shl(w, v[k - q], c), carryover) == LeftLimb(w, v, q, c, k) < Pow2(w)
  {
    if k > q {
      JoinLeft(w, v[k - q], v[k - q - 1], c);
    } else {
      OrZero(Shl(w, v[0], c));
      OrCommutes(Shl(w, v[0], c), 0);
    }
  }

  /** From the top, each word takes what the one above hands down. */
  method ShiftWordsDown(w: nat, v: seq<nat>, shiftDiv: nat, shiftMod: nat) returns (r: seq<nat>)
    requires IsX4(w, v) && shiftDiv < 4 && 0 < shiftMod < w
    ensures IsX4(w, r) && ShiftedRight(w, v, r, 0, shiftDiv, shiftMod)
  {
    r := [0, 0, 0, 0];
    var out, carryover := 4 - shiftDiv, 0;
    assert Low(0, shiftMod) == 0 by { DivModUnique(0, Pow2(shiftMod), 0, 0); }
    while out != 0
      invariant 0 <= out <= 4 - shiftDiv && |r| == 4
      invariant carryover == Incoming(w, Extended(v, 0, out + shiftDiv), shiftMod)
      invariant forall k :: 4 - shiftDiv <= k < 4 ==> r[k] == 0
      invariant forall k :: out <= k < 4 - shiftDiv ==> r[k] == RightLimb(w, v, 0, shiftDiv, shiftMod, k) < Pow2(w)
    {
      out := out - 1;
      RightWord(w, v, shiftDiv, shiftMod, out);
      r := r[out := Or(Shr(v[out + shiftDiv], shiftMod), carryover)];
      carryover := Shl(w, v[out + shiftDiv], w - shiftMod);
    }
  }

  lemma RightWord(w: nat, v: seq<nat>, q: nat, c: nat, k: nat)
    requires 0 < c < w && IsWide(w, v) && k + q < |v|
    ensures Or(Shr(v[k + q], c), Incoming(w, Extended(v, 0, k + q + 1), c)) == RightLimb(w, v, 0, q, c, k) < Pow2(w)
    ensures Shl(w, v[k + q], w - c) == Incoming(w, Extended(v, 0, k + q), c)
  {
    var above := Extended(v, 0, k + q + 1);
    JoinRight(w, v[k + q], above, c);
    CutLeft(w, above, w - c);
    CutLeft(w, v[k + q], w - c);
  }

  method MoveWordsDown(w: nat, v: seq<nat>, shiftDiv: nat) returns (r: seq<nat>)
    requires w > 0 && IsX4(w, v) && shiftDiv < 4
    ensures IsX4(w, r) && ShiftedRight(w, v, r, 0, shiftDiv, 0)
  {
    r := [0, 0, 0, 0];
    var out := 4 - shiftDiv;
    assert Pow2(0) == 1;
    while out != 0
      invariant 0 <= out <= 4 - shiftDiv && |r| == 4
      invariant forall k :: 4 - shiftDiv <= k < 4 ==> r[k] == 0
      invariant forall k :: out <= k < 4 - shiftDiv ==> r[k] == RightLimb(w, v, 0, shiftDiv, 0, k) < Pow2(w)
    {
      out := out - 1;
      r := r[out := v[out + shiftDiv]];
    }
  }

  /** Right shift by fewer bits than there are. */
  method ShiftRight4(w: nat, v: seq<nat>, shift: nat) returns (r: seq<nat>)
    requires w > 0 && IsX4(w, v) && shift < 4 * w
    ensures IsX4(w, r) && Number(w, r) == Number(w, v) / Pow2(shift)
  {
    var shiftDiv, shiftMod := shift / w, shift % w;
    ShiftParts(w, shift, 4);
    if shiftMod > 0 {
      r := ShiftWordsDown(w, v, shiftDiv, shiftMod);
    } else {
      r := MoveWordsDown(w, v, shiftDiv);
    }
    RightReading(w, false, v, r, shiftDiv, shiftMod);
    ShiftWeight(w, shiftDiv, shiftMod);
  }

  // ----- division

  lemma ShiftFits(dividend: nat, divisor: nat, l: nat, k: nat)
    requires 0 < divisor < Pow2(l) && Pow2(l + k) <= dividend
    ensures divisor * Pow2(k) <= dividend && Pow2(k) <= divisor * Pow2(k)
  {
    Pow2Add(l, k);
    MulMonotone(Pow2(k), divisor, Pow2(l));
    MulMonotone(Pow2(k), 1, divisor);
  }

  /** The divisor times `2^k`, halved: exact while `k` lasts, and then below the divisor. */
  lemma HalveFactor(divisor: nat, factor: nat, qfactor: nat, k: nat)
    requires factor == divisor * Pow2(k) && qfactor == Pow2(k)
    ensures k > 0 ==> Shr(factor, 1) == divisor * Pow2(k - 1) && Shr(qfactor, 1) == Pow2(k - 1)
    ensures k == 0 ==> factor == divisor
  {
    assert Pow2(1) == 2;
    if k > 0 { Associate(divisor, 2, Pow2(k - 1)); }
  }

  /** The factors halved until they fit. If what is left is less than the divisor they no longer mean
      anything, and the division is over. */
  method Shrink(w: nat, rest: seq<nat>, ghost divisor: nat, factor: seq<nat>, qfactor: seq<nat>, ghost k: nat)
      returns (f: seq<nat>, q: seq<nat>, ghost j: nat)
    requires w > 0 && IsX4(w, rest) && IsX4(w, factor) && IsX4(w, qfactor)
    requires divisor > 0 && Number(w, factor) == divisor * Pow2(k) && Number(w, qfactor) == Pow2(k)
    ensures IsX4(w, f) && IsX4(w, q)
    ensures Number(w, rest) >= divisor ==>
              Number(w, f) == divisor * Pow2(j) && Number(w, q) == Pow2(j) && Number(w, f) <= Number(w, rest)
  {
    f, q, j := factor, qfactor, k;
    ghost var live := true;
    LessIsLess(w, rest, f);
    while Less4(w, rest, f)
      invariant IsX4(w, f) && IsX4(w, q) && (Less4(w, rest, f) <==> Number(w, rest) < Number(w, f))
      invariant live ==> Number(w, f) == divisor * Pow2(j) && Number(w, q) == Pow2(j)
      invariant !live ==> Number(w, rest) < divisor
      decreases Number(w, f)
    {
      assert Pow2(1) == 2;
      if live {
        HalveFactor(divisor, Number(w, f), Number(w, q), j);
        if j == 0 { live := false; } else { j := j - 1; }
      }
      f := ShiftRight4(w, f, 1);
      q := ShiftRight4(w, q, 1);
      LessIsLess(w, rest, f);
    }
  }

  /** A shift that loses nothing. */
  method ShiftWithin(w: nat, v: seq<nat>, shift: nat) returns (r: seq<nat>)
    requires w > 0 && IsX4(w, v) && shift < 4 * w && Number(w, v) * Pow2(shift) < Modulus(w, 4)
    ensures IsX4(w, r) && Number(w, r) == Number(w, v) * Pow2(shift)
  {
    r := ShiftLeft4(w, v, shift);
    MulMonotone(Pow2(shift), 0, Number(w, v));
    DivModUnique(Number(w, v) * Pow2(shift), Modulus(w, 4), 0, Number(w, v) * Pow2(shift));
  }

  lemma FactorsWithin(bits: nat, x: nat, d: nat, logDiff: nat)
    requires 0 < d <= x < Pow2(bits) && logDiff == BitLength(x) - BitLength(d) > 0
    ensures logDiff < bits && d * Pow2(logDiff - 1) <= x && Pow2(logDiff - 1) <= d * Pow2(logDiff - 1)
  {
    BitLengthBrackets(x);
    BitLengthBrackets(d);
    BitLengthWithin(x, bits);
    ShiftFits(x, d, BitLength(d), logDiff - 1);
  }

  lemma FactorsFit(w: nat, dividend: seq<nat>, divisor: seq<nat>, logDiff: nat)
    requires IsX4(w, dividend) && IsX4(w, divisor) && 0 < Number(w, divisor) <= Number(w, dividend)
    requires logDiff == BitLength(Number(w, dividend)) - BitLength(Number(w, divisor)) > 0
    ensures logDiff < 4 * w && Number(w, dividend) < Modulus(w, 4)
    ensures Number(w, divisor) * Pow2(logDiff - 1) <= Number(w, dividend)
    ensures Pow2(logDiff - 1) <= Number(w, divisor) * Pow2(logDiff - 1)
  {
    NumberBound(w, dividend);
    PowerOfPow2(w, 4);
    FactorsWithin(w * 4, Number(w, dividend), Number(w, divisor), logDiff);
  }

  /** The factors to begin with: the divisor moved up under the dividend, and the power of two it was moved by. */
  method Factors(w: nat, dividend: seq<nat>, divisor: seq<nat>, logDiff: nat)
      returns (factor: seq<nat>, qfactor: seq<nat>)
    requires w > 0 && IsX4(w, dividend) && IsX4(w, divisor) && 0 < Number(w, divisor) <= Number(w, dividend)
    requires logDiff == BitLength(Number(w, dividend)) - BitLength(Number(w, divisor)) > 0
    ensures IsX4(w, factor) && IsX4(w, qfactor)
    ensures Number(w, factor) == Number(w, divisor) * Pow2(logDiff - 1) <= Number(w, dividend)
    ensures Number(w, qfactor) == Pow2(logDiff - 1)
  {
    FactorsFit(w, dividend, divisor, logDiff);
    Pow2Monotone(1, w);
    LoneWord(w, 1);
    qfactor := ShiftWithin(w, [1, 0, 0, 0], logDiff - 1);
    factor := ShiftWithin(w, divisor, logDiff - 1);
  }

  /** One subtraction of the shifted divisor. */
  method TakeOff(w: nat, dividend: seq<nat>, quotient: seq<nat>, factor: seq<nat>, qfactor: seq<nat>)
      returns (rest: seq<nat>, more: seq<nat>)
    requires w > 0 && IsX4(w, dividend) && IsX4(w, quotient) && IsX4(w, factor) && IsX4(w, qfactor)
    requires Number(w, factor) <= Number(w, dividend) && Number(w, quotient) + Number(w, qfactor) < Modulus(w, 4)
    ensures IsX4(w, rest) && Number(w, rest) == Number(w, dividend) - Number(w, factor)
    ensures IsX4(w, more) && Number(w, more) == Number(w, quotient) + Number(w, qfactor)
  {
    ghost var m := Modulus(w, 4);
    NumberBound(w, dividend);
    rest := Minus4(w, dividend, factor);
    DivModUnique(Number(w, dividend) - Number(w, factor), m, 0, Number(w, dividend) - Number(w, factor));
    more := Plus4(w, quotient, qfactor);
    DivModUnique(Number(w, quotient) + Number(w, qfactor), m, 0, Number(w, quotient) + Number(w, qfactor));
  }

  /** A quotient is no larger than its dividend. */
  lemma QuotientBelow(x: nat, quotient: nat, q: nat, d: nat, rest: nat)
    requires d > 0 && x == quotient * d + rest && q * d <= rest
    ensures quotient + q <= x && x == (quotient + q) * d + (rest - q * d)
  {
    Distribute(d, quotient, q);
    MulMonotone(quotient + q, 1, d);
  }

  /** Quotient and remainder; division by zero is undefined. */
  method DivMod(w: nat, origDividend: seq<nat>, divisor: seq<nat>) returns (quotient: seq<nat>, dividend: seq<nat>)
    requires w > 0 && IsX4(w, origDividend) && IsX4(w, divisor) && Number(w, divisor) > 0
    ensures IsX4(w, quotient) && Number(w, quotient) == Number(w, origDividend) / Number(w, divisor)
    ensures IsX4(w, dividend) && Number(w, dividend) == Number(w, origDividend) % Number(w, divisor)
  {
    ghost var x, d := Number(w, origDividend), Number(w, divisor);
    LoneWord(w, 0);
    quotient, dividend := [0, 0, 0, 0], origDividend;
    LessIsLess(w, origDividend, divisor);
    if Less4(w, origDividend, divisor) {
      DivModUnique(x, d, 0, x);
      return;
    }
    var logDivisor := FloorLog4(w, divisor);
    var logDividend := FloorLog4(w, dividend);
    BitLengthMonotone(d, x);
    var logDiff := logDividend - logDivisor;
    if logDiff == 0 {
      quotient, dividend := DivideOnce(w, dividend, divisor);
      return;
    }
    var factor, qfactor := Factors(w, dividend, divisor, logDiff);
    ghost var k: nat := logDiff - 1;
    var more := true;
    while more
      invariant IsX4(w, quotient) && IsX4(w, dividend) && IsX4(w, factor) && IsX4(w, qfactor)
      invariant x == Number(w, quotient) * d + Number(w, dividend)
      invariant more <==> Number(w, dividend) >= d
      invariant more ==> Number(w, factor) == d * Pow2(k) <= Number(w, dividend) && Number(w, qfactor) == Pow2(k)
      decreases Number(w, dividend)
    {
      NumberBound(w, origDividend);
      QuotientBelow(x, Number(w, quotient), Pow2(k), d, Number(w, dividend));
      MulStrict(d, 0, Pow2(k));
      dividend, quotient := TakeOff(w, dividend, quotient, factor, qfactor);
      factor, qfactor, k := Shrink(w, dividend, d, factor, qfactor, k);
      LessIsLess(w, dividend, divisor);
      more := !Less4(w, dividend, divisor);
    }
    DivModUnique(x, d, Number(w, quotient), Number(w, dividend));
  }

  /** Numbers of one length: the quotient is one. */
  method DivideOnce(w: nat, dividend: seq<nat>, divisor: seq<nat>) returns (quotient: seq<nat>, rest: seq<nat>)
    requires w > 0 && IsX4(w, dividend) && IsX4(w, divisor) && 0 < Number(w, divisor) <= Number(w, dividend)
    requires BitLength(Number(w, dividend)) == BitLength(Number(w, divisor))
    ensures IsX4(w, quotient) && Number(w, quotient) == Number(w, dividend) / Number(w, divisor)
    ensures IsX4(w, rest) && Number(w, rest) == Number(w, dividend) % Number(w, divisor)
  {
    ghost var x, d := Number(w, dividend), Number(w, divisor);
    NumberBound(w, dividend);
    BitLengthBrackets(x);
    BitLengthBrackets(d);
    Pow2Monotone(1, w);
    LoneWord(w, 1);
    rest := Minus4(w, dividend, divisor);
    DivModUnique(x - d, Modulus(w, 4), 0, x - d);
    DivModUnique(x, d, 1, x - d);
    quotient := [1, 0, 0, 0];
  }
}

/** The invertible output permutation of PCG: xorshifts and a multiplication, and their inverse. */
module XorShift {
  import opened Words

  // ----- bits of the bitwise operations

  function Xor(x: nat, y: nat): nat {
    if x == 0 && y == 0 then 0
    else 2 * Xor(x / 2, y / 2) + if x % 2 != y % 2 then 1 else 0
  }

  lemma {:induction false} BitXor(x: nat, y: nat, i: nat)
    ensures Bit(Xor(x, y), i) == (Bit(x, i) != Bit(y, i))
    decreases i
  {
    BitZero(i);
    var z := Xor(x, y);
    if x > 0 || y > 0 {
      assert z / 2 == Xor(x / 2, y / 2);
      if i == 0 {
        BitHalf(x, 0); BitHalf(y, 0); BitHalf(z, 0);
      } else {
        BitHalf(x, i - 1); BitHalf(y, i - 1); BitHalf(z, i - 1);
        BitXor(x / 2, y / 2, i - 1);
      }
    }
  }

  lemma {:induction false} BitAnd(x: nat, y: nat, i: nat)
    ensures Bit(And(x, y), i) == (Bit(x, i) && Bit(y, i))
    decreases i
  {
    BitZero(i);
    var z := And(x, y);
    if x > 0 && y > 0 {
      assert z / 2 == And(x / 2, y / 2);
      if i == 0 {
        BitHalf(x, 0); BitHalf(y, 0); BitHalf(z, 0);
      } else {
        BitHalf(x, i - 1); BitHalf(y, i - 1); BitHalf(z, i - 1);
        BitAnd(x / 2, y / 2, i - 1);
      }
    }
  }

  lemma {:induction false} BitOr(x: nat, y: nat, i: nat)
    ensures Bit(Or(x, y), i) == (Bit(x, i) || Bit(y, i))
    decreases i
  {
    BitZero(i);
    var z := Or(x, y);
    if x > 0 || y > 0 {
      assert z / 2 == Or(x / 2, y / 2);
      if i == 0 {
        BitHalf(x, 0); BitHalf(y, 0); BitHalf(z, 0);
      } else {
        BitHalf(x, i - 1); BitHalf(y, i - 1); BitHalf(z, i - 1);
        BitOr(x / 2, y / 2, i - 1);
      }
    }
  }

  lemma BitShr(x: nat, s: nat, i: nat)
    ensures Bit(Shr(x, s), i) == Bit(x, i + s)
  {
    DivDiv(x, Pow2(s), Pow2(i));
    Pow2Add(s, i);
  }

  lemma BitAbove(x: nat, b: nat, i: nat)
    requires x < Pow2(b) && b <= i
    ensures !Bit(x, i)
  {
    Pow2Monotone(b, i);
    DivModUnique(x, Pow2(i), 0, x);
  }

  lemma {:induction false} BitMask(k: nat, i: nat)
    ensures Bit(Pow2(k) - 1, i) <==> i < k
    decreases k
  {
    if k == 0 {
      assert Pow2(0) == 1;
      BitZero(i);
    } else {
      var half := Pow2(k - 1) - 1;
      var mask := 2 * half + 1;
      assert mask / 2 == half && mask % 2 == 1;
      if i == 0 {
        BitHalf(mask, 0);
      } else {
        BitHalf(mask, i - 1);
        BitMask(k - 1, i - 1);
      }
    }
  }

  /** The bits above a low mask, in a word of `w` bits. */
  function HighMask(w: nat, k: nat): int { Pow2(w) - 1 - (Pow2(k) - 1) }

  lemma {:induction false} BitHighMask(w: nat, k: nat, i: nat)
    requires k <= w
    ensures HighMask(w, k) >= 0 && (Bit(HighMask(w, k), i) <==> k <= i < w)
    decreases k
  {
    Pow2Monotone(k, w);
    if k == 0 {
      assert Pow2(0) == 1;
      BitMask(w, i);
    } else {
      BitHighMask(w - 1, k - 1, if i == 0 then 0 else i - 1);
      assert HighMask(w, k) / 2 == HighMask(w - 1, k - 1) && HighMask(w, k) % 2 == 0;
      BitHalf(HighMask(w, k), if i == 0 then 0 else i - 1);
    }
  }

  /** Numbers with the same bits are equal. */
  lemma {:induction false} SameBits(x: nat, y: nat)
    requires forall i: nat :: Bit(x, i) == Bit(y, i)
    ensures x == y
  {
    BitHalf(x, 0);
    BitHalf(y, 0);
    assert Bit(x, 0) == Bit(y, 0);
    if x > 0 || y > 0 {
      forall i: nat ensures Bit(x / 2, i) == Bit(y / 2, i) {
        BitHalf(x, i);
        BitHalf(y, i);
        assert Bit(x, i + 1) == Bit(y, i + 1);
      }
      SameBits(x / 2, y / 2);
    }
  }

  // ----- inverting a xorshift

  function Xorshift(x: nat, s: nat): nat { Xor(x, Shr(x, s)) }

  lemma BitXorshift(x: nat, s: nat, i: nat)
    ensures Bit(Xorshift(x, s), i) == (Bit(x, i) != Bit(x, i + s))
  {
    BitXor(x, Shr(x, s), i);
    BitShr(x, s, i);
  }

  lemma {:induction false} XorRange(x: nat, y: nat, b: nat)
    requires x < Pow2(b) && y < Pow2(b)
    ensures Xor(x, y) < Pow2(b)
    decreases b
  {
    if b == 0 {
      assert Pow2(0) == 1;
    } else if x > 0 || y > 0 {
      XorRange(x / 2, y / 2, b - 1);
    }
  }

  lemma XorshiftRange(x: nat, s: nat, b: nat)
    requires x < Pow2(b)
    ensures Xorshift(x, s) < Pow2(b)
  {
    DivAtLeast(x, Pow2(s), x + 1);
    MulMonotone(x + 1, 1, Pow2(s));
    XorRange(x, Shr(x, s), b);
  }

  /** Backs out a xorshift of `bits` bits by `shift`, in words of `w` bits: the top is recovered
      directly and the rest, shortened by `shift`, by recursion. */
  function Unxorshift(w: nat, x: nat, bits: nat, shift: nat): nat
    requires 0 < shift && bits <= w
    decreases bits
  {
    if 2 * shift >= bits then Xorshift(x, shift)
    else
      var low := bits - 2 * shift;
      var bottom1 := And(x, Pow2(low) - 1);
      var top1 := And(Xorshift(x, shift), NatHighMask(w, low));
      var x' := Or(top1, bottom1);
      var bottom2 := And(x', Pow2(bits - shift) - 1);
      var bottom2' := And(Unxorshift(w, bottom2, bits - shift, shift), Pow2(low) - 1);
      Or(top1, bottom2')
  }

  function NatHighMask(w: nat, k: nat): nat
    requires k <= w
  {
    BitHighMask(w, k, 0);
    HighMask(w, k)
  }

  /** The top part: two xorshifts in a row cancel where their doubled shift leaves the word. */
  lemma BitTop(w: nat, x: nat, bits: nat, s: nat, low: nat, i: nat)
    requires x < Pow2(bits) && bits <= w && bits <= low + 2 * s && low <= bits
    ensures Bit(And(Xorshift(Xorshift(x, s), s), NatHighMask(w, low)), i) == (low <= i && Bit(x, i))
  {
    var y := Xorshift(x, s);
    BitAnd(Xorshift(y, s), NatHighMask(w, low), i);
    BitHighMask(w, low, i);
    BitXorshift(y, s, i);
    BitXorshift(x, s, i);
    BitXorshift(x, s, i + s);
    if low <= i { BitAbove(x, bits, i + 2 * s); }
    if w <= i { BitAbove(x, bits, i); }
  }

  /** What the recursive call is given: the xorshift of the value without its top `s` bits. */
  lemma BitRest(w: nat, x: nat, bits: nat, s: nat, i: nat)
    requires x < Pow2(bits) && 0 < s && bits <= w && 2 * s < bits
    ensures var low := bits - 2 * s;
            var y := Xorshift(x, s);
            var x' := Or(And(Xorshift(y, s), NatHighMask(w, low)), And(y, Pow2(low) - 1));
            Bit(And(x', Pow2(bits - s) - 1), i) == Bit(Xorshift(x % Pow2(bits - s), s), i)
  {
    var low := bits - 2 * s;
    var y := Xorshift(x, s);
    var top := And(Xorshift(y, s), NatHighMask(w, low));
    var bottom := And(y, Pow2(low) - 1);
    BitAnd(Or(top, bottom), Pow2(bits - s) - 1, i);
    BitMask(bits - s, i);
    BitOr(top, bottom, i);
    BitTop(w, x, bits, s, low, i);
    BitAnd(y, Pow2(low) - 1, i);
    BitMask(low, i);
    BitXorshift(x, s, i);
    var z := x % Pow2(bits - s);
    BitXorshift(z, s, i);
    BitLow(x, bits - s, i);
    BitLow(x, bits - s, i + s);
  }

  lemma BitLow(x: nat, k: nat, i: nat)
    ensures Bit(x % Pow2(k), i) == (i < k && Bit(x, i))
  {
    AndMask(x, k);
    BitAnd(x, Pow2(k) - 1, i);
    BitMask(k, i);
  }

  /** `Unxorshift` undoes `Xorshift`. */
  lemma {:induction false} UnxorshiftInverts(w: nat, x: nat, bits: nat, s: nat)
    requires x < Pow2(bits) && 0 < s && bits <= w
    ensures Unxorshift(w, Xorshift(x, s), bits, s) == x
    decreases bits
  {
    var y := Xorshift(x, s);
    if 2 * s >= bits {
      forall i: nat ensures Bit(Xorshift(y, s), i) == Bit(x, i) {
        BitXorshift(y, s, i);
        BitXorshift(x, s, i);
        BitXorshift(x, s, i + s);
        BitAbove(x, bits, i + 2 * s);
      }
      SameBits(Xorshift(y, s), x);
    } else {
      var low := bits - 2 * s;
      var top := And(Xorshift(y, s), NatHighMask(w, low));
      var rest := And(Or(top, And(y, Pow2(low) - 1)), Pow2(bits - s) - 1);
      var z := x % Pow2(bits - s);
      forall i: nat ensures Bit(rest, i) == Bit(Xorshift(z, s), i) { BitRest(w, x, bits, s, i); }
      SameBits(rest, Xorshift(z, s));
      UnxorshiftInverts(w, z, bits - s, s);
      JoinParts(w, x, bits, s, top, z);
    }
  }

  lemma JoinParts(w: nat, x: nat, bits: nat, s: nat, top: nat, z: nat)
    requires x < Pow2(bits) && 0 < s && bits <= w && 2 * s < bits && z == x % Pow2(bits - s)
    requires top == And(Xorshift(Xorshift(x, s), s), NatHighMask(w, bits - 2 * s))
    ensures Or(top, And(z, Pow2(bits - 2 * s) - 1)) == x
  {
    var low := bits - 2 * s;
    var bottom := And(z, Pow2(low) - 1);
    forall i: nat ensures Bit(Or(top, bottom), i) == Bit(x, i) {
      BitOr(top, bottom, i);
      BitTop(w, x, bits, s, low, i);
      BitAnd(z, Pow2(low) - 1, i);
      BitMask(low, i);
      BitLow(x, bits - s, i);
    }
    SameBits(Or(top, bottom), x);
  }

  // ----- the output permutation

  predicate IsWidth(w: nat) { w == 8 || w == 16 || w == 32 || w == 64 || w == 128 }

  function HighLow(hi: nat, lo: nat): nat { hi * 0x1_0000_0000_0000_0000 + lo }

  function Multiplier(w: nat): nat {
    if w == 8 then 217
    else if w == 16 then 62169
    else if w == 32 then 277803737
    else if w == 64 then 12605985483714917081
    else HighLow(17766728186571221404, 12605985483714917081)
  }

  function Unmultiplier(w: nat): nat {
    if w == 8 then 105
    else if w == 16 then 28009
    else if w == 32 then 2897767785
    else if w == 64 then 15009553638781119849
    else HighLow(14422606686972528997, 15009553638781119849)
  }

  lemma Squared(k: nat, p: nat, m: nat, q: nat)
    requires Pow2(k) == p && m == k + k && q == p * p
    ensures Pow2(m) == q
  {
    Pow2Add(k, k);
  }

  lemma Pow2Values()
    ensures Pow2(8) == 0x100 && Pow2(16) == 0x1_0000 && Pow2(32) == 0x1_0000_0000
    ensures Pow2(64) == 0x1_0000_0000_0000_0000
    ensures Pow2(128) == 0x1_0000_0000_0000_0000_0000_0000_0000_0000
  {
    assert Pow2(8) == 0x100;
    Squared(8, 0x100, 16, 0x1_0000);
    Squared(16, 0x1_0000, 32, 0x1_0000_0000);
    Squared(32, 0x1_0000_0000, 64, 0x1_0000_0000_0000_0000);
    Squared(64, 0x1_0000_0000_0000_0000, 128, 0x1_0000_0000_0000_0000_0000_0000_0000_0000);
  }

  /** The two multipliers are inverse to each other modulo the word size. */
  lemma InverseMultipliers(w: nat)
    requires IsWidth(w)
    ensures Wrap(w, Multiplier(w) * Unmultiplier(w)) == 1
  {
    Pow2Values();
    if w == 8 {
      OneMore(w, 217 * 105, 89);
    } else if w == 16 {
      OneMore(w, 62169 * 28009, 26570);
    } else if w == 32 {
      OneMore(w, 277803737 * 2897767785, 187431164);
    } else if w == 64 {
      OneMore(w, 12605985483714917081 * 15009553638781119849, 10257106323558699623);
    } else {
      OneMore(w, Multiplier(128) * Unmultiplier(128), 256242532749265411604086694698165912274);
    }
  }

  lemma OneMore(w: nat, x: int, q: int)
    requires w > 0 && x == q * Pow2(w) + 1
    ensures Wrap(w, x) == 1
  {
    Pow2Monotone(1, w);
    DivModUnique(x, Pow2(w), q, 1);
  }

  /** The number of top bits that choose the first shift. */
  function OpBits(w: nat): nat {
    if w >= 128 then 6 else if w >= 64 then 5 else if w >= 32 then 4 else if w >= 16 then 3 else 2
  }

  /** The first shift: fixed bits plus the value of the top bits of the data. */
  function RandomShift(w: nat, x: nat): nat
    requires OpBits(w) <= w
  {
    OpBits(w) + And(Shr(x, w - OpBits(w)), Pow2(OpBits(w)) - 1)
  }

  function LastShift(w: nat): nat { (2 * w + 2) / 3 }

  function Output(w: nat, x: nat): nat
    requires IsWidth(w)
  {
    var y := Wrap(w, Xorshift(x, RandomShift(w, x)) * Multiplier(w));
    Xorshift(y, LastShift(w))
  }

  function Unoutput(w: nat, x: nat): nat
    requires IsWidth(w)
  {
    var y := Unxorshift(w, x, w, LastShift(w));
    var z := Wrap(w, y * Unmultiplier(w));
    Unxorshift(w, z, w, RandomShift(w, z))
  }

  /** A xorshift by at least as many bits leaves the top bits, and so the shift they choose. */
  lemma RandomShiftKept(w: nat, x: nat, s: nat)
    requires OpBits(w) <= w && OpBits(w) <= s && x < Pow2(w)
    ensures RandomShift(w, Xorshift(x, s)) == RandomShift(w, x)
  {
    TopKept(w, x, s, w - OpBits(w));
  }

  lemma TopKept(w: nat, x: nat, s: nat, k: nat)
    requires x < Pow2(w) && w <= k + s
    ensures Shr(Xorshift(x, s), k) == Shr(x, k)
  {
    forall i: nat ensures Bit(Shr(Xorshift(x, s), k), i) == Bit(Shr(x, k), i) { TopBitKept(w, x, s, k, i); }
    SameBits(Shr(Xorshift(x, s), k), Shr(x, k));
  }

  lemma TopBitKept(w: nat, x: nat, s: nat, k: nat, i: nat)
    requires x < Pow2(w) && w <= k + s
    ensures Bit(Shr(Xorshift(x, s), k), i) == Bit(Shr(x, k), i)
  {
    BitShr(Xorshift(x, s), k, i);
    BitShr(x, k, i);
    BitXorshift(x, s, i + k);
    BitAbove(x, w, i + k + s);
  }

  lemma MultiplicationUndone(w: nat, x: nat)
    requires IsWidth(w) && x < Pow2(w)
    ensures Wrap(w, Wrap(w, x * Multiplier(w)) * Unmultiplier(w)) == x
  {
    var m, u := Multiplier(w), Unmultiplier(w);
    InverseMultipliers(w);
    WrapFactor(w, x * m, u);
    Associate(x, m, u);
    WrapFactor(w, m * u, x);
    assert Wrap(w, m * u) * x == x;
    assert (m * u) * x == x * (m * u);
    WrapSmall(w, x);
  }

  /** The output permutation is undone, although its first shift depends on the data. */
  lemma UnoutputInverts(w: nat, state: nat)
    requires IsWidth(w) && state < Pow2(w)
    ensures Output(w, state) < Pow2(w) && Unoutput(w, Output(w, state)) == state
  {
    var s := RandomShift(w, state);
    var x := Xorshift(state, s);
    XorshiftRange(state, s, w);
    var y := Wrap(w, x * Multiplier(w));
    XorshiftRange(y, LastShift(w), w);
    UnxorshiftInverts(w, y, w, LastShift(w));
    MultiplicationUndone(w, x);
    RandomShiftKept(w, state, s);
    UnxorshiftInverts(w, state, w, s);
  }

  // ----- the permutation bit by bit

  /** The constants of a width: how many top bits choose the first shift, the multiplier and the last shift. */
  predicate Constants(w: nat, k: nat, m: nat, last: nat) {
    || (w == 8 && k == 2 && m == 217 && last == 6)
    || (w == 16 && k == 3 && m == 62169 && last == 11)
    || (w == 32 && k == 4 && m == 277803737 && last == 22)
    || (w == 64 && k == 5 && m == 12605985483714917081 && last == 43)
    || (w == 128 && k == 6 && m == 327738287884841127335028083622016905945 && last == 86)
  }

  lemma ConstantsAre(w: nat, k: nat, m: nat, last: nat)
    requires Constants(w, k, m, last)
    ensures IsWidth(w) && OpBits(w) == k && Multiplier(w) == m && LastShift(w) == last
  {
  }

  /** The top bits, as a number. */
  lemma TopBits(w: nat, k: nat, x: nat)
    requires k <= w && x < Pow2(w)
    ensures And(Shr(x, w - k), Pow2(k) - 1) == x / Pow2(w - k) < Pow2(k)
  {
    AndMask(Shr(x, w - k), k);
    Pow2Add(k, w - k);
    DivAtLeast(x, Pow2(w - k), Pow2(k));
    DivModUnique(x / Pow2(w - k), Pow2(k), 0, x / Pow2(w - k));
  }

  lemma FirstShiftIs(w: nat, k: nat, x: nat, top: nat)
    requires OpBits(w) == k <= w && x < Pow2(w) && top == x / Pow2(w - k)
    ensures RandomShift(w, x) == k + top
  {
    TopBits(w, k, x);
  }

  lemma ShiftedBits(x: nat, s: nat) returns (y: nat)
    ensures y == Xorshift(x, s) && forall i: nat :: Bit(y, i) == (Bit(x, i) != Bit(x, i + s))
  {
    y := Xorshift(x, s);
    forall i: nat ensures Bit(y, i) == (Bit(x, i) != Bit(x, i + s)) { BitXorshift(x, s, i); }
  }

  /** With the literal constants of each width: every bit of the input is flipped by the one that is as many places
      above it as the top bits and the constant say, the result is multiplied, and every bit of that is flipped by the
      one a fixed number of places above it. */
  lemma OutputIs(w: nat, k: nat, m: nat, last: nat, x: nat, top: nat) returns (q: nat, p: nat)
    requires Constants(w, k, m, last) && IsWidth(w) && k <= w && x < Pow2(w) && top == x / Pow2(w - k)
    ensures forall i: nat :: Bit(q, i) == (Bit(x, i) != Bit(x, i + (k + top)))
    ensures p == (q * m) % Pow2(w)
    ensures forall i: nat :: Bit(Output(w, x), i) == (Bit(p, i) != Bit(p, i + last))
  {
    ConstantsAre(w, k, m, last);
    FirstShiftIs(w, k, x, top);
    q := ShiftedBits(x, k + top);
    p := Wrap(w, q * m);
    var y := ShiftedBits(p, last);
    assert y == Output(w, x);
  }

  lemma {:induction false} XorZero(x: nat)
    ensures Xor(x, 0) == x
  {
    if x > 0 { XorZero(x / 2); }
  }

  lemma OneShifted(k: nat)
    requires k > 0
    ensures 1 / Pow2(k) == 0 && Xorshift(1, k) == 1
  {
    Pow2Monotone(1, k);
    DivModUnique(1, Pow2(k), 0, 1);
    XorZero(1);
  }

  lemma OneKept(w: nat, k: nat)
    requires OpBits(w) == k < w
    ensures Xorshift(1, RandomShift(w, 1)) == 1
  {
    Pow2Monotone(1, w);
    OneShifted(w - k);
    FirstShiftIs(w, k, 1, 0);
    OneShifted(k);
  }

  lemma OutputOfOne(w: nat, k: nat, m: nat, last: nat, y: nat)
    requires IsWidth(w) && OpBits(w) == k && Multiplier(w) == m < Pow2(w) && LastShift(w) == last && y == m / Pow2(last)
    ensures Output(w, 1) == Xor(m, y)
  {
    OneKept(w, k);
    WrapSmall(w, m);
  }

  lemma XorStep(x: nat, y: nat, h: nat, g: nat, a: nat, b: nat, z: nat)
    requires x == 2 * h + a && y == 2 * g + b && a < 2 && b < 2
    requires z == 2 * Xor(h, g) + if a != b then 1 else 0
    ensures Xor(x, y) == z
  {
  }

  lemma ThreeBits(x: nat, y: nat, z: nat, h: nat, g: nat, r: nat,
                  a2: nat, a1: nat, a0: nat, b2: nat, b1: nat, b0: nat)
    requires a2 < 2 && a1 < 2 && a0 < 2 && b2 < 2 && b1 < 2 && b0 < 2 && Xor(h, g) == r
    requires x == 8 * h + 4 * a2 + 2 * a1 + a0 && y == 8 * g + 4 * b2 + 2 * b1 + b0
    requires z == 8 * r + 4 * (if a2 != b2 then 1 else 0) + 2 * (if a1 != b1 then 1 else 0) + if a0 != b0 then 1 else 0
    ensures Xor(x, y) == z
  {
    var h', g', r' := 2 * h + a2, 2 * g + b2, 2 * r + if a2 != b2 then 1 else 0;
    XorStep(h', g', h, g, a2, b2, r');
    var h'', g'', r'' := 2 * h' + a1, 2 * g' + b1, 2 * r' + if a1 != b1 then 1 else 0;
    XorStep(h'', g'', h', g', a1, b1, r'');
    XorStep(x, y, h'', g'', a0, b0, z);
  }

  lemma LastXor8(h: nat)
    requires h == 27
    ensures Xor(217, 3) == 218
  {
    XorZero(h);
    var x0, y0, z0 := 217, 3, 218;
    ThreeBits(x0, y0, z0, h, 0, h, 0, 0, 1, 0, 1, 1);
  }

  lemma LastXor16(h: nat)
    requires h == 971
    ensures Xor(62169, 30) == 62151
  {
    XorZero(h);
    var x0, y0, z0 := 7771, 3, 7768;
    ThreeBits(x0, y0, z0, h, 0, h, 0, 1, 1, 0, 1, 1);
    var x1, y1, z1 := 62169, 30, 62151;
    ThreeBits(x1, y1, z1, x0, y0, z0, 0, 0, 1, 1, 1, 0);
  }

  lemma LastXor32(h: nat)
    requires h == 542585
    ensures Xor(277803737, 66) == 277803675
  {
    XorZero(h);
    var x0, y0, z0 := 4340683, 1, 4340682;
    ThreeBits(x0, y0, z0, h, 0, h, 0, 1, 1, 0, 0, 1);
    var x1, y1, z1 := 34725467, 8, 34725459;
    ThreeBits(x1, y1, z1, x0, y0, z0, 0, 1, 1, 0, 0, 0);
    var x2, y2, z2 := 277803737, 66, 277803675;
    ThreeBits(x2, y2, z2, x1, y1, z1, 0, 0, 1, 0, 1, 0);
  }

  lemma LastXor64(h: nat)
    requires h == 6011002294404
    ensures Xor(12605985483714917081, 1433134) == 12605985483715718391
  {
    XorZero(h);
    var x0, y0, z0 := 48088018355235, 5, 48088018355238;
    ThreeBits(x0, y0, z0, h, 0, h, 0, 1, 1, 1, 0, 1);
    var x1, y1, z1 := 384704146841885, 43, 384704146841910;
    ThreeBits(x1, y1, z1, x0, y0, z0, 1, 0, 1, 0, 1, 1);
    var x2, y2, z2 := 3077633174735087, 349, 3077633174735282;
    ThreeBits(x2, y2, z2, x1, y1, z1, 1, 1, 1, 1, 0, 1);
    var x3, y3, z3 := 24621065397880697, 2799, 24621065397882262;
    ThreeBits(x3, y3, z3, x2, y2, z2, 0, 0, 1, 1, 1, 1);
    var x4, y4, z4 := 196968523183045579, 22392, 196968523183058099;
    ThreeBits(x4, y4, z4, x3, y3, z3, 0, 1, 1, 0, 0, 0);
    var x5, y5, z5 := 1575748185464364635, 179141, 1575748185464464798;
    ThreeBits(x5, y5, z5, x4, y4, z4, 0, 1, 1, 1, 0, 1);
    var x6, y6, z6 := 12605985483714917081, 1433134, 12605985483715718391;
    ThreeBits(x6, y6, z6, x5, y5, z5, 0, 0, 1, 1, 1, 0);
  }

  lemma LastXor128(h: nat)
    requires h == 74519059099848420222549085
    ensures Xor(327738287884841127335028083622016905945, 4235918089525) == 327738287884841127335028085641731272684
  {
    XorZero(h);
    var x0, y0, z0 := 596152472798787361780392682, 7, 596152472798787361780392685;
    ThreeBits(x0, y0, z0, h, 0, h, 0, 1, 0, 1, 1, 1);
    var x1, y1, z1 := 4769219782390298894243141456, 61, 4769219782390298894243141485;
    ThreeBits(x1, y1, z1, x0, y0, z0, 0, 0, 0, 1, 0, 1);
    var x2, y2, z2 := 38153758259122391153945131649, 493, 38153758259122391153945131884;
    ThreeBits(x2, y2, z2, x1, y1, z1, 0, 0, 1, 1, 0, 1);
    var x3, y3, z3 := 305230066072979129231561053192, 3945, 305230066072979129231561055073;
    ThreeBits(x3, y3, z3, x2, y2, z2, 0, 0, 0, 0, 0, 1);
    var x4, y4, z4 := 2441840528583833033852488425538, 31560, 2441840528583833033852488440586;
    ThreeBits(x4, y4, z4, x3, y3, z3, 0, 1, 0, 0, 0, 0);
    var x5, y5, z5 := 19534724228670664270819907404304, 252480, 19534724228670664270819907524688;
    ThreeBits(x5, y5, z5, x4, y4, z4, 0, 0, 0, 0, 0, 0);
    var x6, y6, z6 := 156277793829365314166559259234436, 2019843, 156277793829365314166559260197511;
    ThreeBits(x6, y6, z6, x5, y5, z5, 1, 0, 0, 0, 1, 1);
    var x7, y7, z7 := 1250222350634922513332474073875491, 16158745, 1250222350634922513332474081580090;
    ThreeBits(x7, y7, z7, x6, y6, z6, 0, 1, 1, 0, 0, 1);
    var x8, y8, z8 := 10001778805079380106659792591003933, 129269961, 10001778805079380106659792652640724;
    ThreeBits(x8, y8, z8, x7, y7, z7, 1, 0, 1, 0, 0, 1);
    var x9, y9, z9 := 80014230440635040853278340728031471, 1034159689, 80014230440635040853278341221125798;
    ThreeBits(x9, y9, z9, x8, y8, z8, 1, 1, 1, 0, 0, 1);
    var x10, y10, z10 := 640113843525080326826226725824251769, 8273277518, 640113843525080326826226729769006391;
    ThreeBits(x10, y10, z10, x9, y9, z9, 0, 0, 1, 1, 1, 0);
    var x11, y11, z11 := 5120910748200642614609813806594014155, 66186220148, 5120910748200642614609813838152051135;
    ThreeBits(x11, y11, z11, x10, y10, z10, 0, 1, 1, 1, 0, 0);
    var x12, y12, z12 := 40967285985605140916878510452752113243, 529489761190, 40967285985605140916878510705216409085;
    ThreeBits(x12, y12, z12, x11, y11, z11, 0, 1, 1, 1, 1, 0);
    var x13, y13 := 327738287884841127335028083622016905945, 4235918089525;
    var z13 := 327738287884841127335028085641731272684;
    ThreeBits(x13, y13, z13, x12, y12, z12, 0, 0, 1, 1, 0, 1);
  }

  /** The powers of two that the last shifts divide by. */
  lemma LastPowers()
    ensures Pow2(6) == 64 && Pow2(11) == 2048 && Pow2(22) == 4194304
    ensures Pow2(43) == 8796093022208 && Pow2(86) == 77371252455336267181195264
  {
    assert Pow2(6) == 64 && Pow2(11) == 2048 && Pow2(10) == 1024;
    Pow2Add(11, 11);
    Pow2Add(22, 21);
    Pow2Add(11, 10);
    Pow2Add(43, 43);
  }

  /** The output of one, at every width. */
  lemma OutputsOfOne(w: nat)
    requires IsWidth(w)
    ensures Output(w, 1)
         == if w == 8 then 218 else if w == 16 then 62151 else if w == 32 then 277803675
            else if w == 64 then 12605985483715718391
            else 327738287884841127335028085641731272684
  {
    Pow2Values();
    LastPowers();
    if w == 8 {
      LastXor8(27);
      OutputOfOne(w, 2, 217, 6, 3);
    } else if w == 16 {
      LastXor16(971);
      OutputOfOne(w, 3, 62169, 11, 30);
    } else if w == 32 {
      LastXor32(542585);
      OutputOfOne(w, 4, 277803737, 22, 66);
    } else if w == 64 {
      LastXor64(6011002294404);
      OutputOfOne(w, 5, 12605985483714917081, 43, 1433134);
    } else {
      LastXor128(74519059099848420222549085);
      OutputOfOne(w, 6, 327738287884841127335028083622016905945, 86, 4235918089525);
    }
  }
}

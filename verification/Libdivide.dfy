/** The scalar dividers of libdivide for 32 and 64 bit operands: generating a divider, dividing by
    it, and recovering the divisor from it. */
module Libdivide {
  import opened Words
  import opened LongDivision
  import opened WideDivision
  import opened Magic

  const ADD_MARKER := 0x40
  const NEGATIVE_DIVISOR := 0x80

  /** What generating a divider yields: the magic number and the byte of shift and markers. */
  datatype Divider = Divider(magic: int, more: nat)

  /** The library aborts on a zero divisor, and on one in the unsigned branchfree form. */
  datatype Generated = Invalid | Valid(divider: Divider)

  predicate IsWidth(w: nat) { w == 32 || w == 64 }

  /** The shift held in the low bits: the mask is one less than the width. */
  function ShiftOf(w: nat, more: nat): nat
    requires w > 0
  {
    more % w
  }

  predicate HasAdd(more: nat) { (more / ADD_MARKER) % 2 == 1 }

  predicate HasNegative(more: nat) { (more / NEGATIVE_DIVISOR) % 2 == 1 }

  lemma Markers(w: nat, l: nat, add: bool, negative: bool)
    requires IsWidth(w) && l < w
    ensures var more := l + (if add then ADD_MARKER else 0) + (if negative then NEGATIVE_DIVISOR else 0);
            ShiftOf(w, more) == l && (HasAdd(more) <==> add) && (HasNegative(more) <==> negative) && more < 256
  {
  }

  /** The high word of a product; `WideDivision` proves the portable 64-bit computations equal to it.
      It rounds down, as the arithmetic shift of a signed product does. */
  function MulHigh(w: nat, x: int, y: int): int { (x * y) / Pow2(w) }

  // ----- unsigned

  /** Half the sum of a numerator and the high word of its product, without the carry bit. */
  function Averaged(w: nat, n: int, q: int): nat { Wrap(w, Wrap(w, n - q) / 2 + q) }

  /** Division by an unsigned divider. */
  function DoUnsigned(w: nat, n: nat, g: Divider): int
    requires IsWidth(w) && g.magic >= 0
  {
    if g.magic == 0 then Shr(n, g.more)
    else
      var q := MulHigh(w, g.magic, n);
      if HasAdd(g.more) then Averaged(w, n, q) / Pow2(ShiftOf(w, g.more))
      else q / Pow2(g.more)
  }

  function DoUnsignedBranchfree(w: nat, n: nat, g: Divider): int
    requires IsWidth(w) && g.magic >= 0
  {
    var q := MulHigh(w, g.magic, n);
    Averaged(w, n, q) / Pow2(g.more)
  }

  /** A magic number for `d` with `l` its logarithm: a reciprocal one bit too wide for a word keeps
      that bit implicit and has the add marker. */
  ghost predicate UnsignedMagic(w: nat, d: nat, l: nat, magic: int, add: bool) {
    && 0 < magic < Pow2(w) && l < w
    && if add then 0 < (magic + Pow2(w)) * d - Pow2(w + l + 1) <= d
       else 0 < magic * d - Pow2(w + l) < Pow2(l)
  }

  /** A reciprocal of `w` bits is good enough for `d`. */
  ghost predicate NarrowFits(w: nat, d: nat)
    requires d > 0
  {
    FloorLog(d) >= 0 && d - Pow2(w + FloorLog(d)) % d < Pow2(FloorLog(d))
  }

  /** What a divider generated for `d` looks like. */
  ghost predicate UnsignedDivider(w: nat, d: nat, g: Divider) {
    0 < d < Pow2(w) && FloorLog(d) >= 0 &&
    var l: nat := FloorLog(d);
    if d == Pow2(l) then g == Divider(0, l)
    else || (UnsignedMagic(w, d, l, g.magic, false) && g.more == l)
         || (UnsignedMagic(w, d, l, g.magic, true) && g.more == l + ADD_MARKER)
  }

  ghost predicate UnsignedBranchfreeDivider(w: nat, d: nat, g: Divider) {
    1 < d < Pow2(w) && FloorLog(d) >= 1 &&
    var l: nat := FloorLog(d);
    if d == Pow2(l) then g == Divider(0, l - 1)
    else UnsignedMagic(w, d, l, g.magic, true) && g.more == l
  }

  /** Averaging without overflow: half the sum of two words, the first not the smaller. */
  lemma Average(w: nat, n: nat, q: nat)
    requires q <= n < Pow2(w)
    ensures Averaged(w, n, q) == (n + q) / 2
  {
    WrapSmall(w, n - q);
    WrapSmall(w, (n - q) / 2 + q);
  }

  /** The high word of a product with a word is at most the other factor. */
  lemma HighWordSmall(m: nat, x: nat, n: nat)
    requires x < m
    ensures 0 <= (x * n) / m <= n
  {
  }

  lemma ErrorSmall(n: nat, m: nat, e: nat, l: nat)
    requires n < m && e <= l && l > 0
    ensures n * e < m * l
  {
  }

  /** The narrow reciprocal: high word, then shift. */
  lemma DoNarrow(w: nat, d: nat, l: nat, magic: nat, n: nat)
    requires d > 0 && UnsignedMagic(w, d, l, magic, false) && n < Pow2(w)
    ensures (magic * n) / Pow2(w) / Pow2(l) == n / d
  {
    var e := magic * d - Pow2(w + l);
    Pow2Add(w, l);
    ErrorSmall(n, Pow2(w), e, Pow2(l));
    MagicFloor(Pow2(w + l), d, magic, e, n);
    MulMonotone(n, 0, magic);
    DivDiv(magic * n, Pow2(w), Pow2(l));
  }

  /** The wide reciprocal: its implicit top bit adds the numerator itself. */
  lemma DoWide(w: nat, d: nat, l: nat, magic: nat, n: nat)
    requires 0 < d < Pow2(l + 1) && UnsignedMagic(w, d, l, magic, true) && n < Pow2(w)
    ensures 0 <= (magic * n) / Pow2(w) <= n
    ensures (n + (magic * n) / Pow2(w)) / 2 / Pow2(l) == n / d
  {
    var m := Pow2(w);
    var e := (magic + m) * d - Pow2(w + l + 1);
    Pow2Add(w, l + 1);
    ErrorSmall(n, m, e, Pow2(l + 1));
    MagicFloor(Pow2(w + l + 1), d, magic + m, e, n);
    HighWordSmall(m, magic, n);
    ShiftedSum(m, magic, n);
    MulMonotone(n, 0, magic + m);
    DivDiv(n * (magic + m), m, Pow2(l + 1));
    DivDiv(n + (magic * n) / m, 2, Pow2(l));
  }

  lemma ShiftedSum(m: nat, magic: nat, n: nat)
    requires m > 0
    ensures (n * (magic + m)) / m == n + (magic * n) / m
  {
    Distribute(n, magic, m);
    DivModForm(magic * n, m);
    Distribute(m, (magic * n) / m, n);
    DivModUnique(n * (magic + m), m, n + (magic * n) / m, (magic * n) % m);
  }

  lemma LogBrackets(w: nat, d: nat)
    requires 0 < d < Pow2(w)
    ensures 0 <= FloorLog(d) < w && Pow2(FloorLog(d)) <= d < Pow2(FloorLog(d) + 1)
  {
    BitLengthBrackets(d);
    BitLengthWithin(d, w);
  }

  /** The averaging form computes what the wide reciprocal asks for. */
  lemma DoAveraged(w: nat, d: nat, l: nat, magic: nat, n: nat)
    requires 0 < d < Pow2(l + 1) && UnsignedMagic(w, d, l, magic, true) && n < Pow2(w)
    ensures Averaged(w, n, MulHigh(w, magic, n)) / Pow2(l) == n / d
  {
    DoWide(w, d, l, magic, n);
    Average(w, n, (magic * n) / Pow2(w));
  }

  /** What the fields of a generated divider say. */
  lemma DividerReads(w: nat, d: nat, g: Divider)
    requires IsWidth(w) && UnsignedDivider(w, d, g)
    ensures ShiftOf(w, g.more) == FloorLog(d) < w && d < Pow2(FloorLog(d) + 1)
    ensures !HasAdd(g.more) ==> g.more == FloorLog(d)
    ensures g.magic == 0 ==> d == Pow2(FloorLog(d)) && !HasAdd(g.more)
    ensures g.magic != 0 ==> UnsignedMagic(w, d, FloorLog(d), g.magic, HasAdd(g.more))
  {
    LogBrackets(w, d);
    var l: nat := FloorLog(d);
    Markers(w, l, false, false);
    Markers(w, l, true, false);
  }

  /** Dividing by a generated divider is dividing. */
  lemma DoUnsignedDivides(w: nat, d: nat, g: Divider, n: nat)
    requires IsWidth(w) && UnsignedDivider(w, d, g) && n < Pow2(w)
    ensures g.magic >= 0 && DoUnsigned(w, n, g) == n / d
  {
    DividerReads(w, d, g);
    var l: nat := FloorLog(d);
    if g.magic != 0 {
      if HasAdd(g.more) {
        DoAveraged(w, d, l, g.magic, n);
      } else {
        DoNarrow(w, d, l, g.magic, n);
      }
    }
  }

  lemma DoUnsignedBranchfreeDivides(w: nat, d: nat, g: Divider, n: nat)
    requires IsWidth(w) && UnsignedBranchfreeDivider(w, d, g) && n < Pow2(w)
    ensures g.magic >= 0 && DoUnsignedBranchfree(w, n, g) == n / d
  {
    LogBrackets(w, d);
    var l: nat := FloorLog(d);
    if d != Pow2(l) {
      DoAveraged(w, d, l, g.magic, n);
    } else {
      DivDiv(n, 2, Pow2(l - 1));
      DivModUnique(0, Pow2(w), 0, 0);
      Average(w, n, 0);
    }
  }

  // ----- generating unsigned dividers

  /** A divisor that is not a power of two lies strictly between two of them. */
  lemma NotPower(w: nat, d: nat, l: nat)
    requires 0 < d < Pow2(w) && l == FloorLog(d) && d != Pow2(l)
    ensures 2 <= Pow2(l) < d < 2 * Pow2(l) <= Pow2(w)
  {
    LogBrackets(w, d);
    Pow2Monotone(l + 1, w);
  }

  lemma NarrowRange(w: nat, d: nat, l: nat, m: nat, rem: nat)
    requires 0 < d < Pow2(w) && l == FloorLog(d) && d != Pow2(l)
    requires Pow2(w + l) == m * d + rem && rem < d
    ensures Pow2(w - 1) <= m && m + 1 < Pow2(w) && l < w
  {
    LogBrackets(w, d);
    NotPower(w, d, l);
    assert (2 * Pow2(w - 1)) * Pow2(l) == m * d + rem by { Pow2Add(w, l); }
    QuotientBetween(Pow2(w - 1), Pow2(l), d, m, rem);
  }

  lemma NarrowMagic(w: nat, d: nat, l: nat, m: nat, rem: nat)
    requires 0 < d < Pow2(w) && l == FloorLog(d) && d != Pow2(l)
    requires Pow2(w + l) == m * d + rem && rem < d && d - rem < Pow2(l)
    ensures m + 1 < Pow2(w) && UnsignedMagic(w, d, l, m + 1, false)
  {
    NarrowRange(w, d, l, m, rem);
    RoundedUp(Pow2(w + l), d, m, rem);
  }

  lemma WideRange(w: nat, d: nat, l: nat, m: nat, rem: nat)
    requires 0 < d < Pow2(w) && l == FloorLog(d) && d != Pow2(l)
    requires Pow2(w + l + 1) == m * d + rem && rem < d
    ensures Pow2(w) < m + 1 < 2 * Pow2(w) && l < w
  {
    LogBrackets(w, d);
    NotPower(w, d, l);
    assert (2 * Pow2(w)) * Pow2(l) == m * d + rem by { Pow2Add(w + 1, l); }
    QuotientBetween(Pow2(w), Pow2(l), d, m, rem);
  }

  lemma WideMagic(w: nat, d: nat, l: nat, m: nat, rem: nat)
    requires 0 < d < Pow2(w) && l == FloorLog(d) && d != Pow2(l)
    requires Pow2(w + l + 1) == m * d + rem && rem < d
    ensures Pow2(w) < m + 1 < 2 * Pow2(w) && UnsignedMagic(w, d, l, m + 1 - Pow2(w), true)
  {
    WideRange(w, d, l, m, rem);
    var magic := m + 1 - Pow2(w);
    assert magic + Pow2(w) == m + 1;
    assert (magic + Pow2(w)) * d == Pow2(w + l + 1) + (d - rem) by { RoundedUp(Pow2(w + l + 1), d, m, rem); }
  }

  /** The doubled quotient, corrected and rounded up, all in wrapping arithmetic. */
  function DoubledMagic(w: nat, d: nat, m: nat, rem: nat): nat {
    var twice := Wrap(w, rem + rem);
    var m' := Wrap(w, m + m);
    var m'' := if twice >= d || twice < rem then Wrap(w, m' + 1) else m';
    Wrap(w, 1 + m'')
  }

  lemma DoubledMagicIs(w: nat, k: nat, d: nat, m: nat, rem: nat) returns (m': nat, rem': nat)
    requires k == m * d + rem && rem < d < Pow2(w)
    ensures 2 * k == m' * d + rem' && rem' < d
    ensures DoubledMagic(w, d, m, rem) == Wrap(w, m' + 1)
    ensures 2 * m <= m'
  {
    Doubled(w, k, d, m, rem);
    var twice := Wrap(w, rem + rem);
    var c := if twice >= d || twice < rem then 1 else 0;
    m', rem' := 2 * m + c, 2 * rem - c * d;
    WrapSum(w, m + m, 1);
    WrapSum(w, m + m + c, 1);
  }

  lemma AddMarkerOr(l: nat)
    requires l < 64
    ensures Or(l, ADD_MARKER) == l + ADD_MARKER
  {
    assert Pow2(6) == 64;
    OrDisjoint(1, l, 6);
    OrCommutes(l, 64);
  }

  /** A word `p`, moved up by its width, over `d`. */
  method DivideRaised(w: nat, p: nat, d: nat) returns (m: nat, rem: nat)
    requires IsWidth(w) && p < d < Pow2(w)
    ensures p * Pow2(w) == m * d + rem && rem < d
  {
    m, rem := DivideTwoByOne(w / 2, p, 0, d);
  }

  lemma RemainderDecides(w: nat, d: nat, l: nat, m: nat, rem: nat)
    requires l == FloorLog(d) && Pow2(w + l) == m * d + rem && rem < d
    ensures NarrowFits(w, d) <==> d - rem < Pow2(l)
  {
    DivModUnique(Pow2(w + l), d, m, rem);
  }

  /** The first reciprocal tried: `2^(w+l) / d`, which fits a word. */
  method TryReciprocal(w: nat, d: nat, l: nat) returns (m: nat, rem: nat)
    requires IsWidth(w) && 0 < d < Pow2(w) && l == FloorLog(d) && d != Pow2(l)
    ensures Pow2(w + l) == m * d + rem && 0 < rem < d
    ensures NarrowFits(w, d) <==> d - rem < Pow2(l)
  {
    NotPower(w, d, l);
    m, rem := DivideRaised(w, Pow2(l), d);
    Pow2Add(w, l);
    RemainderDecides(w, d, l, m, rem);
    if rem == 0 { PowerDivisor(m, d, w + l, l + 1); }
  }

  /** The reciprocal that fits a word. */
  lemma NarrowDivider(w: nat, d: nat, l: nat, m: nat, rem: nat)
    requires IsWidth(w) && 0 < d < Pow2(w) && l == FloorLog(d) && d != Pow2(l)
    requires Pow2(w + l) == m * d + rem && d - Pow2(l) < rem < d
    ensures UnsignedMagic(w, d, l, Wrap(w, 1 + m), false) && !HasAdd(l)
  {
    NotPower(w, d, l);
    NarrowMagic(w, d, l, m, rem);
    WrapSmall(w, 1 + m);
    Markers(w, l, false, false);
  }

  /** The wider reciprocal, whose top bit is left to the add marker. */
  lemma WideDivider(w: nat, d: nat, l: nat, m: nat, rem: nat)
    requires IsWidth(w) && 0 < d < Pow2(w) && l == FloorLog(d) && d != Pow2(l)
    requires Pow2(w + l) == m * d + rem && rem < d
    ensures UnsignedMagic(w, d, l, DoubledMagic(w, d, m, rem), true)
    ensures Or(l, ADD_MARKER) == l + ADD_MARKER && ShiftOf(w, l + ADD_MARKER) == l && HasAdd(l + ADD_MARKER)
  {
    WideDividerMagic(w, d, l, m, rem);
    AddMarkerOr(l);
    Markers(w, l, true, false);
  }

  lemma WideDividerMagic(w: nat, d: nat, l: nat, m: nat, rem: nat)
    requires IsWidth(w) && 0 < d < Pow2(w) && l == FloorLog(d) && d != Pow2(l)
    requires Pow2(w + l) == m * d + rem && rem < d
    ensures UnsignedMagic(w, d, l, DoubledMagic(w, d, m, rem), true) && l < w
  {
    var m', rem' := DoubledMagicIs(w, Pow2(w + l), d, m, rem);
    WideMagic(w, d, l, m', rem');
    WithoutTopBit(w, m' + 1);
  }

  lemma WithoutTopBit(w: nat, x: int)
    requires Pow2(w) <= x < 2 * Pow2(w)
    ensures Wrap(w, x) == x - Pow2(w)
  {
    WrapShift(w, x - Pow2(w), 1);
    WrapSmall(w, x - Pow2(w));
  }

  method InternalGenUnsigned(w: nat, d: nat, branchfree: bool) returns (g: Divider)
    requires IsWidth(w) && 0 < d < Pow2(w)
    ensures !branchfree ==> UnsignedDivider(w, d, g)
    ensures !branchfree ==> (HasAdd(g.more) <==> g.magic != 0 && !NarrowFits(w, d))
    ensures branchfree && d > 1 ==> UnsignedBranchfreeDivider(w, d, Divider(g.magic, ShiftOf(w, g.more)))
  {
    LogBrackets(w, d);
    var l: nat := w - 1 - LeadingZeros(w, d);
    PowerOfTwoTest(d);
    if And(d, d - 1) == 0 {
      var more := l - (if branchfree then 1 else 0);
      g := Divider(0, Wrap(8, more));
      ByteHolds(w, d, l, more);
    } else {
      NotPower(w, d, l);
      var m, rem := TryReciprocal(w, d, l);
      var e := d - rem;
      if !branchfree && e < Pow2(l) {
        NarrowDivider(w, d, l, m, rem);
        g := Divider(Wrap(w, 1 + m), l);
      } else {
        WideDivider(w, d, l, m, rem);
        g := Divider(DoubledMagic(w, d, m, rem), Or(l, ADD_MARKER));
      }
    }
  }

  lemma ByteHolds(w: nat, d: nat, l: nat, more: int)
    requires IsWidth(w) && l < w && more <= l && d == Pow2(l)
    ensures more >= 0 ==> Wrap(8, more) == more && ShiftOf(w, more) == more && !HasAdd(more)
    ensures d > 1 ==> l >= 1
  {
    assert Pow2(8) == 256 && Pow2(0) == 1;
    if more >= 0 {
      WrapSmall(8, more);
      Markers(w, more, false, false);
    }
  }

  method GenUnsigned(w: nat, d: nat) returns (g: Generated)
    requires IsWidth(w) && d < Pow2(w)
    ensures g.Invalid? <==> d == 0
    ensures g.Valid? ==> UnsignedDivider(w, d, g.divider)
    ensures g.Valid? ==> (HasAdd(g.divider.more) <==> g.divider.magic != 0 && !NarrowFits(w, d))
    ensures g.Valid? ==> forall n :: 0 <= n < Pow2(w) ==> DoUnsigned(w, n, g.divider) == n / d
  {
    if d == 0 { return Invalid; }
    var divider := InternalGenUnsigned(w, d, false);
    forall n | 0 <= n < Pow2(w) ensures DoUnsigned(w, n, divider) == n / d {
      DoUnsignedDivides(w, d, divider, n);
    }
    g := Valid(divider);
  }

  method GenUnsignedBranchfree(w: nat, d: nat) returns (g: Generated)
    requires IsWidth(w) && d < Pow2(w)
    ensures g.Invalid? <==> d <= 1
    ensures g.Valid? ==> UnsignedBranchfreeDivider(w, d, g.divider)
    ensures g.Valid? ==> forall n :: 0 <= n < Pow2(w) ==> DoUnsignedBranchfree(w, n, g.divider) == n / d
  {
    if d == 1 || d == 0 { return Invalid; }
    var internal := InternalGenUnsigned(w, d, true);
    var divider := Divider(internal.magic, ShiftOf(w, internal.more));
    forall n | 0 <= n < Pow2(w) ensures DoUnsignedBranchfree(w, n, divider) == n / d {
      DoUnsignedBranchfreeDivides(w, d, divider, n);
    }
    g := Valid(divider);
  }

  // ----- recovering unsigned divisors

  lemma DoubledQuotient(k: nat, m: nat)
    requires m > 0
    ensures (2 * k) / m == 2 * (k / m) + if 2 * (k % m) >= m then 1 else 0
  {
    DivModForm(k, m);
    var c := if 2 * (k % m) >= m then 1 else 0;
    Distribute(m, 2 * (k / m), c);
    Associate(2, k / m, m);
    DivModUnique(2 * k, m, 2 * (k / m) + c, 2 * (k % m) - c * m);
  }

  /** A pair added to itself, with a carry. */
  function DoublePair(w: nat, p: Pair): Pair {
    var lo := Wrap(w, p.lo + p.lo);
    Pair(Wrap(w, p.hi + p.hi + if lo < p.lo then 1 else 0), lo)
  }

  lemma CarryBalances(m: int, hi: int, lo: int, c: int)
    ensures (hi + hi + c) * m + (lo + lo - c * m) == 2 * (hi * m + lo)
  {
  }

  lemma DoublePairValue(w: nat, p: Pair)
    requires IsPair(w, p) && 2 * Value(w, p) < Pow2(w) * Pow2(w)
    ensures IsPair(w, DoublePair(w, p)) && Value(w, DoublePair(w, p)) == 2 * Value(w, p)
  {
    ValueRange(w, p);
    var c := if p.lo + p.lo < Pow2(w) then 0 else 1;
    var lo := p.lo + p.lo - c * Pow2(w);
    assert Wrap(w, p.lo + p.lo) == lo by {
      WrapShift(w, lo, c);
      WrapSmall(w, lo);
    }
    CarryBalances(Pow2(w), p.hi, p.lo, c);
    WrapPair(w, p.hi + p.hi + c, lo);
  }

  /** Dividing `2^(w+shift)` by the wide reciprocal `2^w + magic` in pairs of words, and whether
      doubling the remainder reaches the reciprocal. */
  method HalfRecoveryInPairs(h: nat, shift: nat, magic: nat) returns (halfQ: int, exceeds: bool)
    requires h > 0 && shift < 2 * h && magic < Pow2(2 * h)
    ensures halfQ == Pow2(2 * h + shift) / (Pow2(2 * h) + magic)
    ensures exceeds <==> 2 * (Pow2(2 * h + shift) % (Pow2(2 * h) + magic)) >= Pow2(2 * h) + magic
  {
    var w := 2 * h;
    Pow2Monotone(shift, w);
    FourWords(w);
    var half, reciprocal := Pair(Pow2(shift), 0), Pair(1, magic);
    assert Value(w, half) == Pow2(w + shift) by { Pow2Add(shift, w); }
    assert Value(w, reciprocal) == Pow2(w) + magic;
    var r;
    halfQ, r := DivideTwoByTwo(h, half, reciprocal);
    DivModUnique(Pow2(w + shift), Pow2(w) + magic, halfQ, Value(w, r));
    DoublePairValue(w, r);
    AtLeastValue(w, DoublePair(w, r), reciprocal);
    exceeds := AtLeast(DoublePair(w, r), reciprocal);
  }

  /** The same: at 32 bits a plain 64-bit division does. */
  method HalfRecovery(w: nat, shift: nat, magic: nat) returns (halfQ: int, exceeds: bool)
    requires IsWidth(w) && shift < w && magic < Pow2(w)
    ensures halfQ == Pow2(w + shift) / (Pow2(w) + magic)
    ensures exceeds <==> 2 * (Pow2(w + shift) % (Pow2(w) + magic)) >= Pow2(w) + magic
  {
    if w == 32 {
      var halfN, reciprocal := Pow2(w + shift), Pow2(w) + magic;
      halfQ := halfN / reciprocal;
      var rem := halfN % reciprocal;
      exceeds := 2 * rem >= reciprocal;
    } else {
      halfQ, exceeds := HalfRecoveryInPairs(w / 2, shift, magic);
    }
  }

  lemma FourWords(w: nat)
    requires w >= 2
    ensures 4 * Pow2(w) <= Pow2(w) * Pow2(w)
  {
  }

  lemma WideRecovered(w: nat, shift: nat, magic: nat, d: nat)
    requires 0 < d < Pow2(w) && UnsignedMagic(w, d, shift, magic, true)
    ensures var k, m := Pow2(w + shift), Pow2(w) + magic;
            2 * (k / m) + (if 2 * (k % m) >= m then 1 else 0) == d - 1
  {
    var k, m := Pow2(w + shift), Pow2(w) + magic;
    DoubledQuotient(k, m);
    assert Pow2(w + shift + 1) == 2 * k;
    assert m == magic + Pow2(w);
    ReciprocalRecovers(2 * k, d, m, m * d - 2 * k);
  }

  /** A wide reciprocal gives back its divisor. */
  method RecoverWide(w: nat, shift: nat, magic: nat, ghost d: nat) returns (r: nat)
    requires IsWidth(w) && 0 < d < Pow2(w) && UnsignedMagic(w, d, shift, magic, true)
    ensures r == d
  {
    var halfQ, exceeds := HalfRecovery(w, shift, magic);
    var fullQ := Wrap(w, halfQ + halfQ + if exceeds then 1 else 0);
    r := Wrap(w, fullQ + 1);
    WideRecovered(w, shift, magic, d);
    WrapSmall(w, d - 1);
    WrapSmall(w, d);
  }

  method RecoverUnsigned(w: nat, g: Divider, ghost d: nat) returns (r: nat)
    requires IsWidth(w) && UnsignedDivider(w, d, g)
    ensures r == d
  {
    DividerReads(w, d, g);
    var shift := ShiftOf(w, g.more);
    if g.magic == 0 {
      ShlSmall(w, 1, shift);
      r := Shl(w, 1, shift);
    } else if !HasAdd(g.more) {
      r := RecoverNarrow(w, shift, g.magic, d);
    } else {
      r := RecoverWide(w, shift, g.magic, d);
    }
  }

  /** A narrow reciprocal exceeds half a word. */
  lemma NarrowReciprocalLarge(w: nat, d: nat, l: nat, magic: nat)
    requires UnsignedMagic(w, d, l, magic, false) && 0 < d < Pow2(l + 1)
    ensures Pow2(l) < magic
  {
    if magic <= Pow2(l) {
      MulMonotone(d, magic, Pow2(l));
      MulStrict(Pow2(l), d, Pow2(l + 1));
      Pow2Add(l, l + 1);
      Pow2Add(l, w);
      Pow2Monotone(l + 1, w);
      MulMonotone(Pow2(l), Pow2(l + 1), Pow2(w));
    }
  }

  lemma NarrowRecovered(w: nat, shift: nat, magic: nat, d: nat, q: nat, rem: nat)
    requires 0 < d < Pow2(shift + 1) && UnsignedMagic(w, d, shift, magic, false)
    requires q * magic + rem == Pow2(shift) * Pow2(w) && rem < magic
    ensures 1 + q == d
  {
    NarrowReciprocalLarge(w, d, shift, magic);
    Pow2Add(w, shift);
    DivModUnique(Pow2(w + shift), magic, q, rem);
    ReciprocalRecovers(Pow2(w + shift), d, magic, magic * d - Pow2(w + shift));
  }

  method RecoverNarrow(w: nat, shift: nat, magic: nat, ghost d: nat) returns (r: nat)
    requires IsWidth(w) && 0 < d < Pow2(w) && d < Pow2(shift + 1) && UnsignedMagic(w, d, shift, magic, false)
    ensures r == d
  {
    NarrowReciprocalLarge(w, d, shift, magic);
    var h := w / 2;
    assert 2 * h == w;
    var q, rem := DivideTwoByOne(h, Pow2(shift), 0, magic);
    NarrowRecovered(w, shift, magic, d, q, rem);
    r := Wrap(w, 1 + q);
    WrapSmall(w, d);
  }

  lemma BranchfreeReads(w: nat, d: nat, g: Divider)
    requires IsWidth(w) && UnsignedBranchfreeDivider(w, d, g)
    ensures ShiftOf(w, g.more) == g.more
    ensures g.magic == 0 ==> d == Pow2(g.more + 1)
    ensures g.magic != 0 ==> UnsignedMagic(w, d, g.more, g.magic, true)
  {
    LogBrackets(w, d);
    Markers(w, g.more, false, false);
  }

  method RecoverUnsignedBranchfree(w: nat, g: Divider, ghost d: nat) returns (r: nat)
    requires IsWidth(w) && UnsignedBranchfreeDivider(w, d, g)
    ensures r == d
  {
    BranchfreeReads(w, d, g);
    var shift := ShiftOf(w, g.more);
    if g.magic == 0 {
      r := Shl(w, 1, shift + 1);
      WrapSmall(w, d);
    } else {
      r := RecoverWide(w, shift, g.magic, d);
    }
  }

  /** The divider of seven: a reciprocal of 33 bits, the shift in the low bits and the marker at bit 6. */
  lemma DividerOfSeven(w: nat, d: nat, g: Divider)
    requires w == 32 && d == 7 && UnsignedDivider(w, d, g)
    ensures g == Divider(0x24924925, 0x42)
  {
    LogOfSeven(d);
    assert Pow2(32) == 0x1_0000_0000 && Pow2(34) == 0x4_0000_0000 && Pow2(35) == 0x8_0000_0000 by { PowersAbove32(); }
  }

  lemma LogOfSeven(d: nat)
    requires d == 7
    ensures FloorLog(d) == 2 && Pow2(2) == 4
  {
    BitLengthUnique(7, 2);
  }

  lemma PowersAbove32()
    ensures Pow2(31) == 0x8000_0000 && Pow2(32) == 0x1_0000_0000
    ensures Pow2(33) == 0x2_0000_0000 && Pow2(34) == 0x4_0000_0000 && Pow2(35) == 0x8_0000_0000
  {
    assert Pow2(11) == 2048 && Pow2(10) == 1024;
    Pow2Add(11, 10);
    Pow2Add(21, 10);
    assert Pow2(32) == 2 * Pow2(31) && Pow2(33) == 2 * Pow2(32) && Pow2(34) == 2 * Pow2(33);
    assert Pow2(35) == 2 * Pow2(34);
  }
}

/** The signed dividers of libdivide, branching and branchfree. */
module LibdivideSigned {
  import opened Words
  import opened Magic
  import opened Libdivide

  // ----- signed words

  /** The value of the low `w` bits read as two's complement. */
  function SignedWrap(w: nat, x: int): int
    requires w > 0
  {
    var r := Wrap(w, x);
    if r < Pow2(w - 1) then r else r - Pow2(w)
  }

  lemma SignedWrapSmall(w: nat, x: int)
    requires w > 0 && IsSigned(w, x)
    ensures SignedWrap(w, x) == x
  {
    if x >= 0 {
      WrapSmall(w, x);
    } else {
      WrapShift(w, x, 1);
      WrapSmall(w, x + Pow2(w));
    }
  }

  /** Division of `n` by the magnitude of the divisor, towards zero. */
  function TruncBy(n: int, m: int): int
    requires m > 0
  {
    if n >= 0 then n / m else -(-n / m)
  }

  lemma TruncDivSign(n: int, d: int)
    requires d != 0
    ensures TruncDiv(n, d) == (if d < 0 then -TruncBy(n, Abs(d)) else TruncBy(n, Abs(d)))
    ensures TruncDiv(n, d) == TruncBy(if d < 0 then -n else n, Abs(d))
  {
  }

  lemma TruncByRange(w: nat, n: int, m: int)
    requires w > 0 && IsSigned(w, n) && m > 0
    ensures IsSigned(w, TruncBy(n, m))
    ensures m > 1 ==> IsSigned(w, -TruncBy(n, m))
  {
    var k := Abs(n);
    DivModForm(k, m);
    MulMonotone(k / m, 1, m);
    DivAtLeast(k, m, 0);
    if m > 1 { MulMonotone(k / m, 2, m); }
  }

  // ----- division

  /** Whether the divisor was negative, applied to a result: the exclusive-or with the sign mask and
      subtraction of it. */
  function Negated(w: nat, q: int, negative: bool): int
    requires w > 0
  {
    if negative then SignedWrap(w, -q) else q
  }

  /** Division by a power of two `p`: round towards zero, shift, negate. */
  function ShiftQuotient(w: nat, n: int, p: nat, negative: bool): int
    requires w > 0 && p > 0
  {
    Negated(w, SignedWrap(w, n + if n < 0 then p - 1 else 0) / p, negative)
  }

  /** The high word, shifted and raised when negative. */
  function MagicQuotient(w: nat, uq: int, p: nat): int
    requires w > 0 && p > 0
  {
    var q := SignedWrap(w, uq) / p;
    if q < 0 then q + 1 else q
  }

  /** The high word with the numerator added or subtracted as the markers say. */
  function Adjusted(uq: int, n: int, add: bool, negative: bool): int {
    if !add then uq else if negative then uq - n else uq + n
  }

  function DoSigned(w: nat, n: int, g: Divider): int
    requires IsWidth(w)
  {
    var p := Pow2(ShiftOf(w, g.more));
    if g.magic == 0 then ShiftQuotient(w, n, p, HasNegative(g.more))
    else MagicQuotient(w, Adjusted(MulHigh(w, g.magic, n), n, HasAdd(g.more), HasNegative(g.more)), p)
  }

  /** The branchfree steps after the multiplication: `c` is one for a power of two. */
  function BranchfreeQuotient(w: nat, uq: int, p: nat, c: nat, negative: bool): int
    requires w > 0 && p > 0
  {
    var q := SignedWrap(w, uq);
    var q' := SignedWrap(w, q + if q < 0 then p - c else 0);
    Negated(w, q' / p, negative)
  }

  function DoSignedBranchfree(w: nat, n: int, g: Divider): int
    requires IsWidth(w)
  {
    BranchfreeQuotient(w, MulHigh(w, g.magic, n) + n, Pow2(ShiftOf(w, g.more)),
                       if g.magic == 0 then 1 else 0, HasNegative(g.more))
  }

  /** A divider read through its shift and markers. */
  lemma DoSignedReads(w: nat, n: int, g: Divider, s: nat, add: bool, negative: bool)
    requires IsWidth(w) && s < w
    requires g.more == s + (if add then ADD_MARKER else 0) + (if negative then NEGATIVE_DIVISOR else 0)
    ensures g.magic == 0 ==> DoSigned(w, n, g) == ShiftQuotient(w, n, Pow2(s), negative)
    ensures g.magic != 0 ==>
              DoSigned(w, n, g)
              == MagicQuotient(w, Adjusted(MulHigh(w, g.magic, n), n, add, negative), Pow2(s))
    ensures DoSignedBranchfree(w, n, g)
         == BranchfreeQuotient(w, MulHigh(w, g.magic, n) + n, Pow2(s), if g.magic == 0 then 1 else 0, negative)
  {
    Markers(w, s, add, negative);
  }

  /** A positive magic number for the magnitude of a divisor, one bit narrower than an unsigned one. */
  ghost predicate SignedMagic(w: nat, d: nat, l: nat, magic: int, add: bool)
    requires w > 0
  {
    UnsignedMagic(w - 1, d, l, if add then magic - Pow2(w - 1) else magic, add)
  }

  /** The two forms of a divider for a divisor that is not a power of two, `l` its logarithm: the
      branchfree form keeps the sign out of the magic number and always has the add marker. */
  ghost predicate SignedMultiplier(w: nat, d: int, l: nat, g: Divider, branchfree: bool)
    requires w > 0
  {
    var mark := if d < 0 then NEGATIVE_DIVISOR else 0;
    var magic := if d < 0 && !branchfree then -g.magic else g.magic;
    || (!branchfree && g.more == l - 1 + mark && SignedMagic(w, Abs(d), l, magic, false))
    || (g.more == l + ADD_MARKER + mark && SignedMagic(w, Abs(d), l, Pow2(w) + magic, true))
  }

  ghost predicate SignedDivider(w: nat, d: int, g: Divider, branchfree: bool)
    requires w > 0
  {
    && d != 0 && IsSigned(w, d) && FloorLog(Abs(d)) >= 0
    && var l: nat := FloorLog(Abs(d));
       if Abs(d) == Pow2(l) then g == Divider(0, l + if d < 0 then NEGATIVE_DIVISOR else 0)
       else l > 0 && SignedMultiplier(w, d, l, g, branchfree)
  }

  lemma FloorDivDiv(n: int, a: nat, b: nat)
    requires a > 0 && b > 0
    ensures a * b > 0 && n / a / b == n / (a * b)
  {
    var q, r := n / a, n % a;
    var q', r' := q / b, q % b;
    assert n == (q' * b + r') * a + r by { DivModForm(n, a); DivModForm(q, b); }
    assert (q' * b + r') * a == q' * (a * b) + r' * a;
    MulMonotone(a, r', b - 1);
    MulMonotone(a, 0, r');
    Distribute(a, b, -1);
    DivModUnique(n, a * b, q', r' * a + r);
  }

  lemma MagicNonnegative(k: nat, m: nat, magic: nat, e: nat, n: nat)
    requires Reciprocal(k, m, magic, e) && n * e < k
    ensures 0 <= (magic * n) / k == n / m
  {
    MagicFloor(k, m, magic, e, n);
    DivAtLeast(n, m, 0);
  }

  lemma MagicBelowZero(k: nat, m: nat, magic: nat, e: nat, n: nat)
    requires Reciprocal(k, m, magic, e) && e > 0 && n > 0 && n * e < k
    ensures (magic * -1 * n) / k == -(n / m) - 1 < 0
  {
    MagicNegative(k, m, magic, e, n);
    assert magic * -1 * n == -(n * magic);
    DivAtLeast(n, m, 0);
  }

  /** A reciprocal applied to a signed numerator, with the correction for negative results, divides
      towards zero. */
  lemma MagicTruncates(k: nat, m: nat, magic: nat, e: nat, n: int)
    requires Reciprocal(k, m, magic, e) && e > 0 && Abs(n) * e < k
    ensures var q := (magic * n) / k; (if q < 0 then q + 1 else q) == TruncBy(n, m) && (q < 0 <==> n < 0)
  {
    if n >= 0 {
      MagicNonnegative(k, m, magic, e, n);
    } else {
      MagicBelowZero(k, m, magic, e, -n);
      assert magic * -1 * -n == magic * n;
    }
  }

  /** The high word of a product with a word is a signed word. */
  lemma HighWordSigned(w: nat, magic: nat, x: int)
    requires w > 0 && magic < Pow2(w) && Abs(x) <= Pow2(w - 1)
    ensures IsSigned(w, (magic * x) / Pow2(w))
  {
    var m: int, h: int := Pow2(w), Pow2(w - 1);
    assert magic * x < h * m by {
      MulMonotone(magic, x, h);
      MulStrict(h, magic, m);
    }
    assert -h * m <= magic * x by {
      MulMonotone(magic, -h, x);
      MulMonotone(h, magic, m);
    }
    DivAtLeast(magic * x, m, h);
    DivAtLeast(magic * x, m, -h);
  }

  function MagicShift(l: nat, add: bool): nat
    requires l > 0
  {
    if add then l else l - 1
  }

  /** A signed magic number is a reciprocal with an error small enough for every numerator. */
  lemma SignedReciprocal(w: nat, m: nat, l: nat, magic: nat, add: bool, x: int)
    requires w > 0 && l > 0 && 0 < m < Pow2(l + 1) && SignedMagic(w, m, l, magic, add) && Abs(x) <= Pow2(w - 1)
    ensures magic < Pow2(w)
    ensures var k := Pow2(w + MagicShift(l, add));
            var e := magic * m - k;
            e > 0 && Reciprocal(k, m, magic, e) && Abs(x) * e < k
  {
    var k := Pow2(w + MagicShift(l, add));
    var e := magic * m - k;
    var h := Pow2(w - 1);
    if add {
      assert magic - h + h == magic;
      Pow2Add(w - 1, l + 1);
      SmallError(Abs(x), h, e, Pow2(l + 1));
    } else {
      Pow2Add(w - 1, l);
      SmallError(Abs(x), h, e, Pow2(l));
    }
  }

  lemma SmallError(n: nat, h: nat, e: nat, l: nat)
    requires n <= h && e < l && h > 0
    ensures n * e < h * l
  {
  }

  /** High word, shift and correction together divide by the magnitude towards zero. */
  lemma SignedProduct(w: nat, m: nat, l: nat, magic: nat, add: bool, x: int)
    requires w > 0 && l > 0 && 0 < m < Pow2(l + 1) && SignedMagic(w, m, l, magic, add) && Abs(x) <= Pow2(w - 1)
    ensures var t := (magic * x) / Pow2(w);
            var q := t / Pow2(MagicShift(l, add));
            IsSigned(w, t) && (q < 0 <==> x < 0) && (if q < 0 then q + 1 else q) == TruncBy(x, m)
  {
    var s := MagicShift(l, add);
    SignedReciprocal(w, m, l, magic, add, x);
    HighWordSigned(w, magic, x);
    FloorDivDiv(magic * x, Pow2(w), Pow2(s));
    Pow2Add(w, s);
    MagicTruncates(Pow2(w + s), m, magic, magic * m - Pow2(w + s), x);
  }

  /** Adding a multiple of the scale inside the product adds it to the high word. */
  lemma HighWordShift(p: nat, magic: int, n: int, c: int)
    requires p > 0
    ensures ((magic + c * p) * n) / p == (magic * n) / p + c * n
  {
    Distribute(n, magic, c * p);
    Associate(n, c, p);
    DivModForm(magic * n, p);
    Distribute(p, (magic * n) / p, c * n);
    DivModUnique((magic + c * p) * n, p, (magic * n) / p + c * n, (magic * n) % p);
  }

  // ----- the shift path

  /** Rounding up before a shift that rounds down divides towards zero. */
  lemma RoundedShift(n: int, p: int)
    requires p > 0
    ensures (n + if n < 0 then p - 1 else 0) / p == TruncBy(n, p)
  {
    if n < 0 {
      var k := -n;
      DivModForm(k, p);
      DivModUnique(n + (p - 1), p, -(k / p), p - 1 - k % p);
    }
  }

  lemma LogOfMagnitude(w: nat, d: int)
    requires w > 0 && d != 0 && IsSigned(w, d)
    ensures Abs(d) < Pow2(w) && 0 <= FloorLog(Abs(d)) < w
    ensures Pow2(FloorLog(Abs(d))) <= Abs(d) < Pow2(FloorLog(Abs(d)) + 1)
    ensures Abs(d) != Pow2(FloorLog(Abs(d))) ==> Abs(d) < Pow2(w - 1)
  {
    LogBrackets(w, Abs(d));
    if Abs(d) == Pow2(w - 1) { BitLengthUnique(Abs(d), w - 1); }
  }

  /** A negated quotient wraps exactly when the truncated quotient does. */
  lemma NegatedQuotient(w: nat, n: int, d: int)
    requires w > 0 && d != 0 && IsSigned(w, n)
    ensures Negated(w, TruncBy(n, Abs(d)), d < 0) == SignedWrap(w, TruncDiv(n, d))
  {
    TruncDivSign(n, d);
    TruncByRange(w, n, Abs(d));
    SignedWrapSmall(w, TruncBy(n, Abs(d)));
  }

  lemma ShiftPath(w: nat, n: int, p: nat)
    requires w > 0 && IsSigned(w, n) && 0 < p <= Pow2(w - 1)
    ensures SignedWrap(w, n + if n < 0 then p - 1 else 0) / p == TruncBy(n, p)
  {
    SignedWrapSmall(w, n + if n < 0 then p - 1 else 0);
    RoundedShift(n, p);
  }

  lemma ShiftQuotientIs(w: nat, n: int, d: int)
    requires w > 0 && d != 0 && IsSigned(w, n) && Abs(d) <= Pow2(w - 1)
    ensures ShiftQuotient(w, n, Abs(d), d < 0) == SignedWrap(w, TruncDiv(n, d))
    ensures BranchfreeQuotient(w, n, Abs(d), 1, d < 0) == SignedWrap(w, TruncDiv(n, d))
  {
    SignedWrapSmall(w, n);
    ShiftPath(w, n, Abs(d));
    NegatedQuotient(w, n, d);
  }

  /** What a divider for a power of two looks like. */
  ghost predicate PowerDivider(d: int, l: nat, g: Divider) {
    Abs(d) == Pow2(l) && g == Divider(0, l + if d < 0 then NEGATIVE_DIVISOR else 0)
  }

  lemma DoSignedByPower(w: nat, d: int, l: nat, g: Divider, n: int)
    requires IsWidth(w) && d != 0 && l < w && PowerDivider(d, l, g) && IsSigned(w, n)
    ensures DoSigned(w, n, g) == SignedWrap(w, TruncDiv(n, d))
    ensures DoSignedBranchfree(w, n, g) == SignedWrap(w, TruncDiv(n, d))
  {
    DoSignedReads(w, n, g, l, false, d < 0);
    Pow2Monotone(l, w - 1);
    assert MulHigh(w, 0, n) == 0 by { DivModUnique(0, Pow2(w), 0, 0); }
    ShiftQuotientIs(w, n, d);
  }

  // ----- the multiplication path

  /** What the branching form adds to the high word makes up for the bit the magic number lacks and
      for the sign it has. */
  lemma SignedHighWord(w: nat, d: int, magic: int, add: bool, n: int)
    ensures var m := if d < 0 then -magic else magic;
            var full := if add then Pow2(w) + m else m;
            var x := if d < 0 then -n else n;
            (full * x) / Pow2(w) == Adjusted(MulHigh(w, magic, n), n, add, d < 0)
  {
    var m := if d < 0 then -magic else magic;
    var x := if d < 0 then -n else n;
    assert m * x == magic * n;
    if add { HighWordShift(Pow2(w), m, x, 1); }
  }

  lemma MagicQuotientIs(w: nat, d: int, l: nat, full: nat, add: bool, n: int)
    requires w > 0 && IsSigned(w, n) && l > 0 && 1 < Abs(d) < Pow2(l + 1) && SignedMagic(w, Abs(d), l, full, add)
    ensures var x := if d < 0 then -n else n;
            MagicQuotient(w, (full * x) / Pow2(w), Pow2(MagicShift(l, add))) == SignedWrap(w, TruncDiv(n, d))
  {
    var x := if d < 0 then -n else n;
    SignedProduct(w, Abs(d), l, full, add, x);
    SignedWrapSmall(w, (full * x) / Pow2(w));
    TruncDivSign(n, d);
    TruncByRange(w, n, Abs(d));
    SignedWrapSmall(w, TruncDiv(n, d));
  }

  /** The adjusted high word leads to the quotient. */
  lemma AdjustedQuotient(w: nat, d: int, l: nat, magic: int, n: int, add: bool)
    requires w > 0 && IsSigned(w, n) && l > 0 && 1 < Abs(d) < Pow2(l + 1)
    requires var m := if d < 0 then -magic else magic;
             SignedMagic(w, Abs(d), l, if add then Pow2(w) + m else m, add)
    ensures MagicQuotient(w, Adjusted(MulHigh(w, magic, n), n, add, d < 0), Pow2(MagicShift(l, add)))
         == SignedWrap(w, TruncDiv(n, d))
  {
    var m := if d < 0 then -magic else magic;
    MagicQuotientIs(w, d, l, if add then Pow2(w) + m else m, add, n);
    SignedHighWord(w, d, magic, add, n);
  }

  lemma DoSignedByMagic(w: nat, d: int, l: nat, g: Divider, n: int, add: bool)
    requires IsWidth(w) && IsSigned(w, n) && 0 < l < w && 1 < Abs(d) < Pow2(l + 1) && g.magic != 0
    requires g.more == MagicShift(l, add) + (if add then ADD_MARKER else 0) + (if d < 0 then NEGATIVE_DIVISOR else 0)
    requires var m := if d < 0 then -g.magic else g.magic;
             SignedMagic(w, Abs(d), l, if add then Pow2(w) + m else m, add)
    ensures DoSigned(w, n, g) == SignedWrap(w, TruncDiv(n, d))
  {
    AdjustedQuotient(w, d, l, g.magic, n, add);
    DoSignedReads(w, n, g, MagicShift(l, add), add, d < 0);
  }

  /** Dividing by a generated signed divider is dividing towards zero; only the most negative value
      divided by -1 wraps. */
  lemma DoSignedDivides(w: nat, d: int, g: Divider, n: int)
    requires IsWidth(w) && SignedDivider(w, d, g, false) && IsSigned(w, n)
    ensures DoSigned(w, n, g) == SignedWrap(w, TruncDiv(n, d))
  {
    var l: nat := FloorLog(Abs(d));
    LogOfMagnitude(w, d);
    if Abs(d) == Pow2(l) {
      DoSignedByPower(w, d, l, g, n);
    } else {
      DoSignedByMultiplier(w, d, l, g, n);
    }
  }

  lemma DoSignedByMultiplier(w: nat, d: int, l: nat, g: Divider, n: int)
    requires IsWidth(w) && IsSigned(w, n) && 0 < l < w && 1 < Abs(d) < Pow2(l + 1)
    requires SignedMultiplier(w, d, l, g, false)
    ensures DoSigned(w, n, g) == SignedWrap(w, TruncDiv(n, d))
  {
    MultiplierReads(w, d, l, g, false);
    DoSignedByMagic(w, d, l, g, n, HasAdd(g.more));
  }

  /** What the fields of a multiplying divider say. */
  lemma MultiplierReads(w: nat, d: int, l: nat, g: Divider, branchfree: bool)
    requires IsWidth(w) && 0 < l < w && SignedMultiplier(w, d, l, g, branchfree)
    ensures ShiftOf(w, g.more) == MagicShift(l, HasAdd(g.more)) && HasNegative(g.more) == (d < 0)
    ensures g.more == MagicShift(l, HasAdd(g.more)) + (if HasAdd(g.more) then ADD_MARKER else 0)
                      + (if d < 0 then NEGATIVE_DIVISOR else 0)
    ensures var m := if d < 0 && !branchfree then -g.magic else g.magic;
            SignedMagic(w, Abs(d), l, if HasAdd(g.more) then Pow2(w) + m else m, HasAdd(g.more))
  {
    Markers(w, l - 1, false, d < 0);
    Markers(w, l, true, d < 0);
  }

  /** The branchfree steps after the multiplication by a full reciprocal. */
  lemma BranchfreeQuotientIs(w: nat, d: int, l: nat, full: nat, n: int)
    requires w > 0 && IsSigned(w, n) && 0 < l < w && 1 < Abs(d) < Pow2(l + 1) && d != 0
    requires SignedMagic(w, Abs(d), l, full, true)
    ensures BranchfreeQuotient(w, (full * n) / Pow2(w), Pow2(l), 0, d < 0) == SignedWrap(w, TruncDiv(n, d))
  {
    var t, p := (full * n) / Pow2(w), Pow2(l);
    SignedProduct(w, Abs(d), l, full, true, n);
    Pow2Monotone(l, w - 1);
    SignedWrapSmall(w, t);
    DivAtLeast(t, p, 0);
    SignedWrapSmall(w, t + if t < 0 then p else 0);
    DivModForm(t, p);
    Distribute(p, t / p, 1);
    DivModUnique(t + p, p, t / p + 1, t % p);
    NegatedQuotient(w, n, d);
  }

  lemma DoSignedBranchfreeDivides(w: nat, d: int, g: Divider, n: int)
    requires IsWidth(w) && SignedDivider(w, d, g, true) && IsSigned(w, n)
    ensures DoSignedBranchfree(w, n, g) == SignedWrap(w, TruncDiv(n, d))
  {
    var l: nat := FloorLog(Abs(d));
    LogOfMagnitude(w, d);
    if Abs(d) == Pow2(l) {
      DoSignedByPower(w, d, l, g, n);
    } else {
      DoBranchfreeByMagic(w, d, l, g, n);
    }
  }

  lemma DoBranchfreeByMagic(w: nat, d: int, l: nat, g: Divider, n: int)
    requires IsWidth(w) && SignedDivider(w, d, g, true) && IsSigned(w, n)
    requires l == FloorLog(Abs(d)) && 0 < l < w && Abs(d) != Pow2(l)
    ensures DoSignedBranchfree(w, n, g) == SignedWrap(w, TruncDiv(n, d))
  {
    assert (Pow2(w) + g.magic) * n / Pow2(w) == MulHigh(w, g.magic, n) + n by {
      HighWordShift(Pow2(w), g.magic, n, 1);
    }
    LogOfMagnitude(w, d);
    BranchfreeQuotientIs(w, d, l, Pow2(w) + g.magic, n);
    DoSignedReads(w, n, g, l, true, d < 0);
  }

  // ----- generating and recovering

  /** The first reciprocal tried, `2^(w+l-1)` over the magnitude. */
  method TrySignedReciprocal(w: nat, m: nat, l: nat) returns (q: nat, rem: nat)
    requires IsWidth(w) && 0 < m < Pow2(w - 1) && l == FloorLog(m) && m != Pow2(l) && l > 0
    ensures Pow2(w - 1 + l) == q * m + rem && 0 < rem < m
  {
    NotPower(w - 1, m, l);
    Pow2Monotone(w - 1, w);
    q, rem := DivideRaised(w, Pow2(l - 1), m);
    Pow2Add(l - 1, w);
    if rem == 0 { PowerDivisor(q, m, w - 1 + l, l + 1); }
  }

  /** The wider reciprocal needs the whole word, so it does not wrap. */
  lemma SignedWide(w: nat, m: nat, l: nat, q: nat, rem: nat)
    requires w > 0 && 0 < m < Pow2(w - 1) && l == FloorLog(m) && m != Pow2(l)
    requires Pow2(w - 1 + l) == q * m + rem && rem < m
    ensures SignedMagic(w, m, l, DoubledMagic(w, m, q, rem), true)
    ensures Pow2(w - 1) < DoubledMagic(w, m, q, rem) < Pow2(w)
  {
    Pow2Monotone(w - 1, w);
    var q', rem' := DoubledMagicIs(w, Pow2(w - 1 + l), m, q, rem);
    WideMagic(w - 1, m, l, q', rem');
    WrapSmall(w, q' + 1);
  }

  /** The magnitude, computed on the unsigned reading of the divisor. */
  function Magnitude(w: nat, d: int): nat {
    var ud: int := Wrap(w, d);
    if d < 0 then Wrap(w, -ud) else ud
  }

  lemma MagnitudeWraps(w: nat, d: int)
    requires w > 0 && IsSigned(w, d)
    ensures Magnitude(w, d) == Abs(d)
  {
    if d < 0 {
      WrapShift(w, d, 1);
      WrapSmall(w, d + Pow2(w));
      WrapShift(w, -(d + Pow2(w)), 1);
      WrapSmall(w, -d);
    } else {
      WrapSmall(w, d);
    }
  }

  lemma MarkersOr(l: nat, add: bool, negative: bool)
    requires l < 64
    ensures Marked(if add then Or(l, ADD_MARKER) else l, negative)
         == l + (if add then ADD_MARKER else 0) + (if negative then NEGATIVE_DIVISOR else 0)
  {
    AddMarkerOr(l);
    assert Pow2(7) == 128;
    OrDisjoint(1, l, 7);
    OrCommutes(l, 128);
    OrDisjoint(1, l + ADD_MARKER, 7);
    OrCommutes(l + ADD_MARKER, 128);
  }

  function Marked(more: nat, negative: bool): nat { if negative then Or(more, NEGATIVE_DIVISOR) else more }

  method GenSigned(w: nat, d: int, branchfree: bool) returns (g: Generated)
    requires IsWidth(w) && IsSigned(w, d)
    ensures g.Invalid? <==> d == 0
    ensures g.Valid? ==> SignedDivider(w, d, g.divider, branchfree)
    ensures g.Valid? && g.divider.magic != 0 ==> (HasAdd(g.divider.more) <==> branchfree || !NarrowFits(w - 1, Abs(d)))
    ensures g.Valid? && !branchfree ==>
              forall n :: IsSigned(w, n) ==> DoSigned(w, n, g.divider) == SignedWrap(w, TruncDiv(n, d))
    ensures g.Valid? && branchfree ==>
              forall n :: IsSigned(w, n) ==> DoSignedBranchfree(w, n, g.divider) == SignedWrap(w, TruncDiv(n, d))
  {
    if d == 0 { return Invalid; }
    var divider := InternalGenSigned(w, d, branchfree);
    forall n | IsSigned(w, n) && !branchfree ensures DoSigned(w, n, divider) == SignedWrap(w, TruncDiv(n, d)) {
      DoSignedDivides(w, d, divider, n);
    }
    forall n | IsSigned(w, n) && branchfree ensures DoSignedBranchfree(w, n, divider) == SignedWrap(w, TruncDiv(n, d)) {
      DoSignedBranchfreeDivides(w, d, divider, n);
    }
    g := Valid(divider);
  }

  method InternalGenSigned(w: nat, d: int, branchfree: bool) returns (g: Divider)
    requires IsWidth(w) && IsSigned(w, d) && d != 0
    ensures SignedDivider(w, d, g, branchfree)
    ensures g.magic != 0 ==> (HasAdd(g.more) <==> branchfree || !NarrowFits(w - 1, Abs(d)))
  {
    LogOfMagnitude(w, d);
    MagnitudeWraps(w, d);
    var absD := Magnitude(w, d);
    var l: nat := w - 1 - LeadingZeros(w, absD);
    PowerOfTwoTest(absD);
    if And(absD, absD - 1) == 0 {
      MarkersOr(l, false, d < 0);
      g := Divider(0, Marked(l, d < 0));
    } else {
      LogPositive(absD, l);
      g := SignedMultiplierFor(w, d, absD, l, branchfree);
    }
  }

  lemma LogPositive(m: nat, l: nat)
    requires Pow2(l) < m < Pow2(l + 1)
    ensures l > 0
  {
  }

  /** The divider put together from a full reciprocal, its sign and its shift. */
  function SignedParts(w: nat, d: int, proposed: nat, more: nat, branchfree: bool): Divider
    requires w > 0
  {
    var magic := SignedWrap(w, proposed);
    Divider(if d < 0 && !branchfree then -magic else magic, Marked(more, d < 0))
  }

  /** The parts as the divider holds them: the marks added up, and the reciprocal as a signed word. */
  lemma SignedPartsHold(w: nat, d: int, l: nat, proposed: nat, add: bool, branchfree: bool) returns (g: Divider)
    requires IsWidth(w) && 0 < l < w
    requires if add then Pow2(w - 1) < proposed < Pow2(w) else proposed < Pow2(w - 1)
    ensures g == SignedParts(w, d, proposed, if add then Or(l, ADD_MARKER) else l - 1, branchfree)
    ensures g.more == MagicShift(l, add) + (if add then ADD_MARKER else 0) + if d < 0 then NEGATIVE_DIVISOR else 0
    ensures (if d < 0 && !branchfree then -g.magic else g.magic) == if add then proposed - Pow2(w) else proposed
  {
    g := SignedParts(w, d, proposed, if add then Or(l, ADD_MARKER) else l - 1, branchfree);
    assert SignedWrap(w, proposed) == if add then proposed - Pow2(w) else proposed by {
      Pow2Monotone(w - 1, w);
      SignedCast(w, proposed);
    }
    MarkersOr(MagicShift(l, add), add, d < 0);
  }

  lemma SignedPartsFit(w: nat, d: int, l: nat, proposed: nat, add: bool, branchfree: bool)
    requires IsWidth(w) && 0 < l < w && (branchfree ==> add) && SignedMagic(w, Abs(d), l, proposed, add)
    requires if add then Pow2(w - 1) < proposed < Pow2(w) else proposed < Pow2(w - 1)
    ensures SignedMultiplier(w, d, l,
                             SignedParts(w, d, proposed, if add then Or(l, ADD_MARKER) else l - 1, branchfree),
                             branchfree)
    ensures HasAdd(SignedParts(w, d, proposed, if add then Or(l, ADD_MARKER) else l - 1, branchfree).more) <==> add
  {
    var g := SignedPartsHold(w, d, l, proposed, add, branchfree);
    Markers(w, MagicShift(l, add), add, d < 0);
    assert SignedMultiplier(w, d, l, g, branchfree);
  }

  /** The full reciprocal: the one proposed if it is good enough, and otherwise one of one bit more. */
  method FindSignedMagic(w: nat, absD: nat, l: nat, branchfree: bool) returns (proposed: nat, add: bool)
    requires IsWidth(w) && 0 < absD < Pow2(w - 1) && l == FloorLog(absD) && absD != Pow2(l) && 0 < l < w
    ensures (add <==> branchfree || !NarrowFits(w - 1, absD)) && SignedMagic(w, absD, l, proposed, add)
    ensures if add then Pow2(w - 1) < proposed < Pow2(w) else proposed < Pow2(w - 1)
  {
    var q, rem := TrySignedReciprocal(w, absD, l);
    RemainderDecides(w - 1, absD, l, q, rem);
    var e := absD - rem;
    if !branchfree && e < Pow2(l) {
      NarrowMagic(w - 1, absD, l, q, rem);
      Pow2Monotone(w - 1, w);
      WrapSmall(w, q + 1);
      return Wrap(w, q + 1), false;
    } else {
      SignedWide(w, absD, l, q, rem);
      return DoubledMagic(w, absD, q, rem), true;
    }
  }

  method SignedMultiplierFor(w: nat, d: int, absD: nat, l: nat, branchfree: bool) returns (g: Divider)
    requires IsWidth(w) && absD == Abs(d) && 0 < absD < Pow2(w - 1) && l == FloorLog(absD) && absD != Pow2(l)
    requires 0 < l < w
    ensures SignedMultiplier(w, d, l, g, branchfree)
    ensures HasAdd(g.more) <==> branchfree || !NarrowFits(w - 1, absD)
  {
    var proposed, add := FindSignedMagic(w, absD, l, branchfree);
    SignedPartsFit(w, d, l, proposed, add, branchfree);
    g := SignedParts(w, d, proposed, if add then Or(l, ADD_MARKER) else l - 1, branchfree);
  }

  /** Reading a word as signed. */
  lemma SignedCast(w: nat, x: nat)
    requires w > 0 && x < Pow2(w)
    ensures SignedWrap(w, x) == if x < Pow2(w - 1) then x else x - Pow2(w)
  {
    WrapSmall(w, x);
  }

  /** The word of a magic number whose sign was taken off. */
  lemma ReciprocalWord(w: nat, d: nat, l: nat, m: int, add: bool)
    requires w > 1 && SignedMagic(w, d, l, if add then Pow2(w) + m else m, add)
    ensures Wrap(w, m) == (if add then Pow2(w) + m else m) && (if add then m < 0 else m > 0)
  {
    if add {
      WrapShift(w, m, 1);
      WrapSmall(w, Pow2(w) + m);
    } else {
      Pow2Monotone(w - 1, w);
      WrapSmall(w, m);
    }
  }

  /** The full reciprocal, whatever sign and bit the magic number went without. */
  lemma FullReciprocal(w: nat, d: int, l: nat, g: Divider, branchfree: bool)
    requires IsWidth(w) && 0 < l < w && SignedMultiplier(w, d, l, g, branchfree)
    ensures var negated := if HasAdd(g.more) then g.magic > 0 else g.magic < 0;
            var full := Wrap(w, if negated then -g.magic else g.magic);
            && SignedMagic(w, Abs(d), l, full, HasAdd(g.more))
            && ShiftOf(w, g.more) == MagicShift(l, HasAdd(g.more)) && HasNegative(g.more) == (d < 0)
  {
    MultiplierReads(w, d, l, g, branchfree);
    ReciprocalWord(w, Abs(d), l, if d < 0 && !branchfree then -g.magic else g.magic, HasAdd(g.more));
  }

  /** A full reciprocal is larger than its error and than the high word of its scale. */
  lemma FullReciprocalLarge(w: nat, m: nat, l: nat, full: nat, add: bool)
    requires w > 1 && 0 < l < w - 1 && 0 < m < Pow2(l + 1) && SignedMagic(w, m, l, full, add)
    ensures Pow2(MagicShift(l, add)) < full
    ensures full * m - Pow2(w + MagicShift(l, add)) <= full
  {
    Pow2Monotone(l + 1, w - 1);
    Pow2Monotone(MagicShift(l, add), l);
    if add {
      assert full - Pow2(w - 1) + Pow2(w - 1) == full;
    } else {
      NarrowReciprocalLarge(w - 1, m, l, full);
    }
  }

  /** The divisor from the reciprocal: `2^(w+shift)` over it, plus one. */
  method RecoverMagnitude(w: nat, ghost l: nat, shift: nat, full: nat, ghost add: bool, ghost m: nat) returns (r: nat)
    requires IsWidth(w) && 0 < l < w - 1 && shift == MagicShift(l, add) && 0 < m < Pow2(l + 1)
    requires SignedMagic(w, m, l, full, add)
    ensures r == m
  {
    SignedReciprocal(w, m, l, full, add, 0);
    FullReciprocalLarge(w, m, l, full, add);
    ghost var k := Pow2(w + shift);
    var q, rem := DivideRaised(w, Pow2(shift), full);
    Pow2Add(shift, w);
    MagnitudeRecovered(k, m, full, q, rem);
    r := q + 1;
  }

  lemma MagnitudeRecovered(k: nat, m: nat, full: nat, q: nat, rem: nat)
    requires 0 < full * m - k <= full && Reciprocal(k, m, full, full * m - k)
    requires k == q * full + rem && rem < full
    ensures q + 1 == m
  {
    ReciprocalRecovers(k, m, full, full * m - k);
    DivModUnique(k, full, q, rem);
  }

  method RecoverMultiplier(w: nat, g: Divider, ghost d: int, ghost l: nat, ghost branchfree: bool) returns (r: int)
    requires IsWidth(w) && 0 < l < w - 1 && 0 < Abs(d) < Pow2(l + 1) && SignedMultiplier(w, d, l, g, branchfree)
    ensures r == d
  {
    FullReciprocal(w, d, l, g, branchfree);
    var negated := if HasAdd(g.more) then g.magic > 0 else g.magic < 0;
    var full := Wrap(w, if negated then -g.magic else g.magic);
    r := RecoverMagnitude(w, l, ShiftOf(w, g.more), full, HasAdd(g.more), Abs(d));
    if HasNegative(g.more) { r := -r; }
  }

  lemma MultiplierNonzero(w: nat, d: int, l: nat, g: Divider, branchfree: bool)
    requires w > 0 && SignedMultiplier(w, d, l, g, branchfree)
    ensures g.magic != 0
  {
  }

  /** Recovering the divisor from either form of signed divider, the sign of the magic number telling
      whether it was negated. */
  method RecoverSigned(w: nat, g: Divider, ghost d: int, ghost branchfree: bool) returns (r: int)
    requires IsWidth(w) && SignedDivider(w, d, g, branchfree)
    ensures r == d
  {
    ghost var l: nat := FloorLog(Abs(d));
    LogOfMagnitude(w, d);
    if Abs(d) != Pow2(l) {
      MultiplierNonzero(w, d, l, g, branchfree);
      LogBrackets(w - 1, Abs(d));
    }
    if g.magic == 0 {
      var absD: int := Shl(w, 1, ShiftOf(w, g.more));
      RecoverPower(w, d, l, g, absD);
      r := SignedWrap(w, if HasNegative(g.more) then Wrap(w, -absD) else absD);
    } else {
      r := RecoverMultiplier(w, g, d, l, branchfree);
    }
  }

  lemma PowerReads(w: nat, d: int, l: nat, g: Divider)
    requires IsWidth(w) && l < w && PowerDivider(d, l, g)
    ensures ShiftOf(w, g.more) == l && HasNegative(g.more) == (d < 0)
  {
    Markers(w, l, false, d < 0);
  }

  lemma PowerShifted(w: nat, l: nat)
    requires w > 0 && l < w
    ensures Shl(w, 1, l) == Pow2(l)
  {
    Pow2Monotone(l + 1, w);
    WrapSmall(w, Pow2(l));
  }

  lemma RecoverPower(w: nat, d: int, l: nat, g: Divider, absD: int)
    requires IsWidth(w) && d != 0 && IsSigned(w, d) && l < w && PowerDivider(d, l, g)
    requires absD == Shl(w, 1, ShiftOf(w, g.more))
    ensures SignedWrap(w, if HasNegative(g.more) then Wrap(w, -absD) else absD) == d
  {
    PowerReads(w, d, l, g);
    PowerShifted(w, l);
    SignedBack(w, d);
  }

  /** A signed number through an unsigned word and back. */
  lemma SignedBack(w: nat, d: int)
    requires w > 0 && IsSigned(w, d)
    ensures SignedWrap(w, if d < 0 then Wrap(w, d) else d) == d
  {
    if d < 0 {
      WrapShift(w, d, 1);
      WrapSmall(w, d + Pow2(w));
      SignedCast(w, d + Pow2(w));
    } else {
      SignedCast(w, d);
    }
  }

  /** The divider of minus seven: the reciprocal without its top bit and negated, the add marker at bit 6 and the sign
      at bit 7. */
  lemma DividerOfMinusSeven(w: nat, d: int, g: Divider)
    requires w == 32 && d == -7 && SignedDivider(w, d, g, false)
    ensures g == Divider(0x6DB6_DB6D, 0xC2)
  {
    LogOfSeven(Abs(d));
    PowersAbove32();
  }
}

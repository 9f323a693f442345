/** Exact comparison of an IEEE-754 float, given by its bits, with an integer of any width. */
module FloatCompare {
  import opened Words

  /** A binary format: how many bits the mantissa and the exponent take. */
  datatype Format = Format(mantissaBits: nat, exponentBits: nat)

  const FLOAT32 := Format(23, 8)

  /** The type of an integer operand. */
  datatype IntType = IntType(bits: nat, signed: bool)

  /** The width in which the mantissa is masked. */
  const MASK_BITS: nat := 64

  predicate IsFormat(f: Format) { 0 < f.mantissaBits < MASK_BITS && f.exponentBits > 1 }

  predicate InType(i: IntType, x: int)
    requires i.bits > 0
  {
    if i.signed then IsSigned(i.bits, x) else 0 <= x < Pow2(i.bits)
  }

  // ----- the parts of a float

  predicate IsNegative(f: Format, x: nat) { x / Pow2(f.mantissaBits + f.exponentBits) != 0 }

  function Exponent(f: Format, x: nat): nat { (x / Pow2(f.mantissaBits)) % Pow2(f.exponentBits) }

  function Mantissa(f: Format, x: nat): nat { x % Pow2(f.mantissaBits) }

  function Bias(f: Format): nat
    requires f.exponentBits > 0
  {
    Pow2(f.exponentBits - 1) - 1
  }

  function NormalizedExponent(f: Format, x: nat): int
    requires f.exponentBits > 0
  {
    Exponent(f, x) - Bias(f)
  }

  /** Zero for both zeros. */
  function Sign(f: Format, x: nat): int {
    if Exponent(f, x) == 0 && Mantissa(f, x) == 0 then 0 else if IsNegative(f, x) then -1 else 1
  }

  /** How many bits of the integer type hold its magnitude. */
  function ValueBits(i: IntType): int { i.bits - if i.signed then 1 else 0 }

  /** The width of the unsigned type that magnitudes are compared in: that of the float or of the integer. */
  function WordBits(f: Format, i: IntType): nat {
    var own := 1 + f.exponentBits + f.mantissaBits;
    if i.bits > own then i.bits else own
  }

  /** The comparison of magnitudes, in words of `u` bits, once the integer is known to be in the same range of
      exponents as the float: integer parts first, then whether the float has a fraction. `1` when the float is
      the larger. */
  function CompareOctave(f: Format, u: nat, e: nat, mantissa: nat, magnitude: nat): int {
    var m := f.mantissaBits;
    var large := e >= m;
    var a := if large then Shl(u, mantissa, e - m) else Shr(mantissa, m - e);
    var b := Wrap(u, magnitude - Shl(u, 1, e));
    Ordered(a, b, large || And(mantissa, Wrap(MASK_BITS, Shl(MASK_BITS, 1, m - e) - 1)) == 0)
  }

  /** Integer parts first, then whether the first number has a fraction. */
  function Ordered(a: int, b: int, whole: bool): int {
    if a < b then -1 else if a > b then 1 else if whole then 0 else 1
  }

  /** The comparison of magnitudes for a float of at least one. */
  function CompareMagnitude(f: Format, i: IntType, e: nat, mantissa: nat, magnitude: nat): int {
    var u := WordBits(f, i);
    if magnitude < Shl(u, 1, e) then 1
    else if e + 1 < ValueBits(i) && magnitude >= Shl(u, 1, e + 1) then -1
    else CompareOctave(f, u, e, mantissa, magnitude)
  }

  function Compare(f: Format, i: IntType, x: nat, rhs: int): int
    requires IsFormat(f) && i.bits > 0
  {
    var negative, e := IsNegative(f, x), NormalizedExponent(f, x);
    if rhs == 0 then Sign(f, x)
    else if negative && rhs > 0 then -1
    else if !negative && rhs < 0 then 1
    else if e < 0 then
      if !negative then (if rhs > 0 then -1 else 1) else (if rhs >= 0 then -1 else 1)
    else if i.signed && rhs == -1 * Pow2(i.bits - 1) then
      if e < ValueBits(i) then 1
      else if e > ValueBits(i) then -1
      else if Mantissa(f, x) == 0 then 0 else -1
    else if e >= ValueBits(i) then (if negative then -1 else 1)
    else
      var c := CompareMagnitude(f, i, e, Mantissa(f, x), if rhs < 0 then -rhs else rhs);
      if negative then -c else c
  }

  // ----- the exact value

  /** The magnitude in units of the smallest subnormal step: for every exponent below the top one this
      is the value that section 3.4 of IEEE 754-2008 gives, scaled by `Unit`. */
  function Significand(f: Format, x: nat): nat {
    if Exponent(f, x) == 0 then 2 * Mantissa(f, x)
    else (Pow2(f.mantissaBits) + Mantissa(f, x)) * Pow2(Exponent(f, x))
  }

  /** What 1.0 is in the units of `Significand`. */
  function Unit(f: Format): nat
    requires f.exponentBits > 0
  {
    Pow2(Bias(f) + f.mantissaBits)
  }

  function Scaled(f: Format, x: nat): int {
    var s: int := Significand(f, x);
    if IsNegative(f, x) then -s else s
  }

  /** The value as a real number. */
  function Value(f: Format, x: nat): real
    requires f.exponentBits > 0
  {
    Scaled(f, x) as real / Unit(f) as real
  }

  function SignOf(x: int): int { if x < 0 then -1 else if x > 0 then 1 else 0 }

  // ----- comparing magnitudes

  /** The sign of a difference survives a positive factor. */
  lemma SignScales(x: int, y: int, k: nat)
    requires k > 0
    ensures SignOf(x * k - y * k) == SignOf(x - y)
  {
    if x < y { MulStrict(k, x, y); } else if x > y { MulStrict(k, y, x); }
  }

  lemma PowerFits(u: nat, e: nat)
    requires e < u
    ensures Shl(u, 1, e) == Pow2(e)
  {
    Pow2Monotone(e, u);
    ShlSmall(u, 1, e);
  }

  /** No shift and no difference leaves the word. */
  lemma OctaveFits(u: nat, m: nat, e: nat, mantissa: nat, magnitude: nat)
    requires e < u && mantissa < Pow2(m) && Pow2(e) <= magnitude < Pow2(u)
    ensures Wrap(u, magnitude - Shl(u, 1, e)) == magnitude - Pow2(e)
    ensures e >= m ==> Shl(u, mantissa, e - m) == mantissa * Pow2(e - m)
  {
    PowerFits(u, e);
    WrapSmall(u, magnitude - Pow2(e));
    if e >= m {
      Pow2Add(m, e - m);
      Pow2Monotone(e, u);
      MulMonotone(Pow2(e - m), mantissa, Pow2(m));
      ShlSmall(u, mantissa, e - m);
    }
  }

  lemma MaskFits(word: nat, mantissa: nat, k: nat)
    requires k < word
    ensures And(mantissa, Wrap(word, Shl(word, 1, k) - 1)) == mantissa % Pow2(k)
  {
    PowerFits(word, k);
    Pow2Monotone(k, word);
    WrapSmall(word, Pow2(k) - 1);
    AndMask(mantissa, k);
  }

  /** What separates a float from the integer of the same octave. */
  lemma OctaveDifference(p: int, q: int, mantissa: int, magnitude: int)
    ensures (p + mantissa) * q - magnitude * p == mantissa * q - (magnitude - q) * p
  {
    Distribute(q, p, mantissa);
    Distribute(p, magnitude, -q);
  }

  /** The order found in the same octave, and the order of the numbers. */
  lemma LargeOctave(f: Format, u: nat, e: nat, mantissa: nat, magnitude: nat) returns (a: int, whole: bool)
    requires f.mantissaBits <= e < u && mantissa < Pow2(f.mantissaBits) && Pow2(e) <= magnitude < Pow2(u)
    ensures CompareOctave(f, u, e, mantissa, magnitude) == Ordered(a, magnitude - Pow2(e), whole)
    ensures SignOf((Pow2(f.mantissaBits) + mantissa) * Pow2(e) - magnitude * Pow2(f.mantissaBits))
         == Ordered(a, magnitude - Pow2(e), whole)
  {
    var m := f.mantissaBits;
    a, whole := mantissa * Pow2(e - m), true;
    OctaveFits(u, m, e, mantissa, magnitude);
    assert mantissa * Pow2(e) == a * Pow2(m) by {
      Pow2Add(e - m, m);
      Associate(mantissa, Pow2(e - m), Pow2(m));
    }
    OctaveDifference(Pow2(m), Pow2(e), mantissa, magnitude);
    SignScales(a, magnitude - Pow2(e), Pow2(m));
  }

  lemma SmallOctave(f: Format, u: nat, e: nat, mantissa: nat, magnitude: nat) returns (a: int, whole: bool)
    requires f.mantissaBits < MASK_BITS && e < u && e < f.mantissaBits && mantissa < Pow2(f.mantissaBits)
    requires Pow2(e) <= magnitude < Pow2(u)
    ensures CompareOctave(f, u, e, mantissa, magnitude) == Ordered(a, magnitude - Pow2(e), whole)
    ensures SignOf((Pow2(f.mantissaBits) + mantissa) * Pow2(e) - magnitude * Pow2(f.mantissaBits))
         == Ordered(a, magnitude - Pow2(e), whole)
  {
    var m := f.mantissaBits;
    OctaveFits(u, m, e, mantissa, magnitude);
    MaskFits(MASK_BITS, mantissa, m - e);
    Pow2Add(m - e, e);
    OctaveDifference(Pow2(m), Pow2(e), mantissa, magnitude);
    a, whole := FractionDecides(mantissa, Pow2(m - e), Pow2(e), magnitude - Pow2(e), Pow2(m));
  }

  /** Same octave: integer parts, then the fraction. */
  lemma OctaveIsExact(f: Format, u: nat, e: nat, mantissa: nat, magnitude: nat)
    requires f.mantissaBits < MASK_BITS && e < u && mantissa < Pow2(f.mantissaBits) && Pow2(e) <= magnitude < Pow2(u)
    ensures CompareOctave(f, u, e, mantissa, magnitude)
         == SignOf((Pow2(f.mantissaBits) + mantissa) * Pow2(e) - magnitude * Pow2(f.mantissaBits))
  {
    var a, whole;
    if e >= f.mantissaBits {
      a, whole := LargeOctave(f, u, e, mantissa, magnitude);
    } else {
      a, whole := SmallOctave(f, u, e, mantissa, magnitude);
    }
  }

  lemma FractionDecides(mantissa: nat, k: nat, q: nat, b: int, p: nat) returns (a: int, whole: bool)
    requires k > 0 && q > 0 && p == k * q
    ensures a == mantissa / k && whole == (mantissa % k == 0)
    ensures SignOf(mantissa * q - b * p) == Ordered(a, b, whole)
  {
    var r := mantissa % k;
    a, whole := mantissa / k, r == 0;
    DivModForm(mantissa, k);
    Distribute(q, a * k, r);
    Associate(q, a, k);
    Associate(b, k, q);
    assert mantissa * q - b * (k * q) == (a - b) * (k * q) + r * q by {
      assert (a * k) * q == a * (k * q);
      Distribute(k * q, a, -b);
    }
    MulMonotone(q, 0, r);
    MulStrict(q, r, k);
    if a < b {
      MulMonotone(k * q, a - b, -1);
    } else if a > b {
      MulMonotone(k * q, 1, a - b);
      MulStrict(q, 0, k);
    } else if r > 0 {
      MulStrict(q, 0, r);
    }
  }

  lemma SmallerOctave(p: nat, mantissa: nat, q: nat, magnitude: nat)
    requires mantissa < p && 0 < q && magnitude < q
    ensures magnitude * p < (p + mantissa) * q
  {
  }

  lemma LargerOctave(p: nat, mantissa: nat, q: nat, magnitude: nat)
    requires mantissa < p && 0 < q && 2 * q <= magnitude
    ensures (p + mantissa) * q < magnitude * p
  {
  }

  lemma SmallerIsExact(f: Format, i: IntType, e: nat, mantissa: nat, magnitude: nat)
    requires mantissa < Pow2(f.mantissaBits) && e < ValueBits(i) && magnitude < Pow2(e)
    ensures CompareMagnitude(f, i, e, mantissa, magnitude) == 1
    ensures SignOf((Pow2(f.mantissaBits) + mantissa) * Pow2(e) - magnitude * Pow2(f.mantissaBits)) == 1
  {
    PowerFits(WordBits(f, i), e);
    SmallerOctave(Pow2(f.mantissaBits), mantissa, Pow2(e), magnitude);
  }

  lemma LargerIsExact(f: Format, i: IntType, e: nat, mantissa: nat, magnitude: nat)
    requires mantissa < Pow2(f.mantissaBits) && e + 1 < ValueBits(i) && magnitude >= Pow2(e + 1)
    ensures CompareMagnitude(f, i, e, mantissa, magnitude) == -1
    ensures SignOf((Pow2(f.mantissaBits) + mantissa) * Pow2(e) - magnitude * Pow2(f.mantissaBits)) == -1
  {
    PowerFits(WordBits(f, i), e);
    PowerFits(WordBits(f, i), e + 1);
    LargerOctave(Pow2(f.mantissaBits), mantissa, Pow2(e), magnitude);
  }

  /** In the octave of the float, or of none that the type has room to compare. */
  lemma SameOctave(f: Format, i: IntType, e: nat, mantissa: nat, magnitude: nat)
    requires e < ValueBits(i) && Pow2(e) <= magnitude < Pow2(e + 1)
    ensures CompareMagnitude(f, i, e, mantissa, magnitude) == CompareOctave(f, WordBits(f, i), e, mantissa, magnitude)
  {
    PowerFits(WordBits(f, i), e);
    if e + 1 < ValueBits(i) { PowerFits(WordBits(f, i), e + 1); }
  }

  lemma MagnitudeIsExact(f: Format, i: IntType, e: nat, mantissa: nat, magnitude: nat)
    requires f.mantissaBits < MASK_BITS && mantissa < Pow2(f.mantissaBits)
    requires e < ValueBits(i) && magnitude < Pow2(ValueBits(i))
    ensures CompareMagnitude(f, i, e, mantissa, magnitude)
         == SignOf((Pow2(f.mantissaBits) + mantissa) * Pow2(e) - magnitude * Pow2(f.mantissaBits))
  {
    if magnitude < Pow2(e) {
      SmallerIsExact(f, i, e, mantissa, magnitude);
    } else if magnitude >= Pow2(e + 1) {
      LargerIsExact(f, i, e, mantissa, magnitude);
    } else {
      SameOctave(f, i, e, mantissa, magnitude);
      assert magnitude < Pow2(WordBits(f, i)) by { Pow2Monotone(ValueBits(i), WordBits(f, i)); }
      OctaveIsExact(f, WordBits(f, i), e, mantissa, magnitude);
    }
  }

  // ----- the parts make up the value

  /** For a float of at least one, scaling by the bias is all that separates the two comparisons. */
  lemma NormalSignificand(f: Format, x: nat, e: nat, magnitude: int)
    requires IsFormat(f) && NormalizedExponent(f, x) == e
    ensures SignOf(Significand(f, x) - magnitude * Unit(f))
         == SignOf((Pow2(f.mantissaBits) + Mantissa(f, x)) * Pow2(e) - magnitude * Pow2(f.mantissaBits))
  {
    var b := Bias(f);
    var k := Pow2(b);
    assert Pow2(f.exponentBits - 1) == 2 * Pow2(f.exponentBits - 2);
    Pow2Add(e, b);
    Pow2Add(f.mantissaBits, b);
    var s := Pow2(f.mantissaBits) + Mantissa(f, x);
    Associate(s, Pow2(e), k);
    Associate(magnitude, Pow2(f.mantissaBits), k);
    SignScales(s * Pow2(e), magnitude * Pow2(f.mantissaBits), k);
  }

  lemma BiasPositive(f: Format)
    requires IsFormat(f)
    ensures Bias(f) >= 1
  {
  }

  lemma BelowOne(f: Format, x: nat)
    requires IsFormat(f) && NormalizedExponent(f, x) < 0
    ensures Significand(f, x) < Unit(f)
  {
    var m, b, e := f.mantissaBits, Bias(f), Exponent(f, x);
    BiasPositive(f);
    Pow2Add(b, m);
    if e == 0 {
      Pow2Monotone(1, b);
      assert Pow2(1) == 2;
      MulMonotone(Pow2(m), 2, Pow2(b));
    } else {
      Pow2Monotone(e + 1, b);
      LargerOctave(Pow2(m), Mantissa(f, x), Pow2(e), Pow2(b));
    }
  }

  // ----- the comparison is exact

  lemma RhsScales(rhs: int, unit: nat)
    requires unit > 0
    ensures rhs > 0 ==> rhs * unit >= unit
    ensures rhs < 0 ==> rhs * unit <= -1 * unit
  {
  }

  /** The sign by itself. */
  lemma SignIsExact(f: Format, x: nat)
    requires IsFormat(f)
    ensures Sign(f, x) == SignOf(Scaled(f, x))
  {
  }

  /** Operands on different sides of zero, or a float nearer to zero than any integer. */
  lemma EasyCases(f: Format, i: IntType, x: nat, rhs: int)
    requires IsFormat(f) && i.bits > 0 && rhs != 0
    requires (IsNegative(f, x) != (rhs < 0)) || NormalizedExponent(f, x) < 0
    ensures Compare(f, i, x, rhs) == SignOf(Scaled(f, x) - rhs * Unit(f))
  {
    RhsScales(rhs, Unit(f));
    if IsNegative(f, x) == (rhs < 0) { BelowOne(f, x); }
  }

  /** The most negative integer, whose magnitude is itself a power of two. */
  lemma LowestIsExact(f: Format, x: nat, e: nat, n: nat)
    requires IsFormat(f) && NormalizedExponent(f, x) == e
    ensures SignOf(Significand(f, x) - Pow2(n) * Unit(f))
         == (if e < n then -1 else if e > n then 1 else if Mantissa(f, x) == 0 then 0 else 1)
  {
    var p, m := Pow2(f.mantissaBits), Mantissa(f, x);
    NormalSignificand(f, x, e, Pow2(n));
    if e < n {
      Pow2Monotone(e + 1, n);
      LargerOctave(p, m, Pow2(e), Pow2(n));
    } else if e > n {
      Pow2Monotone(n + 1, e);
      SmallerOctave(p, m, Pow2(e), Pow2(n));
    } else {
      Distribute(Pow2(e), p, m);
      if m > 0 { MulStrict(Pow2(e), 0, m); }
    }
  }

  /** The float's octave lies beyond the integer type. */
  lemma BeyondType(f: Format, x: nat, e: nat, magnitude: nat)
    requires IsFormat(f) && NormalizedExponent(f, x) == e && magnitude < Pow2(e)
    ensures SignOf(Significand(f, x) - magnitude * Unit(f)) == 1
  {
    NormalSignificand(f, x, e, magnitude);
    SmallerOctave(Pow2(f.mantissaBits), Mantissa(f, x), Pow2(e), magnitude);
  }

  /** For operands of the same sign the magnitudes decide. */
  lemma SameSign(f: Format, x: nat, rhs: int)
    requires IsFormat(f) && IsNegative(f, x) == (rhs < 0)
    ensures var c := SignOf(Significand(f, x) - Abs(rhs) * Unit(f));
            SignOf(Scaled(f, x) - rhs * Unit(f)) == if IsNegative(f, x) then -c else c
  {
  }

  /** For every bit pattern and every integer of every width the comparison gives the sign of the
      difference. */
  lemma CompareIsExact(f: Format, i: IntType, x: nat, rhs: int)
    requires IsFormat(f) && i.bits > 0 && InType(i, rhs)
    ensures Compare(f, i, x, rhs) == SignOf(Scaled(f, x) - rhs * Unit(f))
  {
    if rhs == 0 {
      SignIsExact(f, x);
    } else if IsNegative(f, x) != (rhs < 0) || NormalizedExponent(f, x) < 0 {
      EasyCases(f, i, x, rhs);
    } else {
      var e: nat := NormalizedExponent(f, x);
      SameSign(f, x, rhs);
      if i.signed && rhs == -1 * Pow2(i.bits - 1) {
        LowestIsExact(f, x, e, i.bits - 1);
      } else if e >= ValueBits(i) {
        Pow2Monotone(ValueBits(i), e);
        BeyondType(f, x, e, Abs(rhs));
      } else {
        MagnitudeIsExact(f, i, e, Mantissa(f, x), Abs(rhs));
        NormalSignificand(f, x, e, Abs(rhs));
      }
    }
  }

  /** The same over the reals. */
  lemma CompareIsExactReal(f: Format, i: IntType, x: nat, rhs: int)
    requires IsFormat(f) && i.bits > 0 && InType(i, rhs)
    ensures Compare(f, i, x, rhs) < 0 <==> Value(f, x) < rhs as real
    ensures Compare(f, i, x, rhs) > 0 <==> Value(f, x) > rhs as real
    ensures Compare(f, i, x, rhs) == 0 <==> Value(f, x) == rhs as real
  {
    CompareIsExact(f, i, x, rhs);
    RealQuotient(Scaled(f, x), rhs, Unit(f));
  }

  lemma RealQuotient(s: int, r: int, u: nat)
    requires u > 0
    ensures s < r * u <==> s as real / u as real < r as real
    ensures s > r * u <==> s as real / u as real > r as real
  {
  }

  // ----- infinities

  predicate IsInfinite(f: Format, x: nat) {
    Exponent(f, x) == Pow2(f.exponentBits) - 1 && Mantissa(f, x) == 0
  }

  /** An infinity is compared as the first power of two beyond the finite values. */
  lemma InfinityAsPower(f: Format, x: nat)
    requires IsFormat(f) && IsInfinite(f, x)
    ensures Significand(f, x) == Pow2(Bias(f) + 1) * Unit(f)
  {
    var m, b := f.mantissaBits, Bias(f);
    BiasPositive(f);
    TopExponent(f, x);
    BeyondFinite(m, b, Exponent(f, x));
  }

  lemma TopExponent(f: Format, x: nat)
    requires IsFormat(f) && IsInfinite(f, x)
    ensures Exponent(f, x) == 2 * Bias(f) + 1
  {
    assert Pow2(f.exponentBits) == 2 * Pow2(f.exponentBits - 1);
  }

  lemma BeyondFinite(m: nat, b: nat, e: nat)
    requires e == 2 * b + 1
    ensures Pow2(m) * Pow2(e) == Pow2(b + 1) * Pow2(b + m)
  {
    Pow2Add(m, e);
    Pow2Add(b + 1, b + m);
    assert m + e == (b + 1) + (b + m);
  }

  /** An infinity compares as it should with exactly the integers whose magnitude, on its side of
      zero, is below the power of two it stands for: with all of them unless the type is wider. */
  lemma InfinityIsRight(f: Format, i: IntType, x: nat, rhs: int)
    requires IsFormat(f) && i.bits > 0 && InType(i, rhs) && IsInfinite(f, x)
    ensures IsNegative(f, x) ==> (Compare(f, i, x, rhs) == -1 <==> -rhs < Pow2(Bias(f) + 1))
    ensures !IsNegative(f, x) ==> (Compare(f, i, x, rhs) == 1 <==> rhs < Pow2(Bias(f) + 1))
  {
    CompareIsExact(f, i, x, rhs);
    InfinityAsPower(f, x);
    var p := Pow2(Bias(f) + 1);
    SignScales(p, rhs, Unit(f));
    SignScales(-1 * p, rhs, Unit(f));
    assert (-1 * p) * Unit(f) == -(p * Unit(f));
  }

  /** So an infinity is right against every integer of a type no wider than the power it stands for:
      128 bits for Float32, 1024 for Float64. */
  lemma InfinityWithinType(f: Format, i: IntType, x: nat, rhs: int)
    requires IsFormat(f) && 0 < i.bits <= Bias(f) + 1 && InType(i, rhs) && IsInfinite(f, x)
    ensures Compare(f, i, x, rhs) == if IsNegative(f, x) then -1 else 1
  {
  }

  /** The bits of the positive Float32 infinity. */
  const INFINITY32 := 0x7F80_0000

  lemma PartsOfInfinity32()
    ensures !IsNegative(FLOAT32, INFINITY32) && IsInfinite(FLOAT32, INFINITY32) && Bias(FLOAT32) == 127
  {
    assert Pow2(8) == 256 && Pow2(7) == 128;
    assert Pow2(23) == 0x80_0000 by { assert Pow2(13) == 0x2000; Pow2Add(13, 10); }
    Pow2Add(23, 8);
  }

  /** The Float32 infinity is found equal to the 256-bit integer 2^128. */
  lemma InfinityMisjudged(rhs: int)
    requires rhs == Pow2(128)
    ensures InType(IntType(256, true), rhs)
    ensures Compare(FLOAT32, IntType(256, true), INFINITY32, rhs) == 0
  {
    Pow2Monotone(128, 255);
    PartsOfInfinity32();
    CompareIsExact(FLOAT32, IntType(256, true), INFINITY32, rhs);
    InfinityAsPower(FLOAT32, INFINITY32);
  }

  // ----- floats put together from their parts

  /** The sign above the exponent above the mantissa. */
  function Assembled(f: Format, negative: bool, e: nat, mantissa: nat): nat {
    mantissa + (e + if negative then Pow2(f.exponentBits) else 0) * Pow2(f.mantissaBits)
  }

  lemma PartsOfAssembled(f: Format, negative: bool, e: nat, mantissa: nat)
    requires e < Pow2(f.exponentBits) && mantissa < Pow2(f.mantissaBits)
    ensures var x := Assembled(f, negative, e, mantissa);
            IsNegative(f, x) == negative && Exponent(f, x) == e && Mantissa(f, x) == mantissa
  {
    var p, q, x := Pow2(f.mantissaBits), Pow2(f.exponentBits), Assembled(f, negative, e, mantissa);
    var upper := e + if negative then q else 0;
    DivModUnique(x, p, upper, mantissa);
    DivModUnique(upper, q, if negative then 1 else 0, e);
    DivDiv(x, p, q);
    Pow2Add(f.mantissaBits, f.exponentBits);
  }

  /** What section 3.4 of IEEE 754-2008 says of the parts: a normal number is `2^(e-bias)` times one and the fraction,
      where the bias is `2^(k-1) - 1` for an exponent of `k` bits, and a subnormal one `2^(1-bias)` times the
      fraction. */
  lemma ValueOfAssembled(f: Format, negative: bool, e: nat, mantissa: nat)
    requires IsFormat(f) && e < Pow2(f.exponentBits) && mantissa < Pow2(f.mantissaBits)
    ensures var whole := (if e > 0 then Pow2(f.mantissaBits) else 0) + mantissa;
            var v := whole * Pow2(if e > 0 then e else 1);
            Value(f, Assembled(f, negative, e, mantissa))
            == (if negative then 0 - v else v) as real
               / Pow2(Pow2(f.exponentBits - 1) - 1 + f.mantissaBits) as real
  {
    PartsOfAssembled(f, negative, e, mantissa);
    assert Pow2(1) == 2;
  }

  /** Two and a half, with either sign, compared with its neighbours. */
  lemma TwoAndAHalf(f: Format, i: IntType, negative: bool, x: nat)
    requires IsFormat(f) && f.mantissaBits >= 2 && i.bits > 2 && i.signed
    requires x == Assembled(f, negative, Pow2(f.exponentBits - 1), Pow2(f.mantissaBits - 2))
    ensures Compare(f, i, x, if negative then -2 else 2) == if negative then -1 else 1
    ensures Compare(f, i, x, if negative then -3 else 3) == if negative then 1 else -1
  {
    var e, m := Pow2(f.exponentBits - 1), f.mantissaBits;
    assert Pow2(f.exponentBits) == 2 * e && Pow2(m) == 2 * Pow2(m - 1) == 4 * Pow2(m - 2);
    PartsOfAssembled(f, negative, e, Pow2(m - 2));
    assert Pow2(2) == 4;
    Pow2Monotone(2, i.bits - 1);
    CompareIsExact(f, i, x, if negative then -2 else 2);
    CompareIsExact(f, i, x, if negative then -3 else 3);
    Pow2Add(e, m);
    HalfWay(Significand(f, x), Unit(f), Pow2(m - 2), Pow2(e));
  }

  lemma HalfWay(s: int, unit: int, p: int, q: int)
    requires p > 0 && q > 0 && s == (4 * p + p) * q && 2 * unit == q * (4 * p)
    ensures 2 * unit < s < 3 * unit
  {
    MulStrict(q, 0, p);
    assert s == 5 * (p * q) && unit == 2 * (p * q);
  }

  /** The bits of 2.5 and of -2.5 in Float64 are such. */
  lemma BitsOfTwoAndAHalf(f: Format)
    requires f == Format(52, 11)
    ensures IsFormat(f)
    ensures Assembled(f, false, Pow2(f.exponentBits - 1), Pow2(f.mantissaBits - 2)) == 0x4004_0000_0000_0000
    ensures Assembled(f, true, Pow2(f.exponentBits - 1), Pow2(f.mantissaBits - 2)) == 0xC004_0000_0000_0000
  {
    assert Pow2(10) == 1024 && Pow2(11) == 2048 && Pow2(5) == 32;
    Pow2Add(10, 10);
    Pow2Add(20, 5);
    Pow2Add(25, 25);
    assert Pow2(52) == 2 * Pow2(51) == 4 * Pow2(50);
  }
}

/** Wide integers as text, both ways. */
module LimbText {
  import opened Words
  import opened LimbInteger
  import opened LimbCompare
  import opened LimbMultiply
  import opened LimbDivide
  import opened Numerals

  // ----- to text

  /** The lowest limb holds a number that fits in it. */
  lemma LowestLimb(w: nat, x: seq<nat>)
    requires IsWide(w, x) && Number(w, x) < Pow2(w)
    ensures x[0] == Number(w, x)
  {
    var b := Pow2(w);
    FewLimbs(b, x);
    var h := HighPart(b, x, 1, |x|);
    DivModUnique(Number(w, x), b, h, x[0]);
    DivModUnique(Number(w, x), b, 0, Number(w, x));
  }

  lemma TenFits(w: nat)
    requires w >= 8
    ensures Pow2(w) > 16
  {
  }

  /** The last digit and the number without it. */
  method LastDigit(w: nat, t: seq<nat>) returns (c: char, rest: seq<nat>)
    requires w >= 8 && IsWide(w, t)
    ensures IsWide(w, rest) && |rest| == |t|
    ensures Number(w, rest) == Number(w, t) / 10 && c == DigitChar(Number(w, t) % 10)
  {
    var n := |t|;
    TenFits(w);
    SmallIsNumber(w, n, 10);
    var remainder := Divide(w, t, Small(n, 10));
    LowestLimb(w, remainder.remainder);
    c := '0' + remainder.remainder[0] as char;
    var quotient := Divide(w, t, Small(n, 10));
    rest := quotient.quotient;
  }

  /** The digits that are still to come, before those written. */
  function Pending(n: nat): string { if n == 0 then "" else Numeral(n) }

  lemma NextDigit(n: nat)
    requires n > 0
    ensures Pending(n) == Pending(n / 10) + [DigitChar(n % 10)]
  {
  }

  /** The digits of a number; none for zero. */
  method WriteDigits(w: nat, x: seq<nat>) returns (s: string)
    requires w >= 8 && IsWide(w, x)
    ensures s == Pending(Number(w, x))
  {
    var t := x;
    var zero := Small(|x|, 0);
    SmallIsNumber(w, |x|, 0);
    s := "";
    var done := Equal(w, t, zero);
    while !done
      invariant IsWide(w, t) && |t| == |x|
      invariant done <==> Number(w, t) == 0
      invariant Pending(Number(w, t)) + s == Pending(Number(w, x))
      decreases Number(w, t)
    {
      var c;
      NextDigit(Number(w, t));
      ghost var before := Pending(Number(w, t) / 10);
      c, t := LastDigit(w, t);
      assert before + ([c] + s) == (before + [c]) + s;
      s := [c] + s;
      done := Equal(w, t, zero);
    }
  }

  /** The numeral of the number, with its sign. */
  method ToString(w: nat, signed: bool, x: seq<nat>) returns (s: string)
    requires w >= 8 && IsWide(w, x)
    ensures s == SignedNumeral(Reading(w, signed, x))
  {
    SmallIsNumber(w, |x|, 0);
    ReadingRange(w, x);
    var zero := Equal(w, x, Small(|x|, 0));
    if zero { return "0"; }
    var t := MakePositive(w, signed, x);
    s := WriteDigits(w, t);
    if signed && IsNegative(w, x) { s := "-" + s; }
  }

  // ----- from text

  datatype Parsed = Parsed(limbs: seq<nat>) | InvalidChar

  predicate HasSign(signed: bool, s: string) { signed && |s| > 0 && s[0] == '-' }

  /** The text after the sign. */
  function Unsigned(signed: bool, s: string): string { if HasSign(signed, s) then s[1..] else s }

  predicate HasHexPrefix(s: string) { |s| >= 2 && s[0] == '0' && (s[1] == 'x' || s[1] == 'X') }

  function Digits(s: string): string { if HasHexPrefix(s) then s[2..] else s }

  predicate WellFormed(signed: bool, s: string) {
    var body := Unsigned(signed, s);
    AllDigits(HasHexPrefix(body), Digits(body))
  }

  /** The number a well-formed text means. */
  function TextMeans(signed: bool, s: string): int
    requires WellFormed(signed, s)
  {
    var body := Unsigned(signed, s);
    var v := Meaning(HasHexPrefix(body), Digits(body));
    if HasSign(signed, s) then 0 - v else v
  }

  /** One more digit on the right. */
  method AppendDigit(w: nat, res: seq<nat>, base: nat, d: nat, ghost v: nat) returns (r: seq<nat>)
    requires w >= 8 && IsWide(w, res) && 0 < base <= 16 && d < 16
    requires Number(w, res) == v % Modulus(w, |res|)
    ensures IsWide(w, r) && |r| == |res|
    ensures Number(w, r) == (base * v + d) % Modulus(w, |res|)
  {
    TenFits(w);
    SmallNumber(w, base);
    SmallNumber(w, d);
    ghost var m := Modulus(w, |res|);
    r := Multiply(w, res, [base]);
    r := Plus(w, r, [d]);
    ModMul(v, base, m);
    WrapTwice(v * base, d, m);
  }

  lemma WrapTwice(x: int, y: int, m: int)
    requires m > 0
    ensures (x % m + y) % m == (x + y) % m
  {
    DivModForm(x, m);
    ModShift(x % m + y, m, x / m);
  }

  predicate IsDigitOf(hex: bool, c: char) { if hex then IsHexDigit(c) else IsDigit(c) }

  /** `res` holds what the text read so far means. */
  predicate Read(w: nat, n: nat, hex: bool, text: string, res: seq<nat>) {
    AllDigits(hex, text) && IsWide(w, res) && |res| == n && Number(w, res) == Meaning(hex, text) % Modulus(w, n)
  }

  method ReadDigit(w: nat, n: nat, hex: bool, ghost text: string, res: seq<nat>, c: char) returns (r: seq<nat>)
    requires w >= 8 && n > 0 && Read(w, n, hex, text, res) && IsDigitOf(hex, c)
    ensures Read(w, n, hex, text + [c], r)
  {
    assert (text + [c])[..|text|] == text;
    r := AppendDigit(w, res, Base(hex), DigitValue(c), Meaning(hex, text));
  }

  /** The digits one by one; the first character that is no digit ends it. */
  method ParseDigits(w: nat, n: nat, hex: bool, s: string) returns (r: Parsed)
    requires w >= 8 && n > 0
    ensures r.Parsed? <==> AllDigits(hex, s)
    ensures r.Parsed? ==> Read(w, n, hex, s, r.limbs)
  {
    SmallIsNumber(w, n, 0);
    var res := Small(n, 0);
    var i := 0;
    DivModUnique(0, Modulus(w, n), 0, 0);
    while i < |s|
      invariant 0 <= i <= |s| && Read(w, n, hex, s[..i], res)
    {
      if !IsDigitOf(hex, s[i]) { return InvalidChar; }
      res := ReadDigit(w, n, hex, s[..i], res, s[i]);
      assert s[..i + 1] == s[..i] + [s[i]];
      i := i + 1;
    }
    assert s[..i] == s;
    return Parsed(res);
  }

  /** The number a text means, less whole multiples of the modulus; an error exactly when the text is
      not well formed. No digits at all is zero. */
  method FromStr(w: nat, n: nat, signed: bool, s: string) returns (r: Parsed)
    requires w >= 8 && n > 0
    ensures r.Parsed? <==> WellFormed(signed, s)
    ensures r.Parsed? ==> IsWide(w, r.limbs) && |r.limbs| == n
                          && Number(w, r.limbs) == TextMeans(signed, s) % Modulus(w, n)
  {
    var negative := HasSign(signed, s);
    var body := Unsigned(signed, s);
    r := ParseDigits(w, n, HasHexPrefix(body), Digits(body));
    if r.Parsed? && negative {
      ghost var v := Meaning(HasHexPrefix(body), Digits(body));
      NegateResidue(v, Modulus(w, n));
      var limbs := UnaryMinus(w, r.limbs);
      r := Parsed(limbs);
    }
  }

  lemma NegateResidue(v: int, m: int)
    requires m > 0
    ensures (0 - v % m) % m == (0 - v) % m
  {
    DivModForm(v, m);
    ModShift(0 - v, m, v / m);
  }

  // ----- there and back

  /** The text of a number is well formed and means that number. */
  lemma TextOfNumber(signed: bool, v: int)
    requires signed || v >= 0
    ensures WellFormed(signed, SignedNumeral(v)) && TextMeans(signed, SignedNumeral(v)) == v
  {
    var u: nat := if v < 0 then 0 - v else v;
    var body := Numeral(u);
    NumeralMeans(u);
    assert Unsigned(signed, SignedNumeral(v)) == body;
    assert !HasHexPrefix(body);
  }

  /** A hexadecimal text: an optional sign, either prefix and digits in either case. */
  function HexText(negative: bool, prefix: string, digits: string, n: nat): string
    requires |digits| == 16
  {
    (if negative then "-" else "") + prefix + HexNumeral(digits, n)
  }

  /** It is well formed and means that number. */
  lemma TextInHex(signed: bool, negative: bool, prefix: string, digits: string, n: nat)
    requires negative ==> signed
    requires (prefix == "0x" || prefix == "0X") && (digits == LOWER_DIGITS || digits == UPPER_DIGITS)
    ensures WellFormed(signed, HexText(negative, prefix, digits, n))
    ensures TextMeans(signed, HexText(negative, prefix, digits, n)) == if negative then 0 - n else n
  {
    var s, body := HexText(negative, prefix, digits, n), prefix + HexNumeral(digits, n);
    assert AllDigits(true, HexNumeral(digits, n)) && Meaning(true, HexNumeral(digits, n)) == n by {
      EitherCase();
      HexNumeralMeans(digits, n);
    }
    assert Unsigned(signed, s) == body;
    assert Digits(body) == HexNumeral(digits, n);
  }

  /** A text without digits is zero, also behind a sign or a prefix. */
  lemma NoDigitsAreZero(signed: bool)
    ensures WellFormed(signed, "") && TextMeans(signed, "") == 0
    ensures WellFormed(signed, "0x") && TextMeans(signed, "0x") == 0
    ensures WellFormed(signed, "0X") && TextMeans(signed, "0X") == 0
    ensures WellFormed(true, "-") && TextMeans(true, "-") == 0
    ensures WellFormed(true, "-0x") && TextMeans(true, "-0x") == 0
  {
    assert Unsigned(true, "-") == "" && Unsigned(true, "-0x") == "0x";
    assert Digits("0x") == "" && Digits("0X") == "";
  }

  /** A sign is not a digit: without a signed type nothing after it is read. */
  lemma SignNeedsType(s: string)
    ensures !WellFormed(false, "-" + s)
  {
    var text := "-" + s;
    assert Unsigned(false, text) == text && Digits(text) == text && text[0] == '-';
  }

  /** The hexadecimal text of a number is read as that number. */
  method ReadHex(w: nat, n: nat, signed: bool, negative: bool, prefix: string, digits: string, v: nat)
      returns (limbs: seq<nat>)
    requires w >= 8 && n > 0 && (negative ==> signed)
    requires (prefix == "0x" || prefix == "0X") && (digits == LOWER_DIGITS || digits == UPPER_DIGITS)
    ensures IsWide(w, limbs) && |limbs| == n
    ensures Number(w, limbs) == (if negative then 0 - v else v) % Modulus(w, n)
  {
    TextInHex(signed, negative, prefix, digits, v);
    var r := FromStr(w, n, signed, HexText(negative, prefix, digits, v));
    limbs := r.limbs;
  }

  /** What `ToString` writes, `FromStr` reads back: the same limbs. */
  lemma RoundTrip(w: nat, signed: bool, x: seq<nat>, y: seq<nat>)
    requires w > 0 && IsWide(w, x) && IsWide(w, y) && |x| == |y|
    ensures WellFormed(signed, SignedNumeral(Reading(w, signed, x)))
    ensures Number(w, y) == TextMeans(signed, SignedNumeral(Reading(w, signed, x))) % Modulus(w, |x|) ==> y == x
  {
    ReadingRange(w, x);
    var v, m := Reading(w, signed, x), Modulus(w, |x|);
    TextOfNumber(signed, v);
    NumberBound(w, x);
    DivModUnique(v, m, if v < 0 then -1 else 0, Number(w, x));
    if y != x {
      var i :| 0 <= i < |x| && x[i] != y[i];
      DifferentNumbers(Pow2(w), x, y, |x|, i);
    }
  }

  method ThereAndBack(w: nat, signed: bool, x: seq<nat>) returns (y: seq<nat>)
    requires w >= 8 && IsWide(w, x)
    ensures y == x
  {
    var s := ToString(w, signed, x);
    RoundTrip(w, signed, x, x);
    var r := FromStr(w, |x|, signed, s);
    y := r.limbs;
    RoundTrip(w, signed, x, y);
  }
}

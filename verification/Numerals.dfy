/** Numerals: what a text means as a number, and the one decimal text without needless zeros that a
    number has. */
module Numerals {
  import opened Words

  predicate IsDigit(c: char) { '0' <= c <= '9' }

  predicate IsHexDigit(c: char) { IsDigit(c) || 'a' <= c <= 'f' || 'A' <= c <= 'F' }

  function DigitChar(d: nat): (c: char)
    requires d < 10
    ensures IsDigit(c)
  {
    '0' + d as char
  }

  function DigitValue(c: char): nat
    requires IsHexDigit(c)
  {
    if IsDigit(c) then (c - '0') as nat
    else if 'a' <= c <= 'f' then (c - 'a') as nat + 10
    else (c - 'A') as nat + 10
  }

  function Base(hex: bool): nat { if hex then 16 else 10 }

  predicate AllDigits(hex: bool, s: string) {
    forall i :: 0 <= i < |s| ==> if hex then IsHexDigit(s[i]) else IsDigit(s[i])
  }

  function Meaning(hex: bool, s: string): nat
    requires AllDigits(hex, s)
  {
    if s == [] then 0
    else Base(hex) * Meaning(hex, s[..|s| - 1]) + DigitValue(s[|s| - 1])
  }

  /** The numeral of a number. */
  function Numeral(n: nat): string {
    if n < 10 then [DigitChar(n)] else Numeral(n / 10) + [DigitChar(n % 10)]
  }

  function SignedNumeral(x: int): string { if x < 0 then "-" + Numeral(0 - x) else Numeral(x) }

  predicate IsNumeral(s: string) { s != [] && AllDigits(false, s) && (s[0] == '0' ==> |s| == 1) }

  /** The numeral means the number and has no needless zero. */
  lemma {:induction false} NumeralMeans(n: nat)
    ensures IsNumeral(Numeral(n)) && Meaning(false, Numeral(n)) == n
    ensures n > 0 ==> Numeral(n)[0] != '0'
  {
    if n >= 10 {
      NumeralMeans(n / 10);
      var s := Numeral(n);
      assert s[..|s| - 1] == Numeral(n / 10);
    } else {
      assert Meaning(false, []) == 0;
      assert [DigitChar(n)][..0] == [];
    }
  }

  /** No other text does. */
  lemma {:induction false} NumeralUnique(s: string)
    requires IsNumeral(s)
    ensures s == Numeral(Meaning(false, s))
    decreases |s|
  {
    var init, d := s[..|s| - 1], DigitValue(s[|s| - 1]);
    if |s| == 1 {
      assert init == [];
    } else {
      NumeralUnique(init);
      NumeralMeans(Meaning(false, init));
      assert init[0] == s[0] && Numeral(0)[0] == '0';
      assert s == init + [s[|s| - 1]];
    }
  }

  // ----- hexadecimal

  const LOWER_DIGITS := "0123456789abcdef"
  const UPPER_DIGITS := "0123456789ABCDEF"

  /** Each character stands for its place in the list of digits, in either case, and no other is a digit. */
  lemma DigitsAre(i: nat, c: char)
    ensures i < 16 ==> IsHexDigit(LOWER_DIGITS[i]) && DigitValue(LOWER_DIGITS[i]) == i
    ensures i < 16 ==> IsHexDigit(UPPER_DIGITS[i]) && DigitValue(UPPER_DIGITS[i]) == i
    ensures i < 10 ==> IsDigit(LOWER_DIGITS[i]) && DigitChar(i) == LOWER_DIGITS[i]
    ensures IsDigit(c) <==> c in LOWER_DIGITS[..10]
    ensures IsHexDigit(c) <==> c in LOWER_DIGITS || c in UPPER_DIGITS
  {
    if IsDigit(c) { assert c == LOWER_DIGITS[(c - '0') as nat]; }
    if 'a' <= c <= 'f' { assert c == LOWER_DIGITS[(c - 'a') as nat + 10]; }
    if 'A' <= c <= 'F' { assert c == UPPER_DIGITS[(c - 'A') as nat + 10]; }
  }

  /** The number with the digits of a list of sixteen. */
  function HexNumeral(digits: string, n: nat): string
    requires |digits| == 16
  {
    if n < 16 then [digits[n]] else HexNumeral(digits, n / 16) + [digits[n % 16]]
  }

  predicate ListsDigits(digits: string) {
    |digits| == 16 && forall i :: 0 <= i < 16 ==> IsHexDigit(digits[i]) && DigitValue(digits[i]) == i
  }

  lemma EitherCase()
    ensures ListsDigits(LOWER_DIGITS) && ListsDigits(UPPER_DIGITS)
  {
    forall i: nat | i < 16
      ensures IsHexDigit(LOWER_DIGITS[i]) && DigitValue(LOWER_DIGITS[i]) == i
      ensures IsHexDigit(UPPER_DIGITS[i]) && DigitValue(UPPER_DIGITS[i]) == i
    {
      DigitsAre(i, '0');
    }
  }

  /** The numeral means the number. */
  lemma {:induction false} HexNumeralMeans(digits: string, n: nat)
    requires ListsDigits(digits)
    ensures AllDigits(true, HexNumeral(digits, n)) && Meaning(true, HexNumeral(digits, n)) == n
  {
    var s := HexNumeral(digits, n);
    if n >= 16 {
      HexNumeralMeans(digits, n / 16);
      assert s[..|s| - 1] == HexNumeral(digits, n / 16);
    } else {
      assert s[..|s| - 1] == [];
    }
  }

  // ----- numerals in pieces

  /** Exactly `k` digits, with leading zeros. */
  function Padded(n: nat, k: nat): (s: string)
    ensures |s| == k
  {
    if k == 0 then "" else Padded(n / 10, k - 1) + [DigitChar(n % 10)]
  }

  lemma TenfoldParts(q: nat, r: nat, p: nat)
    ensures (q * (10 * p) + r) / 10 == q * p + r / 10 && (q * (10 * p) + r) % 10 == r % 10
  {
  }

  lemma {:induction false} NumeralSplit(n: nat, q: nat, r: nat, k: nat)
    requires n == q * Power(10, k) + r && q > 0 && r < Power(10, k)
    ensures Numeral(n) == Numeral(q) + Padded(r, k)
    decreases k
  {
    if k == 0 {
      assert n == q && Numeral(q) + "" == Numeral(q);
    } else {
      var p := Power(10, k - 1);
      TenfoldParts(q, r, p);
      MulMonotone(10 * p, 1, q);
      NumeralSplit(n / 10, q, r / 10, k - 1);
      assert Numeral(q) + Padded(r, k) == (Numeral(q) + Padded(r / 10, k - 1)) + [DigitChar(r % 10)];
    }
  }

  lemma {:induction false} PaddedSplit(n: nat, q: nat, r: nat, j: nat, k: nat)
    requires n == q * Power(10, k) + r && r < Power(10, k)
    ensures Padded(n, j + k) == Padded(q, j) + Padded(r, k)
    decreases k
  {
    if k == 0 {
      assert n == q && Padded(q, j) + "" == Padded(q, j);
    } else {
      TenfoldParts(q, r, Power(10, k - 1));
      PaddedSplit(n / 10, q, r / 10, j, k - 1);
      assert Padded(q, j) + Padded(r, k) == (Padded(q, j) + Padded(r / 10, k - 1)) + [DigitChar(r % 10)];
    }
  }

  lemma TwoDigits(n: nat)
    requires n < 100
    ensures Padded(n, 2) == [DigitChar(n / 10), DigitChar(n % 10)]
    ensures n >= 10 ==> Numeral(n) == Padded(n, 2)
  {
  }
}

/** Decimal printing into a buffer: the recursion that divides by a power of ten with a reciprocal, and
    the loop that writes two digits at a time from the right. */
module Itoa {
  import opened Words
  import opened Magic
  import opened Numerals

  // ----- division by a power of ten

  /** The sizes, in bytes, of the types that are split. */
  predicate IsSize(n: nat) { n in {2, 4, 8} }

  function Multiplier(n: nat): nat { if n == 2 then 41943 else if n == 4 then 3518437209 else 12379400392853802749 }

  function ShiftBits(n: nat): nat { if n == 2 then 22 else if n == 4 then 45 else 90 }

  function Increment(n: nat): nat { if n == 2 then 1 else 0 }

  /** The quotient by `10^n`: one multiplication in the type of twice the size, and a shift. */
  function Quotient(n: nat, value: nat): nat {
    Wrap(8 * n, Shr(Wrap(16 * n, Multiplier(n) * (value + Increment(n))), ShiftBits(n)))
  }

  function Remainder(n: nat, value: nat): nat { RemainderBy(n, value, Quotient(n, value)) }

  function RemainderBy(n: nat, value: int, quotient: int): nat { Wrap(4 * n, value - quotient * Power(10, n)) }

  lemma SmallPowers()
    ensures Pow2(8) == 0x100 && Pow2(16) == 0x1_0000 && Pow2(22) == 0x40_0000 && Pow2(32) == 0x1_0000_0000
  {
  }

  lemma LargePowers()
    ensures Pow2(45) == 0x2000_0000_0000 && Pow2(64) == 0x1_0000_0000_0000_0000
  {
    SmallPowers();
    assert Pow2(13) == 0x2000;
    Pow2Add(32, 13);
    Pow2Add(32, 32);
  }

  lemma HugePowers()
    ensures Pow2(90) == 0x400_0000_0000_0000_0000_0000
    ensures Pow2(128) == 0x1_0000_0000_0000_0000_0000_0000_0000_0000
  {
    LargePowers();
    Pow2Add(45, 45);
    Pow2Add(64, 64);
  }

  lemma PowersOfTen()
    ensures Power(10, 2) == 100 && Power(10, 4) == 10000 && Power(10, 8) == 1_0000_0000
    ensures Power(10, 16) == 1_0000_0000_0000_0000
  {
  }

  /** The reciprocal of 100 is rounded down, which adding one to the value makes up for. */
  lemma HundredthsRoundedDown(v: nat)
    requires v < 0x1_0000
    ensures (41943 * (v + 1)) / 0x40_0000 == v / 100
  {
  }

  lemma QuotientIsExact(n: nat, value: nat)
    requires IsSize(n) && value < Pow2(8 * n)
    ensures Quotient(n, value) == value / Power(10, n)
  {
    SmallPowers();
    LargePowers();
    HugePowers();
    PowersOfTen();
    WrapSmall(16 * n, Multiplier(n) * (value + Increment(n)));
    if n == 2 {
      HundredthsRoundedDown(value);
    } else if n == 4 {
      MagicFloor(0x2000_0000_0000, 10000, 3518437209, 1168, value);
    } else {
      MagicFloor(0x400_0000_0000_0000_0000_0000, 1_0000_0000, 12379400392853802749, 875776, value);
    }
    WrapSmall(8 * n, value / Power(10, n));
  }

  /** The split is exact for every value of the type. */
  lemma SplitIsExact(n: nat, value: nat)
    requires IsSize(n) && value < Pow2(8 * n)
    ensures Quotient(n, value) == value / Power(10, n)
    ensures Remainder(n, value) == value % Power(10, n)
  {
    QuotientIsExact(n, value);
    RemainderIsExact(n, value, Quotient(n, value));
  }

  lemma RemainderIsExact(n: nat, value: nat, q: int)
    requires IsSize(n) && q == value / Power(10, n)
    ensures RemainderBy(n, value, q) == value % Power(10, n)
  {
    DivModForm(value, Power(10, n));
    SizeFits(n);
    WrapSmall(4 * n, value % Power(10, n));
  }

  lemma SizeFits(n: nat)
    requires IsSize(n)
    ensures Power(10, n) <= Pow2(4 * n) && Power(10, 2 * n) <= Pow2(8 * n)
  {
    assert Pow2(8) == 0x100;
    SmallPowers();
    LargePowers();
    PowersOfTen();
  }

  // ----- writing

  /** `text` was put at position `p` and nothing else changed; writing goes on at `q`. */
  predicate Wrote(before: seq<char>, after: seq<char>, p: nat, text: string, q: nat) {
    q == p + |text| <= |before| && after == before[..p] + text + before[q..]
  }

  lemma WroteBoth(s0: seq<char>, s1: seq<char>, s2: seq<char>, p: nat, t: string, q: nat, u: string, r: nat)
    requires Wrote(s0, s1, p, t, q) && Wrote(s1, s2, q, u, r)
    ensures Wrote(s0, s2, p, t + u, r)
  {
  }

  /** Text written over text of the same place. */
  lemma WroteOver(s0: seq<char>, s1: seq<char>, s2: seq<char>, p: nat, t: string, q: nat, u: string, r: nat)
    requires Wrote(s0, s1, p, t, q) && Wrote(s1, s2, p, u, r) && |t| <= |u|
    ensures Wrote(s0, s2, p, u, r)
  {
  }

  method OutDigit(buf: array<char>, p: nat, value: nat) returns (q: nat)
    requires p < buf.Length && value < 10
    modifies buf
    ensures Wrote(old(buf[..]), buf[..], p, [DigitChar(value)], q)
  {
    buf[p] := '0' + value as char;
    q := p + 1;
    assert buf[p + 1..] == old(buf[..])[p + 1..];
  }

  method OutTwoDigits(buf: array<char>, p: nat, value: nat) returns (q: nat)
    requires p + 2 <= buf.Length && value < 100
    modifies buf
    ensures Wrote(old(buf[..]), buf[..], p, Padded(value, 2), q)
  {
    buf[p], buf[p + 1] := DigitChar(value / 10), DigitChar(value % 10);
    q := p + 2;
    TwoDigits(value);
    assert buf[p + 2..] == old(buf[..])[p + 2..];
  }

  /** A number below `10^2n` splits into two below `10^n`, which fit in half the size. */
  lemma SplitFits(n: nat, u: nat)
    requires IsSize(n) && u < Power(10, 2 * n)
    ensures u < Pow2(8 * n) && Power(10, n) <= Pow2(4 * n)
    ensures Quotient(n, u) < Power(10, n) && Remainder(n, u) < Power(10, n)
    ensures u == Quotient(n, u) * Power(10, n) + Remainder(n, u)
  {
    assert u < Pow2(8 * n) && Power(10, n) <= Pow2(4 * n) && u < Power(10, n) * Power(10, n) by {
      SizesFit(n);
    }
    SplitIsExact(n, u);
    DivModForm(u, Power(10, n));
    DivAtLeast(u, Power(10, n), Power(10, n));
  }

  lemma SizesFit(n: nat)
    requires IsSize(n)
    ensures Power(10, 2 * n) <= Pow2(8 * n) && Power(10, n) <= Pow2(4 * n)
    ensures Power(10, 2 * n) == Power(10, n) * Power(10, n)
  {
    SmallPowers();
    LargePowers();
    PowersOfTen();
    PowerAdd(10, n, n);
  }

  /** All `2n` digits, with leading zeros. */
  method Tail(buf: array<char>, p: nat, n: nat, u: nat) returns (q: nat)
    requires n in {1, 2, 4, 8} && u < Power(10, 2 * n) && p + 2 * n <= buf.Length
    modifies buf
    ensures Wrote(old(buf[..]), buf[..], p, Padded(u, 2 * n), q)
    decreases n
  {
    if n == 1 {
      PowersOfTen();
      q := OutTwoDigits(buf, p, u);
    } else {
      SplitFits(n, u);
      var high, low := Quotient(n, u), Remainder(n, u);
      WrapSmall(4 * n, high);
      q := Tail(buf, p, n / 2, Wrap(4 * n, high));
      ghost var s1 := buf[..];
      var middle := q;
      q := Tail(buf, q, n / 2, low);
      PaddedSplit(u, high, low, n, n);
      WroteBoth(old(buf[..]), s1, buf[..], p, Padded(high, n), middle, Padded(low, n), q);
    }
  }

  /** One digit or two. */
  method OutShort(buf: array<char>, p: nat, u: nat) returns (q: nat)
    requires u < 100 && p + |Numeral(u)| <= buf.Length
    modifies buf
    ensures Wrote(old(buf[..]), buf[..], p, Numeral(u), q)
  {
    if u < 10 {
      q := OutDigit(buf, p, u);
    } else {
      TwoDigits(u);
      q := OutTwoDigits(buf, p, u);
    }
  }

  /** The digits without leading zeros, of a number that is split already. */
  method HeadSplit(buf: array<char>, p: nat, n: nat, high: nat, low: nat) returns (q: nat)
    requires IsSize(n) && 0 < high < Power(10, n) && low < Power(10, n)
    requires p + |Numeral(high)| + n <= buf.Length
    modifies buf
    ensures Wrote(old(buf[..]), buf[..], p, Numeral(high * Power(10, n) + low), q)
    decreases n, 0
  {
    SizeFits(n);
    WrapSmall(4 * n, high);
    q := Head(buf, p, n / 2, Wrap(4 * n, high));
    ghost var s1 := buf[..];
    var middle := q;
    q := Tail(buf, q, n / 2, low);
    NumeralSplit(high * Power(10, n) + low, high, low, n);
    WroteBoth(old(buf[..]), s1, buf[..], p, Numeral(high), middle, Padded(low, n), q);
  }

  /** The length of a numeral that is split. */
  lemma SplitLength(n: nat, u: nat, high: nat, low: nat)
    requires u == high * Power(10, n) + low && 0 < high && low < Power(10, n)
    ensures |Numeral(u)| == |Numeral(high)| + n
  {
    NumeralSplit(u, high, low, n);
  }

  /** The digits of a number below `10^2n`, without leading zeros. */
  method Head(buf: array<char>, p: nat, n: nat, u: nat) returns (q: nat)
    requires n in {1, 2, 4, 8} && u < Power(10, 2 * n) && p + |Numeral(u)| <= buf.Length
    modifies buf
    ensures Wrote(old(buf[..]), buf[..], p, Numeral(u), q)
    decreases n, 1
  {
    if n == 1 {
      PowersOfTen();
      q := OutShort(buf, p, u);
    } else {
      SplitFits(n, u);
      if u < Power(10, n) {
        WrapSmall(4 * n, u);
        q := Head(buf, p, n / 2, Wrap(4 * n, u));
      } else {
        var high, low := Quotient(n, u), Remainder(n, u);
        HighPartPositive(high, low, Power(10, n));
        SplitLength(n, u, high, low);
        q := HeadSplit(buf, p, n, high, low);
      }
    }
  }

  lemma HighPartPositive(high: nat, low: nat, p: nat)
    requires low < p <= high * p + low
    ensures high > 0
  {
  }

  lemma Parts(n: nat, u: nat)
    requires IsSize(n) && u < Pow2(8 * n)
    ensures Quotient(n, u) == u / Power(10, n) && Remainder(n, u) < Power(10, n)
    ensures u == Quotient(n, u) * Power(10, n) + Remainder(n, u) && Quotient(n, u) <= u
  {
    SplitIsExact(n, u);
    DivModForm(u, Power(10, n));
    MulMonotone(Quotient(n, u), 1, Power(10, n));
  }

  lemma SizeSquared(n: nat)
    requires IsSize(n)
    ensures Power(10, 2 * n) == Power(10, n) * Power(10, n)
    ensures Pow2(8 * n) <= (Power(10, n) * Power(10, n)) * Power(10, n)
  {
    SmallPowers();
    LargePowers();
    PowersOfTen();
  }

  lemma TopPart(u: nat, p: nat)
    requires p > 0 && p * p <= u < (p * p) * p
    ensures 0 < u / p / p < p
  {
    MulStrict(p, 0, p);
    DivDiv(u, p, p);
    DivAtLeast(u, p * p, 1);
    DivAtLeast(u, p * p, p);
  }

  /** A number of at least `10^2n` takes three pieces. */
  lemma LargeParts(n: nat, u: nat, high: nat)
    requires IsSize(n) && Power(10, 2 * n) <= u < Pow2(8 * n) && high == Quotient(n, u)
    ensures high < Pow2(8 * n) && Remainder(n, u) < Power(10, n)
    ensures u == high * Power(10, n) + Remainder(n, u)
    ensures 0 < Quotient(n, high) < Power(10, n) && Remainder(n, high) < Power(10, n)
    ensures high == Quotient(n, high) * Power(10, n) + Remainder(n, high)
  {
    Parts(n, u);
    Parts(n, high);
    SizeSquared(n);
    TopPart(u, Power(10, n));
  }

  method Large(buf: array<char>, p: nat, n: nat, ghost u: nat, high: nat, low: nat) returns (q: nat)
    requires IsSize(n) && Power(10, 2 * n) <= u < Pow2(8 * n)
    requires high == Quotient(n, u) && low == Remainder(n, u)
    requires p + |Numeral(u)| <= buf.Length
    modifies buf
    ensures Wrote(old(buf[..]), buf[..], p, Numeral(u), q)
  {
    LargeParts(n, u, high);
    var top, middle := Quotient(n, high), Remainder(n, high);
    SplitLength(n, high, top, middle);
    SplitLength(n, u, high, low);
    var next := HeadSplit(buf, p, n, top, middle);
    ghost var s1 := buf[..];
    q := Tail(buf, next, n / 2, low);
    NumeralSplit(u, high, low, n);
    WroteBoth(old(buf[..]), s1, buf[..], p, Numeral(high), next, Padded(low, n), q);
  }

  /** The numeral of any value of an unsigned type of `n` bytes. */
  method Uitoa(buf: array<char>, p: nat, n: nat, u: nat) returns (q: nat)
    requires n in {1, 2, 4, 8} && u < Pow2(8 * n) && p + |Numeral(u)| <= buf.Length
    modifies buf
    ensures Wrote(old(buf[..]), buf[..], p, Numeral(u), q)
  {
    if n == 1 {
      q := UitoaByte(buf, p, u);
    } else if u < Power(10, n) {
      SizeFits(n);
      WrapSmall(4 * n, u);
      q := Head(buf, p, n / 2, Wrap(4 * n, u));
    } else {
      q := UitoaSplit(buf, p, n, u);
    }
  }

  method UitoaSplit(buf: array<char>, p: nat, n: nat, u: nat) returns (q: nat)
    requires IsSize(n) && Power(10, n) <= u < Pow2(8 * n) && p + |Numeral(u)| <= buf.Length
    modifies buf
    ensures Wrote(old(buf[..]), buf[..], p, Numeral(u), q)
  {
    var high, low := Quotient(n, u), Remainder(n, u);
    if u < Power(10, 2 * n) {
      SplitFits(n, u);
      HighPartPositive(high, low, Power(10, n));
      SplitLength(n, u, high, low);
      q := HeadSplit(buf, p, n, high, low);
    } else {
      q := Large(buf, p, n, u, high, low);
    }
  }

  method UitoaByte(buf: array<char>, p: nat, u: nat) returns (q: nat)
    requires u < Pow2(8) && p + |Numeral(u)| <= buf.Length
    modifies buf
    ensures Wrote(old(buf[..]), buf[..], p, Numeral(u), q)
  {
    assert Pow2(8) == 256;
    if u < 100 {
      q := OutShort(buf, p, u);
    } else {
      PowersOfTen();
      NumeralSplit(u, u / 100, u % 100, 2);
      var next := OutDigit(buf, p, u / 100);
      ghost var s1 := buf[..];
      q := OutTwoDigits(buf, next, u % 100);
      WroteBoth(old(buf[..]), s1, buf[..], p, Numeral(u / 100), next, Padded(u % 100, 2), q);
    }
  }

  // ----- signs

  /** The absolute value without a branch: twice the word masked by the sign, less the word. */
  function AbsoluteWord(w: nat, i: int): nat {
    var mask: int := if i < 0 then Pow2(w) - 1 else 0;
    var u: int := Wrap(w, i);
    Wrap(w, And(Wrap(w, 2 * u), Pow2(w) - 1 - mask) - u)
  }

  lemma AbsoluteWordIsMagnitude(w: nat, i: int)
    requires w > 0 && IsSigned(w, i)
    ensures AbsoluteWord(w, i) == if i < 0 then 0 - i else i
  {
    var u: int := Wrap(w, i);
    var m: int := Pow2(w);
    if i < 0 {
      DivModUnique(i, m, -1, i + m);
      DivModUnique(0 - u, m, -1, 0 - i);
      assert And(Wrap(w, 2 * u), 0) == 0;
    } else {
      DivModUnique(i, m, 0, i);
      WrapSmall(w, 2 * u);
      AndMask(2 * u, w);
      WrapSmall(w, u);
    }
  }

  /** The numeral of any value of a signed type of `n` bytes. The minus sign is always stored; the first
      digit of a number that is not negative goes over it. */
  method ItoaSigned(buf: array<char>, p: nat, n: nat, i: int) returns (q: nat)
    requires n in {1, 2, 4, 8} && IsSigned(8 * n, i) && p + |SignedNumeral(i)| <= buf.Length
    modifies buf
    ensures Wrote(old(buf[..]), buf[..], p, SignedNumeral(i), q)
  {
    AbsoluteWordIsMagnitude(8 * n, i);
    var u := AbsoluteWord(8 * n, i);
    NumeralMeans(u);
    buf[p] := '-';
    ghost var s1 := buf[..];
    assert Wrote(old(buf[..]), s1, p, "-", p + 1);
    var start := p + if i < 0 then 1 else 0;
    q := Uitoa(buf, start, n, u);
    if i < 0 {
      WroteBoth(old(buf[..]), s1, buf[..], p, "-", start, Numeral(u), q);
    } else {
      WroteOver(old(buf[..]), s1, buf[..], p, "-", p + 1, Numeral(u), q);
    }
  }

  // ----- from the right

  /** The number of digits, by comparisons. */
  function Digits10(x: nat): nat {
    if x < 10 then 1
    else if x < 100 then 2
    else if x < 1000 then 3
    else if x < 1_000_000_000_000 then
      if x < 100_000_000 then
        if x < 1_000_000 then
          if x < 10_000 then 4 else 5 + if x >= 100_000 then 1 else 0
        else 7 + if x >= 10_000_000 then 1 else 0
      else if x < 10_000_000_000 then 9 + if x >= 1_000_000_000 then 1 else 0
      else 11 + if x >= 100_000_000_000 then 1 else 0
    else 12 + Digits10(x / 1_000_000_000_000)
  }

  lemma TenToTheTwelfth()
    ensures Power(10, 9) == 1_000_000_000 && Power(10, 10) == 10_000_000_000
    ensures Power(10, 11) == 100_000_000_000 && Power(10, 12) == 1_000_000_000_000
  {
  }

  lemma {:induction false} Digits10Counts(x: nat)
    ensures Digits10(x) == |Numeral(x)|
  {
    TenToTheTwelfth();
    if x >= 1_000_000_000_000 {
      Digits10Counts(x / 1_000_000_000_000);
      NumeralSplit(x, x / 1_000_000_000_000, x % 1_000_000_000_000, 12);
    } else {
      CountShort(x);
    }
  }

  lemma CountShort(x: nat)
    requires x < 1_000_000_000_000
    ensures Digits10(x) == |Numeral(x)|
  {
  }

  /** Text put in front of text. */
  lemma WroteBefore(s0: seq<char>, s1: seq<char>, s2: seq<char>, p: nat, t: string, q: nat, u: string, r: nat)
    requires Wrote(s0, s1, q, u, r) && Wrote(s1, s2, p, t, q)
    ensures Wrote(s0, s2, p, t + u, r)
  {
  }

  /** Two digits put in front of those written. */
  method PrependPair(buf: array<char>, pp: nat, rest: nat, ghost s0: seq<char>, ghost done: string, ghost q: nat)
      returns (start: nat)
    requires rest >= 100 && 2 <= pp && Wrote(s0, buf[..], pp, done, q)
    modifies buf
    ensures start == pp - 2 && Wrote(s0, buf[..], start, Padded(rest % 100, 2) + done, q)
  {
    start := pp - 2;
    ghost var s1 := buf[..];
    var end := OutTwoDigits(buf, start, rest % 100);
    WroteBefore(s0, s1, buf[..], start, Padded(rest % 100, 2), end, done, q);
  }

  lemma PairOff(n: nat, done: string, text: string)
    requires n >= 100 && Numeral(n) + done == text
    ensures |Numeral(n)| == |Numeral(n / 100)| + 2
    ensures Numeral(n / 100) + (Padded(n % 100, 2) + done) == text
  {
    PowersOfTen();
    NumeralSplit(n, n / 100, n % 100, 2);
    assert Numeral(n / 100) + (Padded(n % 100, 2) + done) == Numeral(n) + done;
  }

  /** Two digits at a time from the right, into a space measured beforehand. */
  method WriteUIntText(buf: array<char>, p: nat, x: nat) returns (q: nat)
    requires p + |Numeral(x)| <= buf.Length
    modifies buf
    ensures Wrote(old(buf[..]), buf[..], p, Numeral(x), q)
  {
    Digits10Counts(x);
    q := p + Digits10(x);
    var rest, pp := x, q;
    ghost var done := "";
    assert Numeral(x) + done == Numeral(x);
    while rest >= 100
      invariant p + |Numeral(rest)| == pp && Numeral(rest) + done == Numeral(x)
      invariant Wrote(old(buf[..]), buf[..], pp, done, q)
    {
      PairOff(rest, done, Numeral(x));
      pp := PrependPair(buf, pp, rest, old(buf[..]), done, q);
      done := Padded(rest % 100, 2) + done;
      rest := rest / 100;
    }
    ghost var s1 := buf[..];
    var end := OutShort(buf, p, rest);
    WroteBefore(old(buf[..]), s1, buf[..], p, Numeral(rest), end, done, q);
  }

  // ----- the least numbers

  /** Eight more digits, given as two groups of four. */
  lemma Extend(n: nat, q: nat, a: nat, b: nat, s: string, t: string)
    requires q > 0 && a < 1_0000 && b < 1_0000 && n == q * 1_0000_0000 + (a * 1_0000 + b)
    requires Numeral(q) == s && t == Padded(a, 4) + Padded(b, 4)
    ensures Numeral(n) == s + t
  {
    PowersOfTen();
    NumeralSplit(n, q, a * 1_0000 + b, 8);
    PaddedSplit(a * 1_0000 + b, a, b, 4, 4);
  }

  lemma Int128Digits7(n: nat)
    requires n == 1701411
    ensures Numeral(n) == "1701411"
  {
    assert Numeral(1701411) == "1701411";
  }

  lemma Int128Digits15(n: nat)
    requires n == 170141183460469
    ensures Numeral(n) == "1701411" + "83460469"
  {
    var q, a, b := 1701411, 8346, 469;
    Int128Digits7(q);
    Extend(n, q, a, b, "1701411", "83460469");
  }

  lemma Int128Digits23(n: nat)
    requires n == 17014118346046923173168
    ensures Numeral(n) == "1701411" + "83460469" + "23173168"
  {
    var q, a, b := 170141183460469, 2317, 3168;
    Int128Digits15(q);
    Extend(n, q, a, b, "1701411" + "83460469", "23173168");
  }

  lemma Int128Digits31(n: nat)
    requires n == 1701411834604692317316873037158
    ensures Numeral(n) == "1701411" + "83460469" + "23173168" + "73037158"
  {
    var q, a, b := 17014118346046923173168, 7303, 7158;
    Int128Digits23(q);
    Extend(n, q, a, b, "1701411" + "83460469" + "23173168", "73037158");
  }

  lemma Int128Digits39(n: nat)
    requires n == 170141183460469231731687303715884105728
    ensures Numeral(n) == "1701411" + "83460469" + "23173168" + "73037158" + "84105728"
  {
    var q, a, b := 1701411834604692317316873037158, 8410, 5728;
    Int128Digits31(q);
    Extend(n, q, a, b, "1701411" + "83460469" + "23173168" + "73037158", "84105728");
  }

  lemma Int256Digits13(n: nat)
    requires n == 5789604461865
    ensures Numeral(n) == "57896" + "04461865"
  {
    var q, a, b := 57896, 446, 1865;
    assert Numeral(57896) == "57896";
    Extend(n, q, a, b, "57896", "04461865");
  }

  lemma Int256Digits21(n: nat)
    requires n == 578960446186580977117
    ensures Numeral(n) == "57896" + "04461865" + "80977117"
  {
    var q, a, b := 5789604461865, 8097, 7117;
    Int256Digits13(q);
    Extend(n, q, a, b, "57896" + "04461865", "80977117");
  }

  lemma Int256Digits29(n: nat)
    requires n == 57896044618658097711785492504
    ensures Numeral(n) == "57896" + "04461865" + "80977117" + "85492504"
  {
    var q, a, b := 578960446186580977117, 8549, 2504;
    Int256Digits21(q);
    Extend(n, q, a, b, "57896" + "04461865" + "80977117", "85492504");
  }

  lemma Int256Digits37(n: nat)
    requires n == 5789604461865809771178549250434395392
    ensures Numeral(n) == "57896" + "04461865" + "80977117" + "85492504" + "34395392"
  {
    var q, a, b := 57896044618658097711785492504, 3439, 5392;
    Int256Digits29(q);
    Extend(n, q, a, b, "57896" + "04461865" + "80977117" + "85492504", "34395392");
  }

  lemma Int256Digits45(n: nat)
    requires n == 578960446186580977117854925043439539266349923
    ensures Numeral(n) == "57896" + "04461865" + "80977117" + "85492504" + "34395392" + "66349923"
  {
    var q, a, b := 5789604461865809771178549250434395392, 6634, 9923;
    Int256Digits37(q);
    Extend(n, q, a, b, "57896" + "04461865" + "80977117" + "85492504" + "34395392", "66349923");
  }

  lemma Int256Digits53(n: nat)
    requires n == 57896044618658097711785492504343953926634992332820282
    ensures Numeral(n) == "57896" + "04461865" + "80977117" + "85492504" + "34395392" + "66349923" + "32820282"
  {
    var q, a, b := 578960446186580977117854925043439539266349923, 3282, 282;
    Int256Digits45(q);
    Extend(n, q, a, b, "57896" + "04461865" + "80977117" + "85492504" + "34395392" + "66349923", "32820282");
  }

  lemma Int256Digits61(n: nat)
    requires n == 5789604461865809771178549250434395392663499233282028201972879
    ensures Numeral(n) == "57896" + "04461865" + "80977117" + "85492504" + "34395392" + "66349923"
                          + "32820282" + "01972879"
  {
    var q, a, b := 57896044618658097711785492504343953926634992332820282, 197, 2879;
    Int256Digits53(q);
    Extend(n, q, a, b, "57896" + "04461865" + "80977117" + "85492504" + "34395392" + "66349923" + "32820282",
           "01972879");
  }

  lemma Int256Digits69(n: nat)
    requires n == 578960446186580977117854925043439539266349923328202820197287920039565
    ensures Numeral(n) == "57896" + "04461865" + "80977117" + "85492504" + "34395392" + "66349923"
                          + "32820282" + "01972879" + "20039565"
  {
    var q, a, b := 5789604461865809771178549250434395392663499233282028201972879, 2003, 9565;
    Int256Digits61(q);
    Extend(n, q, a, b, "57896" + "04461865" + "80977117" + "85492504" + "34395392" + "66349923"
           + "32820282" + "01972879", "20039565");
  }

  lemma Int256Digits77(n: nat)
    requires n == 57896044618658097711785492504343953926634992332820282019728792003956564819968
    ensures Numeral(n) == "57896" + "04461865" + "80977117" + "85492504" + "34395392" + "66349923"
                          + "32820282" + "01972879" + "20039565" + "64819968"
  {
    var q, a, b := 578960446186580977117854925043439539266349923328202820197287920039565, 6481, 9968;
    Int256Digits69(q);
    Extend(n, q, a, b, "57896" + "04461865" + "80977117" + "85492504" + "34395392" + "66349923"
           + "32820282" + "01972879" + "20039565", "64819968");
  }

  /** The text stored for the least number of the type. */
  function LeastText(w: nat): string {
    if w == 128 then "-" + ("1701411" + "83460469" + "23173168" + "73037158" + "84105728")
    else "-" + ("57896" + "04461865" + "80977117" + "85492504" + "34395392" + "66349923"
                + "32820282" + "01972879" + "20039565" + "64819968")
  }

  lemma LeastTextIsNumeral(w: nat, x: int)
    requires w in {128, 256} && x + Pow2(w - 1) == 0
    ensures LeastText(w) == SignedNumeral(x)
  {
    LargePowers();
    HugePowers();
    assert Pow2(128) == 2 * Pow2(127);
    if w == 128 {
      Int128Digits39(Pow2(127));
    } else {
      Pow2Add(128, 127);
      Int256Digits77(Pow2(255));
    }
  }

  method CopyText(buf: array<char>, p: nat, text: string) returns (q: nat)
    requires p + |text| <= buf.Length
    modifies buf
    ensures Wrote(old(buf[..]), buf[..], p, text, q)
  {
    var i := 0;
    while i < |text|
      invariant 0 <= i <= |text| && Wrote(old(buf[..]), buf[..], p, text[..i], p + i)
    {
      buf[p + i] := text[i];
      i := i + 1;
    }
    q := p + |text|;
    assert text[..i] == text;
  }

  /** The numeral of any 128- or 256-bit signed number. */
  method WriteSIntText(buf: array<char>, p: nat, w: nat, x: int) returns (q: nat)
    requires w in {128, 256} && IsSigned(w, x) && p + |SignedNumeral(x)| <= buf.Length
    modifies buf
    ensures Wrote(old(buf[..]), buf[..], p, SignedNumeral(x), q)
  {
    if x + Pow2(w - 1) == 0 {
      LeastTextIsNumeral(w, x);
      q := CopyText(buf, p, LeastText(w));
    } else if x < 0 {
      var start := CopyText(buf, p, "-");
      ghost var s1 := buf[..];
      q := WriteUIntText(buf, start, 0 - x);
      WroteBoth(old(buf[..]), s1, buf[..], p, "-", start, Numeral(0 - x), q);
    } else {
      q := WriteUIntText(buf, p, x);
    }
  }
}

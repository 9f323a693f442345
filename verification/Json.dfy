/** The skipping JSON reader: it finds the end of an element without building it, and iterates over
    arrays and objects by skipping. */
module Json {
  import opened Numerals
  import opened JsonText

  const MAX_DEPTH := 100

  datatype Error =
    | EmptyRange        // begin is not before end
    | TooDeep
    | EndOfData
    | UnexpectedChar
    | NotContainer
    | NotArray
    | OutOfBounds

  datatype Outcome<T> = Ok(value: T) | Err(error: Error)

  datatype Kind = KObject | KArray | KNumber | KString | KBool | KNull | KPair

  /** An iterator stands at an element, or past the last one. */
  datatype Cursor = Element(pos: nat) | Past

  // ----- strings and numbers

  function FindQuote(data: string, p: nat): (q: nat)
    requires p <= |data|
    ensures p <= q <= |data|
    decreases |data| - p
  {
    if p == |data| || data[p] == '"' then p else FindQuote(data, p + 1)
  }

  /** The end of a string, character by character. */
  function SlowString(data: string, p: nat): (r: Outcome<nat>)
    ensures r.Ok? ==> p < r.value <= |data|
    decreases |data| - p
  {
    if p >= |data| then Err(EndOfData)
    else if data[p] == '"' then Ok(p + 1)
    else if data[p] != '\\' then SlowString(data, p + 1)
    else if p + 1 >= |data| then Err(EndOfData)
    else if data[p + 1] != 'u' then SlowString(data, p + 2)
    else if p + 5 >= |data| then Err(EndOfData)
    else SlowString(data, p + 6)
  }

  /** The end of a string: the next quote, if no backslash is before it. */
  function SkipString(data: string, p: nat): (r: Outcome<nat>)
    requires p < |data|
    ensures r.Ok? ==> p < r.value <= |data|
  {
    if data[p] != '"' then Err(UnexpectedChar)
    else
      var quote := FindQuote(data, p + 1);
      if quote < |data| && data[quote - 1] != '\\' then Ok(quote + 1) else SlowString(data, p + 1)
  }

  function SkipDigits(data: string, p: nat): (q: nat)
    ensures q >= p
    decreases |data| - p
  {
    if p < |data| && IsDigit(data[p]) then SkipDigits(data, p + 1) else p
  }

  /** Past one character, if it is one of the two given. */
  function SkipOne(data: string, p: nat, c: char, d: char): (q: nat)
    ensures q >= p
  {
    if p < |data| && (data[p] == c || data[p] == d) then p + 1 else p
  }

  function SkipExponent(data: string, p: nat): (q: nat)
    ensures q >= p
  {
    SkipDigits(data, SkipOne(data, SkipOne(data, p, 'e', 'E'), '-', '-'))
  }

  function SkipNumber(data: string, p: nat): (q: nat)
    requires p < |data| && (data[p] == '-' || IsDigit(data[p]))
    ensures q > p
  {
    var whole := SkipDigits(data, SkipOne(data, p, '-', '-'));
    var fraction := SkipDigits(data, SkipOne(data, whole, '.', '.'));
    SkipExponent(data, fraction)
  }

  // ----- elements

  function GetType(data: string, p: nat): Outcome<Kind>
    requires p < |data|
  {
    var c := data[p];
    if c == '{' then Ok(KObject)
    else if c == '[' then Ok(KArray)
    else if c == 't' || c == 'f' then Ok(KBool)
    else if c == 'n' then Ok(KNull)
    else if c == '-' || IsDigit(c) then Ok(KNumber)
    else if c == '"' then
      match SkipString(data, p)
      case Err(e) => Err(e)
      case Ok(after) => Ok(if after < |data| && data[after] == ':' then KPair else KString)
    else Err(UnexpectedChar)
  }

  /** What constructing a reader checks. */
  function CheckInit(data: string, p: nat, level: nat): Outcome<()> {
    if p >= |data| then Err(EmptyRange) else if level > MAX_DEPTH then Err(TooDeep) else Ok(())
  }

  function SkipElement(data: string, p: nat, level: nat): (r: Outcome<nat>)
    requires p < |data|
    ensures r.Ok? ==> r.value > p
    decreases |data| - p, 2
  {
    match GetType(data, p)
    case Err(e) => Err(e)
    case Ok(KNull) => Ok(p + 4)
    case Ok(KBool) => Ok(p + if data[p] == 't' then 4 else 5)
    case Ok(KNumber) => Ok(SkipNumber(data, p))
    case Ok(KString) => SkipString(data, p)
    case Ok(KPair) => SkipPair(data, p, level)
    case Ok(KArray) => SkipContainer(data, p, level, false)
    case Ok(KObject) => SkipContainer(data, p, level, true)
  }

  function SkipPair(data: string, p: nat, level: nat): (r: Outcome<nat>)
    requires p < |data|
    ensures r.Ok? ==> r.value > p
    decreases |data| - p, 1
  {
    match SkipString(data, p)
    case Err(e) => Err(e)
    case Ok(q) =>
      if q >= |data| then Err(EndOfData)
      else if data[q] != ':' then Err(UnexpectedChar)
      else
        match CheckInit(data, q + 1, level + 1)
        case Err(e) => Err(e)
        case Ok(_) => SkipElement(data, q + 1, level + 1)
  }

  function Closing(pairs: bool): char { if pairs then '}' else ']' }

  /** An array, or an object whose items are pairs. */
  function SkipContainer(data: string, p: nat, level: nat, pairs: bool): (r: Outcome<nat>)
    requires p < |data|
    ensures r.Ok? ==> r.value > p
    decreases |data| - p, 1
  {
    if p + 1 >= |data| then Err(EndOfData)
    else if data[p + 1] == Closing(pairs) then Ok(p + 2)
    else SkipItems(data, p + 1, level, pairs)
  }

  /** One item of a container, one level down. */
  function SkipItem(data: string, p: nat, level: nat, pairs: bool): (r: Outcome<nat>)
    ensures r.Ok? ==> r.value > p
    decreases |data| - p, 3
  {
    match CheckInit(data, p, level + 1)
    case Err(e) => Err(e)
    case Ok(_) => if pairs then SkipPair(data, p, level + 1) else SkipElement(data, p, level + 1)
  }

  /** The items from `p` on and the bracket that closes them. */
  function SkipItems(data: string, p: nat, level: nat, pairs: bool): (r: Outcome<nat>)
    ensures r.Ok? ==> r.value > p
    decreases |data| - p, 4
  {
    match SkipItem(data, p, level, pairs)
    case Err(e) => Err(e)
    case Ok(q) =>
      if q >= |data| then Err(EndOfData)
      else if data[q] == ',' then SkipItems(data, q + 1, level, pairs)
      else if data[q] == Closing(pairs) then Ok(q + 1)
      else Err(UnexpectedChar)
  }

  // ----- strings end where they should

  lemma UnitsSplit(data: string, p: nat, s: seq<Unit>)
    requires s != [] && At(data, p, UnitsText(s) + ['"'])
    ensures At(data, p, UnitText(s[0]))
    ensures At(data, p + |UnitText(s[0])|, UnitsText(s[1..]) + ['"'])
  {
    var u, rest := UnitText(s[0]), UnitsText(s[1..]);
    AtSplit(data, p, u + rest, ['"']);
    AtSplit(data, p, u, rest);
    AtSplit(data, p + |u|, rest, ['"']);
  }

  lemma ClosingQuote(data: string, p: nat, s: seq<Unit>)
    requires At(data, p, UnitsText(s) + ['"'])
    ensures p + |UnitsText(s)| < |data| && data[p + |UnitsText(s)|] == '"'
  {
    AtSplit(data, p, UnitsText(s), ['"']);
    AtChar(data, p + |UnitsText(s)|, '"');
  }

  lemma SlowUnit(data: string, p: nat, u: Unit)
    requires ValidUnit(u) && At(data, p, UnitText(u)) && p + |UnitText(u)| < |data|
    ensures SlowString(data, p) == SlowString(data, p + |UnitText(u)|)
  {
    AtIndex(data, p, UnitText(u), 0);
    if !u.Plain? { AtIndex(data, p, UnitText(u), 1); }
  }

  lemma {:induction false} SlowStringEnds(data: string, p: nat, s: seq<Unit>)
    requires ValidString(s) && At(data, p, UnitsText(s) + ['"'])
    ensures SlowString(data, p) == Ok(p + |UnitsText(s)| + 1)
    decreases |s|
  {
    if s == [] {
      ClosingQuote(data, p, s);
    } else {
      UnitsSplit(data, p, s);
      SlowUnit(data, p, s[0]);
      SlowStringEnds(data, p + |UnitText(s[0])|, s[1..]);
    }
  }

  lemma {:induction false} NoQuoteIn(data: string, p: nat, s: string)
    requires At(data, p, s) && '"' !in s
    ensures FindQuote(data, p) == FindQuote(data, p + |s|)
    decreases |s|
  {
    if s != [] {
      AtIndex(data, p, s, 0);
      AtSplit(data, p, s[..1], s[1..]);
      assert s[..1] + s[1..] == s;
      NoQuoteIn(data, p + 1, s[1..]);
    }
  }

  /** A unit has no quote in it, unless it is the escaped quote. */
  lemma QuoteInUnit(data: string, p: nat, u: Unit)
    requires ValidUnit(u) && At(data, p, UnitText(u))
    ensures u == Escape('"') ==> FindQuote(data, p) == p + 1 && data[p] == '\\'
    ensures u != Escape('"') ==> FindQuote(data, p) == FindQuote(data, p + |UnitText(u)|)
  {
    if u == Escape('"') {
      AtIndex(data, p, UnitText(u), 0);
      AtIndex(data, p, UnitText(u), 1);
    } else {
      if u.Unicode? { assert forall i :: 0 <= i < 4 ==> IsHexDigit(u.hex[i]); }
      NoQuoteIn(data, p, UnitText(u));
    }
  }

  /** The first quote is the closing one, or there is a backslash before it. */
  lemma {:induction false} FirstQuote(data: string, p: nat, s: seq<Unit>)
    requires ValidString(s) && At(data, p, UnitsText(s) + ['"'])
    ensures FindQuote(data, p) < |data|
    ensures FindQuote(data, p) == p + |UnitsText(s)|
            || (p < FindQuote(data, p) && data[FindQuote(data, p) - 1] == '\\')
    decreases |s|
  {
    if s == [] {
      ClosingQuote(data, p, s);
    } else {
      UnitsSplit(data, p, s);
      QuoteInUnit(data, p, s[0]);
      if s[0] != Escape('"') { FirstQuote(data, p + |UnitText(s[0])|, s[1..]); }
    }
  }

  lemma StringParts(data: string, p: nat, s: seq<Unit>)
    requires At(data, p, StringText(s))
    ensures p < |data| && data[p] == '"' && At(data, p + 1, UnitsText(s) + ['"'])
  {
    AtSplit(data, p, ['"'], UnitsText(s) + ['"']);
    AtChar(data, p, '"');
  }

  /** The fast path and the slow one find the same end, which is the right one. */
  lemma StringEnds(data: string, p: nat, s: seq<Unit>)
    requires ValidString(s) && At(data, p, StringText(s))
    ensures p < |data| && SkipString(data, p) == SlowString(data, p + 1) == Ok(p + |StringText(s)|)
  {
    StringParts(data, p, s);
    SlowStringEnds(data, p + 1, s);
    FirstQuote(data, p + 1, s);
  }

  // ----- numbers

  predicate NoDigit(data: string, p: nat) { p >= |data| || !IsDigit(data[p]) }

  lemma {:induction false} DigitsEnd(data: string, p: nat, s: string)
    requires At(data, p, s) && AllDigits(false, s) && NoDigit(data, p + |s|)
    ensures SkipDigits(data, p) == p + |s|
    decreases |s|
  {
    if s != [] {
      AtIndex(data, p, s, 0);
      AtSplit(data, p, s[..1], s[1..]);
      assert s[..1] + s[1..] == s;
      DigitsEnd(data, p + 1, s[1..]);
    }
  }

  /** Where the reader stops in the exponent: at a plus sign, if there is one. */
  function ExponentRead(x: Exponent): nat {
    if x.NoExponent? then 0 else if x.sign == PlusSign then 1 else |ExponentText(x)|
  }

  /** The parts of an exponent in the text. */
  lemma ExponentParts(data: string, p: nat, x: Exponent)
    requires x.Exponent? && ValidExponent(x) && At(data, p, ExponentText(x))
    ensures p + 1 < |data| && (data[p] == 'e' || data[p] == 'E')
    ensures x.sign == NoSign ==> At(data, p + 1, x.digits) && IsDigit(data[p + 1])
    ensures x.sign == MinusSign ==> data[p + 1] == '-' && At(data, p + 2, x.digits)
    ensures x.sign == PlusSign ==> data[p + 1] == '+'
  {
    var e, sign := if x.upper then "E" else "e", SignText(x.sign);
    AtSplit(data, p, e, sign + x.digits);
    AtSplit(data, p + 1, sign, x.digits);
    AtIndex(data, p, e, 0);
    if x.sign == NoSign { AtIndex(data, p + 1, x.digits, 0); } else { AtIndex(data, p + 1, sign, 0); }
  }

  lemma ExponentEnds(data: string, p: nat, x: Exponent)
    requires ValidExponent(x) && At(data, p, ExponentText(x)) && Ends(data, p + |ExponentText(x)|)
    ensures NoDigit(data, p) && (p < |data| ==> data[p] != '.')
    ensures SkipExponent(data, p) == p + ExponentRead(x)
  {
    if x.Exponent? {
      ExponentParts(data, p, x);
      if x.sign != PlusSign { DigitsEnd(data, p + 1 + |SignText(x.sign)|, x.digits); }
    }
  }

  lemma FractionEnds(data: string, p: nat, fraction: string, x: Exponent)
    requires AllDigits(false, fraction) && ValidExponent(x)
    requires At(data, p, FractionText(fraction)) && At(data, p + |FractionText(fraction)|, ExponentText(x))
    requires Ends(data, p + |FractionText(fraction)| + |ExponentText(x)|)
    ensures NoDigit(data, p)
    ensures SkipDigits(data, SkipOne(data, p, '.', '.')) == p + |FractionText(fraction)|
  {
    assert NoDigit(data, p + |FractionText(fraction)|)
           && (fraction == "" ==> SkipOne(data, p, '.', '.') == p) by {
      ExponentEnds(data, p + |FractionText(fraction)|, x);
    }
    if fraction != "" {
      AtSplit(data, p, ".", fraction);
      AtIndex(data, p, ".", 0);
      DigitsEnd(data, p + 1, fraction);
    }
  }

  /** The parts of a number in the text; `q` and `r` are where the fraction and the exponent begin. */
  lemma NumberParts(data: string, p: nat, negative: bool, whole: string, fraction: string, x: Exponent)
      returns (q: nat, r: nat)
    requires IsNumeral(whole) && At(data, p, NumberText(negative, whole, fraction, x))
    ensures p < |data| && (if negative then data[p] == '-' else IsDigit(data[p]))
    ensures At(data, SkipOne(data, p, '-', '-'), whole)
    ensures q == SkipOne(data, p, '-', '-') + |whole| && r == q + |FractionText(fraction)|
    ensures At(data, q, FractionText(fraction)) && At(data, r, ExponentText(x))
    ensures r + |ExponentText(x)| == p + |NumberText(negative, whole, fraction, x)|
  {
    var sign, f, e := if negative then "-" else "", FractionText(fraction), ExponentText(x);
    AtSplit(data, p, sign, whole + (f + e));
    AtSplit(data, p + |sign|, whole, f + e);
    AtSplit(data, p + |sign| + |whole|, f, e);
    AtIndex(data, p + |sign|, whole, 0);
    if negative { AtIndex(data, p, sign, 0); }
    q := p + |sign| + |whole|;
    r := q + |f|;
  }

  predicate StopsAtPlus(data: string, q: nat) { q < |data| && data[q] == '+' }

  /** A number ends where it should exactly when its exponent has no plus sign. */
  lemma NumberEnds(data: string, p: nat, negative: bool, whole: string, fraction: string, x: Exponent)
    requires IsNumeral(whole) && AllDigits(false, fraction) && ValidExponent(x)
    requires At(data, p, NumberText(negative, whole, fraction, x))
    requires Ends(data, p + |NumberText(negative, whole, fraction, x)|)
    ensures p < |data| && (data[p] == '-' || IsDigit(data[p]))
    ensures SkipNumber(data, p) == p + |NumberText(negative, whole, fraction, x)| <==>
            !(x.Exponent? && x.sign == PlusSign)
    ensures x.Exponent? && x.sign == PlusSign ==> StopsAtPlus(data, SkipNumber(data, p))
  {
    var q, r := NumberParts(data, p, negative, whole, fraction, x);
    assert SkipDigits(data, SkipOne(data, q, '.', '.')) == r && NoDigit(data, q) by {
      FractionEnds(data, q, fraction, x);
    }
    assert SkipDigits(data, SkipOne(data, p, '-', '-')) == q by {
      DigitsEnd(data, SkipOne(data, p, '-', '-'), whole);
    }
    assert SkipExponent(data, r) == r + ExponentRead(x) by { ExponentEnds(data, r, x); }
    assert x.Exponent? && x.sign == PlusSign ==> StopsAtPlus(data, r + ExponentRead(x)) by {
      if x.Exponent? { ExponentParts(data, r, x); }
    }
    assert ExponentRead(x) == |ExponentText(x)| <==> !(x.Exponent? && x.sign == PlusSign);
  }

  // ----- elements end where they should

  /** Success, unless the level is beyond the limit. */
  function Reach(level: nat, end: nat): Outcome<nat> { if level <= MAX_DEPTH then Ok(end) else Err(TooDeep) }

  /** An element starts with something that no container ends with. */
  lemma Starts(data: string, p: nat, e: Element)
    requires Valid(e) && At(data, p, Render(e))
    ensures p < |data| && data[p] != ']' && data[p] != '}' && data[p] != ','
  {
    match e
    case Number(negative, whole, fraction, x) =>
      var q, r := NumberParts(data, p, negative, whole, fraction, x);
    case Text(units) => StringParts(data, p, units);
    case Pair(name, value) =>
      AtSplit(data, p, StringText(name), [':'] + Render(value));
      StringParts(data, p, name);
    case _ => AtIndex(data, p, Render(e), 0);
  }

  predicate Fails(r: Outcome<nat>) { r == Err(TooDeep) || r == Err(UnexpectedChar) }

  /** What comes of skipping `e`, whose text ends at `end`: the end, if there is no plus sign in an exponent
      and the nesting is within the limit. A plus sign in its last number stops the reader there, and one
      anywhere else fails. */
  predicate Yields(data: string, r: Outcome<nat>, level: nat, e: Element, end: nat) {
    if NoPlus(e) then r == Reach(level + Depth(e), end)
    else if EndsInPlus(e) then
      if level + Depth(e) <= MAX_DEPTH then r.Ok? && StopsAtPlus(data, r.value) else r == Err(TooDeep)
    else Fails(r)
  }

  /** What comes of reading items: their end, or a failure. */
  predicate ItemsYield(r: Outcome<nat>, level: nat, items: Items, end: nat) {
    if NoPlusItems(items) then r == Reach(level + ItemsDepth(items), end) else Fails(r)
  }

  /** The reader does what it should on the text of `e` at `p`. */
  predicate Skipped(data: string, p: nat, level: nat, e: Element) {
    p < |data| && Yields(data, SkipElement(data, p, level), level, e, p + |Render(e)|)
  }

  lemma WordSkipped(data: string, p: nat, level: nat, e: Element)
    requires level <= MAX_DEPTH && (e.Null? || e.Boolean?) && At(data, p, Render(e))
    ensures Skipped(data, p, level, e)
  {
    AtIndex(data, p, Render(e), 0);
  }

  lemma NumberSkipped(data: string, p: nat, level: nat, e: Element)
    requires level <= MAX_DEPTH && e.Number? && Valid(e)
    requires At(data, p, Render(e)) && Ends(data, p + |Render(e)|)
    ensures Skipped(data, p, level, e)
  {
    NumberEnds(data, p, e.negative, e.whole, e.fraction, e.exponent);
    NumberKind(data, p, level);
  }

  lemma NumberKind(data: string, p: nat, level: nat)
    requires p < |data| && (data[p] == '-' || IsDigit(data[p]))
    ensures SkipElement(data, p, level) == Ok(SkipNumber(data, p))
  {
  }

  lemma TextSkipped(data: string, p: nat, level: nat, e: Element)
    requires level <= MAX_DEPTH && e.Text? && Valid(e)
    requires At(data, p, Render(e)) && Ends(data, p + |Render(e)|)
    ensures Skipped(data, p, level, e)
  {
    StringParts(data, p, e.units);
    StringEnds(data, p, e.units);
    assert GetType(data, p) == Ok(KString);
  }

  lemma PairText(data: string, p: nat, name: seq<Unit>, value: Element)
    requires At(data, p, Render(Pair(name, value)))
    ensures var q := p + |StringText(name)|;
            At(data, p, StringText(name)) && q < |data| && data[q] == ':' && At(data, q + 1, Render(value))
  {
    var q := p + |StringText(name)|;
    AtSplit(data, p, StringText(name), [':'] + Render(value));
    AtSplit(data, q, [':'], Render(value));
    AtChar(data, q, ':');
  }

  lemma PairParts(data: string, p: nat, name: seq<Unit>, value: Element) returns (q: nat)
    requires ValidString(name) && Valid(value) && At(data, p, Render(Pair(name, value)))
    ensures p < |data| && SkipString(data, p) == Ok(q) && data[p] == '"'
    ensures q + 1 < |data| && data[q] == ':' && At(data, q + 1, Render(value))
    ensures q + 1 + |Render(value)| == p + |Render(Pair(name, value))|
  {
    q := p + |StringText(name)|;
    PairText(data, p, name, value);
    StringParts(data, p, name);
    StringEnds(data, p, name);
    Starts(data, q + 1, value);
  }

  lemma ContainerParts(data: string, p: nat, open: char, items: Items, close: char)
    requires At(data, p, [open] + (RenderItems(items) + [close]))
    ensures p + 1 < |data| && data[p] == open && At(data, p + 1, RenderItems(items) + [close])
  {
    AtSplit(data, p, [open], RenderItems(items) + [close]);
    AtChar(data, p, open);
  }

  lemma FirstItem(data: string, p: nat, items: Items, close: char)
    requires items.Items? && At(data, p, RenderItems(items) + [close])
    ensures At(data, p, Render(items.first))
    ensures items.rest.NoItems? ==>
              At(data, p + |Render(items.first)|, [close]) && RenderItems(items) == Render(items.first)
    ensures items.rest.Items? ==>
              At(data, p + |Render(items.first)|, [','])
              && At(data, p + |Render(items.first)| + 1, RenderItems(items.rest) + [close])
              && |RenderItems(items)| == |Render(items.first)| + 1 + |RenderItems(items.rest)|
  {
    var f, rest := Render(items.first), RenderItems(items.rest);
    var q := p + |f|;
    AtSplit(data, p, RenderItems(items), [close]);
    if items.rest.Items? {
      AtSplit(data, p, f, [','] + rest);
      AtSplit(data, q, [','], rest);
      AtSplit(data, q + 1, rest, [close]);
    }
  }

  /** What comes of skipping any valid element. */
  lemma {:induction false} ElementSkipped(data: string, p: nat, level: nat, e: Element)
    requires level <= MAX_DEPTH && Valid(e)
    requires At(data, p, Render(e)) && Ends(data, p + |Render(e)|)
    ensures Skipped(data, p, level, e)
    decreases e, 1
  {
    if e.Pair? {
      PairElementSkipped(data, p, level, e);
    } else if e.Array? || e.Object? {
      ContainerElementSkipped(data, p, level, e);
    } else if e.Number? {
      NumberSkipped(data, p, level, e);
    } else if e.Text? {
      TextSkipped(data, p, level, e);
    } else {
      WordSkipped(data, p, level, e);
    }
  }

  lemma {:induction false} ContainerElementSkipped(data: string, p: nat, level: nat, e: Element)
    requires level <= MAX_DEPTH && Valid(e) && (e.Array? || e.Object?) && At(data, p, Render(e))
    ensures Skipped(data, p, level, e)
    decreases e, 0
  {
    ContainerParts(data, p, if e.Array? then '[' else '{', e.items, Closing(e.Object?));
    assert GetType(data, p) == Ok(if e.Array? then KArray else KObject);
    ContainerSkipped(data, p, level, e.items, e.Object?);
  }

  lemma {:induction false} PairElementSkipped(data: string, p: nat, level: nat, e: Element)
    requires level <= MAX_DEPTH && Valid(e) && e.Pair?
    requires At(data, p, Render(e)) && Ends(data, p + |Render(e)|)
    ensures Skipped(data, p, level, e)
    decreases e, 0, 1
  {
    var q := PairParts(data, p, e.name, e.value);
    assert GetType(data, p) == Ok(KPair);
    PairSkipped(data, p, level, e);
  }

  lemma {:induction false} PairSkipped(data: string, p: nat, level: nat, e: Element)
    requires level <= MAX_DEPTH && Valid(e) && e.Pair?
    requires At(data, p, Render(e)) && Ends(data, p + |Render(e)|)
    ensures p < |data| && Yields(data, SkipPair(data, p, level), level, e, p + |Render(e)|)
    decreases e, 0, 0
  {
    var q := PairParts(data, p, e.name, e.value);
    PairStep(data, p, level, q);
    if level + 1 <= MAX_DEPTH { ElementSkipped(data, q + 1, level + 1, e.value); }
    PairYields(data, SkipPair(data, p, level), level, e, p + |Render(e)|);
  }

  /** A pair yields what its value does one level down. */
  lemma PairYields(data: string, r: Outcome<nat>, level: nat, e: Element, end: nat)
    requires e.Pair?
    requires if level + 1 <= MAX_DEPTH then Yields(data, r, level + 1, e.value, end) else r == Err(TooDeep)
    ensures Yields(data, r, level, e, end)
  {
  }

  lemma PairStep(data: string, p: nat, level: nat, q: nat)
    requires p < |data| && SkipString(data, p) == Ok(q) && q + 1 < |data| && data[q] == ':'
    ensures SkipPair(data, p, level)
         == if level + 1 <= MAX_DEPTH then SkipElement(data, q + 1, level + 1) else Err(TooDeep)
  {
  }

  lemma {:induction false} ContainerSkipped(data: string, p: nat, level: nat, items: Items, pairs: bool)
    requires level <= MAX_DEPTH && ValidItems(items, pairs)
    requires p + 1 < |data| && At(data, p + 1, RenderItems(items) + [Closing(pairs)])
    ensures ItemsYield(SkipContainer(data, p, level, pairs), level, items, p + |RenderItems(items)| + 2)
    decreases items, 2
  {
    if items.NoItems? {
      EmptySkipped(data, p, level, items, pairs);
    } else {
      assert data[p + 1] != Closing(pairs) by {
        FirstItem(data, p + 1, items, Closing(pairs));
        Starts(data, p + 1, items.first);
      }
      ContainerStep(data, p, level, pairs);
      ItemsSkipped(data, p + 1, level, items, pairs);
    }
  }

  lemma EmptySkipped(data: string, p: nat, level: nat, items: Items, pairs: bool)
    requires level <= MAX_DEPTH && items.NoItems?
    requires p + 1 < |data| && At(data, p + 1, RenderItems(items) + [Closing(pairs)])
    ensures ItemsYield(SkipContainer(data, p, level, pairs), level, items, p + |RenderItems(items)| + 2)
  {
    AtSplit(data, p + 1, RenderItems(items), [Closing(pairs)]);
    AtChar(data, p + 1, Closing(pairs));
  }

  lemma ContainerStep(data: string, p: nat, level: nat, pairs: bool)
    requires p + 1 < |data| && data[p + 1] != Closing(pairs)
    ensures SkipContainer(data, p, level, pairs) == SkipItems(data, p + 1, level, pairs)
  {
  }

  lemma {:induction false} ItemSkipped(data: string, p: nat, level: nat, e: Element)
    requires level <= MAX_DEPTH && Valid(e)
    requires At(data, p, Render(e)) && Ends(data, p + |Render(e)|)
    ensures Yields(data, SkipItem(data, p, level, e.Pair?), level + 1, e, p + |Render(e)|)
    decreases e, 2
  {
    Starts(data, p, e);
    ItemStep(data, p, level, e.Pair?);
    if level + 1 <= MAX_DEPTH {
      if e.Pair? { PairSkipped(data, p, level + 1, e); } else { ElementSkipped(data, p, level + 1, e); }
    }
  }

  lemma ItemStep(data: string, p: nat, level: nat, pairs: bool)
    requires p < |data|
    ensures SkipItem(data, p, level, pairs)
         == if level + 1 > MAX_DEPTH then Err(TooDeep)
            else if pairs then SkipPair(data, p, level + 1) else SkipElement(data, p, level + 1)
  {
  }

  lemma {:induction false} FirstItemSkipped(data: string, p: nat, level: nat, items: Items, pairs: bool)
    requires level <= MAX_DEPTH && items.Items? && ValidItems(items, pairs)
    requires At(data, p, RenderItems(items) + [Closing(pairs)])
    ensures Yields(data, SkipItem(data, p, level, pairs), level + 1, items.first, p + |Render(items.first)|)
    decreases items, 0
  {
    FirstItem(data, p, items, Closing(pairs));
    AtChar(data, p + |Render(items.first)|, if items.rest.NoItems? then Closing(pairs) else ',');
    ItemSkipped(data, p, level, items.first);
  }

  lemma ItemsStep(data: string, p: nat, level: nat, pairs: bool, r: Outcome<nat>)
    requires r == SkipItem(data, p, level, pairs) && (r.Ok? ==> r.value < |data|)
    ensures SkipItems(data, p, level, pairs)
         == if r.Err? then r
            else if data[r.value] == ',' then SkipItems(data, r.value + 1, level, pairs)
            else if data[r.value] == Closing(pairs) then Ok(r.value + 1) else Err(UnexpectedChar)
  {
  }

  /** The outcomes for one item and for the rest, put together. */
  lemma OutcomesCombine(data: string, level: nat, first: Element, rest: Items, q: nat, end: nat,
                        r: Outcome<nat>, tail: Outcome<nat>, all: Outcome<nat>)
    requires Yields(data, r, level + 1, first, q) && ItemsYield(tail, level, rest, end)
    requires r.Err? ==> all == r
    requires r.Ok? && StopsAtPlus(data, r.value) ==> all == Err(UnexpectedChar)
    requires r == Ok(q) ==> all == tail
    ensures ItemsYield(all, level, Items(first, rest), end)
  {
  }

  /** What is known of the rest of the items, behind `q`. */
  predicate RestYields(data: string, q: nat, level: nat, rest: Items, pairs: bool, end: nat) {
    && q < |data| && data[q] == (if rest.NoItems? then Closing(pairs) else ',')
    && if rest.Items? then ItemsYield(SkipItems(data, q + 1, level, pairs), level, rest, end) else end == q + 1
  }

  /** One item and the rest, put together. */
  lemma ItemsCombine(data: string, p: nat, level: nat, pairs: bool, items: Items, q: nat, end: nat)
    requires level <= MAX_DEPTH && items.Items? && RestYields(data, q, level, items.rest, pairs, end)
    requires Yields(data, SkipItem(data, p, level, pairs), level + 1, items.first, q)
    ensures ItemsYield(SkipItems(data, p, level, pairs), level, items, end)
  {
    var r := SkipItem(data, p, level, pairs);
    ItemsStep(data, p, level, pairs, r);
    OutcomesCombine(data, level, items.first, items.rest, q, end, r,
                    if data[q] == ',' then SkipItems(data, q + 1, level, pairs) else Ok(q + 1),
                    SkipItems(data, p, level, pairs));
  }

  /** The reader does what it should on the items at `p`. */
  predicate ItemsRead(data: string, p: nat, level: nat, items: Items, pairs: bool) {
    ItemsYield(SkipItems(data, p, level, pairs), level, items, p + |RenderItems(items)| + 1)
  }

  lemma {:induction false} ItemsSkipped(data: string, p: nat, level: nat, items: Items, pairs: bool)
    requires level <= MAX_DEPTH && items.Items? && ValidItems(items, pairs)
    requires At(data, p, RenderItems(items) + [Closing(pairs)])
    ensures ItemsRead(data, p, level, items, pairs)
    decreases items, 1
  {
    FirstItemSkipped(data, p, level, items, pairs);
    RestSkipped(data, p, level, items, pairs);
    ItemsCombine(data, p, level, pairs, items, p + |Render(items.first)|, p + |RenderItems(items)| + 1);
  }

  lemma {:induction false} RestSkipped(data: string, p: nat, level: nat, items: Items, pairs: bool)
    requires level <= MAX_DEPTH && items.Items? && ValidItems(items, pairs)
    requires At(data, p, RenderItems(items) + [Closing(pairs)])
    ensures RestYields(data, p + |Render(items.first)|, level, items.rest, pairs, p + |RenderItems(items)| + 1)
    decreases items, 0
  {
    var q := p + |Render(items.first)|;
    FirstItem(data, p, items, Closing(pairs));
    AtChar(data, q, if items.rest.NoItems? then Closing(pairs) else ',');
    if items.rest.Items? { ItemsSkipped(data, q + 1, level, items.rest, pairs); }
  }

  /** On every valid element the reader stops exactly behind it if and only if no exponent in it has a plus
      sign and it does not nest too deeply. */
  lemma SkippedExactly(data: string, p: nat, level: nat, e: Element)
    requires level <= MAX_DEPTH && Valid(e)
    requires At(data, p, Render(e)) && Ends(data, p + |Render(e)|)
    ensures p < |data|
    ensures SkipElement(data, p, level) == Ok(p + |Render(e)|) <==> NoPlus(e) && level + Depth(e) <= MAX_DEPTH
  {
    ElementSkipped(data, p, level, e);
  }

  // ----- kinds

  function KindOf(e: Element): Kind {
    match e
    case Null => KNull
    case Boolean(_) => KBool
    case Number(_, _, _, _) => KNumber
    case Text(_) => KString
    case Pair(_, _) => KPair
    case Array(_) => KArray
    case Object(_) => KObject
  }

  lemma StringKind(data: string, p: nat, s: seq<Unit>)
    requires ValidString(s) && At(data, p, StringText(s))
    ensures var q := p + |StringText(s)|;
            p < |data| && GetType(data, p) == Ok(if q < |data| && data[q] == ':' then KPair else KString)
  {
    StringParts(data, p, s);
    StringEnds(data, p, s);
  }

  /** The kind of every valid element is found. */
  lemma KindIsFound(data: string, p: nat, e: Element)
    requires Valid(e) && At(data, p, Render(e)) && Ends(data, p + |Render(e)|)
    ensures p < |data| && GetType(data, p) == Ok(KindOf(e))
  {
    match e
    case Number(negative, whole, fraction, x) =>
      var q, r := NumberParts(data, p, negative, whole, fraction, x);
    case Text(units) => StringKind(data, p, units);
    case Pair(name, value) =>
      PairText(data, p, name, value);
      StringKind(data, p, name);
    case _ => AtIndex(data, p, Render(e), 0);
  }

  /** A character that no element starts with is reported. */
  lemma OtherCharacters(data: string, p: nat)
    requires p < |data| && data[p] != '"'
    ensures GetType(data, p) == Err(UnexpectedChar) <==> data[p] !in "{[tfn-0123456789"
  {
    var starts := "{[tfn-0123456789";
    if IsDigit(data[p]) { assert data[p] == starts[6 + (data[p] - '0') as nat]; }
    assert starts[0] == '{' && starts[1] == '[' && starts[2] == 't' && starts[3] == 'f' && starts[4] == 'n';
    assert starts[5] == '-';
  }

  // ----- numbers in any text

  predicate AllIn(data: string, p: nat, q: nat, chars: string) {
    q <= |data| && forall i :: p <= i < q ==> data[i] in chars
  }

  const NUMBER_CHARS := "0123456789-.eE"

  lemma {:induction false} DigitsRead(data: string, p: nat)
    requires p <= |data|
    ensures AllIn(data, p, SkipDigits(data, p), NUMBER_CHARS) && NoDigit(data, SkipDigits(data, p))
    decreases |data| - p
  {
    if p < |data| && IsDigit(data[p]) {
      assert data[p] == NUMBER_CHARS[(data[p] - '0') as nat];
      DigitsRead(data, p + 1);
    }
  }

  lemma OneRead(data: string, p: nat, c: char, d: char)
    requires p <= |data| && c in NUMBER_CHARS && d in NUMBER_CHARS
    ensures AllIn(data, p, SkipOne(data, p, c, d), NUMBER_CHARS)
  {
  }

  /** On any text, reading a number passes only over digits, signs, points and exponents, and stops at no digit. */
  lemma NumberRead(data: string, p: nat)
    requires p < |data| && (data[p] == '-' || IsDigit(data[p]))
    ensures AllIn(data, p, SkipNumber(data, p), NUMBER_CHARS) && NoDigit(data, SkipNumber(data, p))
  {
    var n := NUMBER_CHARS;
    assert n[10] == '-' && n[11] == '.' && n[12] == 'e' && n[13] == 'E';
    var p1 := SkipOne(data, p, '-', '-');
    OneRead(data, p, '-', '-');
    var p2 := SkipDigits(data, p1);
    DigitsRead(data, p1);
    var p3 := SkipOne(data, p2, '.', '.');
    OneRead(data, p2, '.', '.');
    var p4 := SkipDigits(data, p3);
    DigitsRead(data, p3);
    var p5 := SkipOne(data, p4, 'e', 'E');
    OneRead(data, p4, 'e', 'E');
    var p6 := SkipOne(data, p5, '-', '-');
    OneRead(data, p5, '-', '-');
    DigitsRead(data, p6);
  }

  // ----- the limit

  function Repeated(c: char, n: nat): string { if n == 0 then "" else [c] + Repeated(c, n - 1) }

  lemma {:induction false} RepeatedBack(c: char, n: nat)
    ensures Repeated(c, n) + [c] == [c] + Repeated(c, n)
    ensures |Repeated(c, n)| == n
  {
    if n > 0 {
      RepeatedBack(c, n - 1);
      assert Repeated(c, n) + [c] == [c] + (Repeated(c, n - 1) + [c]);
    }
  }

  /** Arrays in arrays. */
  function Nested(n: nat): Element { Array(if n == 0 then NoItems else Items(Nested(n - 1), NoItems)) }

  lemma {:induction false} NestedText(n: nat)
    ensures Valid(Nested(n)) && NoPlus(Nested(n)) && Depth(Nested(n)) == n
    ensures Render(Nested(n)) == Repeated('[', n + 1) + Repeated(']', n + 1)
  {
    if n == 0 {
      assert Repeated('[', 1) == "[" && Repeated(']', 1) == "]";
    } else {
      NestedText(n - 1);
      RepeatedBack(']', n);
      var items := Items(Nested(n - 1), NoItems);
      assert RenderItems(items) == Render(Nested(n - 1));
      assert ['['] + ((Repeated('[', n) + Repeated(']', n)) + [']'])
          == (['['] + Repeated('[', n)) + (Repeated(']', n) + [']']);
    }
  }

  /** One array and at most a hundred nested in it are skipped, and no more. */
  lemma HundredLevels(n: nat)
    ensures var data := Repeated('[', n + 1) + Repeated(']', n + 1);
            |data| == 2 * n + 2
            && SkipElement(data, 0, 0) == if n <= 100 then Ok(2 * n + 2) else Err(TooDeep)
  {
    var data := Repeated('[', n + 1) + Repeated(']', n + 1);
    NestedText(n);
    RepeatedBack('[', n + 1);
    RepeatedBack(']', n + 1);
    ElementSkipped(data, 0, 0, Nested(n));
  }

  /** Objects in objects, each under an empty name. */
  function NestedPairs(n: nat): Element {
    Object(if n == 0 then NoItems else Items(Pair([], NestedPairs(n - 1)), NoItems))
  }

  /** The text of that. */
  function PairsText(n: nat): string { if n == 0 then "{}" else "{\"\":" + PairsText(n - 1) + "}" }

  lemma {:induction false} NestedPairsText(n: nat)
    ensures Valid(NestedPairs(n)) && NoPlus(NestedPairs(n)) && Depth(NestedPairs(n)) == 2 * n
    ensures Render(NestedPairs(n)) == PairsText(n) && |PairsText(n)| == 5 * n + 2
  {
    if n == 0 {
      assert Render(NestedPairs(0)) == "{}";
    } else {
      NestedPairsText(n - 1);
      var pair := Pair([], NestedPairs(n - 1));
      assert StringText([]) == "\"\"" && Render(pair) == "\"\":" + PairsText(n - 1);
      assert RenderItems(Items(pair, NoItems)) == Render(pair);
      assert ItemsDepth(Items(pair, NoItems)) == 1 + Depth(pair) == 2 * n;
      assert ['{'] + (("\"\":" + PairsText(n - 1)) + ['}']) == "{\"\":" + PairsText(n - 1) + "}";
    }
  }

  /** A pair takes a level of its own, so one object and at most fifty nested in it are skipped. */
  lemma FiftyObjects(n: nat)
    ensures |PairsText(n)| == 5 * n + 2
    ensures SkipElement(PairsText(n), 0, 0) == if n <= 50 then Ok(5 * n + 2) else Err(TooDeep)
  {
    NestedPairsText(n);
    ElementSkipped(PairsText(n), 0, 0, NestedPairs(n));
  }
}

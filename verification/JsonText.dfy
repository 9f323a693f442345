/** JSON texts without white space: the values, what they look like, and how deeply they nest. Strings
    and numbers follow sections 7 and 6 of RFC 8259. */
module JsonText {
  import opened Numerals

  // ----- values

  /** One unit of a string: a plain character or an escape. */
  datatype Unit = Plain(c: char) | Escape(c: char) | Unicode(hex: string)

  datatype ExponentSign = NoSign | MinusSign | PlusSign

  datatype Exponent = NoExponent | Exponent(upper: bool, sign: ExponentSign, digits: string)

  /** A name-value pair counts as an element, because that is what iterating over an object yields. */
  datatype Element =
    | Null
    | Boolean(b: bool)
    | Number(negative: bool, whole: string, fraction: string, exponent: Exponent)
    | Text(units: seq<Unit>)
    | Pair(name: seq<Unit>, value: Element)
    | Array(items: Items)
    | Object(items: Items)

  datatype Items = NoItems | Items(first: Element, rest: Items)

  predicate IsEscape(c: char) {
    c == '"' || c == '\\' || c == '/' || c == 'b' || c == 'f' || c == 'n' || c == 'r' || c == 't'
  }

  predicate ValidUnit(u: Unit) {
    match u
    case Plain(c) => c != '"' && c != '\\'
    case Escape(c) => IsEscape(c)
    case Unicode(hex) => |hex| == 4 && AllDigits(true, hex)
  }

  predicate ValidString(s: seq<Unit>) { forall i :: 0 <= i < |s| ==> ValidUnit(s[i]) }

  predicate ValidExponent(x: Exponent) { x.Exponent? ==> |x.digits| > 0 && AllDigits(false, x.digits) }

  predicate Valid(e: Element) {
    match e
    case Null => true
    case Boolean(_) => true
    case Number(_, whole, fraction, exponent) =>
      IsNumeral(whole) && AllDigits(false, fraction) && ValidExponent(exponent)
    case Text(units) => ValidString(units)
    case Pair(name, value) => ValidString(name) && !value.Pair? && Valid(value)
    case Array(items) => ValidItems(items, false)
    case Object(items) => ValidItems(items, true)
  }

  predicate ValidItems(items: Items, pairs: bool) {
    match items
    case NoItems => true
    case Items(first, rest) => first.Pair? == pairs && Valid(first) && ValidItems(rest, pairs)
  }

  // ----- texts

  function UnitText(u: Unit): string {
    match u
    case Plain(c) => [c]
    case Escape(c) => ['\\', c]
    case Unicode(hex) => ['\\', 'u'] + hex
  }

  function UnitsText(s: seq<Unit>): string { if s == [] then "" else UnitText(s[0]) + UnitsText(s[1..]) }

  function StringText(s: seq<Unit>): string { ['"'] + (UnitsText(s) + ['"']) }

  function SignText(sign: ExponentSign): string {
    match sign case NoSign => "" case MinusSign => "-" case PlusSign => "+"
  }

  function ExponentText(x: Exponent): string {
    if x.NoExponent? then "" else (if x.upper then "E" else "e") + (SignText(x.sign) + x.digits)
  }

  function FractionText(digits: string): string { if digits == "" then "" else "." + digits }

  function NumberText(negative: bool, whole: string, fraction: string, exponent: Exponent): string {
    (if negative then "-" else "") + (whole + (FractionText(fraction) + ExponentText(exponent)))
  }

  function Render(e: Element): string {
    match e
    case Null => "null"
    case Boolean(b) => if b then "true" else "false"
    case Number(negative, whole, fraction, exponent) => NumberText(negative, whole, fraction, exponent)
    case Text(units) => StringText(units)
    case Pair(name, value) => StringText(name) + ([':'] + Render(value))
    case Array(items) => ['['] + (RenderItems(items) + [']'])
    case Object(items) => ['{'] + (RenderItems(items) + ['}'])
  }

  function RenderItems(items: Items): string {
    match items
    case NoItems => ""
    case Items(first, NoItems) => Render(first)
    case Items(first, rest) => Render(first) + ([','] + RenderItems(rest))
  }

  // ----- measures

  function Max(x: nat, y: nat): nat { if x < y then y else x }

  /** How many levels the reader goes down: one for each array, two for each object on the way. */
  function Depth(e: Element): nat {
    match e
    case Pair(_, value) => 1 + Depth(value)
    case Array(items) => ItemsDepth(items)
    case Object(items) => ItemsDepth(items)
    case _ => 0
  }

  function ItemsDepth(items: Items): nat {
    match items
    case NoItems => 0
    case Items(first, rest) => Max(1 + Depth(first), ItemsDepth(rest))
  }

  function Length(items: Items): nat { if items.NoItems? then 0 else 1 + Length(items.rest) }

  /** No exponent anywhere has a plus sign. */
  predicate NoPlus(e: Element) {
    match e
    case Number(_, _, _, exponent) => exponent.Exponent? ==> exponent.sign != PlusSign
    case Pair(_, value) => NoPlus(value)
    case Array(items) => NoPlusItems(items)
    case Object(items) => NoPlusItems(items)
    case _ => true
  }

  /** The last number of the element has such an exponent, and nothing of the element is behind it. */
  predicate EndsInPlus(e: Element) {
    match e
    case Number(_, _, _, exponent) => exponent.Exponent? && exponent.sign == PlusSign
    case Pair(_, value) => EndsInPlus(value)
    case _ => false
  }

  predicate NoPlusItems(items: Items) { items.NoItems? || (NoPlus(items.first) && NoPlusItems(items.rest)) }

  // ----- a text inside a buffer

  predicate At(data: string, p: nat, s: string) {
    p + |s| <= |data| && forall i :: 0 <= i < |s| ==> data[p + i] == s[i]
  }

  lemma AtIndex(data: string, p: nat, s: string, i: nat)
    requires At(data, p, s) && i < |s|
    ensures p + i < |data| && data[p + i] == s[i]
  {
  }

  lemma AtSplit(data: string, p: nat, s: string, t: string)
    ensures At(data, p, s + t) <==> At(data, p, s) && At(data, p + |s|, t)
  {
    if At(data, p, s + t) {
      forall i | 0 <= i < |s| ensures data[p + i] == s[i] {
        assert (s + t)[i] == s[i];
      }
      forall i | 0 <= i < |t| ensures data[p + |s| + i] == t[i] {
        assert (s + t)[|s| + i] == t[i];
      }
    }
    if At(data, p, s) && At(data, p + |s|, t) {
      forall i | 0 <= i < |s + t| ensures data[p + i] == (s + t)[i] {
        if i >= |s| { assert (s + t)[i] == t[i - |s|]; }
      }
    }
  }

  lemma AtChar(data: string, p: nat, c: char)
    ensures At(data, p, [c]) <==> p < |data| && data[p] == c
  {
    assert [c][0] == c;
  }

  /** What may follow a value: nothing, or the text of the container around it. */
  predicate Ends(data: string, p: nat) {
    p >= |data| || data[p] == ',' || data[p] == ']' || data[p] == '}'
  }
}

/** The reader as it runs: a cursor moved by loops and mutual recursion, and the iterator that `size`
    and indexing are built on. */
module JsonReader {
  import opened Numerals
  import opened JsonText
  import opened Json

  // ----- skipping

  method ReadString(data: string, p: nat) returns (r: Outcome<nat>)
    requires p < |data|
    ensures r == SkipString(data, p)
  {
    if data[p] != '"' { return Err(UnexpectedChar); }
    var pos := p + 1;
    var quote := FindQuote(data, pos);
    if quote < |data| && data[quote - 1] != '\\' { return Ok(quote + 1); }
    while pos < |data| && data[pos] != '"'
      invariant SlowString(data, pos) == SlowString(data, p + 1)
      decreases |data| - pos
    {
      if data[pos] == '\\' {
        pos := pos + 1;
        if pos >= |data| { return Err(EndOfData); }
        if data[pos] == 'u' {
          pos := pos + 4;
          if pos >= |data| { return Err(EndOfData); }
        }
      }
      pos := pos + 1;
    }
    if pos >= |data| { return Err(EndOfData); }
    return Ok(pos + 1);
  }

  method ReadDigits(data: string, p: nat) returns (pos: nat)
    ensures pos == SkipDigits(data, p)
  {
    pos := p;
    while pos < |data| && '0' <= data[pos] <= '9'
      invariant SkipDigits(data, pos) == SkipDigits(data, p)
      decreases |data| - pos
    {
      pos := pos + 1;
    }
  }

  method ReadNumber(data: string, p: nat) returns (pos: nat)
    requires p < |data| && (data[p] == '-' || IsDigit(data[p]))
    ensures pos == SkipNumber(data, p)
  {
    pos := p;
    if data[pos] == '-' { pos := pos + 1; }
    pos := ReadDigits(data, pos);
    if pos < |data| && data[pos] == '.' { pos := pos + 1; }
    pos := ReadDigits(data, pos);
    if pos < |data| && (data[pos] == 'e' || data[pos] == 'E') { pos := pos + 1; }
    if pos < |data| && data[pos] == '-' { pos := pos + 1; }
    pos := ReadDigits(data, pos);
  }

  method ReadElement(data: string, p: nat, level: nat) returns (r: Outcome<nat>)
    requires p < |data|
    ensures r == SkipElement(data, p, level)
    decreases |data| - p, 2
  {
    var kind := GetType(data, p);
    match kind
    case Err(e) => r := Err(e);
    case Ok(KNull) => r := Ok(p + 4);
    case Ok(KBool) => r := Ok(p + if data[p] == 't' then 4 else 5);
    case Ok(KNumber) =>
      var pos := ReadNumber(data, p);
      r := Ok(pos);
    case Ok(KString) => r := ReadString(data, p);
    case Ok(KPair) => r := ReadPair(data, p, level);
    case Ok(KArray) => r := ReadContainer(data, p, level, false);
    case Ok(KObject) => r := ReadContainer(data, p, level, true);
  }

  method ReadPair(data: string, p: nat, level: nat) returns (r: Outcome<nat>)
    requires p < |data|
    ensures r == SkipPair(data, p, level)
    decreases |data| - p, 1
  {
    r := ReadString(data, p);
    if r.Err? { return; }
    var pos := r.value;
    if pos >= |data| { return Err(EndOfData); }
    if data[pos] != ':' { return Err(UnexpectedChar); }
    var init := CheckInit(data, pos + 1, level + 1);
    if init.Err? { return Err(init.error); }
    r := ReadElement(data, pos + 1, level + 1);
  }

  /** Arrays and objects: the items are elements or pairs. */
  method ReadContainer(data: string, p: nat, level: nat, pairs: bool) returns (r: Outcome<nat>)
    requires p < |data|
    ensures r == SkipContainer(data, p, level, pairs)
    decreases |data| - p, 1
  {
    var pos := p + 1;
    if pos >= |data| { return Err(EndOfData); }
    if data[pos] == Closing(pairs) { return Ok(pos + 1); }
    while true
      invariant p < pos <= |data|
      invariant SkipItems(data, pos, level, pairs) == SkipItems(data, p + 1, level, pairs)
      decreases |data| - pos
    {
      var init := CheckInit(data, pos, level + 1);
      if init.Err? { return Err(init.error); }
      if pairs {
        r := ReadPair(data, pos, level + 1);
      } else {
        r := ReadElement(data, pos, level + 1);
      }
      if r.Err? { return; }
      var next := r.value;
      if next >= |data| { return Err(EndOfData); }
      if data[next] == Closing(pairs) { return Ok(next + 1); }
      if data[next] != ',' { return Err(UnexpectedChar); }
      pos := next + 1;
    }
  }

  // ----- iterating

  function EndCursor(level: nat): Outcome<Cursor> { if level + 1 > MAX_DEPTH then Err(TooDeep) else Ok(Past) }

  function Begin(data: string, p: nat, level: nat): (r: Outcome<Cursor>)
    requires p < |data|
    ensures r.Ok? && r.value.Element? ==> p < r.value.pos < |data|
  {
    match GetType(data, p)
    case Err(e) => Err(e)
    case Ok(kind) =>
      if kind != KArray && kind != KObject then Err(NotContainer)
      else if p + 1 >= |data| then Err(EndOfData)
      else if data[p + 1] == '}' || data[p + 1] == ']' then EndCursor(level)
      else if level + 1 > MAX_DEPTH then Err(TooDeep)
      else Ok(Element(p + 1))
  }

  /** The element after the one at `pos`. */
  function Next(data: string, pos: nat, level: nat): (r: Outcome<Cursor>)
    requires pos < |data|
    ensures r.Ok? && r.value.Element? ==> pos < r.value.pos < |data|
  {
    match SkipElement(data, pos, level)
    case Err(e) => Err(e)
    case Ok(q) =>
      if q >= |data| then Err(EndOfData)
      else if data[q] != ',' then Ok(Past)
      else if q + 1 >= |data| then Err(EndOfData)
      else Ok(Element(q + 1))
  }

  predicate ValidCursor(data: string, c: Cursor) { c.Element? ==> c.pos < |data| }

  /** An iterator moves by skipping the element it stands at. */
  class Iterator {
    const data: string
    const level: nat
    var cursor: Cursor

    constructor (data: string, cursor: Cursor, level: nat)
      requires ValidCursor(data, cursor)
      ensures this.data == data && this.cursor == cursor && this.level == level
    {
      this.data := data;
      this.cursor := cursor;
      this.level := level;
    }

    /** On an error the iterator stays where it is. */
    method Advance() returns (r: Outcome<()>)
      requires cursor.Element? && ValidCursor(data, cursor)
      modifies this
      ensures ValidCursor(data, cursor)
      ensures var next := Next(data, old(cursor).pos, level);
              if next.Ok? then r == Ok(()) && cursor == next.value
              else r == Err(next.error) && cursor == old(cursor)
    {
      var skipped := ReadElement(data, cursor.pos, level);
      if skipped.Err? { return Err(skipped.error); }
      var pos := skipped.value;
      if pos >= |data| { return Err(EndOfData); }
      if data[pos] != ',' {
        cursor := Past;
      } else {
        if pos + 1 >= |data| { return Err(EndOfData); }
        cursor := Element(pos + 1);
      }
      return Ok(());
    }
  }

  function Measure(data: string, c: Cursor): nat
    requires ValidCursor(data, c)
  {
    if c.Past? then 0 else |data| - c.pos
  }

  function Raise(i: nat, r: Outcome<nat>): Outcome<nat> { if r.Ok? then Ok(i + r.value) else r }

  /** How many elements are left from a cursor on. */
  function CountFrom(data: string, c: Cursor, level: nat): Outcome<nat>
    requires ValidCursor(data, c)
    decreases Measure(data, c)
  {
    if c.Past? then Ok(0)
    else
      match Next(data, c.pos, level)
      case Err(e) => Err(e)
      case Ok(d) => Raise(1, CountFrom(data, d, level))
  }

  function Count(data: string, p: nat, level: nat): Outcome<nat>
    requires p < |data|
  {
    match Begin(data, p, level)
    case Err(e) => Err(e)
    case Ok(c) => CountFrom(data, c, level + 1)
  }

  method Size(data: string, p: nat, level: nat) returns (r: Outcome<nat>)
    requires p < |data|
    ensures r == Count(data, p, level)
  {
    var start := Begin(data, p, level);
    if start.Err? { return Err(start.error); }
    var it := new Iterator(data, start.value, level + 1);
    var i: nat := 0;
    ghost var total := CountFrom(data, it.cursor, level + 1);
    while it.cursor != Past
      invariant fresh(it) && it.data == data && it.level == level + 1 && ValidCursor(data, it.cursor)
      invariant total == Raise(i, CountFrom(data, it.cursor, level + 1))
      decreases Measure(data, it.cursor)
    {
      var moved := it.Advance();
      if moved.Err? { return Err(moved.error); }
      i := i + 1;
    }
    return Ok(i);
  }

  /** The cursor `n` elements on. */
  function Nth(data: string, c: Cursor, level: nat, n: nat): (r: Outcome<Cursor>)
    requires ValidCursor(data, c)
    ensures r.Ok? ==> ValidCursor(data, r.value)
    decreases n
  {
    if n == 0 then Ok(c)
    else if c.Past? then Err(OutOfBounds)
    else
      match Next(data, c.pos, level)
      case Err(e) => Err(e)
      case Ok(d) => Nth(data, d, level, n - 1)
  }

  function ElementAt(data: string, p: nat, level: nat, n: nat): Outcome<Cursor>
    requires p < |data|
  {
    match GetType(data, p)
    case Err(e) => Err(e)
    case Ok(kind) =>
      if kind != KArray then Err(NotArray)
      else
        match Begin(data, p, level)
        case Err(e) => Err(e)
        case Ok(c) => Nth(data, c, level + 1, n)
  }

  method Index(data: string, p: nat, level: nat, n: nat) returns (r: Outcome<Cursor>)
    requires p < |data|
    ensures r == ElementAt(data, p, level, n)
  {
    var kind := GetType(data, p);
    if kind.Err? { return Err(kind.error); }
    if kind.value != KArray { return Err(NotArray); }
    if p + 1 >= |data| { return Err(EndOfData); }
    var start := Begin(data, p, level);
    if start.Err? { return Err(start.error); }
    var it := new Iterator(data, start.value, level + 1);
    var i := 0;
    while i < n && it.cursor != Past
      invariant fresh(it) && it.data == data && it.level == level + 1 && ValidCursor(data, it.cursor)
      invariant 0 <= i <= n
      invariant Nth(data, it.cursor, level + 1, n - i) == Nth(data, start.value, level + 1, n)
    {
      var moved := it.Advance();
      if moved.Err? { return Err(moved.error); }
      i := i + 1;
    }
    if i != n { return Err(OutOfBounds); }
    return Ok(it.cursor);
  }

  // ----- iteration visits the items

  /** The cursor at the items from `p` on. */
  function CursorAt(p: nat, items: Items): Cursor { if items.NoItems? then Past else Element(p) }

  predicate ItemsAt(data: string, p: nat, items: Items, pairs: bool) {
    ValidItems(items, pairs) && At(data, p, RenderItems(items) + [Closing(pairs)])
  }

  /** Where the item after the first one begins. */
  function After(p: nat, items: Items): nat
    requires items.Items?
  {
    p + |Render(items.first)| + 1
  }

  /** The first of the items at `p`, what is behind it, and the rest. */
  lemma ItemsParts(data: string, p: nat, items: Items, pairs: bool)
    requires items.Items? && ItemsAt(data, p, items, pairs)
    ensures Valid(items.first) && At(data, p, Render(items.first)) && p < |data|
    ensures After(p, items) <= |data|
    ensures data[After(p, items) - 1] == if items.rest.NoItems? then Closing(pairs) else ','
    ensures items.rest.Items? ==> ItemsAt(data, After(p, items), items.rest, pairs)
  {
    var q := p + |Render(items.first)|;
    FirstItem(data, p, items, Closing(pairs));
    AtChar(data, q, if items.rest.NoItems? then Closing(pairs) else ',');
    Starts(data, p, items.first);
  }

  /** Where a step from the first item leads: to the next one, or, if a plus sign stopped the reader in the
      number at its end, past all of them. */
  predicate StepsTo(r: Outcome<Cursor>, p: nat, level: nat, items: Items)
    requires items.Items?
  {
    if !NoPlus(items.first) && !EndsInPlus(items.first) then r.Err?
    else if level + Depth(items.first) > MAX_DEPTH then r == Err(TooDeep)
    else r == Ok(if NoPlus(items.first) then CursorAt(After(p, items), items.rest) else Past)
  }

  lemma NextItem(data: string, p: nat, level: nat, items: Items, pairs: bool)
    requires level <= MAX_DEPTH && items.Items? && ItemsAt(data, p, items, pairs)
    ensures p < |data| && StepsTo(Next(data, p, level), p, level, items)
    ensures items.rest.Items? ==> ItemsAt(data, After(p, items), items.rest, pairs)
  {
    ItemsParts(data, p, items, pairs);
    ElementSkipped(data, p, level, items.first);
    if items.rest.Items? { ItemsParts(data, After(p, items), items.rest, pairs); }
  }

  /** No plus sign keeps the iterator from an item: only the last one may have one, in the number at its
      end. */
  predicate Countable(items: Items) {
    match items
    case NoItems => true
    case Items(first, NoItems) => NoPlus(first) || EndsInPlus(first)
    case Items(first, rest) => NoPlus(first) && Countable(rest)
  }

  /** What counting the items gives. */
  predicate Counted(r: Outcome<nat>, level: nat, items: Items) {
    && (r == Ok(Length(items)) <==> level + ItemsDepth(items) <= MAX_DEPTH && Countable(items))
    && (NoPlusItems(items) && level + ItemsDepth(items) > MAX_DEPTH ==> r == Err(TooDeep))
  }

  /** One item and the rest, counted. */
  lemma CountCombine(data: string, p: nat, level: nat, items: Items)
    requires items.Items? && p < |data| && StepsTo(Next(data, p, level + 1), p, level + 1, items)
    requires ValidCursor(data, CursorAt(After(p, items), items.rest))
    requires Counted(CountFrom(data, CursorAt(After(p, items), items.rest), level + 1), level, items.rest)
    ensures Counted(CountFrom(data, Element(p), level + 1), level, items)
  {
    var next := Next(data, p, level + 1);
    if next.Err? {
    } else if items.rest.NoItems? || !NoPlus(items.first) {
      assert CountFrom(data, Element(p), level + 1) == Ok(1);
    } else {
      assert Countable(items) <==> Countable(items.rest);
    }
  }

  /** Iterating from the items at `p` counts them. */
  lemma {:induction false} CountItems(data: string, p: nat, level: nat, items: Items, pairs: bool)
    requires level < MAX_DEPTH && (items.Items? ==> ItemsAt(data, p, items, pairs))
    ensures ValidCursor(data, CursorAt(p, items))
    ensures Counted(CountFrom(data, CursorAt(p, items), level + 1), level, items)
    decreases items
  {
    if items.Items? {
      NextItem(data, p, level + 1, items, pairs);
      CountItems(data, After(p, items), level, items.rest, pairs);
      CountCombine(data, p, level, items);
    }
  }

  lemma BeginItems(data: string, p: nat, level: nat, e: Element)
    requires (e.Array? || e.Object?) && Valid(e) && At(data, p, Render(e))
    ensures p + 1 < |data| && ItemsAt(data, p + 1, e.items, e.Object?)
    ensures GetType(data, p) == Ok(if e.Array? then KArray else KObject)
    ensures Begin(data, p, level) == if level < MAX_DEPTH then Ok(CursorAt(p + 1, e.items)) else Err(TooDeep)
  {
    ContainerParts(data, p, if e.Array? then '[' else '{', e.items, Closing(e.Object?));
    if e.items.Items? {
      FirstItem(data, p + 1, e.items, Closing(e.Object?));
      Starts(data, p + 1, e.items.first);
    } else {
      AtSplit(data, p + 1, RenderItems(e.items), [Closing(e.Object?)]);
      AtChar(data, p + 1, Closing(e.Object?));
    }
  }

  /** `size` is the number of items of the array or object if and only if these nest within the limit and
      none but the last has a plus sign in an exponent, and that one only in the number at its end. Without
      plus signs nesting beyond the limit is reported as such. */
  lemma SizeIsLength(data: string, p: nat, level: nat, e: Element)
    requires (e.Array? || e.Object?) && Valid(e) && At(data, p, Render(e))
    ensures p < |data|
    ensures Count(data, p, level) == Ok(Length(e.items)) <==>
              level + Max(1, ItemsDepth(e.items)) <= MAX_DEPTH && Countable(e.items)
    ensures NoPlus(e) && level + Max(1, ItemsDepth(e.items)) > MAX_DEPTH ==> Count(data, p, level) == Err(TooDeep)
  {
    BeginItems(data, p, level, e);
    if level < MAX_DEPTH { CountItems(data, p + 1, level, e.items, e.Object?); }
  }

  function ItemAt(items: Items, n: nat): Element
    requires n < Length(items)
  {
    if n == 0 then items.first else ItemAt(items.rest, n - 1)
  }

  /** Where item `n` of the items at `p` begins. */
  function ItemStart(p: nat, items: Items, n: nat): nat
    requires n < Length(items)
    decreases n
  {
    if n == 0 then p else ItemStart(After(p, items), items.rest, n - 1)
  }

  /** That is where its text is, and its text ends there. */
  lemma {:induction false} ItemIsThere(data: string, p: nat, items: Items, pairs: bool, n: nat)
    requires ItemsAt(data, p, items, pairs) && n < Length(items)
    ensures Valid(ItemAt(items, n)) && At(data, ItemStart(p, items, n), Render(ItemAt(items, n)))
    ensures Ends(data, ItemStart(p, items, n) + |Render(ItemAt(items, n))|)
    decreases items
  {
    ItemsParts(data, p, items, pairs);
    if n > 0 { ItemIsThere(data, After(p, items), items.rest, pairs, n - 1); }
  }

  /** The first `n` items can be stepped over. */
  predicate Passable(level: nat, items: Items, n: nat)
    requires n <= Length(items)
  {
    n == 0 || (NoPlus(items.first) && level + Depth(items.first) <= MAX_DEPTH && Passable(level, items.rest, n - 1))
  }

  /** Stepping `n` times from the items at `p`. */
  lemma {:induction false} NthItem(data: string, p: nat, level: nat, items: Items, pairs: bool, n: nat)
    requires level <= MAX_DEPTH && ItemsAt(data, p, items, pairs) && n < Length(items)
    ensures ValidCursor(data, Element(p))
    ensures Nth(data, Element(p), level, n) == Ok(Element(ItemStart(p, items, n))) <==> Passable(level, items, n)
    decreases items
  {
    NextItem(data, p, level, items, pairs);
    if n > 0 { NthItem(data, After(p, items), level, items.rest, pairs, n - 1); }
  }

  /** Indexing stands at the start of the element with that index if and only if the limit allows going
      down, and no element before it nests too deeply or has a plus sign in an exponent. */
  lemma IndexIsItem(data: string, p: nat, level: nat, e: Element, n: nat)
    requires e.Array? && Valid(e) && At(data, p, Render(e)) && n < Length(e.items)
    ensures p < |data|
    ensures ElementAt(data, p, level, n) == Ok(Element(ItemStart(p + 1, e.items, n))) <==>
              level < MAX_DEPTH && Passable(level + 1, e.items, n)
    ensures At(data, ItemStart(p + 1, e.items, n), Render(ItemAt(e.items, n)))
    ensures Ends(data, ItemStart(p + 1, e.items, n) + |Render(ItemAt(e.items, n))|)
  {
    BeginItems(data, p, level, e);
    if level < MAX_DEPTH { NthItem(data, p + 1, level + 1, e.items, false, n); }
    ItemIsThere(data, p + 1, e.items, false, n);
  }

  /** Stepping and counting agree from any cursor on. */
  predicate Agree(n: nat, nth: Outcome<Cursor>, count: Outcome<nat>) {
    if count.Err? then nth == Err(count.error) || (nth.Ok? && nth.value.Element?)
    else if n < count.value then nth.Ok? && nth.value.Element?
    else nth == if n == count.value then Ok(Past) else Err(OutOfBounds)
  }

  lemma {:induction false} StepsAgree(data: string, c: Cursor, level: nat, n: nat)
    requires ValidCursor(data, c)
    ensures Agree(n, Nth(data, c, level, n), CountFrom(data, c, level))
    decreases n
  {
    if n > 0 && c.Element? {
      var next := Next(data, c.pos, level);
      if next.Ok? { StepsAgree(data, next.value, level, n - 1); }
    }
  }

  /** On every text, valid or not, an index below the size of an array finds an element, larger ones are
      reported, and the size itself is not: the result is the past-the-end cursor. */
  lemma IndexAgreesWithSize(data: string, p: nat, level: nat, n: nat)
    requires p < |data| && data[p] == '['
    ensures Agree(n, ElementAt(data, p, level, n), Count(data, p, level))
  {
    var start := Begin(data, p, level);
    if start.Ok? { StepsAgree(data, start.value, level + 1, n); }
  }

  // ----- what is not a container

  /** Indexing anything but an array is reported, whatever the index. */
  lemma IndexNeedsArray(data: string, p: nat, level: nat, e: Element, n: nat)
    requires Valid(e) && At(data, p, Render(e)) && Ends(data, p + |Render(e)|) && !e.Array?
    ensures p < |data| && ElementAt(data, p, level, n) == Err(NotArray)
  {
    KindIsFound(data, p, e);
  }

  /** So is the size of anything but an array or an object. */
  lemma SizeNeedsContainer(data: string, p: nat, level: nat, e: Element)
    requires Valid(e) && At(data, p, Render(e)) && Ends(data, p + |Render(e)|) && !e.Array? && !e.Object?
    ensures p < |data| && Count(data, p, level) == Err(NotContainer)
  {
    KindIsFound(data, p, e);
  }

  /** Any two brackets, opening and closing, are an empty container. */
  lemma BracketsAreEmpty(data: string, p: nat, level: nat)
    requires p + 1 < |data| && data[p] in "[{" && data[p + 1] in "]}"
    ensures Count(data, p, level) == if level < 100 then Ok(0) else Err(TooDeep)
  {
    assert "[{"[0] == '[' && "[{"[1] == '{' && "]}"[0] == ']' && "]}"[1] == '}';
  }

  /** Indexing reads no further than it must: in a text that breaks off, an element is found that cannot be counted. */
  lemma IndexIsLazy(data: string)
    requires data == "[1,2"
    ensures ElementAt(data, 0, 0, 1) == Ok(Element(3)) && Count(data, 0, 0) == Err(EndOfData)
  {
    assert SkipDigits(data, 1) == SkipDigits(data, 2) == 2 && SkipNumber(data, 1) == 2;
    assert SkipDigits(data, 3) == SkipDigits(data, 4) == 4 && SkipNumber(data, 3) == 4;
    assert SkipElement(data, 1, 1) == Ok(2) && SkipElement(data, 3, 1) == Ok(4);
    assert Next(data, 1, 1) == Ok(Element(3)) && Next(data, 3, 1) == Err(EndOfData);
    assert Begin(data, 0, 0) == Ok(Element(1));
    assert Nth(data, Element(3), 1, 0) == Ok(Element(3));
    assert CountFrom(data, Element(3), 1) == Err(EndOfData);
  }

  // ----- a plus sign in an exponent

  /** A valid array that the reader rejects: the exponent has a plus sign. */
  lemma PlusIsRejected()
    ensures var e := Array(Items(Number(false, "1", "", Exponent(false, PlusSign, "5")), NoItems));
            Valid(e) && Render(e) == "[1e+5]" && SkipElement(Render(e), 0, 0) == Err(UnexpectedChar)
  {
    var x := Exponent(false, PlusSign, "5");
    var number := Number(false, "1", "", x);
    var e := Array(Items(number, NoItems));
    assert ExponentText(x) == "e+5" && Render(number) == "1e+5";
    var data := "[1e+5]";
    assert Render(e) == data;
    assert SkipDigits(data, 1) == SkipDigits(data, 2) == 2;
    assert SkipNumber(data, 1) == 3;
    assert SkipElement(data, 1, 1) == Ok(3);
    assert SkipItem(data, 1, 0, false) == Ok(3);
    assert SkipItems(data, 1, 0, false) == Err(UnexpectedChar);
  }

  /** A plus sign hides the rest of an array from the iterator: the size of a valid array of two numbers is
      found to be one. */
  lemma PlusHidesTheRest()
    ensures var number := Number(false, "1", "", Exponent(false, PlusSign, "5"));
            var e := Array(Items(number, Items(Number(false, "2", "", NoExponent), NoItems)));
            Valid(e) && Length(e.items) == 2 && Render(e) == "[1e+5,2]" && Count(Render(e), 0, 0) == Ok(1)
  {
    var x := Exponent(false, PlusSign, "5");
    var number := Number(false, "1", "", x);
    var two := Number(false, "2", "", NoExponent);
    var e := Array(Items(number, Items(two, NoItems)));
    assert ExponentText(x) == "e+5" && Render(number) == "1e+5" && Render(two) == "2";
    assert RenderItems(Items(two, NoItems)) == "2";
    var data := "[1e+5,2]";
    assert Render(e) == data;
    assert SkipDigits(data, 1) == SkipDigits(data, 2) == 2;
    assert SkipNumber(data, 1) == 3;
    assert SkipElement(data, 1, 1) == Ok(3);
    assert Next(data, 1, 1) == Ok(Past);
    assert Begin(data, 0, 0) == Ok(Element(1));
  }
}

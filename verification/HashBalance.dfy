/** How evenly consistent hashing spreads the keys: the exact number that goes to each bucket, how far that
    can be from an equal share, and where it is far. */
module HashBalance {
  import opened Words
  import opened ConsistentHash

  // ----- counting

  /** How many numbers below `n` satisfy `p`. */
  ghost function Count(n: nat, p: nat -> bool): nat {
    if n == 0 then 0 else Count(n - 1, p) + if p(n - 1) then 1 else 0
  }

  ghost function Sum(n: nat, f: nat -> nat): nat {
    if n == 0 then 0 else Sum(n - 1, f) + f(n - 1)
  }

  lemma {:induction false} CountAgrees(n: nat, p: nat -> bool, q: nat -> bool)
    requires forall x: nat | x < n :: p(x) == q(x)
    ensures Count(n, p) == Count(n, q)
  {
    if n > 0 { CountAgrees(n - 1, p, q); }
  }

  lemma {:induction false} CountConstant(n: nat, p: nat -> bool, all: bool)
    requires forall x: nat | x < n :: p(x) == all
    ensures Count(n, p) == if all then n else 0
  {
    if n > 0 { CountConstant(n - 1, p, all); }
  }

  lemma {:induction false} SumAgrees(n: nat, f: nat -> nat, g: nat -> nat)
    requires forall x: nat | x < n :: f(x) == g(x)
    ensures Sum(n, f) == Sum(n, g)
  {
    if n > 0 { SumAgrees(n - 1, f, g); }
  }

  lemma {:induction false} SumScaled(n: nat, f: nat -> nat, g: nat -> nat, each: int)
    requires forall x: nat | x < n :: f(x) == each * g(x)
    ensures Sum(n, f) == each * Sum(n, g)
  {
    if n > 0 {
      SumScaled(n - 1, f, g, each);
      Distribute(each, Sum(n - 1, g), g(n - 1));
    }
  }

  lemma {:induction false} SumWhere(n: nat, f: nat -> nat, p: nat -> bool, each: int)
    requires forall x: nat | x < n :: f(x) == if p(x) then each else 0
    ensures Sum(n, f) == each * Count(n, p)
  {
    if n > 0 {
      SumWhere(n - 1, f, p, each);
      Distribute(each, Count(n - 1, p), 1);
    }
  }

  /** A sum in two parts. */
  lemma {:induction false} SumInParts(n: nat, m: nat, f: nat -> nat, g: nat -> nat)
    requires forall x: nat | x < m :: g(x) == f(n + x)
    ensures Sum(n + m, f) == Sum(n, f) + Sum(m, g)
    decreases m
  {
    if m > 0 { SumInParts(n, m - 1, f, g); }
  }

  ghost function Later(f: nat -> nat, d: nat): nat -> nat { (y: nat) => f(d + y) }

  lemma SumHalves(p: nat, f: nat -> nat)
    ensures Sum(2 * p, f) == Sum(p, f) + Sum(p, Later(f, p))
  {
    assert p + p == 2 * p;
    SumInParts(p, p, f, Later(f, p));
  }

  /** The order of counting does not matter. */
  lemma {:induction false} CountAcross(n: nat, m: nat, r: (nat, nat) -> bool, f: nat -> nat, g: nat -> nat)
    requires forall x: nat | x < n :: f(x) == Count(m, (y: nat) => r(x, y))
    requires forall y: nat | y < m :: g(y) == Count(n, (x: nat) => r(x, y))
    ensures Sum(n, f) == Sum(m, g)
    decreases n
  {
    if n == 0 {
      SumWhere(m, g, (y: nat) => false, 0);
    } else {
      var g' := (y: nat) => Count(n - 1, (x: nat) => r(x, y));
      CountAcross(n - 1, m, r, f, g');
      forall y: nat | y < m ensures g(y) == g'(y) + if r(n - 1, y) then 1 else 0 {
        var p := (x: nat) => r(x, y);
        assert Count(n, p) == Count(n - 1, p) + if p(n - 1) then 1 else 0;
      }
      SumPlusCount(m, g, g', (y: nat) => r(n - 1, y));
    }
  }

  lemma {:induction false} SumPlusCount(m: nat, g: nat -> nat, g': nat -> nat, p: nat -> bool)
    requires forall y: nat | y < m :: g(y) == g'(y) + if p(y) then 1 else 0
    ensures Sum(m, g) == Sum(m, g') + Count(m, p)
  {
    if m > 0 { SumPlusCount(m - 1, g, g', p); }
  }

  // ----- counting remainders

  ghost function Residues(m: nat, lo: nat, hi: nat): nat -> bool
    requires m > 0
  {
    (x: nat) => lo <= x % m < hi
  }

  function Clamp(x: int, lo: nat, hi: nat): int
    requires lo <= hi
  {
    if x < lo then 0 else if x > hi then hi - lo else x - lo
  }

  /** How often the remainder falls into an interval. */
  lemma {:induction false} CountResidues(n: nat, m: nat, lo: nat, hi: nat)
    requires lo <= hi <= m && m > 0
    ensures Count(n, Residues(m, lo, hi)) == (n / m) * (hi - lo) + Clamp(n % m, lo, hi)
  {
    if n == 0 {
      DivModUnique(0, m, 0, 0);
    } else {
      CountResidues(n - 1, m, lo, hi);
      var q, r := (n - 1) / m, (n - 1) % m;
      DivModForm(n - 1, m);
      if r + 1 < m {
        DivModUnique(n, m, q, r + 1);
      } else {
        Distribute(m, q, 1);
        DivModUnique(n, m, q + 1, 0);
        Distribute(hi - lo, q, 1);
      }
    }
  }

  /** That is the share of the interval, to within its length. */
  lemma ResidueShare(n: nat, m: nat, lo: nat, hi: nat)
    requires lo <= hi <= m && m > 0
    ensures var c: int, i := Count(n, Residues(m, lo, hi)), hi - lo;
            (c - i) * m <= n * i <= (c + i) * m
  {
    CountResidues(n, m, lo, hi);
    DivModForm(n, m);
    ShareBounds(n, m, n / m, n % m, hi - lo, Clamp(n % m, lo, hi));
  }

  lemma ShareBounds(n: int, m: int, q: int, r: int, i: int, c: int)
    requires n == q * m + r && 0 <= r < m && 0 <= c <= i
    ensures (q * i + c - i) * m <= n * i <= (q * i + c + i) * m
  {
    var base := (q * i) * m;
    assert n * i == base + r * i by { Distribute(i, q * m, r); }
    assert (q * i + (c - i)) * m == base + (c - i) * m by { Distribute(m, q * i, c - i); }
    assert (q * i + (c + i)) * m == base + (c + i) * m by { Distribute(m, q * i, c + i); }
    MulMonotone(m, c - i, 0);
    MulMonotone(i, 0, r);
    MulMonotone(i, r, m);
    MulMonotone(m, i, c + i);
  }

  /** A predicate of the remainder, counted over whole periods. */
  lemma {:induction false} CountPeriods(t: nat, n: nat, p: nat -> bool, q: nat -> bool)
    requires n > 0 && forall x: nat :: p(x) == q(x % n)
    ensures Count(t * n, p) == t * Count(n, q)
  {
    if t > 0 {
      CountPeriods(t - 1, n, p, q);
      Distribute(n, t - 1, 1);
      CountOnePeriod((t - 1) * n, n, n, p, q, t - 1);
      Distribute(Count(n, q), t - 1, 1);
    } else {
      assert t * n == 0;
    }
  }

  lemma {:induction false} CountOnePeriod(start: nat, n: nat, m: nat, p: nat -> bool, q: nat -> bool, t: int)
    requires n > 0 && m <= n && start == t * n && forall x: nat :: p(x) == q(x % n)
    ensures Count(start + m, p) == Count(start, p) + Count(m, q)
    decreases m
  {
    if m > 0 {
      CountOnePeriod(start, n, m - 1, p, q, t);
      DivModUnique(start + m - 1, n, t, m - 1);
    }
  }

  lemma {:induction false} CountInterval(n: nat, p: nat -> bool, lo: nat, hi: nat)
    requires lo <= hi && forall x: nat | x < n :: p(x) == (lo <= x < hi)
    ensures Count(n, p) == Clamp(n, lo, hi)
  {
    if n > 0 { CountInterval(n - 1, p, lo, hi); }
  }

  // ----- the parts of a key

  /** Bits of the first two blocks that the schemes for rank `k` leave unused. */
  function HighBits(w: nat, k: nat): nat
    requires 1 <= k <= w
  {
    w - k + 1
  }

  /** Four digits as one number, the last one lowest. */
  function Digits(d: nat, c: nat, g: nat, b: nat, a: nat, e: nat): nat {
    Times(Times(Times(d, g) + c, e) + b, e) + a
  }

  /** The unused bits of the key, those of the first block lowest: the blocks without their low digits in
      base `p`, `p` and `q`. */
  function HighWith(e: nat, p: nat, g: nat, q: nat, key: Key): nat
    requires p > 0 && q > 0
  {
    Digits(key.d, Quotient(key.c, q), g, Quotient(key.b, p), Quotient(key.a, p), e)
  }

  function HighOf(w: nat, k: nat, key: Key): nat
    requires 1 <= k <= w
  {
    HighWith(Pow2(HighBits(w, k)), Pow2(k - 1), Pow2(w - k), Pow2(k), key)
  }

  /** The key whose unused bits are `h` and whose used bits are the others. */
  function KeyWith(e: nat, p: nat, g: nat, q: nat, h: nat, al: nat, bl: nat, cl: nat): Key
    requires e > 0 && g > 0
  {
    var h1 := Quotient(h, e);
    var h2 := Quotient(h1, e);
    Key(Times(h % e, p) + al, Times(h1 % e, p) + bl, Times(h2 % g, q) + cl, Quotient(h2, g))
  }

  function KeyOf(w: nat, k: nat, h: nat, al: nat, bl: nat, cl: nat): Key
    requires 1 <= k <= w
  {
    KeyWith(Pow2(HighBits(w, k)), Pow2(k - 1), Pow2(w - k), Pow2(k), h, al, bl, cl)
  }

  /** How many combinations of unused bits there are. */
  function HighParts(w: nat, k: nat): nat
    requires 1 <= k <= w
  {
    Pow2(4 * w - 3 * k + 2)
  }

  predicate LowParts(k: nat, al: nat, bl: nat, cl: nat)
    requires k >= 1
  {
    al < Pow2(k - 1) && bl < Pow2(k - 1) && cl < Pow2(k)
  }

  predicate IsKey(w: nat, key: Key) {
    key.a < Pow2(w) && key.b < Pow2(w) && key.c < Pow2(w) && key.d < Pow2(w)
  }

  /** A digit above a remainder. */
  lemma DigitBound(x: nat, y: nat, p: nat, q: nat)
    requires x < p && y < q
    ensures x * q + y < p * q
    ensures (x * q + y) / q == x && (x * q + y) % q == y
  {
    MulMonotone(q, x + 1, p);
    Distribute(q, x, 1);
    DivModUnique(x * q + y, q, x, y);
  }

  lemma HighQuotient(x: nat, p: nat, q: nat)
    requires p > 0 && q > 0 && x < p * q
    ensures Quotient(x, q) < p
  {
    DivAtLeast(x, q, p);
  }

  /** The weights of the parts. */
  lemma PartWeights(w: nat, k: nat)
    requires 1 <= k <= w
    ensures Pow2(HighBits(w, k)) * Pow2(k - 1) == Pow2(w)
    ensures Pow2(w - k) * Pow2(k) == Pow2(w)
    ensures HighParts(w, k) == ((Pow2(w) * Pow2(w - k)) * Pow2(HighBits(w, k))) * Pow2(HighBits(w, k))
  {
    Pow2Add(HighBits(w, k), k - 1);
    Pow2Add(w - k, k);
    Pow2Add(w, w - k);
    Pow2Add(w + (w - k), HighBits(w, k));
    Pow2Add(w + (w - k) + HighBits(w, k), HighBits(w, k));
  }

  lemma DigitsJoin(h: nat, g: nat, e: nat)
    requires e > 0 && g > 0
    ensures var h1 := Quotient(h, e);
            var h2 := Quotient(h1, e);
            Digits(Quotient(h2, g), h2 % g, g, h1 % e, h % e, e) == h
  {
    var h1 := Quotient(h, e);
    DivModForm(h, e);
    DivModForm(h1, e);
    DivModForm(Quotient(h1, e), g);
  }

  lemma FromParts(top: nat, e: nat, p: nat, g: nat, q: nat, h: nat, al: nat, bl: nat, cl: nat)
    requires e > 0 && g > 0 && e * p == top && g * q == top
    requires h < ((top * g) * e) * e && al < p && bl < p && cl < q
    ensures var key := KeyWith(e, p, g, q, h, al, bl, cl);
            && key.a < top && key.b < top && key.c < top && key.d < top && HighWith(e, p, g, q, key) == h
            && key.a % p == al && key.b % p == bl && key.c % q == cl
  {
    var h1 := Quotient(h, e);
    var h2 := Quotient(h1, e);
    DigitsJoin(h, g, e);
    DivModForm(h, e);
    DivModForm(h1, e);
    DivModForm(h2, g);
    DigitBound(h % e, al, e, p);
    DigitBound(h1 % e, bl, e, p);
    DigitBound(h2 % g, cl, g, q);
    assert h2 < top * g by {
      HighQuotient(h, (top * g) * e, e);
      HighQuotient(h1, top * g, e);
    }
    HighQuotient(h2, top, g);
  }

  lemma ToParts(top: nat, e: nat, p: nat, g: nat, q: nat, key: Key)
    requires e > 0 && p > 0 && g > 0 && q > 0 && e * p == top && g * q == top
    requires key.a < top && key.b < top && key.c < top && key.d < top
    ensures HighWith(e, p, g, q, key) < ((top * g) * e) * e
    ensures KeyWith(e, p, g, q, HighWith(e, p, g, q, key), key.a % p, key.b % p, key.c % q) == key
  {
    BlockParts(key.a, e, p);
    BlockParts(key.b, e, p);
    BlockParts(key.c, g, q);
    DigitsApart(key.d, Quotient(key.c, q), Quotient(key.b, p), Quotient(key.a, p), top, g, e);
  }

  /** Every combination of parts makes a key, and gives the parts of that key. */
  lemma KeyFromParts(w: nat, k: nat, h: nat, al: nat, bl: nat, cl: nat)
    requires 1 <= k <= w && h < HighParts(w, k) && LowParts(k, al, bl, cl)
    ensures var key := KeyOf(w, k, h, al, bl, cl);
            IsKey(w, key) && HighOf(w, k, key) == h
            && key.a % Pow2(k - 1) == al && key.b % Pow2(k - 1) == bl && key.c % Pow2(k) == cl
  {
    PartWeights(w, k);
    FromParts(Pow2(w), Pow2(HighBits(w, k)), Pow2(k - 1), Pow2(w - k), Pow2(k), h, al, bl, cl);
  }

  /** Every key is made of its parts. So the keys are exactly the combinations of parts, each once. */
  lemma PartsOfKey(w: nat, k: nat, key: Key)
    requires 1 <= k <= w && IsKey(w, key)
    ensures HighOf(w, k, key) < HighParts(w, k)
    ensures LowParts(k, key.a % Pow2(k - 1), key.b % Pow2(k - 1), key.c % Pow2(k))
    ensures KeyOf(w, k, HighOf(w, k, key), key.a % Pow2(k - 1), key.b % Pow2(k - 1), key.c % Pow2(k)) == key
  {
    PartWeights(w, k);
    ToParts(Pow2(w), Pow2(HighBits(w, k)), Pow2(k - 1), Pow2(w - k), Pow2(k), key);
  }

  lemma BlockParts(x: nat, e: nat, p: nat)
    requires p > 0 && e > 0 && x < e * p
    ensures Quotient(x, p) < e && Times(Quotient(x, p), p) + x % p == x && x % p < p
  {
    HighQuotient(x, e, p);
    DivModForm(x, p);
  }

  /** The digits of a number of mixed base. */
  lemma DigitsApart(d: nat, c: nat, b: nat, a: nat, top: nat, g: nat, e: nat)
    requires d < top && c < g && b < e && a < e
    ensures var h2 := Times(d, g) + c;
            var h1 := Times(h2, e) + b;
            var h := Digits(d, c, g, b, a, e);
            && h < ((top * g) * e) * e && h % e == a && Quotient(h, e) == h1
            && h1 % e == b && Quotient(h1, e) == h2 && h2 % g == c && Quotient(h2, g) == d
  {
    var h2 := Times(d, g) + c;
    var h1 := Times(h2, e) + b;
    DigitBound(d, c, top, g);
    DigitBound(h2, b, top * g, e);
    DigitBound(h1, a, (top * g) * e, e);
  }

  // ----- the spare bits

  function Min(x: nat, y: nat): nat { if x < y then x else y }

  /** How many of the unused bits fit in the word they are combined in. */
  function Combined(w: nat, k: nat): nat
    requires 1 <= k <= w
  {
    Min(64, 32 + 2 * HighBits(w, k))
  }

  lemma ResidueTwice(x: nat, a: nat, b: nat)
    ensures (x % Pow2(a)) % Pow2(b) == x % Pow2(Min(a, b))
  {
    DivModForm(x, Pow2(a));
    if a <= b {
      Pow2Monotone(a, b);
      DivModUnique(x % Pow2(a), Pow2(b), 0, x % Pow2(a));
    } else {
      Pow2Add(a - b, b);
      Associate(x / Pow2(a), Pow2(a - b), Pow2(b));
      ModShift(x % Pow2(a), Pow2(b), (x / Pow2(a)) * Pow2(a - b));
    }
  }

  /** A remainder with digits appended is the remainder of the number with digits appended. */
  lemma AppendToResidue(x: nat, m: nat, e: nat, y: nat)
    requires m > 0 && e > 0 && y < e
    ensures m * e > 0 && (x % m) * e + y == (x * e + y) % (m * e)
  {
    DivModForm(x, m);
    DigitBound(x % m, y, m, e);
    assert x * e + y == (x / m) * (m * e) + ((x % m) * e + y) by {
      Distribute(e, (x / m) * m, x % m);
      assert ((x / m) * m) * e == (x / m) * (m * e);
    }
    DivModUnique(x * e + y, m * e, x / m, (x % m) * e + y);
  }

  /** Shifting in a word and setting the low bits is appending digits in the word. */
  lemma ShiftAndSet(word: nat, x: nat, s: nat, y: nat)
    requires s <= word && y < Pow2(s)
    ensures Or(Shl(word, x, s), y) == (x * Pow2(s) + y) % Pow2(word)
  {
    Pow2Add(word - s, s);
    DivMulCancel(x, Pow2(word - s), Pow2(s));
    OrDisjoint(x % Pow2(word - s), y, s);
    AppendToResidue(x, Pow2(word - s), Pow2(s), y);
  }

  lemma NextDigits(word: nat, x: nat, bits: nat, e: nat, y: nat)
    requires e <= word && y < Pow2(e)
    ensures Or(Shl(word, x % Pow2(bits), e), y) == (x * Pow2(e) + y) % Pow2(Min(bits + e, word))
  {
    ShiftAndSet(word, x % Pow2(bits), e, y);
    AppendToResidue(x, Pow2(bits), Pow2(e), y);
    Pow2Add(bits, e);
    ResidueTwice(x * Pow2(e) + y, bits + e, word);
  }

  /** Four digits combined in two steps of one width and a first one of another. */
  lemma CombinedDigits(first: nat, word: nat, d: nat, c: nat, s: nat, b: nat, a: nat, e: nat)
    requires s <= first && e <= word && c < Pow2(s) && b < Pow2(e) && a < Pow2(e)
    ensures Or(Shl(word, Or(Shl(word, Or(Shl(first, d, s), c), e), b), e), a)
         == Digits(d, c, Pow2(s), b, a, Pow2(e)) % Pow2(Min(word, first + 2 * e))
  {
    var h2 := Times(d, Pow2(s)) + c;
    var h1 := Times(h2, Pow2(e)) + b;
    ShiftAndSet(first, d, s, c);
    NextDigits(word, h2, first, e, b);
    NextDigits(word, h1, Min(first + e, word), e, a);
  }

  lemma UnusedBits(w: nat, k: nat, key: Key)
    requires 1 <= k <= w && IsKey(w, key)
    ensures Shr(key.a, k - 1) < Pow2(HighBits(w, k)) && Shr(key.b, k - 1) < Pow2(HighBits(w, k))
    ensures Shr(key.c, k) < Pow2(w - k)
  {
    PartWeights(w, k);
    HighQuotient(key.a, Pow2(HighBits(w, k)), Pow2(k - 1));
    HighQuotient(key.b, Pow2(HighBits(w, k)), Pow2(k - 1));
    HighQuotient(key.c, Pow2(w - k), Pow2(k));
  }

  /** The combined bits are the unused bits of the key, as far as they fit. */
  lemma SpareIsHigh(w: nat, k: nat, key: Key)
    requires 1 <= k <= w <= 32 && IsKey(w, key)
    ensures AsteriskBits(w, key, k) == HighOf(w, k, key) % Pow2(Combined(w, k))
  {
    UnusedBits(w, k, key);
    CombinedDigits(32, 64, key.d, Shr(key.c, k), w - k, Shr(key.b, k - 1), Shr(key.a, k - 1), HighBits(w, k));
  }

  /** How many different values the spare bits take, as a power of two. */
  function SpareWidth(w: nat, k: nat): nat
    requires 1 <= k <= w
  {
    Min(4 * w - 3 * k + 2, Combined(w, k))
  }

  /** Over all combinations of unused bits the spare bits run through whole periods of their values. */
  lemma SparePeriods(w: nat, k: nat, h: nat)
    requires 1 <= k <= w && h < HighParts(w, k)
    ensures h % Pow2(Combined(w, k)) == h % Pow2(SpareWidth(w, k))
    ensures HighParts(w, k) == Pow2(4 * w - 3 * k + 2 - SpareWidth(w, k)) * Pow2(SpareWidth(w, k))
  {
    SmallResidue(h, 4 * w - 3 * k + 2, Combined(w, k));
    Pow2Add(4 * w - 3 * k + 2 - SpareWidth(w, k), SpareWidth(w, k));
  }

  lemma SmallResidue(h: nat, a: nat, b: nat)
    requires h < Pow2(a)
    ensures h % Pow2(b) == h % Pow2(Min(a, b))
  {
    DivModUnique(h, Pow2(a), 0, h);
    ResidueTwice(h, a, b);
  }

  // ----- the bucket from the parts

  /** The result of a scheme, given the block that is selected. */
  function Hit(cBlock: nat, x: nat): nat { SchemeValue(Key(x, x, 0, 0), cBlock) }

  /** Only the used bits matter to the schemes. */
  lemma SchemeOfLowParts(key: Key, k: nat, cBlock: nat)
    requires k >= 1 && BitLength(cBlock) <= k
    ensures SchemeValue(key, cBlock)
         == Hit(cBlock, SelectBlock(key.a % Pow2(k - 1), key.b % Pow2(k - 1), cBlock))
  {
    if cBlock > 0 {
      BitLengthBrackets(cBlock);
      ResidueTwice(SelectBlock(key.a, key.b, cBlock), k - 1, BitLength(cBlock) - 1);
    }
  }

  /** The second candidates for given spare bits. */
  function Second(k: nat, spare: nat): nat -> nat
    requires k >= 1
  {
    (large: nat) => if large > 0 then SecondCandidate(spare, k, large) else Pow2(k - 1)
  }

  /** The bucket, given the results of the two schemes and the second candidates. */
  function Placed(n: nat, second: nat -> nat, large: nat, small: nat): nat {
    if large < n then large else if second(large) < n then second(large) else small
  }

  lemma {:induction false} TopBitCounts(c: nat, q: nat)
    requires c < Pow2(q)
    ensures PopCount(Pow2(q) + c) == 1 + PopCount(c)
  {
    if q > 0 {
      TopBitCounts(c / 2, q - 1);
    } else {
      assert PopCount(1) == 1 + PopCount(0);
    }
  }

  /** With the top bit of the rank set, the large scheme and the small one select different blocks. */
  lemma DifferentBlocks(al: nat, bl: nat, c: nat, q: nat)
    requires c < Pow2(q)
    ensures SelectBlock(al, bl, c) == SelectBlock(bl, al, Pow2(q) + c)
  {
    TopBitCounts(c, q);
  }

  lemma TopScheme(x: nat, c: nat, q: nat)
    requires c < Pow2(q) && x < Pow2(q)
    ensures BitLength(Pow2(q) + c) == q + 1 && Hit(Pow2(q) + c, x) == Pow2(q) + x
  {
    BitLengthUnique(Pow2(q) + c, q);
    WrapSmall(q, x);
  }

  lemma LowerScheme(c: nat, x: nat, q: nat)
    requires c < Pow2(q)
    ensures BitLength(c) <= q && Hit(c, x) < Pow2(q)
  {
    BitLengthWithin(c, q);
    SchemeOrder(Key(x, x, 0, 0), c, q);
  }

  predicate Parameters(w: nat, n: nat, k: nat) { w <= 32 && Supported(w, n) && n >= 2 && k == Rank(n) }

  lemma ParametersMean(w: nat, n: nat, k: nat)
    requires Parameters(w, n, k)
    ensures 1 <= k <= w && Pow2(k - 1) < n <= Pow2(k) == 2 * Pow2(k - 1)
  {
    RankBrackets(n);
    RankInRange(w, Key(0, 0, 0, 0), n);
  }

  function Spare(w: nat, k: nat, h: nat): nat
    requires 1 <= k <= w
  {
    h % Pow2(SpareWidth(w, k))
  }

  lemma SpareOfParts(w: nat, n: nat, k: nat, h: nat, al: nat, bl: nat, cl: nat)
    requires Parameters(w, n, k) && 1 <= k <= w && h < HighParts(w, k) && LowParts(k, al, bl, cl)
    ensures var key := KeyOf(w, k, h, al, bl, cl);
            Index(w, key, n) == Choose(key, n, k, Spare(w, k, h))
  {
    var key := KeyOf(w, k, h, al, bl, cl);
    KeyFromParts(w, k, h, al, bl, cl);
    RankInRange(w, key, n);
    SpareIsHigh(w, k, key);
    SparePeriods(w, k, h);
  }

  /** Below the top bit the one scheme decides. */
  lemma ChosenLower(key: Key, n: nat, k: nat, spare: nat, cl: nat)
    requires n >= 2 && k >= 1 && cl < Pow2(k - 1) < n && key.c % Pow2(k) == cl
    ensures Choose(key, n, k, spare) == Hit(cl, SelectBlock(key.a % Pow2(k - 1), key.b % Pow2(k - 1), cl))
  {
    PowerScheme(key, k);
    LowerScheme(cl, SelectBlock(key.a % Pow2(k - 1), key.b % Pow2(k - 1), cl), k - 1);
    SchemeOfLowParts(key, k, cl);
  }

  /** With the top bit set, two different blocks give the results of the two schemes. */
  lemma ChosenUpper(key: Key, n: nat, k: nat, spare: nat, c: nat)
    requires n >= 2 && k >= 1 && c < Pow2(k - 1) && key.c % Pow2(k) == Pow2(k - 1) + c
    ensures var a, b, cl := key.a % Pow2(k - 1), key.b % Pow2(k - 1), Pow2(k - 1) + c;
            Choose(key, n, k, spare)
            == Placed(n, Second(k, spare), Pow2(k - 1) + SelectBlock(a, b, cl), Hit(c, SelectBlock(b, a, cl)))
  {
    LargeScheme(key, k, c);
    SmallScheme(key, k, c);
  }

  lemma LargeScheme(key: Key, k: nat, c: nat)
    requires k >= 1 && c < Pow2(k - 1) && key.c % Pow2(k) == Pow2(k - 1) + c
    ensures ForPowerOf2(key, k)
         == Pow2(k - 1) + SelectBlock(key.a % Pow2(k - 1), key.b % Pow2(k - 1), Pow2(k - 1) + c)
  {
    var cl := Pow2(k - 1) + c;
    PowerScheme(key, k);
    TopScheme(SelectBlock(key.a % Pow2(k - 1), key.b % Pow2(k - 1), cl), c, k - 1);
    SchemeOfLowParts(key, k, cl);
  }

  lemma SmallScheme(key: Key, k: nat, c: nat)
    requires k >= 1 && c < Pow2(k - 1) && key.c % Pow2(k) == Pow2(k - 1) + c
    ensures ForPowerOf2(key, k - 1)
         == Hit(c, SelectBlock(key.b % Pow2(k - 1), key.a % Pow2(k - 1), Pow2(k - 1) + c))
  {
    SmallSchemeIs(key, k, c);
    LowerScheme(c, 0, k - 1);
    SchemeOfLowParts(key, k, c);
    DifferentBlocks(key.a % Pow2(k - 1), key.b % Pow2(k - 1), c, k - 1);
  }

  lemma SmallSchemeIs(key: Key, k: nat, c: nat)
    requires k >= 1 && c < Pow2(k - 1) && key.c % Pow2(k) == Pow2(k - 1) + c
    ensures ForPowerOf2(key, k - 1) == SchemeValue(key, c)
  {
    PowerScheme(key, k - 1);
    LowBitsOfTop(key.c, k, c);
  }

  lemma LowBitsOfTop(x: nat, k: nat, c: nat)
    requires k >= 1 && c < Pow2(k - 1) && x % Pow2(k) == Pow2(k - 1) + c
    ensures x % Pow2(k - 1) == c
  {
    ResidueTwice(x, k, k - 1);
    DivModUnique(Pow2(k - 1) + c, Pow2(k - 1), 1, c);
  }

  // ----- counting the used bits

  ghost function Always(): nat -> bool { (x: nat) => true }

  /** Two conditions on two blocks, counted. `first` tells which block the first condition is on. */
  lemma CountBoth(n: nat, r: (nat, nat) -> bool, f: nat -> nat, p: nat -> bool, q: nat -> bool, first: bool)
    requires forall b: nat, a: nat | b < n && a < n :: r(b, a) == if first then p(a) && q(b) else p(b) && q(a)
    requires forall b: nat | b < n :: f(b) == Count(n, (a: nat) => r(b, a))
    ensures Sum(n, f) == Times(Count(n, p), Count(n, q))
  {
    if first { CountRows(n, r, f, q, p); } else { CountRows(n, r, f, p, q); }
  }

  lemma CountRows(n: nat, r: (nat, nat) -> bool, f: nat -> nat, outer: nat -> bool, inner: nat -> bool)
    requires forall b: nat, a: nat | b < n && a < n :: r(b, a) == (inner(a) && outer(b))
    requires forall b: nat | b < n :: f(b) == Count(n, (a: nat) => r(b, a))
    ensures Sum(n, f) == Times(Count(n, inner), Count(n, outer))
  {
    forall b: nat | b < n ensures f(b) == if outer(b) then Count(n, inner) else 0 {
      if outer(b) {
        CountAgrees(n, (a: nat) => r(b, a), inner);
      } else {
        CountConstant(n, (a: nat) => r(b, a), false);
      }
    }
    SumWhere(n, f, outer, Count(n, inner));
  }

  /** A scheme for `p` buckets: what bucket a third block makes of a selected one, and which it selects. */
  datatype Scheme = Scheme(p: nat, hit: (nat, nat) -> nat, even: nat -> bool)

  function Pick(s: Scheme, c: nat, a: nat, b: nat): nat { if s.even(c) then a else b }

  /** The bucket from the used bits of the blocks. */
  function LowIndex(s: Scheme, n: nat, second: nat -> nat, al: nat, bl: nat, cl: nat): nat {
    if cl < s.p then s.hit(cl, Pick(s, cl, al, bl))
    else Placed(n, second, s.p + Pick(s, cl, al, bl), s.hit(cl - s.p, Pick(s, cl, bl, al)))
  }

  ghost function LowFunction(s: Scheme, n: nat, second: nat -> nat): (nat, nat, nat) -> nat {
    (al: nat, bl: nat, cl: nat) => LowIndex(s, n, second, al, bl, cl)
  }

  /** How many first blocks below `p` go to bucket `v`, for each second block. */
  ghost function Columns(p: nat, index: (nat, nat, nat) -> nat, v: nat, cl: nat): nat -> nat {
    (bl: nat) => Count(p, (al: nat) => index(al, bl, cl) == v)
  }

  /** And how many pairs of blocks, for each third one. */
  ghost function Rows(p: nat, index: (nat, nat, nat) -> nat, v: nat): nat -> nat {
    (cl: nat) => Sum(p, Columns(p, index, v, cl))
  }

  lemma SameRows(p: nat, all: nat, index: (nat, nat, nat) -> nat, index': (nat, nat, nat) -> nat, v: nat)
    requires forall al: nat, bl: nat, cl: nat | al < p && bl < p && cl < all :: index(al, bl, cl) == index'(al, bl, cl)
    ensures Sum(all, Rows(p, index, v)) == Sum(all, Rows(p, index', v))
  {
    forall cl: nat | cl < all ensures Rows(p, index, v)(cl) == Rows(p, index', v)(cl) {
      forall bl: nat | bl < p ensures Columns(p, index, v, cl)(bl) == Columns(p, index', v, cl)(bl) {
        CountAgrees(p, (al: nat) => index(al, bl, cl) == v, (al: nat) => index'(al, bl, cl) == v);
      }
      SumAgrees(p, Columns(p, index, v, cl), Columns(p, index', v, cl));
    }
    SumAgrees(all, Rows(p, index, v), Rows(p, index', v));
  }

  /** How many of the used bits with third block `cl` go to bucket `v`. */
  ghost function BlockHits(s: Scheme, n: nat, second: nat -> nat, v: nat, cl: nat): nat {
    Sum(s.p, Columns(s.p, LowFunction(s, n, second), v, cl))
  }

  ghost function RowHits(s: Scheme, n: nat, second: nat -> nat, v: nat): nat -> nat {
    Rows(s.p, LowFunction(s, n, second), v)
  }

  /** How many of the used bits go to bucket `v`. */
  ghost function LowHits(s: Scheme, n: nat, second: nat -> nat, v: nat): nat {
    Sum(2 * s.p, RowHits(s, n, second, v))
  }

  /** The blocks that complete the third one to bucket `v`. */
  ghost function HitsAt(s: Scheme, c: nat, v: nat): nat -> bool { (x: nat) => s.hit(c, x) == v }

  ghost function HitCounts(s: Scheme, v: nat): nat -> nat { (c: nat) => Count(s.p, HitsAt(s, c, v)) }

  /** The large results that lead to bucket `v`, directly or by the second candidate. */
  ghost function Lands(s: Scheme, n: nat, second: nat -> nat, v: nat): nat -> bool {
    (x: nat) => if s.p + x < n then s.p + x == v else second(s.p + x) == v
  }

  /** The large results that leave the choice to the small scheme. */
  ghost function Falls(s: Scheme, n: nat, second: nat -> nat): nat -> bool {
    (x: nat) => s.p + x >= n && second(s.p + x) >= n
  }

  /** The results are buckets, and second candidates are beyond them. */
  ghost predicate Sound(s: Scheme, second: nat -> nat) {
    && (forall c: nat, x: nat | c < s.p :: s.hit(c, x) < s.p)
    && (forall l: nat :: second(l) >= s.p)
  }

  lemma BlockHitsBoth(s: Scheme, n: nat, second: nat -> nat, v: nat, cl: nat, p: nat -> bool, q: nat -> bool,
                      first: bool)
    requires forall b: nat, a: nat | b < s.p && a < s.p ::
               LowIndex(s, n, second, a, b, cl) == v <==> if first then p(a) && q(b) else p(b) && q(a)
    ensures BlockHits(s, n, second, v, cl) == Times(Count(s.p, p), Count(s.p, q))
  {
    var r := (bl: nat, al: nat) => LowIndex(s, n, second, al, bl, cl) == v;
    var index := LowFunction(s, n, second);
    var f := Columns(s.p, index, v, cl);
    forall b: nat | b < s.p ensures f(b) == Count(s.p, (a: nat) => r(b, a)) {
      CountAgrees(s.p, (al: nat) => index(al, b, cl) == v, (a: nat) => r(b, a));
    }
    CountBoth(s.p, r, f, p, q, first);
  }

  lemma LowerBlockHits(s: Scheme, n: nat, second: nat -> nat, v: nat, cl: nat)
    requires cl < s.p
    ensures BlockHits(s, n, second, v, cl) == Times(s.p, HitCounts(s, v)(cl))
  {
    BlockHitsBoth(s, n, second, v, cl, Always(), HitsAt(s, cl, v), !s.even(cl));
    CountConstant(s.p, Always(), true);
  }

  lemma UpperBlockHitsAbove(s: Scheme, n: nat, second: nat -> nat, v: nat, c: nat)
    requires Sound(s, second) && c < s.p <= v < n
    ensures BlockHits(s, n, second, v, s.p + c) == Times(Count(s.p, Lands(s, n, second, v)), s.p)
  {
    BlockHitsBoth(s, n, second, v, s.p + c, Lands(s, n, second, v), Always(), s.even(s.p + c));
    CountConstant(s.p, Always(), true);
  }

  /** A bucket of the lower half is reached when the large scheme falls through and the small one hits it. */
  lemma UpperIndexBelow(s: Scheme, n: nat, second: nat -> nat, v: nat, c: nat, a: nat, b: nat)
    requires Sound(s, second) && c < s.p < n && v < s.p
    ensures LowIndex(s, n, second, a, b, s.p + c) == v
            <==> Falls(s, n, second)(Pick(s, s.p + c, a, b)) && HitsAt(s, c, v)(Pick(s, s.p + c, b, a))
  {
  }

  lemma UpperBlockHitsBelow(s: Scheme, n: nat, second: nat -> nat, v: nat, c: nat)
    requires Sound(s, second) && c < s.p < n && v < s.p
    ensures BlockHits(s, n, second, v, s.p + c) == Times(Count(s.p, Falls(s, n, second)), HitCounts(s, v)(c))
  {
    var p, q, first := Falls(s, n, second), HitsAt(s, c, v), s.even(s.p + c);
    forall b: nat, a: nat | b < s.p && a < s.p
      ensures LowIndex(s, n, second, a, b, s.p + c) == v <==> if first then p(a) && q(b) else p(b) && q(a)
    {
      UpperIndexBelow(s, n, second, v, c, a, b);
    }
    BlockHitsBoth(s, n, second, v, s.p + c, p, q, first);
  }

  ghost function UpperRows(s: Scheme, n: nat, second: nat -> nat, v: nat): nat -> nat {
    Later(RowHits(s, n, second, v), s.p)
  }

  lemma RowIs(s: Scheme, n: nat, second: nat -> nat, v: nat, cl: nat)
    ensures RowHits(s, n, second, v)(cl) == BlockHits(s, n, second, v, cl)
  {
  }

  lemma UpperRowIs(s: Scheme, n: nat, second: nat -> nat, v: nat, c: nat)
    ensures UpperRows(s, n, second, v)(c) == BlockHits(s, n, second, v, s.p + c)
  {
    RowIs(s, n, second, v, s.p + c);
  }

  /** The sum over the third block, lower half and upper half. */
  lemma LowHitsInParts(s: Scheme, n: nat, second: nat -> nat, v: nat)
    ensures LowHits(s, n, second, v)
         == s.p * Sum(s.p, HitCounts(s, v)) + Sum(s.p, UpperRows(s, n, second, v))
  {
    SumHalves(s.p, RowHits(s, n, second, v));
    LowerRows(s, n, second, v);
  }

  lemma LowerRows(s: Scheme, n: nat, second: nat -> nat, v: nat)
    ensures Sum(s.p, RowHits(s, n, second, v)) == s.p * Sum(s.p, HitCounts(s, v))
  {
    forall cl: nat | cl < s.p ensures RowHits(s, n, second, v)(cl) == s.p * HitCounts(s, v)(cl) {
      LowerBlockHits(s, n, second, v, cl);
      RowIs(s, n, second, v, cl);
    }
    SumScaled(s.p, RowHits(s, n, second, v), HitCounts(s, v), s.p);
  }

  lemma NoHitsAbove(s: Scheme, second: nat -> nat, v: nat)
    requires Sound(s, second) && s.p <= v
    ensures Sum(s.p, HitCounts(s, v)) == 0
  {
    forall c: nat | c < s.p ensures HitCounts(s, v)(c) == 0 {
      CountConstant(s.p, HitsAt(s, c, v), false);
    }
    SumWhere(s.p, HitCounts(s, v), (c: nat) => false, 0);
  }

  lemma UpperRowsAbove(s: Scheme, n: nat, second: nat -> nat, v: nat)
    requires Sound(s, second) && s.p <= v < n
    ensures Sum(s.p, UpperRows(s, n, second, v)) == Times(Count(s.p, Lands(s, n, second, v)), s.p) * s.p
  {
    var each := Times(Count(s.p, Lands(s, n, second, v)), s.p);
    forall c: nat | c < s.p ensures UpperRows(s, n, second, v)(c) == if Always()(c) then each else 0 {
      UpperBlockHitsAbove(s, n, second, v, c);
      UpperRowIs(s, n, second, v, c);
    }
    SumWhere(s.p, UpperRows(s, n, second, v), Always(), each);
    CountConstant(s.p, Always(), true);
  }

  lemma UpperRowsBelow(s: Scheme, n: nat, second: nat -> nat, v: nat)
    requires Sound(s, second) && v < s.p < n
    ensures Sum(s.p, UpperRows(s, n, second, v))
         == Count(s.p, Falls(s, n, second)) * Sum(s.p, HitCounts(s, v))
  {
    var falls := Count(s.p, Falls(s, n, second));
    forall c: nat | c < s.p ensures UpperRows(s, n, second, v)(c) == falls * HitCounts(s, v)(c) {
      UpperBlockHitsBelow(s, n, second, v, c);
      UpperRowIs(s, n, second, v, c);
    }
    SumScaled(s.p, UpperRows(s, n, second, v), HitCounts(s, v), falls);
  }

  /** The used bits that go to a bucket of the upper half. */
  lemma LowHitsAbove(s: Scheme, n: nat, second: nat -> nat, v: nat)
    requires Sound(s, second) && s.p <= v < n
    ensures LowHits(s, n, second, v) == Times(Count(s.p, Lands(s, n, second, v)), s.p) * s.p
  {
    LowHitsInParts(s, n, second, v);
    NoHitsAbove(s, second, v);
    UpperRowsAbove(s, n, second, v);
  }

  /** And to one of the lower half, if the scheme hits all its buckets equally often. */
  lemma LowHitsBelow(s: Scheme, n: nat, second: nat -> nat, v: nat)
    requires Sound(s, second) && v < s.p < n && Sum(s.p, HitCounts(s, v)) == s.p
    ensures LowHits(s, n, second, v) == s.p * s.p + Count(s.p, Falls(s, n, second)) * s.p
  {
    LowHitsInParts(s, n, second, v);
    UpperRowsBelow(s, n, second, v);
  }

  // ----- the schemes are balanced

  /** The scheme for `2^q` buckets. */
  function SchemeOf(q: nat): Scheme {
    Scheme(Pow2(q), (c: nat, x: nat) => Hit(c, x), (c: nat) => PopCount(c) % 2 == 0)
  }

  /** The low bits of a block complete the octave to `v`. */
  predicate Completes(v: nat, x: nat)
    requires BitLength(v) > 0
  {
    x % Pow2(BitLength(v) - 1) == v - Pow2(BitLength(v) - 1)
  }

  lemma HitInOctave(c: nat, x: nat, y: int)
    requires c > 0 && y == BitLength(c) - 1
    ensures y >= 0 && Hit(c, x) == Pow2(y) + x % Pow2(y)
  {
    BitLengthBrackets(c);
  }

  lemma HitsValue(c: nat, x: nat, v: nat)
    requires v > 0
    ensures BitLength(v) > 0
    ensures Hit(c, x) == v <==> BitLength(c) == BitLength(v) && Completes(v, x)
  {
    BitLengthBrackets(v);
    if c > 0 {
      SchemeOctave(Key(x, x, 0, 0), c);
      HitInOctave(c, x, BitLength(c) - 1);
    }
  }

  lemma CountCompletions(q: nat, v: nat)
    requires 0 < v < Pow2(q)
    ensures 0 < BitLength(v) <= q
    ensures Count(Pow2(q), (x: nat) => Completes(v, x)) == Pow2(q - (BitLength(v) - 1))
  {
    BitLengthBrackets(v);
    BitLengthWithin(v, q);
    var y := BitLength(v) - 1;
    var m, r := Pow2(y), v - Pow2(y);
    CountResidues(Pow2(q), m, r, r + 1);
    Pow2Add(q - y, y);
    DivModUnique(Pow2(q), m, Pow2(q - y), 0);
    CountAgrees(Pow2(q), (x: nat) => Completes(v, x), Residues(m, r, r + 1));
  }

  lemma CountOctave(q: nat, v: nat)
    requires 0 < v < Pow2(q)
    ensures 0 < BitLength(v) <= q
    ensures Count(Pow2(q), (c: nat) => BitLength(c) == BitLength(v)) == Pow2(BitLength(v) - 1)
  {
    BitLengthBrackets(v);
    BitLengthWithin(v, q);
    var y := BitLength(v) - 1;
    Pow2Monotone(y + 1, q);
    forall c: nat ensures (BitLength(c) == BitLength(v)) == (Pow2(y) <= c < Pow2(y + 1)) {
      if Pow2(y) <= c < Pow2(y + 1) {
        BitLengthUnique(c, y);
      } else if c > 0 {
        BitLengthBrackets(c);
      }
    }
    CountInterval(Pow2(q), (c: nat) => BitLength(c) == BitLength(v), Pow2(y), Pow2(y + 1));
  }

  lemma HitsZero(q: nat)
    ensures Sum(Pow2(q), HitCounts(SchemeOf(q), 0)) == Pow2(q)
  {
    var f, zero := HitCounts(SchemeOf(q), 0), (c: nat) => c == 0;
    forall c: nat ensures f(c) == if zero(c) then Pow2(q) else 0 {
      CountConstant(Pow2(q), HitsAt(SchemeOf(q), c, 0), c == 0);
    }
    SumWhere(Pow2(q), f, zero, Pow2(q));
    CountInterval(Pow2(q), zero, 0, 1);
  }

  lemma HitsOfBlock(q: nat, v: nat, c: nat)
    requires 0 < v < Pow2(q)
    ensures 0 < BitLength(v) <= q
    ensures HitCounts(SchemeOf(q), v)(c) == if BitLength(c) == BitLength(v) then Pow2(q - (BitLength(v) - 1)) else 0
  {
    CountCompletions(q, v);
    var hits := HitsAt(SchemeOf(q), c, v);
    forall x: nat ensures hits(x) == (BitLength(c) == BitLength(v) && Completes(v, x)) { HitsValue(c, x, v); }
    if BitLength(c) == BitLength(v) {
      CountAgrees(Pow2(q), hits, (x: nat) => Completes(v, x));
    } else {
      CountConstant(Pow2(q), hits, false);
    }
  }

  /** Each bucket of a scheme is hit by as many pairs of blocks as any other. */
  lemma SchemeIsBalanced(q: nat, v: nat)
    requires v < Pow2(q)
    ensures Sum(Pow2(q), HitCounts(SchemeOf(q), v)) == Pow2(q)
  {
    if v == 0 {
      HitsZero(q);
    } else {
      CountOctave(q, v);
      var y := BitLength(v) - 1;
      var octave := (c: nat) => BitLength(c) == BitLength(v);
      forall c: nat ensures HitCounts(SchemeOf(q), v)(c) == if octave(c) then Pow2(q - y) else 0 {
        HitsOfBlock(q, v, c);
      }
      SumOverOctave(HitCounts(SchemeOf(q), v), octave, q, y);
    }
  }

  lemma SumOverOctave(f: nat -> nat, octave: nat -> bool, q: nat, y: nat)
    requires y <= q && Count(Pow2(q), octave) == Pow2(y)
    requires forall c: nat :: f(c) == if octave(c) then Pow2(q - y) else 0
    ensures Sum(Pow2(q), f) == Pow2(q)
  {
    SumWhere(Pow2(q), f, octave, Pow2(q - y));
    Pow2Add(q - y, y);
  }

  // ----- the keys of a bucket

  /** The buckets of the keys with unused bits `h`, if `index` gives the bucket of a key. */
  ghost function PartsFunction(index: Key -> nat, w: nat, k: nat, h: nat): (nat, nat, nat) -> nat
    requires 1 <= k <= w
  {
    (al: nat, bl: nat, cl: nat) => index(KeyOf(w, k, h, al, bl, cl))
  }

  /** How many keys go to bucket `v`, for each combination of unused bits. */
  ghost function KeyParts(index: Key -> nat, w: nat, k: nat, v: nat): nat -> nat
    requires 1 <= k <= w
  {
    (h: nat) => Sum(Pow2(k), Rows(Pow2(k - 1), PartsFunction(index, w, k, h), v))
  }

  /** How many of all the keys go to bucket `v`, counted by the parts that rank `k` divides them into. */
  ghost function Hits(index: Key -> nat, w: nat, k: nat, v: nat): nat
    requires 1 <= k <= w
  {
    Sum(HighParts(w, k), KeyParts(index, w, k, v))
  }

  /** `index` depends on the parts of a key in the way that is counted. */
  ghost predicate ByParts(index: Key -> nat, w: nat, n: nat, k: nat)
    requires 1 <= k <= w
  {
    forall h: nat, al: nat, bl: nat, cl: nat | h < HighParts(w, k) && LowParts(k, al, bl, cl) ::
      index(KeyOf(w, k, h, al, bl, cl)) == LowIndex(SchemeOf(k - 1), n, Second(k, Spare(w, k, h)), al, bl, cl)
  }

  lemma SchemeIsSound(k: nat, spare: nat)
    requires k >= 1
    ensures Sound(SchemeOf(k - 1), Second(k, spare))
  {
    forall c: nat, x: nat | c < Pow2(k - 1) ensures Hit(c, x) < Pow2(k - 1) {
      LowerScheme(c, x, k - 1);
    }
  }

  lemma ChosenByParts(key: Key, n: nat, k: nat, spare: nat, al: nat, bl: nat, cl: nat)
    requires n >= 2 && k >= 1 && Pow2(k - 1) < n && cl < Pow2(k)
    requires key.a % Pow2(k - 1) == al && key.b % Pow2(k - 1) == bl && key.c % Pow2(k) == cl
    ensures Choose(key, n, k, spare) == LowIndex(SchemeOf(k - 1), n, Second(k, spare), al, bl, cl)
  {
    LowIndexOfScheme(n, k, spare, al, bl, cl);
    if cl < Pow2(k - 1) {
      ChosenLower(key, n, k, spare, cl);
    } else {
      ChosenUpper(key, n, k, spare, cl - Pow2(k - 1));
    }
  }

  /** The bucket of a key depends on its parts as counted. */
  lemma IndexFromParts(w: nat, n: nat, k: nat, h: nat, al: nat, bl: nat, cl: nat)
    requires Parameters(w, n, k) && 1 <= k <= w && h < HighParts(w, k) && LowParts(k, al, bl, cl)
    ensures Index(w, KeyOf(w, k, h, al, bl, cl), n)
         == LowIndex(SchemeOf(k - 1), n, Second(k, Spare(w, k, h)), al, bl, cl)
  {
    ParametersMean(w, n, k);
    KeyFromParts(w, k, h, al, bl, cl);
    ChosenByParts(KeyOf(w, k, h, al, bl, cl), n, k, Spare(w, k, h), al, bl, cl);
    SpareOfParts(w, n, k, h, al, bl, cl);
  }

  lemma LowIndexOfScheme(n: nat, k: nat, spare: nat, al: nat, bl: nat, cl: nat)
    requires k >= 1 && n > 0
    ensures LowIndex(SchemeOf(k - 1), n, Second(k, spare), al, bl, cl)
         == if cl < Pow2(k - 1) then Hit(cl, SelectBlock(al, bl, cl))
            else Placed(n, Second(k, spare), Pow2(k - 1) + SelectBlock(al, bl, cl),
                        Hit(cl - Pow2(k - 1), SelectBlock(bl, al, cl)))
  {
  }

  lemma PartsHits(index: Key -> nat, w: nat, n: nat, k: nat, v: nat, h: nat)
    requires 1 <= k <= w && h < HighParts(w, k) && ByParts(index, w, n, k)
    ensures KeyParts(index, w, k, v)(h) == LowHits(SchemeOf(k - 1), n, Second(k, Spare(w, k, h)), v)
  {
    var s, second := SchemeOf(k - 1), Second(k, Spare(w, k, h));
    SamePartsHits(PartsFunction(index, w, k, h), s, n, second, v, Pow2(k - 1), Pow2(k));
  }

  lemma SamePartsHits(parts: (nat, nat, nat) -> nat, s: Scheme, n: nat, second: nat -> nat, v: nat, p: nat, all: nat)
    requires p == s.p && all == 2 * p
    requires forall al: nat, bl: nat, cl: nat | al < p && bl < p && cl < all ::
               parts(al, bl, cl) == LowIndex(s, n, second, al, bl, cl)
    ensures Sum(all, Rows(p, parts, v)) == LowHits(s, n, second, v)
  {
    SameRows(p, all, parts, LowFunction(s, n, second), v);
    LowHitsIs(s, n, second, v, p, all);
  }

  lemma LowHitsIs(s: Scheme, n: nat, second: nat -> nat, v: nat, p: nat, all: nat)
    requires p == s.p && all == 2 * p
    ensures LowHits(s, n, second, v) == Sum(all, Rows(p, LowFunction(s, n, second), v))
  {
  }

  // ----- over the spare bits

  /** How many of the spare values put the second candidate for `large` into an interval. */
  ghost function ShareAt(spares: nat, lo: nat, hi: nat, large: nat): nat
    requires large > 0
  {
    MulStrict(large, 0, large + 1);
    Count(spares, Residues(large * (large + 1), lo, hi))
  }

  lemma SecondIs(k: nat, spare: nat, large: nat, v: nat)
    requires k >= 1 && large > 0 && v >= Pow2(k - 1)
    ensures large * (large + 1) > 0
    ensures var lo := (v - Pow2(k - 1)) * Pow2(k);
            Second(k, spare)(large) == v <==> lo <= spare % (large * (large + 1)) < lo + Pow2(k)
  {
    MulStrict(large, 0, large + 1);
    var j, x := v - Pow2(k - 1), spare % (large * (large + 1));
    DivAtLeast(x, Pow2(k), j);
    DivAtLeast(x, Pow2(k), j + 1);
    Distribute(Pow2(k), j, 1);
  }

  lemma SecondBelow(k: nat, spare: nat, large: nat, n: nat)
    requires k >= 1 && large > 0 && n >= Pow2(k - 1)
    ensures large * (large + 1) > 0
    ensures Second(k, spare)(large) < n <==> spare % (large * (large + 1)) < (n - Pow2(k - 1)) * Pow2(k)
  {
    MulStrict(large, 0, large + 1);
    DivAtLeast(spare % (large * (large + 1)), Pow2(k), n - Pow2(k - 1));
  }

  /** Whole periods of spare values in all combinations of unused bits. */
  function Periods(w: nat, k: nat): nat
    requires 1 <= k <= w
  {
    Pow2(4 * w - 3 * k + 2 - SpareWidth(w, k))
  }

  function Spares(w: nat, k: nat): nat
    requires 1 <= k <= w
  {
    Pow2(SpareWidth(w, k))
  }

  lemma CountSpares(w: nat, k: nat, p: nat -> bool, q: nat -> bool)
    requires 1 <= k <= w && forall h: nat :: p(h) == q(Spare(w, k, h))
    ensures Count(HighParts(w, k), p) == Periods(w, k) * Count(Spares(w, k), q)
  {
    SparePeriods(w, k, 0);
    CountPeriods(Periods(w, k), Spares(w, k), p, q);
  }

  ghost function SecondHits(w: nat, k: nat, v: nat, large: nat): nat -> bool
    requires 1 <= k <= w
  {
    (h: nat) => Second(k, Spare(w, k, h))(large) == v
  }

  lemma CountSecond(w: nat, k: nat, v: nat, large: nat, lo: nat)
    requires 1 <= k <= w && large > 0 && v >= Pow2(k - 1) && lo == (v - Pow2(k - 1)) * Pow2(k)
    ensures Count(HighParts(w, k), SecondHits(w, k, v, large))
         == Periods(w, k) * ShareAt(Spares(w, k), lo, lo + Pow2(k), large)
  {
    MulStrict(large, 0, large + 1);
    forall h: nat
      ensures SecondHits(w, k, v, large)(h)
           == Residues(large * (large + 1), lo, lo + Pow2(k))(Spare(w, k, h))
    {
      SecondIs(k, Spare(w, k, h), large, v);
    }
    CountSpares(w, k, SecondHits(w, k, v, large), Residues(large * (large + 1), lo, lo + Pow2(k)));
  }

  ghost function SecondAbove(w: nat, k: nat, n: nat, large: nat): nat -> bool
    requires 1 <= k <= w
  {
    (h: nat) => Second(k, Spare(w, k, h))(large) >= n
  }

  lemma {:induction false} CountNot(n: nat, p: nat -> bool, q: nat -> bool)
    requires forall x: nat | x < n :: p(x) == !q(x)
    ensures Count(n, p) + Count(n, q) == n
  {
    if n > 0 { CountNot(n - 1, p, q); }
  }

  lemma CountSecondAbove(w: nat, k: nat, n: nat, large: nat, hi: nat)
    requires 1 <= k <= w && large > 0 && n >= Pow2(k - 1) && hi == (n - Pow2(k - 1)) * Pow2(k)
    ensures Count(HighParts(w, k), SecondAbove(w, k, n, large))
            + Periods(w, k) * ShareAt(Spares(w, k), 0, hi, large)
         == HighParts(w, k)
  {
    var below := (h: nat) => Second(k, Spare(w, k, h))(large) < n;
    MulStrict(large, 0, large + 1);
    forall h: nat ensures below(h) == Residues(large * (large + 1), 0, hi)(Spare(w, k, h)) {
      SecondBelow(k, Spare(w, k, h), large, n);
    }
    CountSpares(w, k, below, Residues(large * (large + 1), 0, hi));
    CountNot(HighParts(w, k), SecondAbove(w, k, n, large), below);
  }

  ghost function ShareFrom(spares: nat, lo: nat, hi: nat, n: nat): nat -> nat
    requires n > 0
  {
    (y: nat) => ShareAt(spares, lo, hi, n + y)
  }

  ghost function LandsPair(w: nat, n: nat, k: nat, v: nat): (nat, nat) -> bool
    requires 1 <= k <= w
  {
    (h: nat, x: nat) => Lands(SchemeOf(k - 1), n, Second(k, Spare(w, k, h)), v)(x)
  }

  ghost function LandCounts(w: nat, n: nat, k: nat, v: nat): nat -> nat
    requires 1 <= k <= w
  {
    (h: nat) => Count(Pow2(k - 1), Lands(SchemeOf(k - 1), n, Second(k, Spare(w, k, h)), v))
  }

  ghost function LandsFrom(w: nat, n: nat, k: nat, v: nat, x: nat): nat -> bool
    requires 1 <= k <= w
  {
    (h: nat) => Lands(SchemeOf(k - 1), n, Second(k, Spare(w, k, h)), v)(x)
  }

  ghost function LandColumns(w: nat, n: nat, k: nat, v: nat): nat -> nat
    requires 1 <= k <= w
  {
    (x: nat) => Count(HighParts(w, k), LandsFrom(w, n, k, v, x))
  }

  lemma LandsAcross(w: nat, n: nat, k: nat, v: nat)
    requires 1 <= k <= w
    ensures Sum(HighParts(w, k), LandCounts(w, n, k, v)) == Sum(Pow2(k - 1), LandColumns(w, n, k, v))
  {
    var r := LandsPair(w, n, k, v);
    forall h: nat ensures LandCounts(w, n, k, v)(h) == Count(Pow2(k - 1), (x: nat) => r(h, x)) {
      CountAgrees(Pow2(k - 1), Lands(SchemeOf(k - 1), n, Second(k, Spare(w, k, h)), v), (x: nat) => r(h, x));
    }
    forall x: nat ensures LandColumns(w, n, k, v)(x) == Count(HighParts(w, k), (h: nat) => r(h, x)) {
      CountAgrees(HighParts(w, k), LandsFrom(w, n, k, v, x), (h: nat) => r(h, x));
    }
    CountAcross(HighParts(w, k), Pow2(k - 1), r, LandCounts(w, n, k, v), LandColumns(w, n, k, v));
  }

  lemma LandColumnBucket(w: nat, n: nat, k: nat, v: nat, x: nat)
    requires 1 <= k <= w && Pow2(k - 1) + x < n
    ensures LandColumns(w, n, k, v)(x) == if Pow2(k - 1) + x == v then HighParts(w, k) else 0
  {
    CountConstant(HighParts(w, k), LandsFrom(w, n, k, v, x), Pow2(k - 1) + x == v);
  }

  lemma LandColumn(w: nat, n: nat, k: nat, v: nat, x: nat, lo: nat)
    requires 1 <= k <= w && v >= Pow2(k - 1) && n <= Pow2(k - 1) + x && lo == (v - Pow2(k - 1)) * Pow2(k)
    ensures LandColumns(w, n, k, v)(x) == Periods(w, k) * ShareAt(Spares(w, k), lo, lo + Pow2(k), Pow2(k - 1) + x)
  {
    var large := Pow2(k - 1) + x;
    assert LandColumns(w, n, k, v)(x) == Count(HighParts(w, k), SecondHits(w, k, v, large)) by {
      CountAgrees(HighParts(w, k), LandsFrom(w, n, k, v, x), SecondHits(w, k, v, large));
    }
    CountSecond(w, k, v, large, lo);
  }

  /** The large results that are buckets. */
  lemma LandBuckets(w: nat, n: nat, k: nat, v: nat, p: nat, high: nat)
    requires 1 <= k <= w && p == Pow2(k - 1) <= v < n && high == HighParts(w, k)
    ensures Sum(n - p, LandColumns(w, n, k, v)) == high
  {
    var f := LandColumns(w, n, k, v);
    var here := (x: nat) => x == v - p;
    forall x: nat | x < n - p ensures f(x) == if here(x) then high else 0 { LandColumnBucket(w, n, k, v, x); }
    SumWhere(n - p, f, here, high);
    CountInterval(n - p, here, v - p, v - p + 1);
  }

  /** A sum whose first part is known and whose terms are multiples from there on. */
  lemma SumInTwo(n: nat, a: nat, m: nat, f: nat -> nat, g: nat -> nat, first: nat, t: int)
    requires n == a + m && Sum(a, f) == first && forall y: nat | y < m :: f(a + y) == t * g(y)
    ensures Sum(n, f) == first + t * Sum(m, g)
  {
    var rest := (y: nat) => f(a + y);
    SumInParts(a, m, f, rest);
    SumScaled(m, rest, g, t);
  }

  ghost function FallsPair(w: nat, n: nat, k: nat): (nat, nat) -> bool
    requires 1 <= k <= w
  {
    (h: nat, x: nat) => Falls(SchemeOf(k - 1), n, Second(k, Spare(w, k, h)))(x)
  }

  ghost function FallCounts(w: nat, n: nat, k: nat): nat -> nat
    requires 1 <= k <= w
  {
    (h: nat) => Count(Pow2(k - 1), Falls(SchemeOf(k - 1), n, Second(k, Spare(w, k, h))))
  }

  ghost function FallsFrom(w: nat, n: nat, k: nat, x: nat): nat -> bool
    requires 1 <= k <= w
  {
    (h: nat) => Falls(SchemeOf(k - 1), n, Second(k, Spare(w, k, h)))(x)
  }

  ghost function FallColumns(w: nat, n: nat, k: nat): nat -> nat
    requires 1 <= k <= w
  {
    (x: nat) => Count(HighParts(w, k), FallsFrom(w, n, k, x))
  }

  lemma FallsAcross(w: nat, n: nat, k: nat)
    requires 1 <= k <= w
    ensures Sum(HighParts(w, k), FallCounts(w, n, k)) == Sum(Pow2(k - 1), FallColumns(w, n, k))
  {
    var r := FallsPair(w, n, k);
    forall h: nat ensures FallCounts(w, n, k)(h) == Count(Pow2(k - 1), (x: nat) => r(h, x)) {
      CountAgrees(Pow2(k - 1), Falls(SchemeOf(k - 1), n, Second(k, Spare(w, k, h))), (x: nat) => r(h, x));
    }
    forall x: nat ensures FallColumns(w, n, k)(x) == Count(HighParts(w, k), (h: nat) => r(h, x)) {
      CountAgrees(HighParts(w, k), FallsFrom(w, n, k, x), (h: nat) => r(h, x));
    }
    CountAcross(HighParts(w, k), Pow2(k - 1), r, FallCounts(w, n, k), FallColumns(w, n, k));
  }

  lemma FallColumnBucket(w: nat, n: nat, k: nat, x: nat)
    requires 1 <= k <= w && Pow2(k - 1) + x < n
    ensures FallColumns(w, n, k)(x) == 0
  {
    CountConstant(HighParts(w, k), FallsFrom(w, n, k, x), false);
  }

  lemma FallColumn(w: nat, n: nat, k: nat, x: nat, hi: nat)
    requires 1 <= k <= w && Pow2(k - 1) < n <= Pow2(k - 1) + x && hi == (n - Pow2(k - 1)) * Pow2(k)
    ensures FallColumns(w, n, k)(x) + Periods(w, k) * ShareAt(Spares(w, k), 0, hi, Pow2(k - 1) + x)
         == HighParts(w, k)
  {
    var large := Pow2(k - 1) + x;
    assert FallColumns(w, n, k)(x) == Count(HighParts(w, k), SecondAbove(w, k, n, large)) by {
      CountAgrees(HighParts(w, k), FallsFrom(w, n, k, x), SecondAbove(w, k, n, large));
    }
    CountSecondAbove(w, k, n, large, hi);
  }

  lemma FallBuckets(w: nat, n: nat, k: nat, p: nat)
    requires 1 <= k <= w && p == Pow2(k - 1) < n
    ensures Sum(n - p, FallColumns(w, n, k)) == 0
  {
    var f := FallColumns(w, n, k);
    forall x: nat | x < n - p ensures f(x) == 0 { FallColumnBucket(w, n, k, x); }
    SumWhere(n - p, f, (x: nat) => false, 0);
  }

  // ----- the keys of a bucket, by columns

  lemma KeyPartsAbove(index: Key -> nat, w: nat, n: nat, k: nat, v: nat, h: nat, p: nat)
    requires 1 <= k <= w && h < HighParts(w, k) && ByParts(index, w, n, k) && p == Pow2(k - 1) <= v < n
    ensures KeyParts(index, w, k, v)(h) == Times(LandCounts(w, n, k, v)(h), p) * p
  {
    PowerHitsAbove(n, k, v, Spare(w, k, h), p);
    PartsHits(index, w, n, k, v, h);
  }

  lemma PowerHitsAbove(n: nat, k: nat, v: nat, spare: nat, p: nat)
    requires k >= 1 && p == Pow2(k - 1) <= v < n
    ensures LowHits(SchemeOf(k - 1), n, Second(k, spare), v)
         == Times(Count(p, Lands(SchemeOf(k - 1), n, Second(k, spare), v)), p) * p
  {
    SchemeIsSound(k, spare);
    LowHitsAbove(SchemeOf(k - 1), n, Second(k, spare), v);
  }

  lemma KeyPartsBelow(index: Key -> nat, w: nat, n: nat, k: nat, v: nat, h: nat, p: nat)
    requires 1 <= k <= w && h < HighParts(w, k) && ByParts(index, w, n, k) && v < p == Pow2(k - 1) < n
    ensures KeyParts(index, w, k, v)(h) == p * p + FallCounts(w, n, k)(h) * p
  {
    assert FallCounts(w, n, k)(h)
        == Count(Pow2(k - 1), Falls(SchemeOf(k - 1), n, Second(k, Spare(w, k, h))));
    PowerHitsBelow(n, k, v, Spare(w, k, h));
    PartsHits(index, w, n, k, v, h);
  }

  lemma PowerHitsBelow(n: nat, k: nat, v: nat, spare: nat)
    requires k >= 1 && v < Pow2(k - 1) < n
    ensures LowHits(SchemeOf(k - 1), n, Second(k, spare), v)
         == Pow2(k - 1) * Pow2(k - 1)
            + Count(Pow2(k - 1), Falls(SchemeOf(k - 1), n, Second(k, spare))) * Pow2(k - 1)
  {
    SchemeIsSound(k, spare);
    SchemeIsBalanced(k - 1, v);
    LowHitsBelow(SchemeOf(k - 1), n, Second(k, spare), v);
  }

  lemma SumSquares(t: nat, p: nat, f: nat -> nat, g: nat -> nat)
    requires forall h: nat | h < t :: f(h) == Times(g(h), p) * p
    ensures Sum(t, f) == (p * p) * Sum(t, g)
  {
    forall h: nat | h < t ensures f(h) == (p * p) * g(h) { Associate(g(h), p, p); }
    SumScaled(t, f, g, p * p);
  }

  lemma {:induction false} SumAffine(t: nat, p: nat, f: nat -> nat, g: nat -> nat)
    requires forall h: nat | h < t :: f(h) == p * p + g(h) * p
    ensures Sum(t, f) == (p * p) * t + p * Sum(t, g)
  {
    if t > 0 {
      SumAffine(t - 1, p, f, g);
      Distribute(p * p, t - 1, 1);
      Distribute(p, Sum(t - 1, g), g(t - 1));
    }
  }

  lemma HitsAbove(index: Key -> nat, w: nat, n: nat, k: nat, v: nat, p: nat)
    requires 1 <= k <= w && ByParts(index, w, n, k) && p == Pow2(k - 1) <= v < n
    ensures Hits(index, w, k, v) == (p * p) * Sum(p, LandColumns(w, n, k, v))
  {
    var high, f, g := HighParts(w, k), KeyParts(index, w, k, v), LandCounts(w, n, k, v);
    assert Sum(high, f) == (p * p) * Sum(high, g) by {
      forall h: nat | h < high ensures f(h) == Times(g(h), p) * p { KeyPartsAbove(index, w, n, k, v, h, p); }
      SumSquares(high, p, f, g);
    }
    LandsAcross(w, n, k, v);
  }

  lemma HitsBelow(index: Key -> nat, w: nat, n: nat, k: nat, v: nat, p: nat, high: nat)
    requires 1 <= k <= w && ByParts(index, w, n, k) && v < p == Pow2(k - 1) < n && high == HighParts(w, k)
    ensures Hits(index, w, k, v) == (p * p) * high + p * Sum(p, FallColumns(w, n, k))
  {
    var f, g := KeyParts(index, w, k, v), FallCounts(w, n, k);
    assert Sum(high, f) == (p * p) * high + p * Sum(high, g) by {
      forall h: nat | h < high ensures f(h) == p * p + g(h) * p { KeyPartsBelow(index, w, n, k, v, h, p); }
      SumAffine(high, p, f, g);
    }
    FallsAcross(w, n, k);
  }

  // ----- how close to an equal share

  /** `c` out of `spares` is the share of `i` in `large * (large + 1)`, to within `i`. */
  predicate Near(c: int, spares: int, i: int, large: int) {
    (c - i) * (large * (large + 1)) <= spares * i <= (c + i) * (large * (large + 1))
  }

  /** One more term of the sum of `1 / (l * (l + 1))`, which telescopes. */
  lemma TelescopeStep(n: int, j: int, x: int, y: int, total: int)
    requires 0 < n <= j && x * (n * j) <= total * (j - n) && y * (j * (j + 1)) <= total
    ensures (x + y) * (n * (j + 1)) <= total * (j + 1 - n)
  {
    var a, b := x * (n * j), y * (j * (j + 1));
    MulMonotone(j + 1, a, total * (j - n));
    MulMonotone(n, b, total);
    StepLeft(n, j, x, y);
    StepRight(n, j, total);
    CancelFactor(j, (x + y) * (n * (j + 1)), total * (j + 1 - n));
  }

  lemma StepLeft(n: int, j: int, x: int, y: int)
    ensures j * ((x + y) * (n * (j + 1))) == (j + 1) * (x * (n * j)) + n * (y * (j * (j + 1)))
  {
    Rearrange(j, x, n, j + 1);
    assert j * (y * (n * (j + 1))) == n * (y * (j * (j + 1))) by { Exchange(j, y, n, j + 1); }
    Distribute(n * (j + 1), x, y);
    Distribute(j, x * (n * (j + 1)), y * (n * (j + 1)));
  }

  lemma Rearrange(j: int, x: int, n: int, k: int)
    ensures j * (x * (n * k)) == k * (x * (n * j))
  {
  }

  lemma Exchange(j: int, y: int, n: int, k: int)
    ensures j * (y * (n * k)) == n * (y * (j * k))
  {
  }

  lemma StepRight(n: int, j: int, total: int)
    ensures (j + 1) * (total * (j - n)) + n * total == j * (total * (j + 1 - n))
  {
    assert (j + 1) * (j - n) + n == j * (j + 1 - n);
    Associate(j + 1, total, j - n);
    Distribute(total, (j + 1) * (j - n), n);
    Associate(j, total, j + 1 - n);
  }

  lemma CancelFactor(j: int, x: int, y: int)
    requires j > 0 && j * x <= j * y
    ensures x <= y
  {
    if x > y { MulStrict(j, y, x); }
  }

  /** The terms from `n` to `n + m` add up to `m / (n * (n + m))`, to within the bounds of the terms. */
  lemma {:induction false} Telescope(n: nat, m: nat, spares: int, i: int, share: nat -> nat)
    requires n > 0 && forall y: nat | y < m :: Near(share(y), spares, i, n + y)
    ensures var s: int := Sum(m, share);
            (s - m * i) * (n * (n + m)) <= (spares * i) * m
            && (0 - s - m * i) * (n * (n + m)) <= (0 - spares * i) * m
    decreases m
  {
    if m > 0 {
      Telescope(n, m - 1, spares, i, share);
      assert Near(share(m - 1), spares, i, n + (m - 1));
      TelescopeNext(n, m, spares, i, Sum(m - 1, share), share(m - 1));
    }
  }

  lemma TelescopeNext(n: int, m: int, spares: int, i: int, s: int, c: int)
    requires n > 0 && m > 0 && Near(c, spares, i, n + (m - 1))
    requires (s - (m - 1) * i) * (n * (n + (m - 1))) <= (spares * i) * (m - 1)
    requires (0 - s - (m - 1) * i) * (n * (n + (m - 1))) <= (0 - spares * i) * (m - 1)
    ensures (s + c - m * i) * (n * (n + m)) <= (spares * i) * m
    ensures (0 - (s + c) - m * i) * (n * (n + m)) <= (0 - spares * i) * m
  {
    var j := n + m - 1;
    assert m * i == (m - 1) * i + i by { Distribute(i, m - 1, 1); }
    TelescopeStep(n, j, s - (m - 1) * i, c - i, spares * i);
    assert (0 - c - i) * (j * (j + 1)) == 0 - (c + i) * (j * (j + 1));
    TelescopeStep(n, j, 0 - s - (m - 1) * i, 0 - c - i, 0 - spares * i);
  }

  /** `hits` is an `n`-th of `keys`, to within `keys * m / spares`. */
  predicate Fair(hits: int, n: int, keys: int, m: int, spares: int) {
    Abs(hits * n - keys) * spares <= keys * (n * m)
  }

  /** The sum of shares of `c * (n + m)`, freed from the common factor. */
  lemma SharesTotal(n: nat, m: nat, c: nat, i: nat, spares: nat, share: nat -> nat)
    requires n > 0 && i == c * (n + m) && AllNear(share, m, spares, i, n)
    ensures var d := n * Sum(m, share) - m * (spares * c);
            var e := n * (m * i);
            d <= e && 0 - d <= e
  {
    Telescope(n, m, spares, i, share);
    FreedTotal(n, m, c, i, spares, Sum(m, share));
  }

  lemma FreedTotal(n: int, m: int, c: int, i: int, spares: int, s: int)
    requires n > 0 && m >= 0 && i == c * (n + m)
    requires (s - m * i) * (n * (n + m)) <= (spares * i) * m
    requires (0 - s - m * i) * (n * (n + m)) <= (0 - spares * i) * m
    ensures var d := n * s - m * (spares * c);
            var e := n * (m * i);
            d <= e && 0 - d <= e
  {
    var all := n + m;
    assert i == all * c;
    Freed(all, n, m, c, spares, s - m * i);
    assert 0 - spares * i == (0 - spares) * i;
    Freed(all, n, m, c, 0 - spares, 0 - s - m * i);
    assert m * ((0 - spares) * c) == 0 - m * (spares * c);
    TotalBound(n, s, m * i, m * (spares * c));
  }

  lemma TotalBound(n: int, s: int, e: int, a: int)
    requires n * (s - e) <= a && n * (0 - s - e) <= 0 - a
    ensures n * s - a <= n * e && a - n * s <= n * e
  {
    Distribute(n, s, 0 - e);
    Distribute(n, 0 - s, 0 - e);
    assert n * (0 - e) == 0 - n * e && n * (0 - s) == 0 - n * s;
  }

  lemma Freed(all: int, n: int, m: int, c: int, spares: int, x: int)
    requires all > 0 && x * (n * all) <= (spares * (all * c)) * m
    ensures n * x <= m * (spares * c)
  {
    assert x * (n * all) == all * (n * x);
    assert (spares * (all * c)) * m == all * (m * (spares * c));
    CancelFactor(all, n * x, m * (spares * c));
  }

  ghost predicate AllNear(share: nat -> nat, m: nat, spares: int, i: int, n: int) {
    forall y: nat | y < m :: Near(share(y), spares, i, n + y)
  }

  ghost predicate Multiples(f: nat -> nat, a: nat, m: nat, t: int, share: nat -> nat) {
    forall y: nat | y < m :: f(a + y) == t * share(y)
  }

  ghost predicate Complements(f: nat -> nat, a: nat, m: nat, t: int, share: nat -> nat, each: int) {
    forall y: nat | y < m :: f(a + y) + t * share(y) == each
  }

  lemma MultiplesIntro(f: nat -> nat, a: nat, m: nat, t: int, share: nat -> nat)
    requires forall y: nat | y < m :: f(a + y) == t * share(y)
    ensures Multiples(f, a, m, t, share)
  {
  }

  lemma ComplementsIntro(f: nat -> nat, a: nat, m: nat, t: int, share: nat -> nat, each: int)
    requires forall y: nat | y < m :: f(a + y) + t * share(y) == each
    ensures Complements(f, a, m, t, share, each)
  {
  }

  /** A bucket of the upper half, whose keys are counted by columns. */
  lemma FairAbove(p: nat, all: nat, n: nat, spares: nat, t: nat, high: nat, hits: nat, f: nat -> nat,
                  share: nat -> nat)
    requires 0 < p < n <= all == 2 * p && high == t * spares
    requires hits == (p * p) * Sum(p, f) && Sum(n - p, f) == high
    requires Multiples(f, n - p, all - n, t, share) && AllNear(share, all - n, spares, all, n)
    ensures Fair(hits, n, KeyCount(p, high), all - n, spares)
  {
    var m := all - n;
    SumInTwo(p, n - p, m, f, share, high, t);
    SharesTotal(n, m, 1, all, spares, share);
    AboveAlgebra(p, n, m, spares, t, hits, Sum(m, share));
  }

  /** All combinations of the parts. */
  function KeyCount(p: int, high: int): int { (2 * (p * p * p)) * high }

  lemma AboveAlgebra(p: int, n: int, m: int, spares: int, t: int, hits: int, s: int)
    requires p > 0 && n > 0 && m >= 0 && n + m == 2 * p && t >= 0 && spares >= 0
    requires hits == (p * p) * (t * spares + t * s)
    requires var d, e := n * s - m * spares, n * (m * (2 * p)); d <= e && 0 - d <= e
    ensures Fair(hits, n, KeyCount(p, t * spares), m, spares)
  {
    var q := (p * p) * t;
    assert hits == q * (spares + s) by {
      Distribute(t, spares, s);
      Associate(p * p, t, spares + s);
    }
    FairFromExcess(p, q, n, m, spares, hits, n * s - m * spares) by {
      Excess(q, n, m, p, spares, s);
    }
    assert (2 * (p * p * p)) * (t * spares) == (2 * p * q) * spares;
  }

  lemma Excess(q: int, n: int, m: int, p: int, spares: int, s: int)
    requires n + m == 2 * p
    ensures (q * (spares + s)) * n - (2 * p * q) * spares == q * (n * s - m * spares)
  {
    assert (q * (spares + s)) * n == q * (n * spares + n * s);
    assert (2 * p * q) * spares == q * (n * spares + m * spares) by { Distribute(spares, n, m); }
    Distribute(q, n * spares + n * s, 0 - (n * spares + m * spares));
  }

  lemma FairFromExcess(p: int, q: int, n: int, m: int, spares: int, hits: int, d: int)
    requires q >= 0 && spares >= 0 && d <= n * (m * (2 * p)) && 0 - d <= n * (m * (2 * p))
    requires hits * n - (2 * p * q) * spares == q * d
    ensures Fair(hits, n, (2 * p * q) * spares, m, spares)
  {
    var e := n * (m * (2 * p));
    ScaledBound(q, d, e, spares);
    assert (q * e) * spares == ((2 * p * q) * spares) * (n * m) by {
      assert q * e == (2 * p * q) * (n * m);
      Associate((2 * p * q), n * m, spares);
    }
  }

  lemma ScaledBound(q: int, d: int, e: int, spares: int)
    requires q >= 0 && spares >= 0 && d <= e && 0 - d <= e
    ensures Abs(q * d) * spares <= (q * e) * spares
  {
    MulMonotone(q, d, e);
    MulMonotone(q, 0 - d, e);
    assert q * (0 - d) == 0 - q * d;
    MulMonotone(spares, Abs(q * d), q * e);
  }

  /** A bucket of the lower half. */
  lemma FairBelow(p: nat, all: nat, n: nat, spares: nat, t: nat, high: nat, hits: nat, f: nat -> nat,
                  hi: nat, share: nat -> nat)
    requires 0 < p < n <= all == 2 * p && high == t * spares
    requires hits == (p * p) * high + p * Sum(p, f) && Sum(n - p, f) == 0 && hi == (n - p) * all
    requires Complements(f, n - p, all - n, t, share, high) && AllNear(share, all - n, spares, hi, n)
    ensures Fair(hits, n, KeyCount(p, high), all - n, spares)
  {
    var m := all - n;
    SumInComplement(p, n - p, m, f, share, high, t);
    SharesTotal(n, m, n - p, hi, spares, share);
    BelowAlgebra(p, n, m, spares, t, hits, Sum(m, share), Sum(p, f), hi);
  }

  lemma SumInComplement(n: nat, a: nat, m: nat, f: nat -> nat, g: nat -> nat, each: int, t: int)
    requires n == a + m && Sum(a, f) == 0 && forall y: nat | y < m :: f(a + y) + t * g(y) == each
    ensures Sum(n, f) + t * Sum(m, g) == m * each
  {
    var rest := (y: nat) => f(a + y);
    assert Sum(a + m, f) == Sum(m, rest) by { SumInParts(a, m, f, rest); }
    SumComplement(m, rest, g, each, t);
  }

  lemma {:induction false} SumComplement(m: nat, f: nat -> nat, g: nat -> nat, each: int, t: int)
    requires forall y: nat | y < m :: f(y) + t * g(y) == each
    ensures Sum(m, f) + t * Sum(m, g) == m * each
  {
    if m > 0 {
      SumComplement(m - 1, f, g, each, t);
      Distribute(t, Sum(m - 1, g), g(m - 1));
      Distribute(each, m - 1, 1);
    }
  }

  lemma BelowAlgebra(p: int, n: int, m: int, spares: int, t: int, hits: int, s: int, columns: int, hi: int)
    requires 0 < p < n && m >= 0 && n + m == 2 * p && t >= 0 && spares >= 0
    requires hits == (p * p) * (t * spares) + p * columns && columns + t * s == m * (t * spares)
    requires hi == (n - p) * (2 * p)
    requires var d, e := n * s - m * (spares * (n - p)), n * (m * hi); d <= e && 0 - d <= e
    ensures Fair(hits, n, KeyCount(p, t * spares), m, spares)
  {
    var q, d := p * t, n * s - m * (spares * (n - p));
    assert q >= 0;
    assert hits == q * (p * spares + m * spares - s) by { BelowHits(p, m, spares, t, s, columns); }
    assert hits * n - (2 * p * (p * q)) * spares == q * (0 - d) by { ShortFall(q, n, m, p, spares, s); }
    assert d <= p * (n * (m * (2 * p))) && 0 - d <= p * (n * (m * (2 * p))) by { BelowBound(p, n, m, d, hi); }
    FairFromShortfall(p, q, n, m, spares, hits, 0 - d);
    KeysForm(p, t, spares);
  }

  lemma KeysForm(p: int, t: int, spares: int)
    ensures (2 * p * (p * (p * t))) * spares == (2 * (p * p * p)) * (t * spares)
  {
    assert 2 * p * (p * (p * t)) == (2 * (p * p * p)) * t;
    Associate(2 * (p * p * p), t, spares);
  }

  lemma BelowHits(p: int, m: int, spares: int, t: int, s: int, columns: int)
    requires columns + t * s == m * (t * spares)
    ensures (p * p) * (t * spares) + p * columns == (p * t) * (p * spares + m * spares - s)
  {
    assert columns == t * (m * spares - s);
    assert p * columns == (p * t) * (m * spares - s);
    assert (p * p) * (t * spares) == (p * t) * (p * spares);
    Distribute(p * t, p * spares, m * spares - s);
  }

  lemma ShortFall(q: int, n: int, m: int, p: int, spares: int, s: int)
    requires n + m == 2 * p
    ensures (q * (p * spares + m * spares - s)) * n - (2 * p * (p * q)) * spares
         == q * (0 - (n * s - m * (spares * (n - p))))
  {
    var x := (p * spares + m * spares - s) * n;
    var y := (2 * p * p) * spares;
    assert x - y == 0 - (n * s - m * (spares * (n - p))) by {
      assert x == spares * (p * n + m * n) - s * n;
      assert y == spares * (p * n + p * m) by { Distribute(p, n, m); }
      assert m * (spares * (n - p)) == spares * (m * n - m * p);
    }
    assert (2 * p * (p * q)) * spares == q * y;
    assert (q * (p * spares + m * spares - s)) * n == q * x;
    Distribute(q, x, 0 - y);
  }

  lemma BelowBound(p: int, n: int, m: int, d: int, hi: int)
    requires 0 < p < n <= 2 * p && m >= 0 && hi == (n - p) * (2 * p)
    requires d <= n * (m * hi) && 0 - d <= n * (m * hi)
    ensures d <= p * (n * (m * (2 * p))) && 0 - d <= p * (n * (m * (2 * p)))
  {
    var e := n * (m * (2 * p));
    assert n * (m * hi) == e * (n - p);
    assert e >= 0;
    MulMonotone(e, n - p, p);
  }

  lemma FairFromShortfall(p: int, q: int, n: int, m: int, spares: int, hits: int, d: int)
    requires q >= 0 && p > 0 && spares >= 0 && d <= p * (n * (m * (2 * p))) && 0 - d <= p * (n * (m * (2 * p)))
    requires hits * n - (2 * p * (p * q)) * spares == q * d
    ensures Fair(hits, n, (2 * p * (p * q)) * spares, m, spares)
  {
    var e := p * (n * (m * (2 * p)));
    ScaledBound(q, d, e, spares);
    assert (q * e) * spares == ((2 * p * (p * q)) * spares) * (n * m) by {
      assert q * e == (2 * p * (p * q)) * (n * m);
      Associate((2 * p * (p * q)), n * m, spares);
    }
  }

  // ----- the theorem

  lemma KeysTotal(w: nat, k: nat, p: nat)
    requires 1 <= k <= w && p == Pow2(k - 1)
    ensures Pow2(4 * w) == KeyCount(p, HighParts(w, k))
  {
    Pow2Add(k - 1, k - 1);
    Pow2Add(k - 1 + (k - 1), k - 1);
    assert Pow2(3 * k - 2) == 2 * (p * p * p);
    Pow2Add(3 * k - 2, 4 * w - 3 * k + 2);
  }

  /** The intervals of spare values are no longer than the moduli. */
  lemma IntervalFits(p: nat, n: nat, large: nat)
    requires p < n <= large
    ensures (n - p) * (2 * p) <= large * (large + 1)
  {
    var d := n - p;
    assert n * n == d * d + d * (2 * p) + p * p;
    assert d * d >= 0 && p * p >= 0;
    MulMonotone(n, n, large);
    MulMonotone(large, n, large + 1);
  }

  lemma ShareIsNear(spares: nat, lo: nat, i: nat, large: nat)
    requires large > 0 && lo + i <= large * (large + 1)
    ensures Near(ShareAt(spares, lo, lo + i, large), spares, i, large)
  {
    MulStrict(large, 0, large + 1);
    ResidueShare(spares, large * (large + 1), lo, lo + i);
  }

  lemma UpperColumn(w: nat, n: nat, k: nat, v: nat, p: nat, all: nat, t: nat, lo: nat, share: nat -> nat,
                    f: nat -> nat, y: nat)
    requires 1 <= k <= w && p == Pow2(k - 1) <= v < n <= all == Pow2(k) && t == Periods(w, k)
    requires lo == (v - p) * all && share == ShareFrom(Spares(w, k), lo, lo + all, n) && f == LandColumns(w, n, k, v)
    ensures f(n - p + y) == t * share(y)
  {
    assert share(y) == ShareAt(Spares(w, k), lo, lo + all, n + y);
    LandColumn(w, n, k, v, n - p + y, lo);
  }

  lemma UpperColumns(w: nat, n: nat, k: nat, v: nat, p: nat, all: nat, t: nat, lo: nat, share: nat -> nat,
                     f: nat -> nat)
    requires 1 <= k <= w && p == Pow2(k - 1) <= v < n <= all == Pow2(k) && t == Periods(w, k)
    requires lo == (v - p) * all && share == ShareFrom(Spares(w, k), lo, lo + all, n) && f == LandColumns(w, n, k, v)
    ensures Multiples(f, n - p, all - n, t, share)
  {
    forall y: nat | y < all - n ensures f(n - p + y) == t * share(y) {
      UpperColumn(w, n, k, v, p, all, t, lo, share, f, y);
    }
    MultiplesIntro(f, n - p, all - n, t, share);
  }

  lemma UpperShares(p: nat, all: nat, n: nat, v: nat, spares: nat, lo: nat, share: nat -> nat)
    requires p <= v < n <= all == 2 * p && lo == (v - p) * all
    requires share == ShareFrom(spares, lo, lo + all, n)
    ensures AllNear(share, all - n, spares, all, n)
  {
    NextInterval(v - p, n - p, all);
    forall y: nat | y < all - n ensures Near(share(y), spares, all, n + y) {
      IntervalFits(p, n, n + y);
      ShareIsNear(spares, lo, all, n + y);
    }
  }

  /** The numbers that the counts are made of. */
  ghost predicate Sizes(w: nat, k: nat, p: nat, all: nat, t: nat, spares: nat, high: nat) {
    && 1 <= k <= w && p == Pow2(k - 1) && all == Pow2(k)
    && t == Periods(w, k) && spares == Spares(w, k) && high == HighParts(w, k)
  }

  lemma SizesMean(w: nat, k: nat, p: nat, all: nat, t: nat, spares: nat, high: nat)
    requires Sizes(w, k, p, all, t, spares, high)
    ensures 0 < p && all == 2 * p && high == t * spares && KeyCount(p, high) == Pow2(4 * w)
  {
    SparePeriods(w, k, 0);
    KeysTotal(w, k, p);
  }

  /** The columns for a bucket of the upper half, and the shares behind them. */
  lemma LandingColumns(index: Key -> nat, w: nat, n: nat, k: nat, v: nat, p: nat, all: nat, t: nat, spares: nat,
                       high: nat)
      returns (hits: nat, f: nat -> nat, share: nat -> nat)
    requires Sizes(w, k, p, all, t, spares, high) && ByParts(index, w, n, k) && p <= v < n <= all == 2 * p
    ensures hits == Hits(index, w, k, v) == (p * p) * Sum(p, f)
    ensures Sum(n - p, f) == high
    ensures Multiples(f, n - p, all - n, t, share)
    ensures AllNear(share, all - n, spares, all, n)
  {
    var lo := Times(v - p, all);
    hits, f, share := Hits(index, w, k, v), LandColumns(w, n, k, v), ShareFrom(spares, lo, lo + all, n);
    UpperColumns(w, n, k, v, p, all, t, lo, share, f);
    UpperShares(p, all, n, v, spares, lo, share);
    LandBuckets(w, n, k, v, p, high);
    HitsAbove(index, w, n, k, v, p);
  }

  lemma FairForUpper(index: Key -> nat, w: nat, n: nat, k: nat, v: nat, p: nat, all: nat, t: nat, spares: nat,
                     high: nat)
    requires Sizes(w, k, p, all, t, spares, high) && ByParts(index, w, n, k) && p <= v < n
    requires 0 < p < n <= all == 2 * p && high == t * spares
    ensures Fair(Hits(index, w, k, v), n, KeyCount(p, high), all - n, spares)
  {
    var hits, f, share := LandingColumns(index, w, n, k, v, p, all, t, spares, high);
    FairAbove(p, all, n, spares, t, high, hits, f, share);
  }

  lemma NextInterval(j: int, d: int, i: int)
    requires j < d && i >= 0
    ensures j * i + i <= d * i
  {
    MulMonotone(i, j + 1, d);
    Distribute(i, j, 1);
  }

  lemma LowerColumn(w: nat, n: nat, k: nat, p: nat, all: nat, t: nat, high: nat, hi: nat, share: nat -> nat, y: nat)
    requires 1 <= k <= w && p == Pow2(k - 1) < n <= all == Pow2(k) && t == Periods(w, k) && high == HighParts(w, k)
    requires hi == (n - p) * all && share == ShareFrom(Spares(w, k), 0, hi, n)
    ensures FallColumns(w, n, k)(n - p + y) + t * share(y) == high
  {
    assert share(y) == ShareAt(Spares(w, k), 0, hi, n + y);
    FallColumn(w, n, k, n - p + y, hi);
  }

  lemma LowerColumns(w: nat, n: nat, k: nat, p: nat, all: nat, t: nat, high: nat, hi: nat, share: nat -> nat)
    requires 1 <= k <= w && p == Pow2(k - 1) < n <= all == Pow2(k) && t == Periods(w, k) && high == HighParts(w, k)
    requires hi == (n - p) * all && share == ShareFrom(Spares(w, k), 0, hi, n)
    ensures Complements(FallColumns(w, n, k), n - p, all - n, t, share, high)
  {
    var f := FallColumns(w, n, k);
    forall y: nat | y < all - n ensures f(n - p + y) + t * share(y) == high {
      LowerColumn(w, n, k, p, all, t, high, hi, share, y);
    }
    ComplementsIntro(f, n - p, all - n, t, share, high);
  }

  lemma LowerShares(p: nat, all: nat, n: nat, spares: nat, hi: nat, share: nat -> nat)
    requires p < n <= all == 2 * p && hi == (n - p) * all
    requires share == ShareFrom(spares, 0, hi, n)
    ensures AllNear(share, all - n, spares, hi, n)
  {
    forall y: nat | y < all - n ensures Near(share(y), spares, hi, n + y) {
      IntervalFits(p, n, n + y);
      ShareIsNear(spares, 0, hi, n + y);
    }
  }

  /** The columns for a bucket of the lower half. */
  lemma FallingColumns(index: Key -> nat, w: nat, n: nat, k: nat, v: nat, p: nat, all: nat, t: nat, spares: nat,
                       high: nat, hi: nat)
      returns (hits: nat, f: nat -> nat, share: nat -> nat)
    requires Sizes(w, k, p, all, t, spares, high) && ByParts(index, w, n, k)
    requires v < p < n <= all == 2 * p && hi == (n - p) * all
    ensures hits == Hits(index, w, k, v) == (p * p) * high + p * Sum(p, f)
    ensures Sum(n - p, f) == 0
    ensures Complements(f, n - p, all - n, t, share, high)
    ensures AllNear(share, all - n, spares, hi, n)
  {
    hits, f, share := Hits(index, w, k, v), FallColumns(w, n, k), ShareFrom(spares, 0, hi, n);
    LowerColumns(w, n, k, p, all, t, high, hi, share);
    LowerShares(p, all, n, spares, hi, share);
    FallBuckets(w, n, k, p);
    HitsBelow(index, w, n, k, v, p, high);
  }

  lemma FairForLower(index: Key -> nat, w: nat, n: nat, k: nat, v: nat, p: nat, all: nat, t: nat, spares: nat,
                     high: nat)
    requires Sizes(w, k, p, all, t, spares, high) && ByParts(index, w, n, k) && v < p
    requires 0 < p < n <= all == 2 * p && high == t * spares
    ensures Fair(Hits(index, w, k, v), n, KeyCount(p, high), all - n, spares)
  {
    var hi := Times(n - p, all);
    var hits, f, share := FallingColumns(index, w, n, k, v, p, all, t, spares, high, hi);
    FairBelow(p, all, n, spares, t, high, hits, f, hi, share);
  }

  /** `index` gives the bucket of every key. */
  ghost predicate IsHash(index: Key -> nat, w: nat, n: nat)
    requires Supported(w, n)
  {
    forall key | IsKey(w, key) :: index(key) == Index(w, key, n)
  }

  lemma HashByParts(index: Key -> nat, w: nat, n: nat, k: nat)
    requires Parameters(w, n, k) && 1 <= k <= w && IsHash(index, w, n)
    ensures ByParts(index, w, n, k)
  {
    forall h: nat, al: nat, bl: nat, cl: nat | h < HighParts(w, k) && LowParts(k, al, bl, cl)
      ensures index(KeyOf(w, k, h, al, bl, cl)) == LowIndex(SchemeOf(k - 1), n, Second(k, Spare(w, k, h)), al, bl, cl)
    {
      KeyFromParts(w, k, h, al, bl, cl);
      IndexFromParts(w, n, k, h, al, bl, cl);
    }
  }

  lemma FairShares(index: Key -> nat, w: nat, n: nat, k: nat, v: nat, p: nat, all: nat, t: nat, spares: nat, high: nat)
    requires Sizes(w, k, p, all, t, spares, high) && ByParts(index, w, n, k) && p < n <= all && v < n
    ensures Fair(Hits(index, w, k, v), n, KeyCount(p, high), all - n, spares)
  {
    SizesMean(w, k, p, all, t, spares, high);
    if v < p {
      FairForLower(index, w, n, k, v, p, all, t, spares, high);
    } else {
      FairForUpper(index, w, n, k, v, p, all, t, spares, high);
    }
  }

  /** Every bucket gets an `n`-th of the keys, to within `2^k - n` parts in as many as the spare bits have values,
      where `2^k` is the power of two from `n` up. */
  lemma SharesAreFair(index: Key -> nat, w: nat, n: nat, k: nat, v: nat)
    requires Parameters(w, n, k) && v < n && IsHash(index, w, n)
    ensures 1 <= k <= w && Fair(Hits(index, w, k, v), n, Pow2(4 * w), Pow2(k) - n, Spares(w, k))
  {
    ParametersMean(w, n, k);
    HashByParts(index, w, n, k);
    FairShares(index, w, n, k, v, Pow2(k - 1), Pow2(k), Periods(w, k), Spares(w, k), HighParts(w, k));
    KeysTotal(w, k, Pow2(k - 1));
  }

  ghost predicate ExactShare(index: Key -> nat, w: nat, n: nat, k: nat, v: nat)
    requires 1 <= k <= w
  {
    Hits(index, w, k, v) * n == Pow2(4 * w)
  }

  lemma ExactAtPower(index: Key -> nat, w: nat, n: nat, k: nat, v: nat)
    requires Parameters(w, n, k) && 1 <= k <= w && IsHash(index, w, n) && v < n == Pow2(k)
    ensures ExactShare(index, w, n, k, v)
  {
    SharesAreFair(index, w, n, k, v);
    FairIsExact(Hits(index, w, k, v), n, Pow2(4 * w), Pow2(k) - n, Spares(w, k));
  }

  lemma FairIsExact(hits: int, n: int, keys: int, m: int, spares: int)
    requires Fair(hits, n, keys, m, spares) && m == 0 && spares > 0
    ensures hits * n == keys
  {
    NoError(hits * n - keys, spares, keys, n);
  }

  /** The shares are exact for every bucket if and only if their number is a power of two. */
  lemma ExactSharesIff(index: Key -> nat, w: nat, n: nat, k: nat)
    requires Parameters(w, n, k) && 1 <= k <= w && IsHash(index, w, n)
    ensures (forall v: nat | v < n :: ExactShare(index, w, n, k, v)) <==> n == Pow2(k)
  {
    ParametersMean(w, n, k);
    if n == Pow2(k) {
      forall v: nat | v < n ensures ExactShare(index, w, n, k, v) { ExactAtPower(index, w, n, k, v); }
    } else if ExactShare(index, w, n, k, 0) {
      PowerDivisor(Hits(index, w, k, 0), n, 4 * w, k);
    }
  }

  lemma NoError(d: int, spares: int, keys: int, n: int)
    requires spares > 0 && Abs(d) * spares <= keys * (n * 0)
    ensures d == 0
  {
    if d != 0 { MulStrict(spares, 0, Abs(d)); }
  }

  // ----- where the shares are far from equal

  /** With fewer spare values than the modulus, an interval among them is hit in full. */
  lemma FullShare(spares: nat, lo: nat, hi: nat, large: nat)
    requires lo <= hi <= spares <= large * (large + 1) && large > 0
    ensures ShareAt(spares, lo, hi, large) == hi - lo
  {
    var m := large * (large + 1);
    MulStrict(large, 0, large + 1);
    CountResidues(spares, m, lo, hi);
    if spares < m { DivModUnique(spares, m, 0, spares); } else { DivModUnique(spares, m, 1, 0); }
  }

  lemma {:induction false} SumOfEqual(m: nat, f: nat -> nat, each: nat)
    requires forall y: nat | y < m :: f(y) == each
    ensures Sum(m, f) == m * each
  {
    if m > 0 {
      SumOfEqual(m - 1, f, each);
      Distribute(each, m - 1, 1);
    }
  }

  lemma LargerModulus(n: nat, y: nat)
    ensures n * (n + 1) <= (n + y) * (n + y + 1)
  {
    MulMonotone(n, n + 1, n + y + 1);
    MulMonotone(n + y + 1, n, n + y);
  }

  lemma FullShares(spares: nat, lo: nat, all: nat, n: nat, share: nat -> nat)
    requires 0 < n <= all && lo + all <= spares <= n * (n + 1) && share == ShareFrom(spares, lo, lo + all, n)
    ensures Sum(all - n, share) == (all - n) * all
  {
    forall y: nat | y < all - n ensures share(y) == all {
      LargerModulus(n, y);
      FullShare(spares, lo, lo + all, n + y);
    }
    SumOfEqual(all - n, share, all);
  }

  lemma OverloadedColumns(index: Key -> nat, w: nat, n: nat, k: nat, v: nat, p: nat, all: nat, t: nat, spares: nat,
                          high: nat) returns (hits: nat, f: nat -> nat, share: nat -> nat)
    requires Sizes(w, k, p, all, t, spares, high) && ByParts(index, w, n, k) && p <= v < n <= all == 2 * p
    requires (v - p + 1) * all <= spares <= n * (n + 1)
    ensures hits == Hits(index, w, k, v) == (p * p) * Sum(p, f)
    ensures Sum(n - p, f) == high
    ensures Multiples(f, n - p, all - n, t, share)
    ensures Sum(all - n, share) == (all - n) * all
  {
    var lo := Times(v - p, all);
    hits, f, share := Hits(index, w, k, v), LandColumns(w, n, k, v), ShareFrom(spares, lo, lo + all, n);
    Distribute(all, v - p, 1);
    UpperColumns(w, n, k, v, p, all, t, lo, share, f);
    FullShares(spares, lo, all, n, share);
    LandBuckets(w, n, k, v, p, high);
    HitsAbove(index, w, n, k, v, p);
  }

  lemma OverloadedHits(p: int, all: int, n: int, t: int, spares: int, high: int, hits: int, columns: int)
    requires all == 2 * p && high == t * spares && hits == (p * p) * columns
    requires columns == high + t * ((all - n) * all)
    ensures hits * (all * spares) == KeyCount(p, high) * (spares + (all - n) * all)
  {
    var x := spares + (all - n) * all;
    assert columns == t * x by { Distribute(t, spares, (all - n) * all); }
    assert hits * (all * spares) == ((p * p) * (t * x)) * (all * spares);
    assert ((p * p) * (t * x)) * ((2 * p) * spares) == ((2 * (p * p * p)) * (t * spares)) * x;
  }

  /** While the spare values are fewer than `n * (n + 1)`, the buckets from `2^(k-1)` up that they reach share all
      the keys that the large scheme puts beyond the buckets in use. */
  lemma OverloadedBucket(index: Key -> nat, w: nat, n: nat, k: nat, v: nat, p: nat, all: nat, t: nat, spares: nat,
                         high: nat)
    requires Sizes(w, k, p, all, t, spares, high) && ByParts(index, w, n, k)
    requires p <= v < n <= all == 2 * p && high == t * spares
    requires (v - p + 1) * all <= spares <= n * (n + 1)
    ensures Hits(index, w, k, v) * (all * spares) == KeyCount(p, high) * (spares + (all - n) * all)
  {
    var hits, f, share := OverloadedColumns(index, w, n, k, v, p, all, t, spares, high);
    OverloadedSum(p, all, n, t, spares, high, hits, f, share);
  }

  lemma OverloadedSum(p: nat, all: nat, n: nat, t: nat, spares: nat, high: nat, hits: nat, f: nat -> nat,
                      share: nat -> nat)
    requires p <= n <= all == 2 * p && high == t * spares && hits == (p * p) * Sum(p, f)
    requires Sum(n - p, f) == high && Multiples(f, n - p, all - n, t, share)
    requires Sum(all - n, share) == (all - n) * all
    ensures hits * (all * spares) == KeyCount(p, high) * (spares + (all - n) * all)
  {
    SumInTwo(p, n - p, all - n, f, share, high, t);
    OverloadedHits(p, all, n, t, spares, high, hits, Sum(p, f));
  }

  /** With keys of 64 bits and 24576 buckets, of the documented 32768 at most, 64 of the buckets get more than 96
      times their share each. */
  lemma OverloadedAt24576(index: Key -> nat, w: nat, n: nat, k: nat, v: nat)
    requires w == 16 && n == 24576 && k == 15 && Supported(w, n) && IsHash(index, w, n) && 16384 <= v < 16448
    ensures 4 * (Hits(index, w, k, v) * n) == 387 * Pow2(4 * w)
  {
    SizesAt24576();
    HashByParts(index, w, n, k);
    OverloadedCount(index, w, n, k, v, 16384, 32768, 1, 2097152, 2097152);
  }

  lemma OverloadedCount(index: Key -> nat, w: nat, n: nat, k: nat, v: nat, p: nat, all: nat, t: nat, spares: nat,
                        high: nat)
    requires Sizes(w, k, p, all, t, spares, high) && ByParts(index, w, n, k) && n == 24576
    requires p == 16384 <= v < 16448 && all == 32768 && spares == 2097152
    ensures 4 * (Hits(index, w, k, v) * n) == 387 * Pow2(4 * w)
  {
    SizesMean(w, k, p, all, t, spares, high);
    OverloadedBucket(index, w, n, k, v, p, all, t, spares, high);
    Overload(Hits(index, w, k, v), Pow2(4 * w), n);
  }

  lemma Overload(hits: int, keys: int, n: int)
    requires n == 24576 && hits * (32768 * 2097152) == keys * (2097152 + 8192 * 32768)
    ensures 4 * (hits * n) == 387 * keys
  {
  }

  lemma SizesAt24576()
    ensures Parameters(16, 24576, 15) && Sizes(16, 15, 16384, 32768, 1, 2097152, 2097152)
  {
    assert Pow2(14) == 16384 && Pow2(15) == 32768 && Pow2(21) == 2097152 && Pow2(0) == 1;
    RankIs(24576, 15);
  }
}

/** Machine words as naturals below a power of two, with the arithmetic facts the models share.
    Widths are parameters throughout. */
module Words {

  function Pow2(n: nat): (p: nat)
    ensures p > 0
  {
    if n == 0 then 1 else 2 * Pow2(n - 1)
  }

  lemma {:induction false} Pow2Add(m: nat, n: nat)
    ensures Pow2(m + n) == Pow2(m) * Pow2(n)
  {
    if m > 0 {
      Pow2Add(m - 1, n);
      Associate(2, Pow2(m - 1), Pow2(n));
    }
  }

  lemma {:induction false} Pow2Monotone(m: nat, n: nat)
    requires m <= n
    ensures Pow2(m) <= Pow2(n)
    ensures m < n ==> 2 * Pow2(m) <= Pow2(n)
  {
    if m < n { Pow2Monotone(m, n - 1); }
  }

  function Power(base: nat, e: nat): (p: nat)
    ensures base > 0 ==> p > 0
  {
    if e == 0 then 1 else base * Power(base, e - 1)
  }

  lemma {:induction false} PowerAdd(base: nat, m: nat, n: nat)
    ensures Power(base, m + n) == Power(base, m) * Power(base, n)
  {
    if m > 0 {
      PowerAdd(base, m - 1, n);
      Associate(base, Power(base, m - 1), Power(base, n));
    }
  }

  // ----- division with a named quotient and remainder

  lemma DivModUnique(n: int, d: int, q: int, r: int)
    requires d > 0 && n == q * d + r && 0 <= r < d
    ensures n / d == q && n % d == r
  {
    var q', r' := n / d, n % d;
    assert (q - q') * d == r' - r;
    SmallMultiple(q - q', d);
  }

  lemma DivModForm(n: int, d: int)
    requires d > 0
    ensures n == (n / d) * d + n % d && 0 <= n % d < d
  {
  }

  lemma SmallMultiple(k: int, d: int)
    requires d > 0
    ensures k * d < d ==> k <= 0
    ensures -d < k * d ==> k >= 0
  {
  }

  lemma MulMonotone(a: int, x: int, y: int)
    requires 0 <= a && x <= y
    ensures a * x <= a * y
  {
  }

  lemma MulStrict(a: int, x: int, y: int)
    requires 0 < a && x < y
    ensures a * x < a * y
  {
  }

  lemma Distribute(a: int, x: int, y: int)
    ensures a * (x + y) == a * x + a * y
    ensures (x + y) * a == x * a + y * a
  {
  }

  lemma Associate(a: int, x: int, y: int)
    ensures a * (x * y) == (a * x) * y
    ensures a * (x * y) == x * (a * y)
    ensures a * (x * y) == (x * y) * a
  {
  }

  /** A quotient is at least `q` exactly when the dividend is at least `q * d`. */
  lemma DivAtLeast(n: int, d: int, q: int)
    requires d > 0
    ensures q <= n / d <==> q * d <= n
  {
    var q', r' := n / d, n % d;
    if q <= q' {
      MulMonotone(d, q, q');
    } else {
      MulMonotone(d, q' + 1, q);
    }
  }

  /** Division of naturals, as a natural. */
  function Quotient(n: nat, d: nat): nat
    requires d > 0
  {
    DivAtLeast(n, d, 0);
    n / d
  }

  /** The product of naturals, as a natural. */
  function Times(x: nat, y: nat): nat { x * y }

  lemma DivDiv(n: nat, a: nat, b: nat)
    requires a > 0 && b > 0
    ensures a * b > 0 && n / a / b == n / (a * b)
  {
    var q, r := n / a, n % a;
    var q', r' := q / b, q % b;
    assert n == (q' * b + r') * a + r;
    assert (q' * b + r') * a == q' * (a * b) + r' * a;
    MulMonotone(a, r', b - 1);
    DivModUnique(n, a * b, q', r' * a + r);
  }

  lemma DivMulCancel(n: nat, d: nat, k: nat)
    requires d > 0 && k > 0
    ensures d * k > 0 && (n * k) / (d * k) == n / d && (n * k) % (d * k) == (n % d) * k
  {
    var q, r := n / d, n % d;
    assert n * k == q * (d * k) + r * k by {
      assert (q * d + r) * k == q * d * k + r * k;
      assert q * d * k == q * (d * k);
    }
    MulMonotone(k, r, d - 1);
    assert d * k - k == (d - 1) * k;
    DivModUnique(n * k, d * k, q, r * k);
  }

  lemma HalvedResidue(x: nat, p: nat)
    requires p > 0
    ensures x % (2 * p) == 2 * ((x / 2) % p) + x % 2
  {
    var h := x / 2;
    DivModForm(h, p);
    Associate(h / p, 2, p);
    DivModUnique(x, 2 * p, h / p, 2 * (h % p) + x % 2);
  }

  lemma ModShift(x: int, m: int, k: int)
    requires m > 0
    ensures (x + k * m) % m == x % m
  {
    var q, r := x / m, x % m;
    assert x + k * m == (q + k) * m + r;
    DivModUnique(x + k * m, m, q + k, r);
  }

  // ----- words

  /** The value modulo `2^w`: what is left in a `w`-bit word. */
  function Wrap(w: nat, x: int): (r: nat)
    ensures r < Pow2(w)
  {
    x % Pow2(w)
  }

  lemma WrapSmall(w: nat, x: int)
    requires 0 <= x < Pow2(w)
    ensures Wrap(w, x) == x
  {
    DivModUnique(x, Pow2(w), 0, x);
  }

  lemma WrapShift(w: nat, x: int, k: int)
    ensures Wrap(w, x + k * Pow2(w)) == Wrap(w, x)
  {
    ModShift(x, Pow2(w), k);
  }

  /** Wrapping early or late makes no difference to a sum. */
  lemma WrapSum(w: nat, x: int, y: int)
    ensures Wrap(w, Wrap(w, x) + y) == Wrap(w, x + y)
  {
    DivModForm(x, Pow2(w));
    WrapShift(w, Wrap(w, x) + y, x / Pow2(w));
  }

  /** Nor to a product. */
  lemma WrapFactor(w: nat, x: int, y: int)
    ensures Wrap(w, Wrap(w, x) * y) == Wrap(w, x * y)
  {
    var m := Pow2(w);
    var q, r := x / m, x % m;
    DivModForm(x, m);
    Distribute(y, q * m, r);
    Associate(y, q, m);
    assert x * y == r * y + (q * y) * m;
    WrapShift(w, r * y, q * y);
  }

  /** `x` is a value of the signed `w`-bit type. */
  predicate IsSigned(w: nat, x: int)
    requires w > 0
  {
    var m: int := Pow2(w - 1);
    -m <= x < m
  }

  function Shl(w: nat, x: nat, s: nat): nat { Wrap(w, x * Pow2(s)) }

  function Shr(x: nat, s: nat): nat { Quotient(x, Pow2(s)) }

  lemma ShrBound(w: nat, x: nat, k: nat)
    requires x < Pow2(w) && k <= w
    ensures Shr(x, k) < Pow2(w - k)
  {
    Pow2Add(w - k, k);
    DivAtLeast(x, Pow2(k), Pow2(w - k));
  }

  lemma ShlSmall(w: nat, x: nat, s: nat)
    requires x * Pow2(s) < Pow2(w)
    ensures Shl(w, x, s) == x * Pow2(s)
  {
    MulMonotone(Pow2(s), 0, x);
    WrapSmall(w, x * Pow2(s));
  }

  /** Bitwise or. */
  function Or(x: nat, y: nat): nat {
    if x == 0 && y == 0 then 0
    else 2 * Or(x / 2, y / 2) + if x % 2 == 1 || y % 2 == 1 then 1 else 0
  }

  lemma {:induction false} OrZero(x: nat)
    ensures Or(x, 0) == x && Or(0, x) == x
  {
    if x > 0 { OrZero(x / 2); }
  }

  lemma {:induction false} OrCommutes(x: nat, y: nat)
    ensures Or(x, y) == Or(y, x)
  {
    if x > 0 || y > 0 { OrCommutes(x / 2, y / 2); }
  }

  /** Bits that do not overlap are combined by addition. */
  lemma {:induction false} OrDisjoint(hi: nat, lo: nat, k: nat)
    requires lo < Pow2(k)
    ensures Or(hi * Pow2(k), lo) == hi * Pow2(k) + lo
    decreases k
  {
    if k == 0 {
      OrZero(hi);
    } else {
      var p := Pow2(k - 1);
      assert hi * Pow2(k) == 2 * (hi * p);
      OrDisjoint(hi, lo / 2, k - 1);
      if hi * Pow2(k) == 0 && lo == 0 {
      } else {
        assert (2 * (hi * p)) / 2 == hi * p && (2 * (hi * p)) % 2 == 0;
      }
    }
  }

  /** Bitwise and. */
  function And(x: nat, y: nat): nat {
    if x == 0 || y == 0 then 0
    else 2 * And(x / 2, y / 2) + if x % 2 == 1 && y % 2 == 1 then 1 else 0
  }

  lemma AndUnfold(x: nat, y: nat)
    ensures And(x, y) == 2 * And(x / 2, y / 2) + if x % 2 == 1 && y % 2 == 1 then 1 else 0
  {
  }

  lemma {:induction false} AndSelf(x: nat)
    ensures And(x, x) == x
  {
    if x > 0 { AndSelf(x / 2); }
  }

  /** Bit `i` of a number. */
  predicate Bit(x: nat, i: nat) { (x / Pow2(i)) % 2 == 1 }

  /** And with a single bit. */
  lemma {:induction false} AndBit(x: nat, i: nat)
    ensures And(x, Pow2(i)) == if Bit(x, i) then Pow2(i) else 0
    decreases i
  {
    if i == 0 {
      assert Pow2(0) == 1;
    } else if x > 0 {
      AndBit(x / 2, i - 1);
      DivDiv(x, 2, Pow2(i - 1));
    } else {
      DivModUnique(0, Pow2(i), 0, 0);
    }
  }

  /** And with a mask of low bits. */
  lemma {:induction false} AndMask(x: nat, k: nat)
    ensures And(x, Pow2(k) - 1) == x % Pow2(k)
    decreases k
  {
    if k == 0 {
      assert Pow2(0) == 1;
    } else if x > 0 {
      AndMask(x / 2, k - 1);
      var p := Pow2(k - 1);
      assert (Pow2(k) - 1) / 2 == p - 1 && (Pow2(k) - 1) % 2 == 1;
      HalvedResidue(x, p);
    } else {
      DivModUnique(0, Pow2(k), 0, 0);
    }
  }

  /** The usual test for a power of two. */
  lemma {:induction false} PowerOfTwoTest(x: nat)
    requires x > 0
    ensures And(x, x - 1) == 0 <==> x == Pow2(BitLength(x) - 1)
  {
    if x == 1 {
      assert Pow2(0) == 1;
    } else if x % 2 == 1 {
      AndSelf(x / 2);
      assert x / 2 == (x - 1) / 2;
      assert BitLength(x) >= 2;
    } else {
      PowerOfTwoTest(x / 2);
      assert (x - 1) / 2 == x / 2 - 1;
    }
  }

  /** The number of significant bits. */
  function BitLength(x: nat): nat { if x == 0 then 0 else 1 + BitLength(x / 2) }

  lemma {:induction false} BitLengthBrackets(x: nat)
    requires x > 0
    ensures BitLength(x) > 0 && Pow2(BitLength(x) - 1) <= x < Pow2(BitLength(x))
  {
    if x >= 2 { BitLengthBrackets(x / 2); }
  }

  lemma {:induction false} BitLengthMonotone(x: nat, y: nat)
    requires x <= y
    ensures BitLength(x) <= BitLength(y)
  {
    if x > 0 { BitLengthMonotone(x / 2, y / 2); }
  }

  lemma BitLengthUnique(x: nat, k: nat)
    requires Pow2(k) <= x < Pow2(k + 1)
    ensures BitLength(x) == k + 1
  {
    BitLengthBrackets(x);
    if BitLength(x) <= k {
      Pow2Monotone(BitLength(x), k);
    } else if BitLength(x) > k + 1 {
      Pow2Monotone(k + 1, BitLength(x) - 1);
    }
  }

  lemma BitLengthWithin(x: nat, w: nat)
    requires x < Pow2(w)
    ensures BitLength(x) <= w
  {
  }

  /** The logarithm to base two, rounded down; -1 for zero. */
  function FloorLog(d: nat): int { BitLength(d) - 1 }

  function LeadingZeros(w: nat, x: nat): (n: nat)
    requires x < Pow2(w)
  {
    BitLengthWithin(x, w);
    w - BitLength(x)
  }

  function Abs(x: int): nat { if x < 0 then -x else x }

  /** Division as the hardware does it, towards zero. */
  function TruncDiv(n: int, d: int): int
    requires d != 0
  {
    if d > 0 then (if n >= 0 then n / d else -(-n / d))
    else (if n >= 0 then -(n / -d) else -n / -d)
  }

  /** Only powers of two divide a power of two. */
  lemma {:induction false} PowerDivisor(x: nat, n: nat, e: nat, k: nat)
    requires k >= 1 && x * n == Pow2(e) && Pow2(k - 1) < n <= Pow2(k)
    ensures n == Pow2(k)
    decreases e
  {
    var h := n / 2;
    if e == 0 {
      assert n > 1 && x > 0;
      MulMonotone(x, 2, n);
    } else if n % 2 == 0 {
      assert x * h == Pow2(e - 1) by { Associate(x, 2, h); }
      if k == 1 { assert Pow2(0) == 1; } else { PowerDivisor(x, h, e - 1, k - 1); }
    } else {
      HalfFactor(x, n, Pow2(e - 1));
      PowerDivisor(x / 2, n, e - 1, k);
    }
  }

  lemma HalfFactor(x: nat, n: nat, p: nat)
    requires n % 2 == 1 && x * n == 2 * p
    ensures (x / 2) * n == p
  {
    var h, y := n / 2, x / 2;
    assert x * (2 * h + 1) == 2 * (x * h) + x;
    assert (2 * y) * n == 2 * (y * n);
  }

  /** Bit `i` is the lowest bit after halving `i` times. */
  lemma BitHalf(x: nat, i: nat)
    ensures Bit(x, 0) <==> x % 2 == 1
    ensures Bit(x, i + 1) == Bit(x / 2, i)
  {
    assert Pow2(0) == 1;
    DivDiv(x, 2, Pow2(i));
  }

  lemma BitZero(i: nat)
    ensures !Bit(0, i)
  {
  }
}

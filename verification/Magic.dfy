/** Division by a fixed divisor through multiplication: why the magic numbers work. */
module Magic {
  import opened Words

  /** `m` is a scaled reciprocal of `d`, rounded up: `m * d` exceeds `k` by `e`. */
  ghost predicate Reciprocal(k: nat, d: nat, m: nat, e: nat) {
    d > 0 && k > 0 && m * d == k + e
  }

  /** The product with the reciprocal lies between the quotient and its successor. */
  lemma ReciprocalBrackets(k: nat, d: nat, m: nat, e: nat, n: nat)
    requires Reciprocal(k, d, m, e) && n * e < k
    ensures (n / d) * k <= n * m < (n / d + 1) * k
    ensures n > 0 && e > 0 ==> (n / d) * k < n * m
  {
    var q, r := n / d, n % d;
    DivModForm(n, d);
    Associate(n, m, d);
    Distribute(n, k, e);
    Distribute(k, q * d, r);
    assert (n * m) * d == (q * d) * k + r * k + n * e;
    Associate(k, q, d);
    assert (q * d) * k == (q * k) * d;
    MulMonotone(k, r, d - 1);
    Distribute(k, d, -1);
    MulMonotone(k, 0, r);
    MulMonotone(n, 0, e);
    if n > 0 && e > 0 { MulStrict(n, 0, e); }
    Distribute(d, q * k, k);
    Distribute(k, q, 1);
    Scale(d, q * k, n * m, q * k + k);
  }

  lemma Scale(d: int, a: int, x: int, b: int)
    requires d > 0
    ensures a * d <= x * d ==> a <= x
    ensures a * d < x * d ==> a < x
    ensures x * d < b * d ==> x < b
  {
  }

  /** Multiplying by the reciprocal and dropping the scale is dividing. */
  lemma MagicFloor(k: nat, d: nat, m: nat, e: nat, n: nat)
    requires Reciprocal(k, d, m, e) && n * e < k
    ensures (n * m) / k == n / d
  {
    ReciprocalBrackets(k, d, m, e, n);
    DivAtLeast(n * m, k, n / d);
    DivAtLeast(n * m, k, n / d + 1);
  }

  /** For a negative numerator the rounding is down, to one below the truncated quotient. */
  lemma MagicNegative(k: nat, d: nat, m: nat, e: nat, n: nat)
    requires Reciprocal(k, d, m, e) && n * e < k && n > 0 && e > 0
    ensures -(n * m) / k == -(n / d) - 1
  {
    ReciprocalBrackets(k, d, m, e, n);
    var q: int := n / d;
    Distribute(k, q, 1);
    DivModUnique(-(n * m), k, -q - 1, (q + 1) * k - n * m);
  }

  /** Dividing the scale by the reciprocal gives back the divisor, less one. */
  lemma ReciprocalRecovers(k: nat, d: nat, m: nat, e: nat)
    requires Reciprocal(k, d, m, e) && 0 < e <= m
    ensures m > 0 && k / m == d - 1
  {
    Distribute(m, d, -1);
    DivModUnique(k, m, d - 1, m - e);
  }

  // ----- computing a reciprocal

  /** Rounding a quotient up gives a reciprocal. */
  lemma RoundedUp(k: nat, d: nat, q: nat, r: nat)
    requires k > 0 && k == q * d + r && r < d
    ensures Reciprocal(k, d, q + 1, d - r)
  {
  }

  /** Doubling a quotient and its remainder, the remainder corrected in wrapping arithmetic. */
  lemma Doubled(w: nat, k: nat, d: nat, q: nat, r: nat)
    requires k == q * d + r && r < d < Pow2(w)
    ensures var twice := Wrap(w, r + r);
            var c := if twice >= d || twice < r then 1 else 0;
            2 * k == (2 * q + c) * d + (2 * r - c * d) && 0 <= 2 * r - c * d < d
  {
    if 2 * r < Pow2(w) {
      WrapSmall(w, r + r);
    } else {
      WrapShift(w, 2 * r - Pow2(w), 1);
      WrapSmall(w, 2 * r - Pow2(w));
    }
    Distribute(d, 2 * q, 1);
  }

  /** The quotient of `2 * y * l` by a divisor strictly between `l` and `2 * l`. */
  lemma QuotientBetween(y: nat, l: nat, d: nat, q: nat, r: nat)
    requires 2 <= l < d < 2 * l && l <= y
    requires (2 * y) * l == q * d + r && r < d
    ensures y <= q && q + 1 < 2 * y
  {
    assert y * d <= (2 * y) * l by {
      MulMonotone(y, d, 2 * l);
      Associate(y, 2, l);
    }
    var x: int := 2 * y;
    assert x * l < (x - 1) * d by {
      MulMonotone(x - 1, l + 1, d);
      Distribute(l + 1, x, -1);
      Distribute(x, l, 1);
    }
    if q < y {
      MulMonotone(d, q + 1, y);
      Distribute(d, q, 1);
    }
    if q >= x - 1 { MulMonotone(d, x - 1, q); }
  }
}

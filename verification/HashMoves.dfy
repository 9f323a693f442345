/** The keys of a bucket as a set, counted as `HashBalance` counts them, and how many keys move when buckets are
    added. */
module HashMoves {
  import opened Words
  import opened ConsistentHash
  import opened HashBalance

  // ----- counting a set by its parts

  ghost function Fibre<K>(s: set<K>, f: K -> nat, i: nat): set<K> { set x | x in s && f(x) == i }

  lemma {:induction false} FibresSum<K>(s: set<K>, f: K -> nat, n: nat, counts: nat -> nat)
    requires forall x | x in s :: f(x) < n
    requires forall i: nat | i < n :: |Fibre(s, f, i)| == counts(i)
    ensures |s| == Sum(n, counts)
  {
    if n == 0 {
      assert s == {};
    } else {
      var top := Fibre(s, f, n - 1);
      var rest := s - top;
      forall i: nat | i < n - 1 ensures |Fibre(rest, f, i)| == counts(i) {
        assert Fibre(rest, f, i) == Fibre(s, f, i);
      }
      FibresSum(rest, f, n - 1, counts);
    }
  }

  lemma {:induction false} FibresCount<K>(s: set<K>, f: K -> nat, n: nat, p: nat -> bool)
    requires forall x | x in s :: f(x) < n
    requires forall i: nat | i < n :: |Fibre(s, f, i)| == if p(i) then 1 else 0
    ensures |s| == Count(n, p)
  {
    if n == 0 {
      assert s == {};
    } else {
      var top := Fibre(s, f, n - 1);
      var rest := s - top;
      forall i: nat | i < n - 1 ensures |Fibre(rest, f, i)| == if p(i) then 1 else 0 {
        assert Fibre(rest, f, i) == Fibre(s, f, i);
      }
      FibresCount(rest, f, n - 1, p);
    }
  }

  // ----- the keys of a bucket

  ghost function AllKeys(w: nat): set<Key> {
    set a: nat, b: nat, c: nat, d: nat | a < Pow2(w) && b < Pow2(w) && c < Pow2(w) && d < Pow2(w) :: Key(a, b, c, d)
  }

  lemma AllKeysAre(w: nat, key: Key)
    ensures key in AllKeys(w) <==> IsKey(w, key)
  {
    assert key == Key(key.a, key.b, key.c, key.d);
  }

  ghost function Bucket(index: Key -> nat, w: nat, v: nat): set<Key> {
    set key | key in AllKeys(w) && index(key) == v
  }

  function High(w: nat, k: nat): Key -> nat
    requires 1 <= k <= w
  {
    (key: Key) => HighOf(w, k, key)
  }

  function First(k: nat): Key -> nat
    requires k >= 1
  {
    (key: Key) => key.a % Pow2(k - 1)
  }

  function Middle(k: nat): Key -> nat
    requires k >= 1
  {
    (key: Key) => key.b % Pow2(k - 1)
  }

  function Third(k: nat): Key -> nat { (key: Key) => key.c % Pow2(k) }

  /** The keys of a bucket with given unused bits, third block and second block. */
  ghost function Narrowed(s: set<Key>, w: nat, k: nat, h: nat, cl: nat, bl: nat): set<Key>
    requires 1 <= k <= w
  {
    Fibre(Fibre(Fibre(s, High(w, k), h), Third(k), cl), Middle(k), bl)
  }

  /** Only one key has all its parts given. */
  lemma OneKey(index: Key -> nat, w: nat, k: nat, v: nat, h: nat, al: nat, bl: nat, cl: nat)
    requires 1 <= k <= w && h < HighParts(w, k) && LowParts(k, al, bl, cl)
    ensures var s := Narrowed(Bucket(index, w, v), w, k, h, cl, bl);
            |Fibre(s, First(k), al)| == if index(KeyOf(w, k, h, al, bl, cl)) == v then 1 else 0
  {
    var s := Fibre(Narrowed(Bucket(index, w, v), w, k, h, cl, bl), First(k), al);
    var one := KeyOf(w, k, h, al, bl, cl);
    KeyFromParts(w, k, h, al, bl, cl);
    AllKeysAre(w, one);
    forall key | key in s ensures key == one {
      AllKeysAre(w, key);
      PartsOfKey(w, k, key);
    }
    assert one in s <==> index(one) == v;
    assert s == if index(one) == v then {one} else {};
  }

  lemma ColumnCount(s: set<Key>, first: Key -> nat, p: nat, parts: (nat, nat, nat) -> nat, v: nat, cl: nat, bl: nat)
    requires forall key | key in s :: first(key) < p
    requires forall al: nat | al < p :: |Fibre(s, first, al)| == if parts(al, bl, cl) == v then 1 else 0
    ensures |s| == Columns(p, parts, v, cl)(bl)
  {
    FibresCount(s, first, p, (al: nat) => parts(al, bl, cl) == v);
  }

  lemma ColumnSize(index: Key -> nat, w: nat, k: nat, v: nat, h: nat, bl: nat, cl: nat)
    requires 1 <= k <= w && h < HighParts(w, k) && bl < Pow2(k - 1) && cl < Pow2(k)
    ensures |Narrowed(Bucket(index, w, v), w, k, h, cl, bl)|
         == Columns(Pow2(k - 1), PartsFunction(index, w, k, h), v, cl)(bl)
  {
    var s, parts := Narrowed(Bucket(index, w, v), w, k, h, cl, bl), PartsFunction(index, w, k, h);
    forall al: nat | al < Pow2(k - 1)
      ensures |Fibre(s, First(k), al)| == if parts(al, bl, cl) == v then 1 else 0
    {
      OneKey(index, w, k, v, h, al, bl, cl);
    }
    ColumnCount(s, First(k), Pow2(k - 1), parts, v, cl, bl);
  }

  lemma RowSize(index: Key -> nat, w: nat, k: nat, v: nat, h: nat, cl: nat)
    requires 1 <= k <= w && h < HighParts(w, k) && cl < Pow2(k)
    ensures |Fibre(Fibre(Bucket(index, w, v), High(w, k), h), Third(k), cl)|
         == Rows(Pow2(k - 1), PartsFunction(index, w, k, h), v)(cl)
  {
    var columns := Columns(Pow2(k - 1), PartsFunction(index, w, k, h), v, cl);
    var s := Fibre(Fibre(Bucket(index, w, v), High(w, k), h), Third(k), cl);
    forall bl: nat | bl < Pow2(k - 1) ensures |Fibre(s, Middle(k), bl)| == columns(bl) {
      ColumnSize(index, w, k, v, h, bl, cl);
    }
    FibresSum(s, Middle(k), Pow2(k - 1), columns);
  }

  lemma PartSize(index: Key -> nat, w: nat, k: nat, v: nat, h: nat)
    requires 1 <= k <= w && h < HighParts(w, k)
    ensures |Fibre(Bucket(index, w, v), High(w, k), h)| == KeyParts(index, w, k, v)(h)
  {
    var rows := Rows(Pow2(k - 1), PartsFunction(index, w, k, h), v);
    var s := Fibre(Bucket(index, w, v), High(w, k), h);
    forall cl: nat | cl < Pow2(k) ensures |Fibre(s, Third(k), cl)| == rows(cl) {
      RowSize(index, w, k, v, h, cl);
    }
    FibresSum(s, Third(k), Pow2(k), rows);
  }

  /** Counting the parts counts the keys. */
  lemma BucketSize(index: Key -> nat, w: nat, k: nat, v: nat)
    requires 1 <= k <= w
    ensures |Bucket(index, w, v)| == Hits(index, w, k, v)
  {
    var s := Bucket(index, w, v);
    forall key | key in s ensures High(w, k)(key) < HighParts(w, k) {
      AllKeysAre(w, key);
      PartsOfKey(w, k, key);
    }
    forall h: nat | h < HighParts(w, k) ensures |Fibre(s, High(w, k), h)| == KeyParts(index, w, k, v)(h) {
      PartSize(index, w, k, v, h);
    }
    FibresSum(s, High(w, k), HighParts(w, k), KeyParts(index, w, k, v));
  }

  // ----- the keys that move

  ghost function Moved(from: Key -> nat, to: Key -> nat, w: nat): set<Key> {
    set key | key in AllKeys(w) && from(key) != to(key)
  }

  /** Which of the buckets from `n` up a key is in. */
  function Above(index: Key -> nat, n: nat): Key -> nat {
    (key: Key) => if index(key) < n then 0 else index(key) - n
  }

  /** The keys that move are those in one of the added buckets. */
  ghost predicate Grows(from: Key -> nat, to: Key -> nat, w: nat, n: nat, m: nat) {
    forall key | key in AllKeys(w) :: to(key) < m && (from(key) != to(key) <==> n <= to(key))
  }

  lemma HashGrows(from: Key -> nat, to: Key -> nat, w: nat, n: nat, m: nat)
    requires Supported(w, n) && Supported(w, m) && n <= m && IsHash(from, w, n) && IsHash(to, w, m)
    ensures Grows(from, to, w, n, m)
  {
    forall key | key in AllKeys(w) ensures to(key) < m && (from(key) != to(key) <==> n <= to(key)) {
      AllKeysAre(w, key);
      MovedKeys(w, key, n, m);
      IndexBound(SpareBits(w, key), key, m);
    }
  }

  /** How many keys each of the buckets from `n` up has. */
  ghost function Arrivals(to: Key -> nat, w: nat, n: nat): nat -> nat { (i: nat) => |Bucket(to, w, n + i)| }

  /** The keys that move are those that the added buckets get. */
  lemma MovedSize(from: Key -> nat, to: Key -> nat, w: nat, n: nat, m: nat)
    requires n <= m && Grows(from, to, w, n, m)
    ensures |Moved(from, to, w)| == Sum(m - n, Arrivals(to, w, n))
  {
    var s := Moved(from, to, w);
    forall i: nat | i < m - n ensures |Fibre(s, Above(to, n), i)| == Arrivals(to, w, n)(i) {
      assert Fibre(s, Above(to, n), i) == Bucket(to, w, n + i);
    }
    FibresSum(s, Above(to, n), m - n, Arrivals(to, w, n));
  }

  /** `moved` is `c` shares of an `m`-th of `keys`, to within `c` errors of a share. */
  predicate NearShares(moved: int, c: int, m: int, keys: int, x: int, spares: int) {
    Abs(moved * m - c * keys) * spares <= c * (keys * (m * x))
  }

  /** Errors add up. */
  lemma {:induction false} SumOfFair(c: nat, f: nat -> nat, m: int, keys: int, x: int, spares: nat)
    requires AllFair(f, c, m, keys, x, spares)
    ensures NearShares(Sum(c, f), c, m, keys, x, spares)
  {
    if c > 0 {
      SumOfFair(c - 1, f, m, keys, x, spares);
      OneMore(Sum(c - 1, f), f(c - 1), c - 1, m, keys, x, spares);
    }
  }

  lemma OneMore(sum: int, hits: int, c: int, m: int, keys: int, x: int, spares: nat)
    requires NearShares(sum, c, m, keys, x, spares) && Fair(hits, m, keys, x, spares)
    ensures NearShares(sum + hits, c + 1, m, keys, x, spares)
  {
    Distribute(m, sum, hits);
    Distribute(keys, c, 1);
    AddError(sum * m - c * keys, hits * m - keys, spares);
    Distribute(keys * (m * x), c, 1);
  }

  lemma AddError(d: int, e: int, spares: nat)
    ensures Abs(d + e) * spares <= Abs(d) * spares + Abs(e) * spares
  {
    Distribute(spares, Abs(d), Abs(e));
    MulMonotone(spares, Abs(d + e), Abs(d) + Abs(e));
  }

  /** What `HashBalance` says of a bucket, said of the set of its keys. */
  lemma BucketIsFair(to: Key -> nat, w: nat, m: nat, k: nat, v: nat, size: nat)
    requires Parameters(w, m, k) && 1 <= k <= w && v < m && IsHash(to, w, m) && size == |Bucket(to, w, v)|
    ensures Fair(size, m, Pow2(4 * w), Pow2(k) - m, Spares(w, k))
  {
    BucketSize(to, w, k, v);
    SharesAreFair(to, w, m, k, v);
  }

  ghost predicate AllFair(f: nat -> nat, c: nat, m: int, keys: int, x: int, spares: int) {
    forall i: nat | i < c :: Fair(f(i), m, keys, x, spares)
  }

  ghost predicate FairBuckets(to: Key -> nat, w: nat, m: nat, keys: int, x: int, spares: int) {
    forall v: nat | v < m :: Fair(|Bucket(to, w, v)|, m, keys, x, spares)
  }

  lemma BucketsAreFair(to: Key -> nat, w: nat, m: nat, k: nat)
    requires Parameters(w, m, k) && 1 <= k <= w && IsHash(to, w, m)
    ensures FairBuckets(to, w, m, Pow2(4 * w), Pow2(k) - m, Spares(w, k))
  {
    forall v: nat | v < m ensures Fair(|Bucket(to, w, v)|, m, Pow2(4 * w), Pow2(k) - m, Spares(w, k)) {
      BucketIsFair(to, w, m, k, v, |Bucket(to, w, v)|);
    }
  }

  lemma ArrivalsAreFair(to: Key -> nat, w: nat, n: nat, m: nat, f: nat -> nat, total: nat, keys: int, x: int,
                        spares: nat)
    requires n <= m && f == Arrivals(to, w, n) && total == Sum(m - n, f) && FairBuckets(to, w, m, keys, x, spares)
    ensures NearShares(total, m - n, m, keys, x, spares)
  {
    forall i: nat | i < m - n ensures Fair(f(i), m, keys, x, spares) {
      assert f(i) == |Bucket(to, w, n + i)|;
    }
    SumOfFair(m - n, f, m, keys, x, spares);
  }

  lemma MovedNear(from: Key -> nat, to: Key -> nat, w: nat, n: nat, m: nat, keys: int, x: int, spares: nat)
    requires n <= m && Grows(from, to, w, n, m) && FairBuckets(to, w, m, keys, x, spares)
    ensures NearShares(|Moved(from, to, w)|, m - n, m, keys, x, spares)
  {
    MovedSize(from, to, w, n, m);
    ArrivalsAreFair(to, w, n, m, Arrivals(to, w, n), |Moved(from, to, w)|, keys, x, spares);
  }

  /** Of all keys, `(m - n) / m` move when `n` buckets become `m`, to within `m - n` times the error of a share. */
  lemma MovedShare(from: Key -> nat, to: Key -> nat, w: nat, n: nat, m: nat, k: nat)
    requires Parameters(w, m, k) && Supported(w, n) && n <= m && IsHash(from, w, n) && IsHash(to, w, m)
    ensures 1 <= k <= w
    ensures NearShares(|Moved(from, to, w)|, m - n, m, Pow2(4 * w), Pow2(k) - m, Spares(w, k))
  {
    ParametersMean(w, m, k);
    HashGrows(from, to, w, n, m);
    BucketsAreFair(to, w, m, k);
    MovedNear(from, to, w, n, m, Pow2(4 * w), Pow2(k) - m, Spares(w, k));
  }

  // ----- when that is exact

  /** The hash with `n` buckets as a function. */
  function Hashing(w: nat, n: nat): Key -> nat
    requires Supported(w, n)
  {
    (key: Key) => Index(w, key, n)
  }

  /** How many keys move when `n` buckets become `m`. */
  ghost function MovedBetween(w: nat, n: nat, m: nat): nat
    requires Supported(w, n) && Supported(w, m)
  {
    |Moved(Hashing(w, n), Hashing(w, m), w)|
  }

  lemma NearIsExact(moved: int, c: int, m: int, keys: int, x: int, spares: int)
    requires NearShares(moved, c, m, keys, x, spares) && x == 0 && spares > 0
    ensures moved * m == c * keys
  {
    var d := moved * m - c * keys;
    if d != 0 { MulStrict(spares, 0, Abs(d)); }
  }

  lemma BetweenIsNear(w: nat, n: nat, m: nat, k: nat) returns (moved: int, keys: int, x: int, spares: int)
    requires Parameters(w, m, k) && Supported(w, n) && n <= m
    ensures moved == MovedBetween(w, n, m) && keys == Pow2(4 * w) && x == Pow2(k) - m && spares > 0
    ensures NearShares(moved, m - n, m, keys, x, spares)
  {
    MovedShare(Hashing(w, n), Hashing(w, m), w, n, m, k);
    moved, keys, x, spares := MovedBetween(w, n, m), Pow2(4 * w), Pow2(k) - m, Spares(w, k);
  }

  lemma ExactMoves(w: nat, n: nat, m: nat, k: nat)
    requires Parameters(w, m, k) && Supported(w, n) && n <= m == Pow2(k)
    ensures MovedBetween(w, n, m) * m == (m - n) * Pow2(4 * w)
  {
    var moved, keys, x, spares := BetweenIsNear(w, n, m, k);
    NearIsExact(moved, m - n, m, keys, x, spares);
  }

  /** With one more bucket, the keys that move are those that it gets. */
  lemma MovedIntoLast(w: nat, m: nat)
    requires m >= 2 && Supported(w, m) && Supported(w, m - 1)
    ensures MovedBetween(w, m - 1, m) == |Bucket(Hashing(w, m), w, m - 1)|
  {
    var from, to := Hashing(w, m - 1), Hashing(w, m);
    HashGrows(from, to, w, m - 1, m);
    assert Moved(from, to, w) == Bucket(to, w, m - 1);
  }

  /** The part of the keys that moves is as documented, for every smaller number of buckets, if and only if the
      larger one is a power of two. */
  lemma MovedExactlyIff(w: nat, m: nat, k: nat)
    requires Parameters(w, m, k)
    ensures (forall n: nat | 1 <= n <= m :: Supported(w, n) && MovedBetween(w, n, m) * m == (m - n) * Pow2(4 * w))
            <==> m == Pow2(k)
  {
    ParametersMean(w, m, k);
    if m == Pow2(k) {
      forall n: nat | 1 <= n <= m ensures Supported(w, n) && MovedBetween(w, n, m) * m == (m - n) * Pow2(4 * w) {
        ExactMoves(w, n, m, k);
      }
    } else if Supported(w, m - 1) && MovedBetween(w, m - 1, m) * m == (m - (m - 1)) * Pow2(4 * w) {
      PowerDivisor(MovedBetween(w, m - 1, m), m, 4 * w, k);
    }
  }

  /** With keys of 64 bits, a 128th of them move when the 16448th bucket is added. */
  lemma MovedAt16448(w: nat, n: nat, k: nat)
    requires w == 16 && n == 16448 && k == 15 && Supported(w, n) && Supported(w, n - 1)
    ensures 128 * MovedBetween(w, n - 1, n) == Pow2(4 * w)
  {
    SizesAt24576();
    ParametersAt16448();
    MovedIntoLast(w, n);
    LastBucket(Hashing(w, n), w, n, k, 16384, 32768, 1, 2097152, 2097152, |Bucket(Hashing(w, n), w, n - 1)|);
  }

  lemma ParametersAt16448()
    ensures Parameters(16, 16448, 15)
  {
    assert Pow2(14) == 16384 && Pow2(15) == 32768;
    RankIs(16448, 15);
  }

  lemma LastBucket(index: Key -> nat, w: nat, n: nat, k: nat, p: nat, all: nat, t: nat, spares: nat, high: nat,
                   size: nat)
    requires Sizes(w, k, p, all, t, spares, high) && Parameters(w, n, k) && n == 16448 && IsHash(index, w, n)
    requires p == 16384 && all == 32768 && spares == 2097152 && size == |Bucket(index, w, n - 1)|
    ensures 128 * size == Pow2(4 * w)
  {
    HashByParts(index, w, n, k);
    BucketSize(index, w, k, n - 1);
    LastHits(index, w, n, k, p, all, t, spares, high, size);
  }

  lemma LastHits(index: Key -> nat, w: nat, n: nat, k: nat, p: nat, all: nat, t: nat, spares: nat, high: nat,
                 hits: nat)
    requires Sizes(w, k, p, all, t, spares, high) && ByParts(index, w, n, k) && n == 16448
    requires p == 16384 && all == 32768 && spares == 2097152 && hits == Hits(index, w, k, n - 1)
    ensures 128 * hits == Pow2(4 * w)
  {
    SizesMean(w, k, p, all, t, spares, high);
    OverloadedBucket(index, w, n, k, n - 1, p, all, t, spares, high);
    LastShare(hits, Pow2(4 * w));
  }

  lemma LastShare(hits: int, keys: int)
    requires hits * (32768 * 2097152) == keys * (2097152 + 16320 * 32768)
    ensures 128 * hits == keys
  {
  }
}

/** Consistent hashing: a key is spread over `n` buckets so that adding a bucket moves a key only into
    the new bucket. Keys are four `w`-bit blocks, `w` being 16 or 32. */
module ConsistentHash {
  import opened Words

  datatype Key = Key(a: nat, b: nat, c: nat, d: nat)

  datatype Outcome = Bucket(index: nat) | ZeroBuckets

  function PopCount(x: nat): nat { if x == 0 then 0 else x % 2 + PopCount(x / 2) }

  function SelectBlock(a: nat, b: nat, cBlock: nat): nat { if PopCount(cBlock) % 2 == 0 then a else b }

  /** The scheme for `2^k` buckets. */
  function ForPowerOf2(key: Key, k: nat): nat {
    var cBlock := And(key.c, Pow2(k) - 1);
    if cBlock < 2 then cBlock
    else
      BitLengthBrackets(cBlock);
      var y := BitLength(cBlock) - 1;
      Pow2(y) + And(SelectBlock(key.a, key.b, cBlock), Pow2(y) - 1)
  }

  /** The bits the power-of-two schemes leave unused, combined in 64 bits. The first shift is done in
      32 bits for both block widths, since a 16-bit block is promoted before it is shifted. */
  function AsteriskBits(w: nat, key: Key, k: nat): nat
    requires 1 <= k <= w
  {
    var shift := w - k;
    var high := Or(Shl(32, key.d, shift), Shr(key.c, k));
    var middle := Or(Shl(64, high, shift + 1), Shr(key.b, k - 1));
    Or(Shl(64, middle, shift + 1), Shr(key.a, k - 1))
  }

  /** The second candidate, for a key that the large scheme puts beyond the buckets in use. */
  function SecondCandidate(spare: nat, k: nat, large: nat): (second: nat)
    requires k >= 1 && large > 0
    ensures second >= Pow2(k - 1)
  {
    MulStrict(large, 0, large + 1);
    Shr(Remainder(spare, large * (large + 1)), k) + Pow2(k - 1)
  }

  function Remainder(x: nat, m: nat): nat
    requires m > 0
  {
    x % m
  }

  /** The number of bits that `n` buckets take. */
  function Rank(n: nat): nat
    requires n >= 2
  {
    BitLength(n - 1)
  }

  /** Where the scheme is documented to work, for blocks of `w` bits. */
  predicate Supported(w: nat, n: nat) { w > 0 && 1 <= n <= Pow2(w - 1) }

  lemma RankBrackets(n: nat)
    requires n >= 2
    ensures 1 <= Rank(n) && Pow2(Rank(n) - 1) < n <= Pow2(Rank(n))
  {
    BitLengthBrackets(n - 1);
  }

  /** The choice between the schemes, given the spare bits. */
  function Choose(key: Key, n: nat, k: nat, spare: nat): nat
    requires n >= 2 && k >= 1
  {
    var large := ForPowerOf2(key, k);
    if large < n then large
    else
      var second := SecondCandidate(spare, k, large);
      if second < n then second else ForPowerOf2(key, k - 1)
  }

  /** The bucket, with the spare bits given for each rank. */
  function IndexWith(spare: nat -> nat, key: Key, n: nat): nat
    requires n >= 1
  {
    if n == 1 then 0
    else
      RankBrackets(n);
      Choose(key, n, Rank(n), spare(Rank(n)))
  }

  function SpareBits(w: nat, key: Key): nat -> nat {
    (k: nat) => if 1 <= k <= w then AsteriskBits(w, key, k) else 0
  }

  function Index(w: nat, key: Key, n: nat): nat
    requires Supported(w, n)
  {
    IndexWith(SpareBits(w, key), key, n)
  }

  /** Within the documented range the rank is one of those that have spare bits. */
  lemma RankInRange(w: nat, key: Key, n: nat)
    requires Supported(w, n) && n >= 2
    ensures 1 <= Rank(n) <= w && SpareBits(w, key)(Rank(n)) == AsteriskBits(w, key, Rank(n))
  {
    RankBrackets(n);
    BitLengthWithin(n - 1, w - 1);
  }

  function ConsistentHashing(w: nat, key: Key, n: nat): Outcome
    requires w > 0 && n <= Pow2(w - 1)
  {
    if n == 0 then ZeroBuckets else Bucket(Index(w, key, n))
  }

  // ----- the power-of-two schemes

  /** The result for the low bits of the third block: they alone decide its octave. */
  function SchemeValue(key: Key, cBlock: nat): (v: nat)
    ensures v == 0 <==> cBlock == 0
  {
    if cBlock == 0 then 0
    else
      BitLengthBrackets(cBlock);
      var y := BitLength(cBlock) - 1;
      Pow2(y) + Wrap(y, SelectBlock(key.a, key.b, cBlock))
  }

  lemma PowerScheme(key: Key, k: nat)
    ensures ForPowerOf2(key, k) == SchemeValue(key, Wrap(k, key.c))
  {
    AndMask(key.c, k);
    var cBlock := Wrap(k, key.c);
    if cBlock > 0 {
      BitLengthBrackets(cBlock);
      AndMask(SelectBlock(key.a, key.b, cBlock), BitLength(cBlock) - 1);
      if cBlock == 1 { LowestOctave(); }
    }
  }

  // ----- which block is selected

  /** The positions of the bits that are set. */
  ghost function SetBits(x: nat): set<nat> { set i: nat | i < x && Bit(x, i) }

  lemma BitPosition(x: nat, i: nat)
    requires Bit(x, i)
    ensures i < x
  {
    if x <= i {
      PositionBelowPower(i);
      DivModUnique(x, Pow2(i), 0, x);
    }
  }

  lemma {:induction false} PositionBelowPower(i: nat)
    ensures i < Pow2(i)
  {
    if i > 0 { PositionBelowPower(i - 1); }
  }

  lemma SetBitsHalf(x: nat, i: nat)
    requires x > 0
    ensures 0 in SetBits(x) <==> x % 2 == 1
    ensures i + 1 in SetBits(x) <==> i in SetBits(x / 2)
  {
    BitHalf(x, i);
    if Bit(x, i + 1) { BitPosition(x, i + 1); }
    if Bit(x / 2, i) { BitPosition(x / 2, i); }
  }

  ghost function Raised(s: set<nat>): set<nat> { set i: nat | i in s :: i + 1 }

  lemma InRaised(s: set<nat>, j: nat)
    ensures j in Raised(s) <==> j > 0 && j - 1 in s
  {
    if j > 0 && j - 1 in s { assert j == (j - 1) + 1; }
  }

  lemma {:induction false} RaisedSize(s: set<nat>)
    ensures |Raised(s)| == |s|
    decreases |s|
  {
    if s == {} {
      assert Raised(s) == {};
    } else {
      var x :| x in s;
      RaisedSize(s - {x});
      forall j: nat ensures j in Raised(s) <==> j in Raised(s - {x}) + {x + 1} {
        InRaised(s, j);
        InRaised(s - {x}, j);
      }
      InRaised(s - {x}, x + 1);
      assert Raised(s) == Raised(s - {x}) + {x + 1};
    }
  }

  lemma SetBitsDouble(x: nat)
    requires x > 0
    ensures SetBits(x) == Raised(SetBits(x / 2)) + if x % 2 == 1 then {0} else {}
  {
    forall i: nat ensures i in SetBits(x) <==> i in Raised(SetBits(x / 2)) + if x % 2 == 1 then {0} else {} {
      SetBitsHalf(x, if i == 0 then 0 else i - 1);
      InRaised(SetBits(x / 2), i);
    }
  }

  /** The count is the number of bits that are set. */
  lemma {:induction false} PopCountIs(x: nat)
    ensures PopCount(x) == |SetBits(x)|
  {
    if x == 0 {
      assert SetBits(x) == {};
    } else {
      PopCountIs(x / 2);
      SetBitsDouble(x);
      RaisedSize(SetBits(x / 2));
    }
  }

  /** The scheme in terms of the third block: its low bits are the bucket if they are 0 or 1, and otherwise choose an
      octave, where an even number of bits that are set takes the offset from the first block and an odd number from
      the second. */
  lemma BlockByParity(key: Key, k: nat, low: nat, y: nat)
    requires low == key.c % Pow2(k) && (low >= 2 ==> Pow2(y) <= low < 2 * Pow2(y))
    ensures ForPowerOf2(key, k)
         == if low < 2 then low
            else Pow2(y) + (if |SetBits(low)| % 2 == 0 then key.a else key.b) % Pow2(y)
  {
    PowerScheme(key, k);
    if low >= 2 {
      BitLengthUnique(low, y);
      PopCountIs(low);
    } else if low == 1 {
      LowestOctave();
    }
  }

  lemma LowestOctave()
    ensures BitLength(1) == 1 && Pow2(0) == 1
  {
    assert BitLength(0) == 0;
  }

  /** The result lies in the octave of the block. */
  lemma SchemeOctave(key: Key, cBlock: nat)
    requires cBlock > 0
    ensures BitLength(SchemeValue(key, cBlock)) == BitLength(cBlock)
  {
    BitLengthBrackets(cBlock);
    BitLengthUnique(SchemeValue(key, cBlock), BitLength(cBlock) - 1);
  }

  lemma SchemeOrder(key: Key, cBlock: nat, k: nat)
    ensures SchemeValue(key, cBlock) < Pow2(k) <==> cBlock < Pow2(k)
  {
    if cBlock > 0 {
      SchemeOctave(key, cBlock);
      LengthBelow(cBlock, k);
      LengthBelow(SchemeValue(key, cBlock), k);
    }
  }

  lemma LengthBelow(x: nat, k: nat)
    ensures x < Pow2(k) <==> BitLength(x) <= k
  {
    if x > 0 {
      BitLengthBrackets(x);
      if BitLength(x) <= k { Pow2Monotone(BitLength(x), k); } else { Pow2Monotone(k, BitLength(x) - 1); }
    }
  }

  lemma PowerSchemeBound(key: Key, k: nat)
    ensures ForPowerOf2(key, k) < Pow2(k)
  {
    PowerScheme(key, k);
    SchemeOrder(key, Wrap(k, key.c), k);
  }

  /** One more bit either changes nothing or sends the key into the upper half. */
  lemma PowerSchemeGrows(key: Key, k: nat)
    ensures ForPowerOf2(key, k + 1) == ForPowerOf2(key, k) || ForPowerOf2(key, k + 1) >= Pow2(k)
  {
    PowerScheme(key, k);
    PowerScheme(key, k + 1);
    NextBit(key.c, Pow2(k));
    SchemeOrder(key, Wrap(k + 1, key.c), k);
  }

  lemma NextBit(x: nat, p: nat)
    requires p > 0
    ensures x % (2 * p) == x % p || x % (2 * p) == x % p + p
  {
    DivModForm(x, 2 * p);
    var q, r := x / (2 * p), x % (2 * p);
    if r < p {
      DivModUnique(x, p, 2 * q, r);
    } else {
      DivModUnique(x, p, 2 * q + 1, r - p);
    }
  }

  lemma RankIs(n: nat, k: nat)
    requires n >= 2 && k >= 1 && Pow2(k - 1) < n <= Pow2(k)
    ensures Rank(n) == k
  {
    BitLengthUnique(n - 1, k - 1);
  }

  lemma IndexAtPower(spare: nat -> nat, key: Key, n: nat, k: nat)
    requires n == Pow2(k)
    ensures IndexWith(spare, key, n) == ForPowerOf2(key, k)
  {
    PowerSchemeBound(key, k);
    if k > 0 { RankIs(n, k); }
  }

  // ----- consistency

  lemma IndexBound(spare: nat -> nat, key: Key, n: nat)
    requires n >= 1
    ensures IndexWith(spare, key, n) < n
  {
    if n >= 2 {
      RankBrackets(n);
      PowerSchemeBound(key, Rank(n) - 1);
    }
  }

  /** Zero buckets is the one error; otherwise the answer is one of the buckets. */
  lemma HashingInRange(w: nat, key: Key, n: nat)
    requires w > 0 && n <= Pow2(w - 1)
    ensures ConsistentHashing(w, key, n).ZeroBuckets? <==> n == 0
    ensures n > 0 ==> ConsistentHashing(w, key, n).index < n
  {
    if n > 0 { IndexBound(SpareBits(w, key), key, n); }
  }

  /** Either nothing changes or the new bucket is chosen. */
  predicate Grows(before: nat, after: nat, n: nat) { after == before || after == n }

  /** One more bucket of the same rank. */
  lemma ChooseGrows(key: Key, n: nat, k: nat, spare: nat)
    requires n >= 2 && k >= 1
    ensures Grows(Choose(key, n, k, spare), Choose(key, n + 1, k, spare), n)
  {
  }

  /** The first bucket of the next rank. */
  lemma ChooseNextRank(key: Key, k: nat, spare: nat)
    requires Pow2(k) + 1 >= 2
    ensures Grows(ForPowerOf2(key, k), Choose(key, Pow2(k) + 1, k + 1, spare), Pow2(k))
  {
    PowerSchemeGrows(key, k);
    PowerSchemeBound(key, k);
  }

  /** Adding one bucket leaves a key where it is or moves it into the new bucket, whatever the spare
      bits are. */
  lemma AddingABucket(spare: nat -> nat, key: Key, n: nat)
    requires n >= 1
    ensures Grows(IndexWith(spare, key, n), IndexWith(spare, key, n + 1), n)
  {
    RankBrackets(n + 1);
    var k := Rank(n + 1);
    assert IndexWith(spare, key, n + 1) == Choose(key, n + 1, k, spare(k));
    if n == Pow2(k - 1) {
      IndexAtPower(spare, key, n, k - 1);
      ChooseNextRank(key, k - 1, spare(k));
    } else {
      RankIs(n, k);
      ChooseGrows(key, n, k, spare(k));
    }
  }

  lemma {:induction false} OnlyUp(spare: nat -> nat, key: Key, n: nat, m: nat)
    requires 1 <= n <= m
    ensures IndexWith(spare, key, m) == IndexWith(spare, key, n) || IndexWith(spare, key, m) >= n
    decreases m
  {
    if n < m {
      OnlyUp(spare, key, n, m - 1);
      AddingABucket(spare, key, m - 1);
    }
  }

  /** Over any growth, a key that changes bucket goes to one of the added buckets; so the key's bucket
      among the first `n` does not depend on how many are added. */
  lemma KeysOnlyMoveUp(w: nat, key: Key, n: nat, m: nat)
    requires Supported(w, n) && Supported(w, m) && n <= m
    ensures Index(w, key, m) == Index(w, key, n) || n <= Index(w, key, m) < m
  {
    OnlyUp(SpareBits(w, key), key, n, m);
    IndexBound(SpareBits(w, key), key, m);
  }

  /** So a key has moved exactly when it is in one of the added buckets. */
  lemma MovedKeys(w: nat, key: Key, n: nat, m: nat)
    requires Supported(w, n) && Supported(w, m) && n <= m
    ensures Index(w, key, m) != Index(w, key, n) <==> n <= Index(w, key, m)
  {
    KeysOnlyMoveUp(w, key, n, m);
    IndexBound(SpareBits(w, key), key, n);
  }

  // ----- keys placed by hand

  lemma SmallRank(n: nat)
    requires n == 3 || n == 4
    ensures Supported(16, n) && Rank(n) == 2
  {
    assert Pow2(15) == 32768;
    assert BitLength(2) == 2 && BitLength(3) == 2;
  }

  /** Two or three in the low bits of the third block: the second octave. */
  lemma SecondOctave(key: Key, low: nat)
    requires key.c % 4 == low && (low == 2 || low == 3)
    ensures ForPowerOf2(key, 2) == 2 + (if low == 3 then key.a else key.b) % 2
    ensures ForPowerOf2(key, 1) == low % 2
  {
    assert Pow2(2) == 4 && Pow2(1) == 2;
    PowerScheme(key, 2);
    PowerScheme(key, 1);
    assert BitLength(2) == 2 && BitLength(3) == 2;
    assert PopCount(2) == 1 && PopCount(3) == 2;
    if low == 3 { LowestOctave(); }
  }

  lemma SmallSpare(key: Key)
    requires key.a < 16 && key.b == 0 && key.c == 3 && key.d == 0
    ensures AsteriskBits(16, key, 2) == key.a / 2
  {
    assert Pow2(1) == 2 && Pow2(2) == 4;
    WrapSmall(32, 0);
    WrapSmall(64, 0);
    OrZero(key.a / 2);
  }

  /** A key that the large scheme puts beyond three buckets: the spare bits choose between the two others. */
  lemma BeyondThree(w: nat, n: nat, key: Key)
    requires w == 16 && n == 3 && key.a < 16 && key.a % 2 == 1 && key.b == 0 && key.c == 3 && key.d == 0
    ensures n <= Pow2(w - 1) && ConsistentHashing(w, key, n) == Bucket(if (key.a / 2) % 12 < 4 then 2 else 1)
  {
    SmallRank(n);
    SecondOctave(key, 3);
    SmallSpare(key);
    RankInRange(w, key, n);
    assert Pow2(1) == 2 && Pow2(2) == 4;
  }

  /** One that it puts among four. */
  lemma WithinFour(w: nat, n: nat, key: Key)
    requires w == 16 && n == 4 && key.c == 2
    ensures n <= Pow2(w - 1) && ConsistentHashing(w, key, n) == Bucket(2 + key.b % 2)
  {
    SmallRank(n);
    SecondOctave(key, 2);
  }

  lemma KeyByHand(w: nat, n: nat, key: Key)
    requires w == 16 && n == 4 && key.a == 0 && key.b == 1 && key.c == 2 && key.d == 0
    ensures n <= Pow2(w - 1) && ConsistentHashing(w, key, n) == Bucket(3)
  {
    WithinFour(w, n, key);
  }
}

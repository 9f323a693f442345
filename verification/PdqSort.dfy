/** Pattern-defeating quicksort: the driving loop over the partitions and insertion sorts. */
module PdqSort {
  import Words
  import opened SortSpec
  import opened Insertion
  import opened Partition
  import opened BlockPartition

  const INSERTION_SORT_THRESHOLD := 24
  const NINTHER_THRESHOLD := 128

  // ----- what the loop has done so far, and how its steps keep it

  /** `[lo, mid)` is finished: sorted, and nothing after it belongs before any of it. */
  ghost predicate Done<T>(less: (T, T) -> bool, s: seq<T>, lo: nat, mid: nat, hi: nat) {
    lo <= mid <= hi <= |s| && Sorted(less, s, lo, mid) && Split(less, s, lo, mid, hi)
  }

  /** Nothing in the range is below the element just before it. */
  ghost predicate Sentinel<T>(less: (T, T) -> bool, s: seq<T>, lo: nat, hi: nat) {
    0 < lo <= hi <= |s| && forall i :: lo <= i < hi ==> !less(s[i], s[lo - 1])
  }

  lemma DoneKept<T>(less: (T, T) -> bool, s: seq<T>, t: seq<T>, lo: nat, mid: nat, hi: nat)
    requires Done(less, s, lo, mid, hi) && Permuted(s, t, mid, hi)
    ensures Done(less, t, lo, mid, hi)
  {
    SplitPermuted(less, s, t, lo, mid, hi);
  }

  lemma SentinelKept<T>(less: (T, T) -> bool, s: seq<T>, t: seq<T>, lo: nat, hi: nat)
    requires Sentinel(less, s, lo, hi) && Permuted(s, t, lo, hi)
    ensures Sentinel(less, t, lo, hi)
  {
    forall i | lo <= i < hi ensures !less(t[i], t[lo - 1]) {
      var k := PermutedSource(s, t, lo, hi, i);
    }
  }

  lemma PivotedKept<T>(less: (T, T) -> bool, s: seq<T>, t: seq<T>, lo: nat, p: nat, hi: nat)
    requires PivotedRight(less, s, lo, p, hi)
    requires Permuted(s, t, lo, p) || Permuted(s, t, p + 1, hi)
    ensures PivotedRight(less, t, lo, p, hi) && Permuted(s, t, lo, hi)
  {
    if Permuted(s, t, lo, p) {
      forall i | lo <= i < p ensures less(t[i], t[p]) { var k := PermutedSource(s, t, lo, p, i); }
      PermutedWiden(s, t, lo, p, lo, hi);
    } else {
      forall i | p < i < hi ensures !less(t[i], t[p]) { var k := PermutedSource(s, t, p + 1, hi, i); }
      PermutedWiden(s, t, p + 1, hi, lo, hi);
    }
  }

  /** Below the pivot on the left and not below it on the right leaves no pair across it inverted. */
  lemma AcrossPivot<T(!new)>(less: (T, T) -> bool, s: seq<T>, lo: nat, p: nat, hi: nat, i: nat, j: nat)
    requires StrictWeakOrder(less) && PivotedRight(less, s, lo, p, hi)
    requires lo <= i <= p <= j < hi && i < j
    ensures !less(s[j], s[i])
  {
    if i < p {
      if j == p {
        Asymmetric(less, s[i], s[p]);
      } else {
        assert OrderLaws(less, s[j], s[i], s[p]);
      }
    }
  }

  lemma SortedThroughPivot<T(!new)>(less: (T, T) -> bool, s: seq<T>, lo: nat, mid: nat, p: nat, hi: nat)
    requires StrictWeakOrder(less)
    requires Done(less, s, lo, mid, hi) && PivotedRight(less, s, mid, p, hi) && Sorted(less, s, mid, p)
    ensures Done(less, s, lo, p + 1, hi)
  {
    forall i, j | lo <= i < j < p + 1 ensures !less(s[j], s[i]) {
      if mid <= i && j == p { AcrossPivot(less, s, mid, p, hi, i, j); }
    }
    forall i, j | lo <= i < p + 1 <= j < hi ensures !less(s[j], s[i]) {
      if mid <= i { AcrossPivot(less, s, mid, p, hi, i, j); }
    }
  }

  /** Everything up to the pivot equals the sentinel, so it is sorted as it stands. */
  lemma EqualsAreDone<T(!new)>(less: (T, T) -> bool, s: seq<T>, lo: nat, mid: nat, p: nat, hi: nat)
    requires StrictWeakOrder(less)
    requires Done(less, s, lo, mid, hi) && Sentinel(less, s, mid, hi)
    requires PivotedLeft(less, s, mid, p, hi) && !less(s[mid - 1], s[p])
    ensures Done(less, s, lo, p + 1, hi)
  {
    forall i, j | mid <= i <= p && mid <= j < hi ensures !less(s[j], s[i]) {
      if less(s[j], s[i]) {
        NegativelyTransitive(less, s[j], s[p], s[i]);
        NegativelyTransitive(less, s[j], s[mid - 1], s[p]);
      }
    }
  }

  lemma SentinelAtPivot<T>(less: (T, T) -> bool, s: seq<T>, lo: nat, mid: nat, hi: nat)
    requires Done(less, s, lo, mid, hi) && lo < mid
    ensures Sentinel(less, s, mid, hi)
  {
  }

  // ----- pivot selection

  /** The pivot at the front has an element not below it and one not above it behind it. */
  ghost predicate Bracketed<T>(less: (T, T) -> bool, s: seq<T>, lo: nat, hi: nat) {
    && lo < hi <= |s|
    && (exists i :: lo < i < hi && !less(s[i], s[lo]))
    && (exists i :: lo < i < hi && !less(s[lo], s[i]))
  }

  /** Exchanging the front with the middle one of three in order. */
  lemma MedianBrackets<T>(less: (T, T) -> bool, s: seq<T>, t: seq<T>, lo: nat, hi: nat, m: nat)
    requires lo + 1 < m && m + 1 < hi <= |s| && t == Swapped(s, lo, m)
    requires !less(s[m], s[m - 1]) && !less(s[m + 1], s[m])
    ensures Permuted(s, t, lo, hi) && Bracketed(less, t, lo, hi) && t[lo] == s[m]
  {
    PermutedSwap(s, lo, m, lo, hi);
    assert !less(t[m + 1], t[lo]);
    assert !less(t[lo], t[m - 1]);
  }

  /** The median of the element at `m` and its neighbours, put in front. */
  method MedianToFront<T(!new)>(a: array<T>, less: (T, T) -> bool, begin: nat, end: nat, m: nat)
    requires StrictWeakOrder(less) && begin + 1 < m && m + 1 < end <= a.Length
    modifies a
    ensures Permuted(old(a[..]), a[..], begin, end)
    ensures Bracketed(less, a[..], begin, end)
    ensures IsMedian(less, a[begin], old(a[m - 1]), old(a[m]), old(a[m + 1]))
  {
    MedianOfThree(a, less, begin, end, m - 1, m, m + 1);
    ghost var s, t := a[..], Swapped(a[..], begin, m);
    MedianBrackets(less, s, t, begin, end, m);
    PermutedTrans(old(a[..]), s, t, begin, end);
    Swap(a, begin, m);
    assert a[begin] == t[begin];
  }

  method MedianOfThree<T(!new)>(a: array<T>, less: (T, T) -> bool, begin: nat, end: nat, x: nat, y: nat, z: nat)
    requires StrictWeakOrder(less)
    requires begin <= x < end <= a.Length && begin <= y < end && begin <= z < end && x != y && y != z && x != z
    modifies a
    ensures Permuted(old(a[..]), a[..], begin, end)
    ensures !less(a[y], a[x]) && !less(a[z], a[y]) && IsMedian(less, a[y], old(a[x]), old(a[y]), old(a[z]))
    ensures forall i :: 0 <= i < a.Length && i != x && i != y && i != z ==> a[i] == old(a[i])
  {
    ghost var s := a[..];
    Sorted3Orders(less, a[..], x, y, z, begin, end);
    Sort3(a, less, x, y, z);
    assert a[x] == a[..][x] && a[y] == a[..][y] && a[z] == a[..][z];
    assert forall i :: 0 <= i < a.Length ==> a[i] == a[..][i] && old(a[i]) == s[i];
  }

  /** `m` is the median of the medians of three elements each: from the front, the middle and the back. */
  ghost predicate IsNinther<T(!new)>(less: (T, T) -> bool, m: T, s: seq<T>, lo: nat, hi: nat)
    requires lo + 9 <= hi <= |s|
  {
    var mid := lo + (hi - lo) / 2;
    exists m1, m2, m3 ::
      && IsMedian(less, m1, s[lo], s[mid], s[hi - 1])
      && IsMedian(less, m2, s[lo + 1], s[mid - 1], s[hi - 2])
      && IsMedian(less, m3, s[lo + 2], s[mid + 1], s[hi - 3])
      && IsMedian(less, m, m2, m1, m3)
  }

  method TwoMedians<T(!new)>(a: array<T>, less: (T, T) -> bool, begin: nat, end: nat, mid: nat)
    requires StrictWeakOrder(less) && end <= a.Length && begin + 9 <= end && mid == begin + (end - begin) / 2
    modifies a
    ensures Permuted(old(a[..]), a[..], begin, end)
    ensures IsMedian(less, a[mid], old(a[begin]), old(a[mid]), old(a[end - 1]))
    ensures IsMedian(less, a[mid - 1], old(a[begin + 1]), old(a[mid - 1]), old(a[end - 2]))
    ensures a[begin + 2] == old(a[begin + 2]) && a[mid + 1] == old(a[mid + 1]) && a[end - 3] == old(a[end - 3])
  {
    MedianOfThree(a, less, begin, end, begin, mid, end - 1);
    ghost var s := a[..];
    MedianOfThree(a, less, begin, end, begin + 1, mid - 1, end - 2);
    PermutedTrans(old(a[..]), s, a[..], begin, end);
  }

  /** The medians of three elements each, next to each other in the middle. */
  method ThreeMedians<T(!new)>(a: array<T>, less: (T, T) -> bool, begin: nat, end: nat, mid: nat)
    requires StrictWeakOrder(less) && end <= a.Length && begin + 9 <= end && mid == begin + (end - begin) / 2
    modifies a
    ensures Permuted(old(a[..]), a[..], begin, end)
    ensures IsMedian(less, a[mid], old(a[begin]), old(a[mid]), old(a[end - 1]))
    ensures IsMedian(less, a[mid - 1], old(a[begin + 1]), old(a[mid - 1]), old(a[end - 2]))
    ensures IsMedian(less, a[mid + 1], old(a[begin + 2]), old(a[mid + 1]), old(a[end - 3]))
  {
    TwoMedians(a, less, begin, end, mid);
    ghost var s := a[..];
    MedianOfThree(a, less, begin, end, begin + 2, mid + 1, end - 3);
    PermutedTrans(old(a[..]), s, a[..], begin, end);
  }

  method ChoosePivot<T(!new)>(a: array<T>, less: (T, T) -> bool, begin: nat, end: nat)
    requires StrictWeakOrder(less)
    requires end <= a.Length && begin + INSERTION_SORT_THRESHOLD <= end
    modifies a
    ensures Permuted(old(a[..]), a[..], begin, end)
    ensures Bracketed(less, a[..], begin, end)
    ensures if end - begin > 128 then IsNinther(less, a[begin], old(a[..]), begin, end)
            else IsMedian(less, a[begin], old(a[begin + (end - begin) / 2]), old(a[begin]), old(a[end - 1]))
  {
    var size := end - begin;
    var s2 := size / 2;
    if size > NINTHER_THRESHOLD {
      ThreeMedians(a, less, begin, end, begin + s2);
      MedianToFront(a, less, begin, end, begin + s2);
    } else {
      MedianOfThree(a, less, begin, end, begin + s2, begin, end - 1);
      assert !less(a[..][end - 1], a[..][begin]) && !less(a[..][begin], a[..][begin + s2]);
    }
  }

  // ----- after a bad partition

  method SwapWithin<T>(a: array<T>, lo: nat, hi: nat, i: nat, j: nat)
    requires lo <= i < hi <= a.Length && lo <= j < hi
    modifies a
    ensures Permuted(old(a[..]), a[..], lo, hi)
    ensures a[i] == old(a[j]) && a[j] == old(a[i])
    ensures forall k :: 0 <= k < a.Length && k != i && k != j ==> a[k] == old(a[k])
  {
    PermutedSwap(a[..], i, j, lo, hi);
    Swap(a, i, j);
    assert forall k :: 0 <= k < a.Length ==> a[k] == a[..][k];
  }

  /** Where the element at `i` comes from when the front and the back are exchanged with what is a quarter away. */
  function QuarterAway(lo: nat, hi: nat, i: nat): nat
    requires lo + 24 <= hi
  {
    var q := (hi - lo) / 4;
    if i == lo then lo + q else if i == lo + q then lo
    else if i == hi - 1 then hi - q else if i == hi - q then hi - 1 else i
  }

  /** And the two next to each as well. */
  function MoreAway(lo: nat, hi: nat, i: nat): nat
    requires lo + 128 < hi
  {
    var q := (hi - lo) / 4;
    if i == lo + 1 then lo + q + 1 else if i == lo + q + 1 then lo + 1
    else if i == lo + 2 then lo + q + 2 else if i == lo + q + 2 then lo + 2
    else if i == hi - 2 then hi - (q + 1) else if i == hi - (q + 1) then hi - 2
    else if i == hi - 3 then hi - (q + 2) else if i == hi - (q + 2) then hi - 3 else i
  }

  function ShuffledFrom(lo: nat, hi: nat, i: nat): nat {
    if hi < lo + 24 then i
    else if hi <= lo + 128 then QuarterAway(lo, hi, i)
    else if MoreAway(lo, hi, i) != i then MoreAway(lo, hi, i) else QuarterAway(lo, hi, i)
  }

  ghost predicate QuarterMoved<T>(s: seq<T>, t: seq<T>, lo: nat, hi: nat)
    requires lo + 24 <= hi <= |s| == |t|
  {
    forall i :: lo <= i < hi ==> lo <= QuarterAway(lo, hi, i) < hi && t[i] == s[QuarterAway(lo, hi, i)]
  }

  ghost predicate MoreMoved<T>(s: seq<T>, t: seq<T>, lo: nat, hi: nat)
    requires lo + 128 < hi <= |s| == |t|
  {
    forall i :: lo <= i < hi ==> lo <= MoreAway(lo, hi, i) < hi && t[i] == s[MoreAway(lo, hi, i)]
  }

  ghost predicate ShuffledRange<T>(s: seq<T>, t: seq<T>, lo: nat, hi: nat)
    requires lo <= hi <= |s| == |t|
  {
    forall i :: lo <= i < hi ==> lo <= ShuffledFrom(lo, hi, i) < hi && t[i] == s[ShuffledFrom(lo, hi, i)]
  }

  method ShuffleEnds<T>(a: array<T>, lo: nat, hi: nat)
    requires lo + 24 <= hi <= a.Length
    modifies a
    ensures Permuted(old(a[..]), a[..], lo, hi)
    ensures QuarterMoved(old(a[..]), a[..], lo, hi)
  {
    var size := hi - lo;
    SwapWithin(a, lo, hi, lo, lo + size / 4);
    ghost var s := a[..];
    SwapWithin(a, lo, hi, hi - 1, hi - size / 4);
    PermutedTrans(old(a[..]), s, a[..], lo, hi);
  }

  ghost predicate TwoExchanged<T>(s: seq<T>, t: seq<T>, i: nat, j: nat, i': nat, j': nat)
    requires i < |s| && j < |s| && i' < |s| && j' < |s| == |t|
  {
    && t[i] == s[j] && t[j] == s[i] && t[i'] == s[j'] && t[j'] == s[i']
    && forall k :: 0 <= k < |s| && k != i && k != j && k != i' && k != j' ==> t[k] == s[k]
  }

  lemma FourExchanges<T>(s: seq<T>, m: seq<T>, t: seq<T>, lo: nat, hi: nat, q: nat)
    requires lo + 128 < hi <= |s| == |m| == |t| && q == (hi - lo) / 4
    requires TwoExchanged(s, m, lo + 1, lo + q + 1, lo + 2, lo + q + 2)
    requires TwoExchanged(m, t, hi - 2, hi - (q + 1), hi - 3, hi - (q + 2))
    ensures MoreMoved(s, t, lo, hi)
  {
  }

  method ShuffleFront<T>(a: array<T>, lo: nat, hi: nat, q: nat)
    requires lo + 128 < hi <= a.Length && q == (hi - lo) / 4
    modifies a
    ensures Permuted(old(a[..]), a[..], lo, hi)
    ensures TwoExchanged(old(a[..]), a[..], lo + 1, lo + q + 1, lo + 2, lo + q + 2)
  {
    SwapWithin(a, lo, hi, lo + 1, lo + (q + 1));
    ghost var s := a[..];
    SwapWithin(a, lo, hi, lo + 2, lo + (q + 2));
    PermutedTrans(old(a[..]), s, a[..], lo, hi);
  }

  method ShuffleBack<T>(a: array<T>, lo: nat, hi: nat, q: nat)
    requires lo + 128 < hi <= a.Length && q == (hi - lo) / 4
    modifies a
    ensures Permuted(old(a[..]), a[..], lo, hi)
    ensures TwoExchanged(old(a[..]), a[..], hi - 2, hi - (q + 1), hi - 3, hi - (q + 2))
  {
    SwapWithin(a, lo, hi, hi - 2, hi - (q + 1));
    ghost var s := a[..];
    SwapWithin(a, lo, hi, hi - 3, hi - (q + 2));
    PermutedTrans(old(a[..]), s, a[..], lo, hi);
  }

  method ShuffleMore<T>(a: array<T>, lo: nat, hi: nat)
    requires lo + 128 < hi <= a.Length
    modifies a
    ensures Permuted(old(a[..]), a[..], lo, hi)
    ensures MoreMoved(old(a[..]), a[..], lo, hi)
  {
    var q := (hi - lo) / 4;
    ShuffleFront(a, lo, hi, q);
    ghost var s := a[..];
    ShuffleBack(a, lo, hi, q);
    FourExchanges(old(a[..]), s, a[..], lo, hi, q);
    PermutedTrans(old(a[..]), s, a[..], lo, hi);
  }

  lemma BothExchanges<T>(s: seq<T>, m: seq<T>, t: seq<T>, lo: nat, hi: nat)
    requires lo + 128 < hi <= |s| == |m| == |t|
    requires QuarterMoved(s, m, lo, hi) && MoreMoved(m, t, lo, hi)
    ensures ShuffledRange(s, t, lo, hi)
  {
    forall i | lo <= i < hi
      ensures lo <= ShuffledFrom(lo, hi, i) < hi && t[i] == s[ShuffledFrom(lo, hi, i)]
    {
      assert QuarterAway(lo, hi, MoreAway(lo, hi, i)) == ShuffledFrom(lo, hi, i);
    }
  }

  lemma OneExchange<T>(s: seq<T>, t: seq<T>, lo: nat, hi: nat)
    requires lo + 24 <= hi <= lo + 128 && hi <= |s| == |t|
    requires QuarterMoved(s, t, lo, hi)
    ensures ShuffledRange(s, t, lo, hi)
  {
  }

  /** Moves a few elements of a side to break the pattern that made the partition bad. */
  method Shuffle<T>(a: array<T>, lo: nat, hi: nat)
    requires lo <= hi <= a.Length
    modifies a
    ensures Permuted(old(a[..]), a[..], lo, hi)
    ensures ShuffledRange(old(a[..]), a[..], lo, hi)
  {
    var size := hi - lo;
    if size >= INSERTION_SORT_THRESHOLD {
      ShuffleEnds(a, lo, hi);
      if size > NINTHER_THRESHOLD {
        ghost var s := a[..];
        ShuffleMore(a, lo, hi);
        PermutedTrans(old(a[..]), s, a[..], lo, hi);
        BothExchanges(old(a[..]), s, a[..], lo, hi);
      } else {
        OneExchange(old(a[..]), a[..], lo, hi);
      }
    }
  }

  /** Stands for the library's `make_heap` and `sort_heap`, of which only sorting matters here. */
  method HeapSort<T(!new)>(a: array<T>, less: (T, T) -> bool, begin: nat, end: nat)
    requires begin <= end <= a.Length && StrictWeakOrder(less)
    modifies a
    ensures Permuted(old(a[..]), a[..], begin, end)
    ensures Sorted(less, a[..], begin, end)
  {
    InsertionSort(a, less, begin, end);
  }

  // ----- the loop

  /** How many times a size can be cut by a balanced partition before it is sorted directly. */
  function BalancedDepth(n: nat): (d: nat) {
    if n < INSERTION_SORT_THRESHOLD then 0 else 1 + BalancedDepth(n - 1 - n / 8)
  }

  lemma {:induction false} BalancedDepthMonotone(m: nat, n: nat)
    requires m <= n
    ensures BalancedDepth(m) <= BalancedDepth(n)
    decreases n
  {
    if INSERTION_SORT_THRESHOLD <= m {
      BalancedDepthMonotone(m - 1 - m / 8, n - 1 - n / 8);
    }
  }

  /** Each balanced cut leaves at most 7/8: `d` of them need at least `24 * (8/7)^(d-1)` elements. */
  lemma {:induction false} BalancedDepthBound(n: nat)
    requires BalancedDepth(n) > 0
    ensures INSERTION_SORT_THRESHOLD * Words.Power(8, BalancedDepth(n) - 1) <= n * Words.Power(7, BalancedDepth(n) - 1)
    decreases n
  {
    var m := n - 1 - n / 8;
    var d := BalancedDepth(m);
    if d > 0 {
      BalancedDepthBound(m);
      var p, q := Words.Power(8, d - 1), Words.Power(7, d - 1);
      assert 8 * m <= 7 * n;
      assert 24 * p <= m * q;
      assert (8 * m) * q <= (7 * n) * q;
      assert 24 * (8 * p) <= n * (7 * q);
    }
  }

  method PartitionEither<T>(a: array<T>, less: (T, T) -> bool, begin: nat, end: nat, branchless: bool)
      returns (pivotPos: nat, already: bool)
    requires Bracketed(less, a[..], begin, end)
    modifies a
    ensures Permuted(old(a[..]), a[..], begin, end)
    ensures PivotedRight(less, a[..], begin, pivotPos, end)
    ensures already <==> AlreadyPartitioned(less, old(a[..]), begin, end)
  {
    ghost var i :| begin < i < end && !less(a[..][i], a[..][begin]);
    assert !less(a[i], a[begin]);
    if branchless {
      pivotPos, already := PartitionRightBranchless(a, less, begin, end);
    } else {
      pivotPos, already := PartitionRight(a, less, begin, end);
    }
  }

  /** Both sides of `s` shuffled, and the pivot left in place. */
  ghost predicate ShuffledSides<T>(s: seq<T>, t: seq<T>, lo: nat, p: nat, hi: nat)
    requires lo <= p < hi <= |s| == |t|
  {
    t[p] == s[p] && ShuffledRange(s, t, lo, p) && ShuffledRange(s, t, p + 1, hi)
  }

  lemma SidesShuffled<T>(s: seq<T>, m: seq<T>, t: seq<T>, lo: nat, p: nat, hi: nat)
    requires lo <= p < hi <= |s| == |m| == |t|
    requires Permuted(s, m, lo, p) && ShuffledRange(s, m, lo, p)
    requires Permuted(m, t, p + 1, hi) && ShuffledRange(m, t, p + 1, hi)
    ensures ShuffledSides(s, t, lo, p, hi)
  {
    assert t[p] == m[p] == s[p];
    forall i | lo <= i < p ensures t[i] == m[i] {}
    forall i | p < i < hi ensures m[i] == s[i] {}
  }

  /** Shuffles both sides of a partition. */
  method ShuffleSides<T>(a: array<T>, less: (T, T) -> bool, begin: nat, p: nat, end: nat)
    requires PivotedRight(less, a[..], begin, p, end)
    modifies a
    ensures Permuted(old(a[..]), a[..], begin, end)
    ensures PivotedRight(less, a[..], begin, p, end) && ShuffledSides(old(a[..]), a[..], begin, p, end)
  {
    Shuffle(a, begin, p);
    ghost var s := a[..];
    PivotedKept(less, old(a[..]), s, begin, p, end);
    Shuffle(a, p + 1, end);
    PivotedKept(less, s, a[..], begin, p, end);
    SidesShuffled(old(a[..]), s, a[..], begin, p, end);
  }

  ghost predicate FewInversions<T>(less: (T, T) -> bool, s: seq<T>, lo: nat, hi: nat)
    requires lo <= hi <= |s|
  {
    Inversions(less, s[lo..hi]) <= 8
  }

  lemma BehindKept<T>(s: seq<T>, t: seq<T>, lo: nat, hi: nat, x: nat, y: nat)
    requires Permuted(s, t, lo, hi) && hi <= x <= y <= |s|
    ensures t[x..y] == s[x..y]
  {
  }

  /** Tries to finish both sides by insertion sort; the second only if the first worked out. */
  method TryInsertionSorts<T(!new)>(a: array<T>, less: (T, T) -> bool, begin: nat, p: nat, end: nat)
      returns (done: bool)
    requires StrictWeakOrder(less)
    requires PivotedRight(less, a[..], begin, p, end)
    modifies a
    ensures Permuted(old(a[..]), a[..], begin, end)
    ensures PivotedRight(less, a[..], begin, p, end)
    ensures done ==> Sorted(less, a[..], begin, p) && Sorted(less, a[..], p + 1, end)
    ensures done <==> FewInversions(less, old(a[..]), begin, p) && FewInversions(less, old(a[..]), p + 1, end)
  {
    assert a[begin..p] == a[..][begin..p];
    done := PartialInsertionSort(a, less, begin, p);
    ghost var s := a[..];
    PivotedKept(less, old(a[..]), s, begin, p, end);
    if done {
      BehindKept(old(a[..]), s, begin, p, p + 1, end);
      assert a[p + 1..end] == s[p + 1..end];
      done := PartialInsertionSort(a, less, p + 1, end);
      PivotedKept(less, s, a[..], begin, p, end);
    }
  }

  /** Both sides sorted around the pivot is the whole range sorted. */
  lemma SidesSorted<T(!new)>(less: (T, T) -> bool, s: seq<T>, lo: nat, p: nat, hi: nat)
    requires StrictWeakOrder(less) && PivotedRight(less, s, lo, p, hi)
    requires Sorted(less, s, lo, p) && Sorted(less, s, p + 1, hi)
    ensures Sorted(less, s, lo, hi)
  {
    forall i, j | lo <= i < j < hi ensures !less(s[j], s[i]) {
      if i <= p <= j { AcrossPivot(less, s, lo, p, hi, i, j); }
    }
  }

  /** A cut that leaves an eighth on either side. */
  ghost predicate Balanced(lo: nat, p: nat, hi: nat) {
    lo <= p < hi && (hi - lo) / 8 <= p - lo && (hi - lo) / 8 <= hi - (p + 1)
  }

  /** Whether the range is finished after a partition that made `s` into `t`: a bad one ends it with the last
      unit of the allowance, a good one if there was nothing to exchange and both sides are all but sorted. */
  ghost predicate EndsHere<T>(less: (T, T) -> bool, s: seq<T>, t: seq<T>, lo: nat, p: nat, hi: nat, badAllowed: int)
    requires lo <= p < hi <= |s| == |t|
  {
    if Balanced(lo, p, hi)
    then AlreadyPartitioned(less, s, lo, hi) && FewInversions(less, t, lo, p) && FewInversions(less, t, p + 1, hi)
    else badAllowed == 1
  }

  /** Partitions and deals with the outcome: after too many bad partitions the range is heapsorted,
      after a bad one its sides are shuffled, after a good one insertion sort may finish it. */
  method PartitionStep<T(!new)>(a: array<T>, less: (T, T) -> bool, begin: nat, end: nat, badAllowed: int,
                                branchless: bool)
      returns (p: nat, badAllowed': int, finished: bool, ghost parted: seq<T>)
    requires StrictWeakOrder(less) && Bracketed(less, a[..], begin, end)
    modifies a
    ensures Permuted(old(a[..]), a[..], begin, end)
    ensures Permuted(old(a[..]), parted, begin, end) && PivotedRight(less, parted, begin, p, end)
    ensures finished <==> EndsHere(less, old(a[..]), parted, begin, p, end, badAllowed)
    ensures if finished then Sorted(less, a[..], begin, end) else PivotedRight(less, a[..], begin, p, end)
    ensures !finished ==> badAllowed' == if Balanced(begin, p, end) then badAllowed else badAllowed - 1
    ensures !finished && !Balanced(begin, p, end) ==> ShuffledSides(parted, a[..], begin, p, end)
  {
    var size := end - begin;
    var already;
    p, already := PartitionEither(a, less, begin, end, branchless);
    parted := a[..];
    var lSize, rSize := p - begin, end - (p + 1);
    badAllowed', finished := badAllowed, false;
    if lSize < size / 8 || rSize < size / 8 {
      badAllowed' := badAllowed' - 1;
      if badAllowed' == 0 {
        HeapSort(a, less, begin, end);
        finished := true;
      } else {
        ShuffleSides(a, less, begin, p, end);
      }
      PermutedTrans(old(a[..]), parted, a[..], begin, end);
    } else if already {
      finished := TryInsertionSorts(a, less, begin, p, end);
      if finished { SidesSorted(less, a[..], begin, p, end); }
      PermutedTrans(old(a[..]), parted, a[..], begin, end);
    }
  }

  /** The state between turns of the loop, `s0` being the input. */
  ghost predicate Working<T>(less: (T, T) -> bool, s0: seq<T>, s: seq<T>, lo: nat, mid: nat, hi: nat, leftmost: bool) {
    Permuted(s0, s, lo, hi) && Done(less, s, lo, mid, hi) && (leftmost || Sentinel(less, s, mid, hi))
  }

  lemma WorkingKept<T>(less: (T, T) -> bool, s0: seq<T>, s: seq<T>, t: seq<T>, lo: nat, mid: nat, hi: nat,
                       leftmost: bool)
    requires Working(less, s0, s, lo, mid, hi, leftmost) && Permuted(s, t, mid, hi)
    ensures Working(less, s0, t, lo, mid, hi, leftmost)
  {
    DoneKept(less, s, t, lo, mid, hi);
    PermutedWiden(s, t, mid, hi, lo, hi);
    PermutedTrans(s0, s, t, lo, hi);
    if !leftmost { SentinelKept(less, s, t, mid, hi); }
  }

  lemma WorkingWhole<T>(less: (T, T) -> bool, s0: seq<T>, s: seq<T>, lo: nat, mid: nat, hi: nat, leftmost: bool)
    requires Working(less, s0, s, lo, mid, hi, leftmost) && Sorted(less, s, mid, hi)
    ensures Sorted(less, s, lo, hi)
  {
  }

  /** With the left side of a partition sorted, the pivot is passed. */
  lemma WorkingPastPivot<T(!new)>(less: (T, T) -> bool, s0: seq<T>, s: seq<T>, t: seq<T>, lo: nat, mid: nat, p: nat,
                                  hi: nat, leftmost: bool)
    requires StrictWeakOrder(less) && Working(less, s0, s, lo, mid, hi, leftmost)
    requires PivotedRight(less, s, mid, p, hi) && Permuted(s, t, mid, p) && Sorted(less, t, mid, p)
    ensures Working(less, s0, t, lo, p + 1, hi, false)
  {
    PivotedKept(less, s, t, mid, p, hi);
    WorkingKept(less, s0, s, t, lo, mid, hi, leftmost);
    SortedThroughPivot(less, t, lo, mid, p, hi);
    SentinelAtPivot(less, t, lo, p + 1, hi);
  }

  lemma WorkingPastEquals<T(!new)>(less: (T, T) -> bool, s0: seq<T>, s: seq<T>, lo: nat, mid: nat, p: nat, hi: nat)
    requires StrictWeakOrder(less) && Working(less, s0, s, lo, mid, hi, false)
    requires PivotedLeft(less, s, mid, p, hi) && !less(s[mid - 1], s[p])
    ensures Working(less, s0, s, lo, p + 1, hi, false)
  {
    EqualsAreDone(less, s, lo, mid, p, hi);
    SentinelAtPivot(less, s, lo, p + 1, hi);
  }

  /** The last turn, on a range small enough for insertion sort. */
  method SmallTurn<T(!new)>(a: array<T>, less: (T, T) -> bool, ghost s0: seq<T>, ghost begin0: nat, begin: nat,
                            end: nat, leftmost: bool)
    requires StrictWeakOrder(less) && end <= a.Length
    requires Working(less, s0, a[..], begin0, begin, end, leftmost)
    modifies a
    ensures Permuted(s0, a[..], begin0, end) && Sorted(less, a[..], begin0, end)
  {
    ghost var s := a[..];
    if leftmost {
      InsertionSort(a, less, begin, end);
    } else {
      UnguardedInsertionSort(a, less, begin, end);
    }
    WorkingKept(less, s0, s, a[..], begin0, begin, end, leftmost);
    WorkingWhole(less, s0, a[..], begin0, begin, end, leftmost);
  }

  /** A recursive call is one level deeper and has either one bad partition less to spend or a
      range cut by an eighth. */
  lemma DepthStep(n0: nat, balanced: nat, lo: nat, p: nat, hi: nat, badAllowed: int, badAllowed': int, depth: nat)
    requires lo <= p < hi && INSERTION_SORT_THRESHOLD <= hi - lo <= n0
    requires balanced == BalancedDepth(n0)
    requires badAllowed' == if Balanced(lo, p, hi) then badAllowed else badAllowed - 1
    requires depth <= badAllowed' - 1 + BalancedDepth(p - lo)
    ensures 1 + depth <= badAllowed - 1 + balanced
  {
    var n := hi - lo;
    BalancedDepthMonotone(n, n0);
    if Balanced(lo, p, hi) {
      BalancedDepthMonotone(p - lo, n - 1 - n / 8);
    } else {
      BalancedDepthMonotone(p - lo, n);
    }
  }

  /** How deep the recursion for `n` elements can go. */
  function DepthBound(n: nat, badAllowed: int): nat {
    if n < INSERTION_SORT_THRESHOLD then 0
    else if badAllowed > 0 then badAllowed - 1 + BalancedDepth(n) else n
  }

  /** The turn on `[lo, hi)` leaves one level less for its left side. */
  lemma AllowanceStep(n0: nat, lo: nat, p: nat, hi: nat, bad0: int, badAllowed: int, badAllowed': int, allowance: nat)
    requires lo <= p < hi && INSERTION_SORT_THRESHOLD <= hi - lo <= n0
    requires badAllowed <= bad0 && (bad0 > 0 ==> badAllowed > 0)
    requires badAllowed' == if Balanced(lo, p, hi) then badAllowed else badAllowed - 1
    requires badAllowed > 0 ==> badAllowed' > 0
    requires DepthBound(n0, bad0) <= allowance
    ensures allowance > 0 && DepthBound(p - lo, badAllowed') <= allowance - 1
  {
    if badAllowed > 0 {
      DepthStep(n0, BalancedDepth(n0), lo, p, hi, badAllowed, badAllowed', badAllowed' - 1 + BalancedDepth(p - lo));
    }
  }

  /** The turn taken when the pivot equals the sentinel: equal elements go left and are done. */
  method EqualsTurn<T(!new)>(a: array<T>, less: (T, T) -> bool, ghost s0: seq<T>, ghost begin0: nat, begin: nat,
                             end: nat)
      returns (begin': nat)
    requires StrictWeakOrder(less) && end <= a.Length
    requires Working(less, s0, a[..], begin0, begin, end, false) && Bracketed(less, a[..], begin, end)
    requires !less(a[begin - 1], a[begin])
    modifies a
    ensures begin < begin' <= end && Working(less, s0, a[..], begin0, begin', end, false)
  {
    ghost var s := a[..];
    ghost var i :| begin < i < end && !less(s[begin], s[i]);
    assert !less(a[begin], a[i]);
    var p := PartitionLeft(a, less, begin, end);
    WorkingKept(less, s0, s, a[..], begin0, begin, end, false);
    WorkingPastEquals(less, s0, a[..], begin0, begin, p, end);
    begin' := p + 1;
  }

  /** Sorts the left side of a partition by recursion, which passes the pivot. `levels` counts the
      recursion it took. */
  method RecurseLeft<T(!new)>(a: array<T>, less: (T, T) -> bool, ghost s0: seq<T>, ghost begin0: nat, begin: nat,
                              p: nat, ghost end: nat, ghost badAllowed: int, badAllowed': int, leftmost: bool,
                              branchless: bool, ghost balanced: nat, ghost bad0: int, ghost allowance: nat)
      returns (ghost levels: nat)
    requires StrictWeakOrder(less) && end <= a.Length && begin + INSERTION_SORT_THRESHOLD <= end
    requires Working(less, s0, a[..], begin0, begin, end, leftmost) && PivotedRight(less, a[..], begin, p, end)
    requires badAllowed' == if Balanced(begin, p, end) then badAllowed else badAllowed - 1
    requires balanced == BalancedDepth(end - begin0)
    requires badAllowed <= bad0 && (bad0 > 0 ==> badAllowed > 0) && (badAllowed > 0 ==> badAllowed' > 0)
    requires DepthBound(end - begin0, bad0) <= allowance
    modifies a
    ensures Working(less, s0, a[..], begin0, p + 1, end, false)
    ensures badAllowed' > 0 ==> levels <= badAllowed - 1 + balanced
    decreases allowance, 0
  {
    ghost var s := a[..];
    AllowanceStep(end - begin0, begin, p, end, bad0, badAllowed, badAllowed', allowance);
    ghost var depth := PdqsortLoop(a, less, begin, p, badAllowed', leftmost, branchless, allowance - 1);
    WorkingPastPivot(less, s0, s, a[..], begin0, begin, p, end, leftmost);
    if badAllowed' > 0 { DepthStep(end - begin0, balanced, begin, p, end, badAllowed, badAllowed', depth); }
    levels := 1 + depth;
  }

  /** The ordinary turn: partition, then sort the left side by recursion. */
  method PivotTurn<T(!new)>(a: array<T>, less: (T, T) -> bool, ghost s0: seq<T>, ghost begin0: nat, begin: nat,
                            end: nat, badAllowed: int, leftmost: bool, branchless: bool, ghost balanced: nat,
                            ghost bad0: int, ghost allowance: nat)
      returns (begin': nat, badAllowed': int, finished: bool, ghost levels: nat)
    requires StrictWeakOrder(less) && end <= a.Length && begin + INSERTION_SORT_THRESHOLD <= end
    requires Working(less, s0, a[..], begin0, begin, end, leftmost) && Bracketed(less, a[..], begin, end)
    requires balanced == BalancedDepth(end - begin0)
    requires badAllowed <= bad0 && (bad0 > 0 ==> badAllowed > 0)
    requires DepthBound(end - begin0, bad0) <= allowance
    modifies a
    ensures finished ==> Permuted(s0, a[..], begin0, end) && Sorted(less, a[..], begin0, end)
    ensures !finished ==> begin < begin' <= end && Working(less, s0, a[..], begin0, begin', end, false)
    ensures badAllowed > 0 ==> levels <= badAllowed - 1 + balanced
    ensures !finished ==> badAllowed' <= badAllowed && (badAllowed > 0 ==> badAllowed' > 0)
    decreases allowance, 1
  {
    ghost var s := a[..];
    begin', levels := begin, 0;
    var p;
    ghost var parted;
    p, badAllowed', finished, parted := PartitionStep(a, less, begin, end, badAllowed, branchless);
    WorkingKept(less, s0, s, a[..], begin0, begin, end, leftmost);
    if finished {
      WorkingWhole(less, s0, a[..], begin0, begin, end, leftmost);
    } else {
      levels := RecurseLeft(a, less, s0, begin0, begin, p, end, badAllowed, badAllowed', leftmost, branchless,
                            balanced, bad0, allowance);
      begin' := p + 1;
    }
  }

  /** Sorts `[begin0, end)`. Without `leftmost0` the element before the range is a sentinel that no
      element of the range is below. `depth` is the depth of the recursion that took place. Every recursive call
      takes one off `allowance`, so no recursion is deeper than that. */
  method PdqsortLoop<T(!new)>(a: array<T>, less: (T, T) -> bool, begin0: nat, end: nat, badAllowed0: int,
                              leftmost0: bool, branchless: bool, ghost allowance: nat)
      returns (ghost depth: nat)
    requires StrictWeakOrder(less) && begin0 <= end <= a.Length
    requires leftmost0 || Sentinel(less, a[..], begin0, end)
    requires DepthBound(end - begin0, badAllowed0) <= allowance
    modifies a
    ensures Permuted(old(a[..]), a[..], begin0, end)
    ensures Sorted(less, a[..], begin0, end)
    ensures badAllowed0 > 0 ==> depth <= badAllowed0 - 1 + BalancedDepth(end - begin0)
    ensures end - begin0 < INSERTION_SORT_THRESHOLD ==> depth == 0
    decreases allowance, 2
  {
    var begin, badAllowed, leftmost := begin0, badAllowed0, leftmost0;
    ghost var balanced := BalancedDepth(end - begin0);
    depth := 0;
    while true
      invariant begin0 <= begin <= end
      invariant Working(less, old(a[..]), a[..], begin0, begin, end, leftmost)
      invariant badAllowed <= badAllowed0 && (badAllowed0 > 0 ==> badAllowed > 0)
      invariant badAllowed0 > 0 ==> depth <= badAllowed0 - 1 + balanced
      invariant end - begin0 < INSERTION_SORT_THRESHOLD ==> depth == 0
      decreases end - begin
    {
      if end - begin < INSERTION_SORT_THRESHOLD {
        SmallTurn(a, less, old(a[..]), begin0, begin, end, leftmost);
        return;
      }
      ghost var s := a[..];
      ChoosePivot(a, less, begin, end);
      WorkingKept(less, old(a[..]), s, a[..], begin0, begin, end, leftmost);
      if !leftmost && !less(a[begin - 1], a[begin]) {
        begin := EqualsTurn(a, less, old(a[..]), begin0, begin, end);
      } else {
        ghost var levels;
        var finished;
        begin, badAllowed, finished, levels :=
          PivotTurn(a, less, old(a[..]), begin0, begin, end, badAllowed, leftmost, branchless, balanced,
                    badAllowed0, allowance);
        depth := if levels > depth then levels else depth;
        if finished { return; }
        leftmost := false;
      }
    }
  }

  // ----- the entry points

  /** The floor of the base-2 logarithm. */
  method Log2(n: nat) returns (log: nat)
    requires n > 0
    ensures log == Words.FloorLog(n)
  {
    log := 0;
    var m: nat := n / 2;
    while m > 0
      invariant Words.FloorLog(n) == log + 1 + Words.FloorLog(m)
    {
      m, log := m / 2, log + 1;
    }
  }

  /** Sorts `[begin, end)`, `branchless` choosing between the two partitions. The recursion is less
      deep than the base-2 logarithm of the size plus the number of balanced cuts. */
  method Pdqsort<T(!new)>(a: array<T>, less: (T, T) -> bool, begin: nat, end: nat, branchless: bool)
      returns (ghost depth: nat)
    requires StrictWeakOrder(less) && begin <= end <= a.Length
    modifies a
    ensures Permuted(old(a[..]), a[..], begin, end)
    ensures Sorted(less, a[..], begin, end)
    ensures depth == 0 || depth < Words.FloorLog(end - begin) + BalancedDepth(end - begin)
  {
    if begin == end { return 0; }
    var badAllowed := Log2(end - begin);
    Words.BitLengthBrackets(end - begin);
    assert Words.Pow2(1) == 2;
    depth := PdqsortLoop(a, less, begin, end, badAllowed, true, branchless, DepthBound(end - begin, badAllowed));
  }
}

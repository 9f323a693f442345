/** Pivot selection and the two plain partitions of pdqsort. */
module Partition {
  import opened SortSpec

  /** Elements below the pivot sit before `p`, the pivot at `p`, the rest after it. */
  ghost predicate PivotedRight<T>(less: (T, T) -> bool, s: seq<T>, lo: nat, p: nat, hi: nat) {
    && lo <= p < hi <= |s|
    && (forall i :: lo <= i < p ==> less(s[i], s[p]))
    && (forall i :: p < i < hi ==> !less(s[i], s[p]))
  }

  /** Elements above the pivot sit after `p`, the pivot at `p`, the rest before it. */
  ghost predicate PivotedLeft<T>(less: (T, T) -> bool, s: seq<T>, lo: nat, p: nat, hi: nat) {
    && lo <= p < hi <= |s|
    && (forall i :: lo <= i < p ==> !less(s[p], s[i]))
    && (forall i :: p < i < hi ==> less(s[p], s[i]))
  }

  /** After the pivot `s[lo]`, no element below it follows one that is not. */
  ghost predicate AlreadyPartitioned<T>(less: (T, T) -> bool, s: seq<T>, lo: nat, hi: nat)
    requires lo < hi <= |s|
  {
    forall i, j :: lo < i < j < hi && less(s[j], s[lo]) ==> less(s[i], s[lo])
  }

  method Swap<T>(a: array<T>, i: nat, j: nat)
    requires i < a.Length && j < a.Length
    modifies a
    ensures a[..] == Swapped(old(a[..]), i, j)
  {
    a[i], a[j] := a[j], a[i];
  }

  function Sorted2<T>(less: (T, T) -> bool, s: seq<T>, x: nat, y: nat): (t: seq<T>)
    requires x < |s| && y < |s|
    ensures |t| == |s|
  {
    if less(s[y], s[x]) then Swapped(s, x, y) else s
  }

  function Sorted3<T>(less: (T, T) -> bool, s: seq<T>, x: nat, y: nat, z: nat): seq<T>
    requires x < |s| && y < |s| && z < |s|
  {
    Sorted2(less, Sorted2(less, Sorted2(less, s, x, y), y, z), x, y)
  }

  method Sort2<T>(a: array<T>, less: (T, T) -> bool, x: nat, y: nat)
    requires x < a.Length && y < a.Length
    modifies a
    ensures a[..] == Sorted2(less, old(a[..]), x, y)
  {
    if less(a[y], a[x]) { Swap(a, x, y); }
  }

  method Sort3<T>(a: array<T>, less: (T, T) -> bool, x: nat, y: nat, z: nat)
    requires x < a.Length && y < a.Length && z < a.Length
    modifies a
    ensures a[..] == Sorted3(less, old(a[..]), x, y, z)
  {
    Sort2(a, less, x, y);
    Sort2(a, less, y, z);
    Sort2(a, less, x, y);
  }

  /** The three-comparison network on values, its last exchange included. */
  lemma NetworkOrders<T(!new)>(less: (T, T) -> bool, p: T, q: T, r: T)
    requires StrictWeakOrder(less)
    ensures var (p1, q1) := if less(q, p) then (q, p) else (p, q);
            var (q2, r2) := if less(r, q1) then (r, q1) else (q1, r);
            var (p3, q3) := if less(q2, p1) then (q2, p1) else (p1, q2);
            !less(q3, p3) && !less(r2, q3)
  {
    assert OrderLaws(less, p, q, p);
    assert OrderLaws(less, q, p, q);
    var (p1, q1) := if less(q, p) then (q, p) else (p, q);
    assert !less(q1, p1);
    assert OrderLaws(less, r, q1, r);
    if less(r, q1) && less(r, p1) {
      assert OrderLaws(less, r, p1, r);
    }
  }

  lemma Sorted2Permuted<T>(less: (T, T) -> bool, s: seq<T>, x: nat, y: nat, lo: nat, hi: nat)
    requires lo <= x < hi <= |s| && lo <= y < hi
    ensures Permuted(s, Sorted2(less, s, x, y), lo, hi)
  {
  }

  /** `m` is one of the three, and is between the other two. */
  ghost predicate IsMedian<T>(less: (T, T) -> bool, m: T, p: T, q: T, r: T) {
    (m == p && Between(less, q, p, r)) || (m == q && Between(less, p, q, r)) || (m == r && Between(less, p, r, q))
  }

  ghost predicate Between<T>(less: (T, T) -> bool, p: T, m: T, r: T) {
    (!less(m, p) && !less(r, m)) || (!less(m, r) && !less(p, m))
  }

  lemma NetworkMedian<T(!new)>(less: (T, T) -> bool, p: T, q: T, r: T)
    requires StrictWeakOrder(less)
    ensures var (p1, q1) := if less(q, p) then (q, p) else (p, q);
            var (q2, r2) := if less(r, q1) then (r, q1) else (q1, r);
            var (p3, q3) := if less(q2, p1) then (q2, p1) else (p1, q2);
            IsMedian(less, q3, p, q, r)
  {
    NetworkOrders(less, p, q, r);
  }

  lemma Sorted3Permuted<T>(less: (T, T) -> bool, s: seq<T>, x: nat, y: nat, z: nat, lo: nat, hi: nat)
    requires lo <= x < hi <= |s| && lo <= y < hi && lo <= z < hi
    ensures Permuted(s, Sorted3(less, s, x, y, z), lo, hi)
  {
    var s1 := Sorted2(less, s, x, y);
    var s2 := Sorted2(less, s1, y, z);
    var s3 := Sorted2(less, s2, x, y);
    Sorted2Permuted(less, s, x, y, lo, hi);
    Sorted2Permuted(less, s1, y, z, lo, hi);
    Sorted2Permuted(less, s2, x, y, lo, hi);
    PermutedTrans(s, s1, s2, lo, hi);
    PermutedTrans(s, s2, s3, lo, hi);
  }

  lemma Sorted2Values<T>(less: (T, T) -> bool, s: seq<T>, x: nat, y: nat)
    requires x < |s| && y < |s| && x != y
    ensures var t := Sorted2(less, s, x, y);
            && (t[x], t[y]) == (if less(s[y], s[x]) then (s[y], s[x]) else (s[x], s[y]))
            && forall i :: 0 <= i < |s| && i != x && i != y ==> t[i] == s[i]
  {
  }

  /** At three distinct positions of a range, `Sorted3` orders the elements and touches no other. */
  lemma Sorted3Orders<T(!new)>(less: (T, T) -> bool, s: seq<T>, x: nat, y: nat, z: nat, lo: nat, hi: nat)
    requires StrictWeakOrder(less)
    requires lo <= x < hi <= |s| && lo <= y < hi && lo <= z < hi
    requires x != y && y != z && x != z
    ensures var t := Sorted3(less, s, x, y, z);
            && Permuted(s, t, lo, hi)
            && !less(t[y], t[x]) && !less(t[z], t[y]) && IsMedian(less, t[y], s[x], s[y], s[z])
            && forall i :: 0 <= i < |s| && i != x && i != y && i != z ==> t[i] == s[i]
  {
    Sorted3Permuted(less, s, x, y, z, lo, hi);
    Sorted3InOrder(less, s, x, y, z);
  }

  lemma Sorted3InOrder<T(!new)>(less: (T, T) -> bool, s: seq<T>, x: nat, y: nat, z: nat)
    requires StrictWeakOrder(less)
    requires x < |s| && y < |s| && z < |s| && x != y && y != z && x != z
    ensures var t := Sorted3(less, s, x, y, z);
            && !less(t[y], t[x]) && !less(t[z], t[y]) && IsMedian(less, t[y], s[x], s[y], s[z])
            && forall i :: 0 <= i < |s| && i != x && i != y && i != z ==> t[i] == s[i]
  {
    var s1 := Sorted2(less, s, x, y);
    var s2 := Sorted2(less, s1, y, z);
    Sorted2Values(less, s, x, y);
    Sorted2Values(less, s1, y, z);
    Sorted2Values(less, s2, x, y);
    NetworkOrders(less, s[x], s[y], s[z]);
    NetworkMedian(less, s[x], s[y], s[z]);
  }

  // ----- the scans; the unguarded ones have no bound but the element promised to stop them

  method ScanUp<T>(a: array<T>, skip: T -> bool, from: nat) returns (i: nat)
    requires exists k :: from <= k < a.Length && !skip(a[k])
    ensures from <= i < a.Length && !skip(a[i])
    ensures forall k :: from <= k < i ==> skip(a[k])
  {
    i := from;
    while skip(a[i])
      invariant from <= i < a.Length
      invariant forall k :: from <= k < i ==> skip(a[k])
      decreases a.Length - i
    {
      i := i + 1;
    }
  }

  method ScanDown<T>(a: array<T>, skip: T -> bool, from: nat) returns (i: nat)
    requires from < a.Length
    requires exists k :: 0 <= k <= from && !skip(a[k])
    ensures i <= from && !skip(a[i])
    ensures forall k :: i < k <= from ==> skip(a[k])
  {
    i := from;
    while skip(a[i])
      invariant i <= from
      invariant forall k :: i < k <= from ==> skip(a[k])
      decreases i
    {
      i := i - 1;
    }
  }

  /** Moves down from `last`, not past `first`, to the first element not skipped. */
  method GuardedScanDown<T>(a: array<T>, skip: T -> bool, first: nat, last: nat) returns (i: nat)
    requires first <= last <= a.Length
    ensures first <= i <= last
    ensures forall k :: i < k < last ==> skip(a[k])
    ensures i < last && skip(a[i]) ==> i == first
    ensures i == last ==> first == last
  {
    i := last;
    while first < i
      invariant first <= i <= last
      invariant forall k :: i <= k < last ==> skip(a[k])
    {
      i := i - 1;
      if !skip(a[i]) { return; }
    }
  }

  /** Moves up from `first`, not past `last`, to the first element not skipped. */
  method GuardedScanUp<T>(a: array<T>, skip: T -> bool, first: nat, last: nat) returns (i: nat)
    requires first <= last < a.Length
    ensures first <= i <= last
    ensures forall k :: first < k < i ==> skip(a[k])
    ensures first < i && skip(a[i]) ==> i == last
    ensures i == first ==> first == last
  {
    i := first;
    while i < last
      invariant first <= i <= last
      invariant forall k :: first < k <= i ==> skip(a[k])
    {
      i := i + 1;
      if !skip(a[i]) { return; }
    }
  }

  /** Everything before `first` is below the pivot `s[lo]` and everything after `last` is not;
      `first` and `last` are themselves out of place, or they have met and nothing is. */
  ghost predicate RightScanned<T>(less: (T, T) -> bool, s: seq<T>, lo: nat, hi: nat, first: nat, last: nat) {
    && lo < first < hi <= |s| && lo < last < hi && first <= last + 1
    && (forall i :: lo < i < first ==> less(s[i], s[lo]))
    && !less(s[first], s[lo])
    && (forall i :: last < i < hi ==> !less(s[i], s[lo]))
    && (if first < last then less(s[last], s[lo]) else forall i :: first <= i < hi ==> !less(s[i], s[lo]))
  }

  lemma ScanDecidesPartitioned<T>(less: (T, T) -> bool, s: seq<T>, lo: nat, hi: nat, first: nat, last: nat)
    requires RightScanned(less, s, lo, hi, first, last)
    ensures first >= last <==> AlreadyPartitioned(less, s, lo, hi)
  {
  }

  /** The scans before the first exchange. */
  method FirstPair<T>(a: array<T>, less: (T, T) -> bool, begin: nat, end: nat) returns (first: nat, last: nat)
    requires begin < end <= a.Length
    requires exists i :: begin < i < end && !less(a[i], a[begin])
    ensures RightScanned(less, a[..], begin, end, first, last)
  {
    var pivot := a[begin];
    var below := x => less(x, pivot);
    ghost var stop :| begin < stop < end && !less(a[stop], pivot);
    assert !below(a[stop]);
    first := ScanUp(a, below, begin + 1);
    assert first <= stop;
    var notBelow := x => !less(x, pivot);
    if first - 1 == begin {
      last := GuardedScanDown(a, notBelow, first, end);
    } else {
      assert !notBelow(a[first - 1]);
      last := ScanDown(a, notBelow, end - 1);
      assert last >= first - 1;
    }
  }

  lemma NextScanned<T>(less: (T, T) -> bool, s: seq<T>, t: seq<T>, lo: nat, hi: nat, f: nat, l: nat, first: nat,
                       last: nat)
    requires RightScanned(less, s, lo, hi, f, l) && f < l && t == Swapped(s, f, l)
    requires f < first < |t| && !less(t[first], t[lo]) && forall k :: f < k < first ==> less(t[k], t[lo])
    requires last < l && less(t[last], t[lo]) && forall k :: last < k < l ==> !less(t[k], t[lo])
    ensures RightScanned(less, t, lo, hi, first, last)
  {
    assert !less(t[l], t[lo]) && less(t[f], t[lo]);
    assert less(t[first - 1], t[lo]);
  }

  /** Exchanges an out-of-place pair and finds the next; the pair just exchanged bounds the scans. */
  method NextPair<T>(a: array<T>, less: (T, T) -> bool, begin: nat, end: nat, f: nat, l: nat)
      returns (first: nat, last: nat)
    requires end <= a.Length && RightScanned(less, a[..], begin, end, f, l) && f < l
    modifies a
    ensures a[..] == Swapped(old(a[..]), f, l)
    ensures f < first && last < l && RightScanned(less, a[..], begin, end, first, last)
  {
    var pivot := a[begin];
    Swap(a, f, l);
    ghost var t := a[..];
    assert a[f] == t[f] && a[l] == t[l] && t[begin] == pivot;
    var below := x => less(x, pivot);
    assert !below(a[l]);
    first := ScanUp(a, below, f + 1);
    var notBelow := x => !less(x, pivot);
    assert !notBelow(a[f]);
    last := ScanDown(a, notBelow, l - 1);
    assert forall k :: f < k < first ==> below(t[k]);
    assert forall k :: last < k < l ==> notBelow(t[k]);
    NextScanned(less, old(a[..]), t, begin, end, f, l, first, last);
  }

  /** Moves the pivot from the start of the range to the boundary `first - 1`. */
  method PlacePivot<T>(a: array<T>, less: (T, T) -> bool, begin: nat, end: nat, first: nat) returns (pivotPos: nat)
    requires begin < first <= end <= a.Length
    requires forall i :: begin < i < first ==> less(a[i], a[begin])
    requires forall i :: first <= i < end ==> !less(a[i], a[begin])
    modifies a
    ensures Permuted(old(a[..]), a[..], begin, end)
    ensures PivotedRight(less, a[..], begin, pivotPos, end) && a[pivotPos] == old(a[begin])
  {
    var pivot := a[begin];
    pivotPos := first - 1;
    PermutedSwap(a[..], begin, pivotPos, begin, end);
    a[begin] := a[pivotPos];
    a[pivotPos] := pivot;
    assert a[..] == Swapped(old(a[..]), begin, pivotPos);
  }

  /** Partitions `[begin, end)` around the pivot `a[begin]`, equal elements to the right. The
      caller promises an element not below the pivot; nothing else bounds the upward scan. */
  method PartitionRight<T>(a: array<T>, less: (T, T) -> bool, begin: nat, end: nat)
      returns (pivotPos: nat, already: bool)
    requires begin < end <= a.Length
    requires exists i :: begin < i < end && !less(a[i], a[begin])
    modifies a
    ensures Permuted(old(a[..]), a[..], begin, end)
    ensures PivotedRight(less, a[..], begin, pivotPos, end) && a[pivotPos] == old(a[begin])
    ensures already <==> AlreadyPartitioned(less, old(a[..]), begin, end)
  {
    var first, last := FirstPair(a, less, begin, end);
    ScanDecidesPartitioned(less, a[..], begin, end, first, last);
    already := first >= last;
    while first < last
      invariant Permuted(old(a[..]), a[..], begin, end) && a[begin] == old(a[begin])
      invariant RightScanned(less, a[..], begin, end, first, last)
    {
      PermutedSwap(a[..], first, last, begin, end);
      first, last := NextPair(a, less, begin, end, first, last);
      assert a[..][begin] == a[begin];
    }
    ghost var s := a[..];
    pivotPos := PlacePivot(a, less, begin, end, first);
    PermutedTrans(old(a[..]), s, a[..], begin, end);
  }

  /** The mirror image of `RightScanned`: equal elements belong to the left. */
  ghost predicate LeftScanned<T>(less: (T, T) -> bool, s: seq<T>, lo: nat, hi: nat, first: nat, last: nat) {
    && lo < first < hi <= |s| && lo < last < hi && first <= last + 1
    && (forall i :: lo < i < first ==> !less(s[lo], s[i]))
    && !less(s[lo], s[last])
    && (forall i :: last < i < hi ==> less(s[lo], s[i]))
    && (if first < last then less(s[lo], s[first]) else forall i :: lo < i <= last ==> !less(s[lo], s[i]))
  }

  /** The scans before the first exchange of `PartitionLeft`. */
  method LastPair<T>(a: array<T>, less: (T, T) -> bool, begin: nat, end: nat) returns (first: nat, last: nat)
    requires begin < end <= a.Length
    requires exists i :: begin < i < end && !less(a[begin], a[i])
    ensures LeftScanned(less, a[..], begin, end, first, last)
  {
    var pivot := a[begin];
    var above := x => less(pivot, x);
    ghost var stop :| begin < stop < end && !less(pivot, a[stop]);
    assert !above(a[stop]);
    last := ScanDown(a, above, end - 1);
    assert stop <= last;
    first := FirstAbove(a, less, begin, last, end);
  }

  /** The first element above the pivot; if the scan down found none, this one is guarded. */
  method FirstAbove<T>(a: array<T>, less: (T, T) -> bool, begin: nat, last: nat, end: nat) returns (first: nat)
    requires begin < last < end <= a.Length && !less(a[begin], a[last])
    requires forall i :: last < i < end ==> less(a[begin], a[i])
    ensures LeftScanned(less, a[..], begin, end, first, last)
  {
    var pivot := a[begin];
    var notAbove := x => !less(pivot, x);
    if last + 1 == end {
      first := GuardedScanUp(a, notAbove, begin, last);
    } else {
      assert !notAbove(a[last + 1]);
      first := ScanUp(a, notAbove, begin + 1);
      assert first <= last + 1;
    }
  }

  lemma PreviousScanned<T>(less: (T, T) -> bool, s: seq<T>, t: seq<T>, lo: nat, hi: nat, f: nat, l: nat, first: nat,
                           last: nat)
    requires LeftScanned(less, s, lo, hi, f, l) && f < l && t == Swapped(s, f, l)
    requires f < first < |t| && less(t[lo], t[first]) && forall k :: f < k < first ==> !less(t[lo], t[k])
    requires last < l && !less(t[lo], t[last]) && forall k :: last < k < l ==> less(t[lo], t[k])
    ensures LeftScanned(less, t, lo, hi, first, last)
  {
    assert less(t[lo], t[l]) && !less(t[lo], t[f]);
    assert !less(t[lo], t[first - 1]);
  }

  method PreviousPair<T>(a: array<T>, less: (T, T) -> bool, begin: nat, end: nat, f: nat, l: nat)
      returns (first: nat, last: nat)
    requires end <= a.Length && LeftScanned(less, a[..], begin, end, f, l) && f < l
    modifies a
    ensures a[..] == Swapped(old(a[..]), f, l)
    ensures f < first && last < l && LeftScanned(less, a[..], begin, end, first, last)
  {
    var pivot := a[begin];
    Swap(a, f, l);
    ghost var t := a[..];
    assert a[f] == t[f] && a[l] == t[l] && t[begin] == pivot;
    var above := x => less(pivot, x);
    assert !above(a[f]);
    last := ScanDown(a, above, l - 1);
    var notAbove := x => !less(pivot, x);
    assert !notAbove(a[l]);
    first := ScanUp(a, notAbove, f + 1);
    assert forall k :: f < k < first ==> notAbove(t[k]);
    assert forall k :: last < k < l ==> above(t[k]);
    PreviousScanned(less, old(a[..]), t, begin, end, f, l, first, last);
  }

  /** Partitions around `a[begin]` with equal elements to the left; some other element must be
      no larger than the pivot, which bounds the downward scan. */
  method PartitionLeft<T>(a: array<T>, less: (T, T) -> bool, begin: nat, end: nat) returns (pivotPos: nat)
    requires begin < end <= a.Length
    requires exists i :: begin < i < end && !less(a[begin], a[i])
    modifies a
    ensures Permuted(old(a[..]), a[..], begin, end)
    ensures PivotedLeft(less, a[..], begin, pivotPos, end) && a[pivotPos] == old(a[begin])
  {
    var first, last := LastPair(a, less, begin, end);
    while first < last
      invariant Permuted(old(a[..]), a[..], begin, end) && a[begin] == old(a[begin])
      invariant LeftScanned(less, a[..], begin, end, first, last)
    {
      PermutedSwap(a[..], first, last, begin, end);
      first, last := PreviousPair(a, less, begin, end, first, last);
      assert a[..][begin] == a[begin];
    }
    ghost var s := a[..];
    pivotPos := last;
    PlaceLeft(a, less, begin, end, first, last);
    PermutedTrans(old(a[..]), s, a[..], begin, end);
  }

  /** Puts the pivot behind the elements not above it. */
  method PlaceLeft<T>(a: array<T>, less: (T, T) -> bool, begin: nat, end: nat, ghost first: nat, last: nat)
    requires LeftScanned(less, a[..], begin, end, first, last) && first >= last && end <= a.Length
    modifies a
    ensures Permuted(old(a[..]), a[..], begin, end)
    ensures PivotedLeft(less, a[..], begin, last, end) && a[last] == old(a[begin])
  {
    ghost var s := a[..];
    var pivot := a[begin];
    PermutedSwap(s, begin, last, begin, end);
    a[begin] := a[last];
    a[last] := pivot;
    assert a[..] == Swapped(s, begin, last);
  }
}

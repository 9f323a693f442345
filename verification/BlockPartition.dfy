/** The block partition of pdqsort: elements on the wrong side are first recorded in offset
    buffers, without branching on the comparison, and then exchanged in bulk. */
module BlockPartition {
  import opened SortSpec
  import opened Partition

  const BLOCK_SIZE := 64

  // ----- swap_offsets: exchanging the recorded elements

  /** Positions named by offsets counted up from `first`. */
  ghost predicate UpFrom(first: int, off: seq<int>, at: seq<nat>) {
    |at| == |off| && forall k :: 0 <= k < |at| ==> at[k] == first + off[k]
  }

  /** Positions named by offsets counted down from `last`. */
  ghost predicate DownFrom(last: int, off: seq<int>, at: seq<nat>) {
    |at| == |off| && forall k :: 0 <= k < |at| ==> at[k] == last - off[k]
  }

  /** Equally many positions on both sides, all distinct and inside an array of length `n`. */
  ghost predicate Apart(n: nat, ls: seq<nat>, rs: seq<nat>) {
    && |ls| == |rs|
    && (forall k :: 0 <= k < |ls| ==> ls[k] < n)
    && (forall k :: 0 <= k < |rs| ==> rs[k] < n)
    && (forall j, k :: 0 <= j < k < |ls| ==> ls[j] != ls[k])
    && (forall j, k :: 0 <= j < k < |rs| ==> rs[j] != rs[k])
    && (forall j, k :: 0 <= j < |ls| && 0 <= k < |rs| ==> ls[j] != rs[k])
  }

  ghost predicate NotAmong(x: nat, at: seq<nat>, n: nat)
    requires n <= |at|
  {
    forall k :: 0 <= k < n ==> at[k] != x
  }

  /** Every left element went to some right position and conversely; nothing else moved. */
  ghost predicate Exchanged<T>(s: seq<T>, t: seq<T>, ls: seq<nat>, rs: seq<nat>)
    requires Apart(|s|, ls, rs)
  {
    && |t| == |s| && multiset(t) == multiset(s)
    && (forall k {:trigger t[ls[k]]} :: 0 <= k < |ls| ==> t[ls[k]] == s[rs[k]])
    && (forall k {:trigger t[rs[k]]} :: 0 <= k < |rs| ==> exists j :: 0 <= j < |ls| && t[rs[k]] == s[ls[j]])
    && (forall x :: 0 <= x < |s| && NotAmong(x, ls, |ls|) && NotAmong(x, rs, |rs|) ==> t[x] == s[x])
  }

  /** `s` after swapping the first `n` pairs of positions. */
  ghost function Pairs<T>(s: seq<T>, ls: seq<nat>, rs: seq<nat>, n: nat): (t: seq<T>)
    requires Apart(|s|, ls, rs) && n <= |ls|
    ensures |t| == |s|
  {
    if n == 0 then s else Swapped(Pairs(s, ls, rs, n - 1), ls[n - 1], rs[n - 1])
  }

  lemma {:induction false} PairsOther<T>(s: seq<T>, ls: seq<nat>, rs: seq<nat>, n: nat, x: nat)
    requires Apart(|s|, ls, rs) && n <= |ls| && x < |s|
    requires NotAmong(x, ls, n) && NotAmong(x, rs, n)
    ensures Pairs(s, ls, rs, n)[x] == s[x]
  {
    if n > 0 { PairsOther(s, ls, rs, n - 1, x); }
  }

  lemma {:induction false} PairsAt<T>(s: seq<T>, ls: seq<nat>, rs: seq<nat>, n: nat, k: nat)
    requires Apart(|s|, ls, rs) && k < n <= |ls|
    ensures Pairs(s, ls, rs, n)[ls[k]] == s[rs[k]]
    ensures Pairs(s, ls, rs, n)[rs[k]] == s[ls[k]]
  {
    if k < n - 1 {
      PairsAt(s, ls, rs, n - 1, k);
    } else {
      PairsOther(s, ls, rs, k, ls[k]);
      PairsOther(s, ls, rs, k, rs[k]);
    }
  }

  /** `s` after the first `n` moves of the cycle, the displaced element put in the open place. */
  ghost function Cycle<T>(s: seq<T>, ls: seq<nat>, rs: seq<nat>, n: nat): (t: seq<T>)
    requires Apart(|s|, ls, rs) && 0 < n <= |ls|
    ensures |t| == |s|
  {
    if n == 1 then Swapped(s, ls[0], rs[0])
    else Swapped(Swapped(Cycle(s, ls, rs, n - 1), rs[n - 2], ls[n - 1]), ls[n - 1], rs[n - 1])
  }

  lemma {:induction false} CycleOther<T>(s: seq<T>, ls: seq<nat>, rs: seq<nat>, n: nat, x: nat)
    requires Apart(|s|, ls, rs) && 0 < n <= |ls| && x < |s|
    requires NotAmong(x, ls, n) && NotAmong(x, rs, n)
    ensures Cycle(s, ls, rs, n)[x] == s[x]
  {
    if n > 1 { CycleOther(s, ls, rs, n - 1, x); }
  }

  /** The open place holds the first left element, whose turn comes last. */
  lemma {:induction false} CycleOpen<T>(s: seq<T>, ls: seq<nat>, rs: seq<nat>, n: nat)
    requires Apart(|s|, ls, rs) && 0 < n <= |ls|
    ensures Cycle(s, ls, rs, n)[rs[n - 1]] == s[ls[0]]
  {
    if n > 1 { CycleOpen(s, ls, rs, n - 1); }
  }

  lemma {:induction false} CycleLeft<T>(s: seq<T>, ls: seq<nat>, rs: seq<nat>, n: nat, k: nat)
    requires Apart(|s|, ls, rs) && k < n <= |ls|
    ensures Cycle(s, ls, rs, n)[ls[k]] == s[rs[k]]
  {
    if k < n - 1 {
      CycleLeft(s, ls, rs, n - 1, k);
    } else if k > 0 {
      CycleOther(s, ls, rs, k, rs[k]);
    }
  }

  lemma {:induction false} CycleRight<T>(s: seq<T>, ls: seq<nat>, rs: seq<nat>, n: nat, k: nat)
    requires Apart(|s|, ls, rs) && k + 1 < n <= |ls|
    ensures Cycle(s, ls, rs, n)[rs[k]] == s[ls[k + 1]]
  {
    if k + 1 < n - 1 {
      CycleRight(s, ls, rs, n - 1, k);
    } else {
      CycleOther(s, ls, rs, n - 1, ls[n - 1]);
    }
  }

  lemma {:induction false} PairsMultiset<T>(s: seq<T>, ls: seq<nat>, rs: seq<nat>, n: nat)
    requires Apart(|s|, ls, rs) && n <= |ls|
    ensures multiset(Pairs(s, ls, rs, n)) == multiset(s)
  {
    if n > 0 {
      PairsMultiset(s, ls, rs, n - 1);
      SwappedMultiset(Pairs(s, ls, rs, n - 1), ls[n - 1], rs[n - 1]);
    }
  }

  lemma {:induction false} CycleMultiset<T>(s: seq<T>, ls: seq<nat>, rs: seq<nat>, n: nat)
    requires Apart(|s|, ls, rs) && 0 < n <= |ls|
    ensures multiset(Cycle(s, ls, rs, n)) == multiset(s)
  {
    if n == 1 {
      SwappedMultiset(s, ls[0], rs[0]);
    } else {
      var t := Cycle(s, ls, rs, n - 1);
      CycleMultiset(s, ls, rs, n - 1);
      SwappedMultiset(t, rs[n - 2], ls[n - 1]);
      SwappedMultiset(Swapped(t, rs[n - 2], ls[n - 1]), ls[n - 1], rs[n - 1]);
    }
  }

  lemma PairsExchange<T>(s: seq<T>, ls: seq<nat>, rs: seq<nat>)
    requires Apart(|s|, ls, rs)
    ensures Exchanged(s, Pairs(s, ls, rs, |ls|), ls, rs)
  {
    var t := Pairs(s, ls, rs, |ls|);
    PairsMultiset(s, ls, rs, |ls|);
    forall k | 0 <= k < |ls| ensures t[ls[k]] == s[rs[k]] && t[rs[k]] == s[ls[k]] {
      PairsAt(s, ls, rs, |ls|, k);
    }
    forall x | 0 <= x < |s| && NotAmong(x, ls, |ls|) && NotAmong(x, rs, |rs|) ensures t[x] == s[x] {
      PairsOther(s, ls, rs, |ls|, x);
    }
  }

  lemma CycleExchange<T>(s: seq<T>, ls: seq<nat>, rs: seq<nat>)
    requires Apart(|s|, ls, rs) && |ls| > 0
    ensures Exchanged(s, Cycle(s, ls, rs, |ls|), ls, rs)
  {
    var t := Cycle(s, ls, rs, |ls|);
    CycleMultiset(s, ls, rs, |ls|);
    forall k | 0 <= k < |ls| ensures t[ls[k]] == s[rs[k]] {
      CycleLeft(s, ls, rs, |ls|, k);
    }
    forall k | 0 <= k < |rs| ensures exists j :: 0 <= j < |ls| && t[rs[k]] == s[ls[j]] {
      if k + 1 == |rs| {
        CycleOpen(s, ls, rs, |ls|);
      } else {
        CycleRight(s, ls, rs, |ls|, k);
      }
    }
    forall x | 0 <= x < |s| && NotAmong(x, ls, |ls|) && NotAmong(x, rs, |rs|) ensures t[x] == s[x] {
      CycleOther(s, ls, rs, |ls|, x);
    }
  }

  method SwapPairs<T>(a: array<T>, first: int, last: int, offL: seq<int>, offR: seq<int>,
                      ghost ls: seq<nat>, ghost rs: seq<nat>)
    requires UpFrom(first, offL, ls) && DownFrom(last, offR, rs)
    requires Apart(a.Length, ls, rs)
    modifies a
    ensures a[..] == Pairs(old(a[..]), ls, rs, |ls|)
  {
    var i := 0;
    while i < |offL|
      invariant 0 <= i <= |offL|
      invariant a[..] == Pairs(old(a[..]), ls, rs, i)
    {
      assert ls[i] < a.Length && rs[i] < a.Length;
      Swap(a, first + offL[i], last - offR[i]);
      i := i + 1;
    }
  }

  method MoveInCycle<T>(a: array<T>, first: int, last: int, offL: seq<int>, offR: seq<int>,
                        ghost ls: seq<nat>, ghost rs: seq<nat>)
    requires UpFrom(first, offL, ls) && DownFrom(last, offR, rs)
    requires Apart(a.Length, ls, rs) && |offL| > 0
    modifies a
    ensures a[..] == Cycle(old(a[..]), ls, rs, |ls|)
  {
    ghost var s := a[..];
    assert ls[0] < a.Length && rs[0] < a.Length;
    var l, r := first + offL[0], last - offR[0];
    var tmp := a[l];
    a[l] := a[r];
    assert a[..][r := tmp] == Cycle(s, ls, rs, 1);
    var i := 1;
    while i < |offL|
      invariant 1 <= i <= |offL| && r == rs[i - 1] < a.Length
      invariant a[..][r := tmp] == Cycle(s, ls, rs, i)
    {
      assert ls[i] < a.Length && rs[i] < a.Length && ls[i] != r && rs[i] != r && ls[i] != rs[i];
      ghost var v, hole := a[..][r := tmp], r;
      l := first + offL[i];
      a[r] := a[l];
      r := last - offR[i];
      a[l] := a[r];
      assert a[..][r := tmp] == Swapped(Swapped(v, hole, l), l, r);
      i := i + 1;
    }
    a[r] := tmp;
  }

  /** Exchanges the recorded left elements with the recorded right ones, by plain swaps or by one
      cyclic chain of moves. */
  method SwapOffsets<T>(a: array<T>, first: int, last: int, offL: seq<int>, offR: seq<int>, useSwaps: bool,
                        ghost ls: seq<nat>, ghost rs: seq<nat>)
    requires UpFrom(first, offL, ls) && DownFrom(last, offR, rs)
    requires Apart(a.Length, ls, rs)
    modifies a
    ensures Exchanged(old(a[..]), a[..], ls, rs)
    ensures a[..] == if useSwaps || ls == [] then Pairs(old(a[..]), ls, rs, |ls|) else Cycle(old(a[..]), ls, rs, |ls|)
  {
    PairsExchange(a[..], ls, rs);
    if useSwaps {
      SwapPairs(a, first, last, offL, offR, ls, rs);
    } else if |offL| > 0 {
      CycleExchange(a[..], ls, rs);
      MoveInCycle(a, first, last, offL, offR, ls, rs);
    }
  }

  // ----- blocks and the lists of their misplaced elements

  /** `at` lists, going up, exactly the elements of `[lo, hi)` not below the pivot. */
  ghost predicate LeftBlock<T>(less: (T, T) -> bool, pivot: T, s: seq<T>, lo: int, hi: int, at: seq<nat>) {
    && 0 <= lo <= hi <= |s|
    && (forall j, k :: 0 <= j < k < |at| ==> at[j] < at[k])
    && (forall k :: 0 <= k < |at| ==> lo <= at[k] < hi && !less(s[at[k]], pivot))
    && (forall x :: lo <= x < hi && x !in at ==> less(s[x], pivot))
  }

  /** `at` lists, going down, exactly the elements of `[lo, hi)` below the pivot. */
  ghost predicate RightBlock<T>(less: (T, T) -> bool, pivot: T, s: seq<T>, lo: int, hi: int, at: seq<nat>) {
    && 0 <= lo <= hi <= |s|
    && (forall j, k :: 0 <= j < k < |at| ==> at[j] > at[k])
    && (forall k :: 0 <= k < |at| ==> lo <= at[k] < hi && less(s[at[k]], pivot))
    && (forall x :: lo <= x < hi && x !in at ==> !less(s[x], pivot))
  }

  /** The positions in `[lo, hi)` of elements not below the pivot, going up. */
  ghost function NotBelowIn<T>(less: (T, T) -> bool, pivot: T, s: seq<T>, lo: nat, hi: nat): seq<nat>
    requires lo <= hi <= |s|
    decreases hi - lo
  {
    if lo == hi then []
    else NotBelowIn(less, pivot, s, lo, hi - 1) + if less(s[hi - 1], pivot) then [] else [hi - 1]
  }

  /** The positions in `[lo, hi)` of elements below the pivot, going down. */
  ghost function BelowIn<T>(less: (T, T) -> bool, pivot: T, s: seq<T>, lo: nat, hi: nat): seq<nat>
    requires lo <= hi <= |s|
    decreases hi - lo
  {
    if lo == hi then []
    else BelowIn(less, pivot, s, lo + 1, hi) + if less(s[lo], pivot) then [lo] else []
  }

  /** One more element on the right of a left block: listed, or below the pivot. */
  lemma LeftBlockExtend<T>(less: (T, T) -> bool, pivot: T, s: seq<T>, lo: nat, hi: nat, at: seq<nat>)
    requires lo <= hi < |s| && LeftBlock(less, pivot, s, lo, hi, at)
    ensures LeftBlock(less, pivot, s, lo, hi + 1, at + if less(s[hi], pivot) then [] else [hi])
  {
  }

  lemma {:induction false} NotBelowInBlock<T>(less: (T, T) -> bool, pivot: T, s: seq<T>, lo: nat, hi: nat)
    requires lo <= hi <= |s|
    ensures LeftBlock(less, pivot, s, lo, hi, NotBelowIn(less, pivot, s, lo, hi))
    decreases hi - lo
  {
    if lo < hi {
      var at := NotBelowIn(less, pivot, s, lo, hi - 1);
      assert LeftBlock(less, pivot, s, lo, hi - 1, at) by { NotBelowInBlock(less, pivot, s, lo, hi - 1); }
      LeftBlockExtend(less, pivot, s, lo, hi - 1, at);
      assert NotBelowIn(less, pivot, s, lo, hi) == at + if less(s[hi - 1], pivot) then [] else [hi - 1];
    }
  }

  /** One more element on the left of a right block: listed last, or not below the pivot. */
  lemma RightBlockExtend<T>(less: (T, T) -> bool, pivot: T, s: seq<T>, lo: nat, hi: nat, at: seq<nat>)
    requires lo + 1 <= hi <= |s| && RightBlock(less, pivot, s, lo + 1, hi, at)
    ensures RightBlock(less, pivot, s, lo, hi, at + if less(s[lo], pivot) then [lo] else [])
  {
  }

  lemma {:induction false} BelowInBlock<T>(less: (T, T) -> bool, pivot: T, s: seq<T>, lo: nat, hi: nat)
    requires lo <= hi <= |s|
    ensures RightBlock(less, pivot, s, lo, hi, BelowIn(less, pivot, s, lo, hi))
    decreases hi - lo
  {
    if lo < hi {
      BelowInBlock(less, pivot, s, lo + 1, hi);
      RightBlockExtend(less, pivot, s, lo, hi, BelowIn(less, pivot, s, lo + 1, hi));
    }
  }

  /** How many elements a fill of the given size reads; a size of -1 reads none. */
  function Extent(size: int): nat { if size < 0 then 0 else size }

  method FillLeft<T>(a: array<T>, less: (T, T) -> bool, pivot: T, first: nat, size: int, offsets: array<int>)
      returns (num: nat, ghost at: seq<nat>)
    requires a as object != offsets as object && offsets.Length == BLOCK_SIZE
    requires size <= BLOCK_SIZE && first + Extent(size) <= a.Length
    modifies offsets
    ensures num <= BLOCK_SIZE && UpFrom(first, offsets[..num], at)
    ensures at == NotBelowIn(less, pivot, a[..], first, first + Extent(size))
  {
    num, at := 0, [];
    var i := 0;
    while i < size
      invariant 0 <= num <= i <= Extent(size) && |at| == num
      invariant forall k :: 0 <= k < num ==> at[k] == first + offsets[k]
      invariant at == NotBelowIn(less, pivot, a[..], first, first + i)
    {
      offsets[num] := i;
      if !less(a[first + i], pivot) { num, at := num + 1, at + [first + i]; }
      i := i + 1;
    }
  }

  method FillRight<T>(a: array<T>, less: (T, T) -> bool, pivot: T, last: nat, size: int, offsets: array<int>)
      returns (num: nat, ghost at: seq<nat>)
    requires a as object != offsets as object && offsets.Length == BLOCK_SIZE
    requires size <= BLOCK_SIZE && Extent(size) <= last <= a.Length
    modifies offsets
    ensures num <= BLOCK_SIZE && DownFrom(last, offsets[..num], at)
    ensures at == BelowIn(less, pivot, a[..], last - Extent(size), last)
  {
    num, at := 0, [];
    var i := 0;
    while i < size
      invariant 0 <= num <= i <= Extent(size) && |at| == num
      invariant forall k :: 0 <= k < num ==> at[k] == last - offsets[k]
      invariant at == BelowIn(less, pivot, a[..], last - i, last)
    {
      i := i + 1;
      offsets[num] := i;
      if less(a[last - i], pivot) { num, at := num + 1, at + [last - i]; }
    }
  }

  // ----- what an exchange does to the blocks

  lemma BlocksApart<T>(less: (T, T) -> bool, pivot: T, s: seq<T>, lo: int, mid: int, mid': int, hi: int,
                       atL: seq<nat>, atR: seq<nat>, num: nat)
    requires LeftBlock(less, pivot, s, lo, mid, atL) && RightBlock(less, pivot, s, mid', hi, atR) && mid <= mid'
    requires num <= |atL| && num <= |atR|
    ensures Apart(|s|, atL[..num], atR[..num])
  {
  }

  /** A position that took no part in the exchange. */
  lemma Untouched<T>(s: seq<T>, t: seq<T>, ls: seq<nat>, rs: seq<nat>, x: nat)
    requires Apart(|s|, ls, rs) && Exchanged(s, t, ls, rs) && x < |s| && x !in ls && x !in rs
    ensures t[x] == s[x]
  {
    assert NotAmong(x, ls, |ls|) && NotAmong(x, rs, |rs|);
  }

  lemma LeftBlockAfter<T>(less: (T, T) -> bool, pivot: T, s: seq<T>, t: seq<T>, lo: int, mid: int, mid': int, hi: int,
                          atL: seq<nat>, atR: seq<nat>, num: nat)
    requires LeftBlock(less, pivot, s, lo, mid, atL) && RightBlock(less, pivot, s, mid', hi, atR) && mid <= mid'
    requires num <= |atL| && num <= |atR|
    requires Apart(|s|, atL[..num], atR[..num]) && Exchanged(s, t, atL[..num], atR[..num])
    ensures LeftBlock(less, pivot, t, lo, mid, atL[num..])
  {
    var ls, rs := atL[..num], atR[..num];
    forall k | num <= k < |atL| ensures !less(t[atL[k]], pivot) {
      Untouched(s, t, ls, rs, atL[k]);
    }
    forall x | lo <= x < mid && x !in atL[num..] ensures less(t[x], pivot) {
      if x in ls {
        var k :| 0 <= k < num && ls[k] == x;
        assert t[ls[k]] == s[rs[k]] && rs[k] == atR[k];
      } else {
        assert atL == ls + atL[num..];
        Untouched(s, t, ls, rs, x);
      }
    }
  }

  /** An element of the right block that the exchange reached came from the left list. */
  lemma RightArrival<T>(less: (T, T) -> bool, pivot: T, s: seq<T>, t: seq<T>, lo: int, mid: int,
                        atL: seq<nat>, rs: seq<nat>, k: nat)
    requires LeftBlock(less, pivot, s, lo, mid, atL)
    requires k < |rs| <= |atL|
    requires Apart(|s|, atL[..|rs|], rs) && Exchanged(s, t, atL[..|rs|], rs)
    ensures !less(t[rs[k]], pivot)
  {
  }

  lemma RightBlockAfter<T>(less: (T, T) -> bool, pivot: T, s: seq<T>, t: seq<T>, lo: int, mid: int, mid': int, hi: int,
                           atL: seq<nat>, atR: seq<nat>, num: nat)
    requires LeftBlock(less, pivot, s, lo, mid, atL) && RightBlock(less, pivot, s, mid', hi, atR) && mid <= mid'
    requires num <= |atL| && num <= |atR|
    requires Apart(|s|, atL[..num], atR[..num]) && Exchanged(s, t, atL[..num], atR[..num])
    ensures RightBlock(less, pivot, t, mid', hi, atR[num..])
  {
    var ls, rs := atL[..num], atR[..num];
    forall k | num <= k < |atR| ensures less(t[atR[k]], pivot) {
      Untouched(s, t, ls, rs, atR[k]);
    }
    forall x | mid' <= x < hi && x !in atR[num..] ensures !less(t[x], pivot) {
      if x in rs {
        var k :| 0 <= k < num && rs[k] == x;
        RightArrival(less, pivot, s, t, lo, mid, atL, rs, k);
      } else {
        assert atR == rs + atR[num..];
        Untouched(s, t, ls, rs, x);
      }
    }
  }

  lemma ExchangePermutes<T>(less: (T, T) -> bool, pivot: T, s: seq<T>, t: seq<T>, lo: int, mid: int, mid': int, hi: int,
                            atL: seq<nat>, atR: seq<nat>, num: nat)
    requires LeftBlock(less, pivot, s, lo, mid, atL) && RightBlock(less, pivot, s, mid', hi, atR) && mid <= mid'
    requires num <= |atL| && num <= |atR|
    requires Apart(|s|, atL[..num], atR[..num]) && Exchanged(s, t, atL[..num], atR[..num])
    ensures Permuted(s, t, lo, hi)
  {
    forall x | 0 <= x < |s| && !(lo <= x < hi) ensures t[x] == s[x] {
      assert NotAmong(x, atL[..num], num) && NotAmong(x, atR[..num], num);
    }
    PermutedIntro(s, t, lo, hi);
  }

  /** Both blocks with their lists, the left one before the right one. */
  ghost predicate Blocks<T>(less: (T, T) -> bool, pivot: T, s: seq<T>, first: int, last: int, lSize: int, rSize: int,
                            atL: seq<nat>, atR: seq<nat>) {
    && first + lSize <= last - rSize
    && LeftBlock(less, pivot, s, first, first + lSize, atL)
    && RightBlock(less, pivot, s, last - rSize, last, atR)
  }

  lemma BlocksAfter<T>(less: (T, T) -> bool, pivot: T, s: seq<T>, t: seq<T>, first: int, last: int, lSize: int,
                       rSize: int, atL: seq<nat>, atR: seq<nat>, num: nat)
    requires Blocks(less, pivot, s, first, last, lSize, rSize, atL, atR)
    requires num <= |atL| && num <= |atR|
    requires Apart(|s|, atL[..num], atR[..num]) && Exchanged(s, t, atL[..num], atR[..num])
    ensures Blocks(less, pivot, t, first, last, lSize, rSize, atL[num..], atR[num..])
    ensures 0 <= first <= last && Permuted(s, t, first, last)
  {
    LeftBlockAfter(less, pivot, s, t, first, first + lSize, last - rSize, last, atL, atR, num);
    RightBlockAfter(less, pivot, s, t, first, first + lSize, last - rSize, last, atL, atR, num);
    ExchangePermutes(less, pivot, s, t, first, first + lSize, last - rSize, last, atL, atR, num);
  }

  // ----- the last elements of a block that has no partner left

  lemma DrainLeftStep<T>(less: (T, T) -> bool, pivot: T, s: seq<T>, lo: int, hi: int, at: seq<nat>)
    requires LeftBlock(less, pivot, s, lo, hi, at) && at != []
    ensures lo <= hi - 1 && at[|at| - 1] < hi
    ensures var t := Swapped(s, at[|at| - 1], hi - 1);
            LeftBlock(less, pivot, t, lo, hi - 1, at[..|at| - 1]) && !less(t[hi - 1], pivot)
  {
    var n := |at| - 1;
    var p := at[n];
    var t := Swapped(s, p, hi - 1);
    forall x | lo <= x < hi - 1 && x !in at[..n] ensures less(t[x], pivot) {
      if x == p {
        assert hi - 1 !in at;
      } else {
        assert at == at[..n] + [p];
        assert x !in at;
      }
    }
  }

  lemma DrainRightStep<T>(less: (T, T) -> bool, pivot: T, s: seq<T>, lo: int, hi: int, at: seq<nat>)
    requires RightBlock(less, pivot, s, lo, hi, at) && at != []
    ensures lo + 1 <= hi && lo <= at[|at| - 1] < hi
    ensures var t := Swapped(s, at[|at| - 1], lo);
            RightBlock(less, pivot, t, lo + 1, hi, at[..|at| - 1]) && less(t[lo], pivot)
  {
    var n := |at| - 1;
    var p := at[n];
    var t := Swapped(s, p, lo);
    forall x | lo + 1 <= x < hi && x !in at[..n] ensures !less(t[x], pivot) {
      if x == p {
        assert lo !in at;
      } else {
        assert at == at[..n] + [p];
        assert x !in at;
      }
    }
  }

  /** `[lo, mid)` is below the pivot and `[mid, hi)` is not. */
  ghost predicate Divided<T>(less: (T, T) -> bool, pivot: T, s: seq<T>, lo: int, mid: int, hi: int) {
    && 0 <= lo <= mid <= hi <= |s|
    && (forall x :: lo <= x < mid ==> less(s[x], pivot))
    && (forall x :: mid <= x < hi ==> !less(s[x], pivot))
  }

  /** The listed elements, last listed first, swapped to the top end of `[.., hi)`. */
  ghost function DrainedLeft<T>(s: seq<T>, hi: nat, at: seq<nat>): (t: seq<T>)
    requires |at| <= hi <= |s| && forall k :: 0 <= k < |at| ==> at[k] < |s|
    ensures |t| == |s|
    decreases |at|
  {
    if at == [] then s else DrainedLeft(Swapped(s, at[|at| - 1], hi - 1), hi - 1, at[..|at| - 1])
  }

  /** The listed elements, last listed first, swapped to the bottom end of `[lo, ..)`. */
  ghost function DrainedRight<T>(s: seq<T>, lo: nat, at: seq<nat>): (t: seq<T>)
    requires lo + |at| <= |s| && forall k :: 0 <= k < |at| ==> at[k] < |s|
    ensures |t| == |s|
    decreases |at|
  {
    if at == [] then s else DrainedRight(Swapped(s, at[|at| - 1], lo), lo + 1, at[..|at| - 1])
  }

  lemma {:induction false} LeftBlockSize<T>(less: (T, T) -> bool, pivot: T, s: seq<T>, lo: int, hi: int, at: seq<nat>)
    requires LeftBlock(less, pivot, s, lo, hi, at)
    ensures lo + |at| <= hi && forall k :: 0 <= k < |at| ==> at[k] < |s|
    decreases |at|
  {
    if at != [] {
      DrainLeftStep(less, pivot, s, lo, hi, at);
      LeftBlockSize(less, pivot, Swapped(s, at[|at| - 1], hi - 1), lo, hi - 1, at[..|at| - 1]);
    }
  }

  lemma {:induction false} RightBlockSize<T>(less: (T, T) -> bool, pivot: T, s: seq<T>, lo: int, hi: int, at: seq<nat>)
    requires RightBlock(less, pivot, s, lo, hi, at)
    ensures lo + |at| <= hi && forall k :: 0 <= k < |at| ==> at[k] < |s|
    decreases |at|
  {
    if at != [] {
      DrainRightStep(less, pivot, s, lo, hi, at);
      RightBlockSize(less, pivot, Swapped(s, at[|at| - 1], lo), lo + 1, hi, at[..|at| - 1]);
    }
  }

  ghost predicate Rising(at: seq<nat>, lo: nat, hi: nat) {
    (forall j, k :: 0 <= j < k < |at| ==> at[j] < at[k]) && (forall k :: 0 <= k < |at| ==> lo <= at[k] < hi)
  }

  ghost predicate Falling(at: seq<nat>, lo: nat, hi: nat) {
    (forall j, k :: 0 <= j < k < |at| ==> at[j] > at[k]) && (forall k :: 0 <= k < |at| ==> lo <= at[k] < hi)
  }

  lemma {:induction false} DrainedLeftPermutes<T>(s: seq<T>, lo: nat, hi: nat, at: seq<nat>)
    requires lo + |at| <= hi <= |s| && Rising(at, lo, hi)
    ensures Permuted(s, DrainedLeft(s, hi, at), lo, hi)
    decreases |at|
  {
    if at != [] {
      var n := |at| - 1;
      var t, u := Swapped(s, at[n], hi - 1), DrainedLeft(s, hi, at);
      assert Permuted(t, u, lo, hi) by {
        assert Rising(at[..n], lo, hi - 1);
        DrainedLeftPermutes(t, lo, hi - 1, at[..n]);
        PermutedWiden(t, u, lo, hi - 1, lo, hi);
      }
      PermutedSwap(s, at[n], hi - 1, lo, hi);
      PermutedTrans(s, t, u, lo, hi);
    }
  }

  lemma {:induction false} DrainedLeftDivides<T>(less: (T, T) -> bool, pivot: T, s: seq<T>, lo: nat, hi: nat,
                                                 at: seq<nat>)
    requires LeftBlock(less, pivot, s, lo, hi, at)
    requires lo + |at| <= hi && forall k :: 0 <= k < |at| ==> at[k] < |s|
    ensures Divided(less, pivot, DrainedLeft(s, hi, at), lo, hi - |at|, hi)
    decreases |at|
  {
    if at != [] {
      var n := |at| - 1;
      var t, u := Swapped(s, at[n], hi - 1), DrainedLeft(s, hi, at);
      DrainLeftStep(less, pivot, s, lo, hi, at);
      assert u[hi - 1] == t[hi - 1] by { DrainedLeftPermutes(t, lo, hi - 1, at[..n]); }
      DrainedLeftDivides(less, pivot, t, lo, hi - 1, at[..n]);
    }
  }

  lemma {:induction false} DrainedRightPermutes<T>(s: seq<T>, lo: nat, hi: nat, at: seq<nat>)
    requires lo + |at| <= hi <= |s| && Falling(at, lo, hi)
    ensures Permuted(s, DrainedRight(s, lo, at), lo, hi)
    decreases |at|
  {
    if at != [] {
      var n := |at| - 1;
      var t, u := Swapped(s, at[n], lo), DrainedRight(s, lo, at);
      assert Permuted(t, u, lo, hi) by {
        assert Falling(at[..n], lo + 1, hi);
        DrainedRightPermutes(t, lo + 1, hi, at[..n]);
        PermutedWiden(t, u, lo + 1, hi, lo, hi);
      }
      PermutedSwap(s, at[n], lo, lo, hi);
      PermutedTrans(s, t, u, lo, hi);
    }
  }

  lemma {:induction false} DrainedRightDivides<T>(less: (T, T) -> bool, pivot: T, s: seq<T>, lo: nat, hi: nat,
                                                  at: seq<nat>)
    requires RightBlock(less, pivot, s, lo, hi, at)
    requires lo + |at| <= hi && forall k :: 0 <= k < |at| ==> at[k] < |s|
    ensures Divided(less, pivot, DrainedRight(s, lo, at), lo, lo + |at|, hi)
    decreases |at|
  {
    if at != [] {
      var n := |at| - 1;
      var t, u := Swapped(s, at[n], lo), DrainedRight(s, lo, at);
      DrainRightStep(less, pivot, s, lo, hi, at);
      assert u[lo] == t[lo] by { DrainedRightPermutes(t, lo + 1, hi, at[..n]); }
      DrainedRightDivides(less, pivot, t, lo + 1, hi, at[..n]);
    }
  }

  method DrainLeft<T>(a: array<T>, first: nat, end: nat, off: seq<int>, ghost at: seq<nat>) returns (last: nat)
    requires UpFrom(first, off, at)
    requires |at| <= end <= a.Length && forall k :: 0 <= k < |at| ==> at[k] < a.Length
    modifies a
    ensures last == end - |off| && a[..] == DrainedLeft(old(a[..]), end, at)
  {
    last := end;
    var num := |off|;
    assert at[..num] == at;
    while num > 0
      invariant 0 <= num <= |off| && last == end - (|off| - num)
      invariant DrainedLeft(a[..], last, at[..num]) == DrainedLeft(old(a[..]), end, at)
    {
      num := num - 1;
      assert at[..num + 1][..num] == at[..num] && at[..num + 1][num] == at[num] == first + off[num];
      last := last - 1;
      Swap(a, first + off[num], last);
    }
  }

  method DrainRight<T>(a: array<T>, begin: nat, last: nat, off: seq<int>, ghost at: seq<nat>) returns (first: nat)
    requires DownFrom(last, off, at)
    requires begin + |at| <= a.Length && forall k :: 0 <= k < |at| ==> at[k] < a.Length
    modifies a
    ensures first == begin + |off| && a[..] == DrainedRight(old(a[..]), begin, at)
  {
    first := begin;
    var num := |off|;
    assert at[..num] == at;
    while num > 0
      invariant 0 <= num <= |off| && first == begin + (|off| - num)
      invariant DrainedRight(a[..], first, at[..num]) == DrainedRight(old(a[..]), begin, at)
    {
      num := num - 1;
      assert at[..num + 1][..num] == at[..num] && at[..num + 1][num] == at[num] == last - off[num];
      Swap(a, last - off[num], first);
      first := first + 1;
    }
  }

  // ----- the partition

  /** All that lies outside `[first, last)` is on its proper side of the pivot. */
  ghost predicate Sides<T>(less: (T, T) -> bool, pivot: T, s: seq<T>, begin: nat, end: nat, first: int, last: int) {
    && begin < first <= last + 1 && first <= end && last <= end <= |s|
    && (forall x :: begin < x < first ==> less(s[x], pivot))
    && (forall x :: first <= x && last <= x < end ==> !less(s[x], pivot))
  }

  /** At most one of the outermost blocks has elements left to exchange, and they are listed. */
  ghost predicate Leftover<T>(less: (T, T) -> bool, pivot: T, s: seq<T>, first: int, last: int, atL: seq<nat>,
                              atR: seq<nat>) {
    && (atL == [] || atR == [])
    && (atL != [] ==> first + BLOCK_SIZE < last && LeftBlock(less, pivot, s, first, first + BLOCK_SIZE, atL))
    && (atR != [] ==> first < last - BLOCK_SIZE && RightBlock(less, pivot, s, last - BLOCK_SIZE, last, atR))
  }

  lemma SidesKept<T>(less: (T, T) -> bool, pivot: T, s: seq<T>, t: seq<T>, begin: nat, end: nat, first: nat, last: nat)
    requires Sides(less, pivot, s, begin, end, first, last) && Permuted(s, t, first, last)
    ensures Sides(less, pivot, t, begin, end, first, last) && Permuted(s, t, begin + 1, end)
  {
    PermutedWiden(s, t, first, last, begin + 1, end);
  }

  /** A block whose list is used up joins its side. */
  lemma Advance<T>(less: (T, T) -> bool, pivot: T, s: seq<T>, begin: nat, end: nat, first: int, last: int,
                   lSize: int, rSize: int, atL: seq<nat>, atR: seq<nat>)
    requires Sides(less, pivot, s, begin, end, first, last)
    requires Blocks(less, pivot, s, first, last, lSize, rSize, atL, atR)
    ensures Sides(less, pivot, s, begin, end,
                  if atL == [] then first + lSize else first, if atR == [] then last - rSize else last)
  {
  }

  function Min(x: nat, y: nat): nat { if x <= y then x else y }

  /** Records the left block in the buffer unless the unread part `off` of it is still in use. */
  method RefillLeft<T>(a: array<T>, less: (T, T) -> bool, pivot: T, first: nat, size: int, buffer: array<int>,
                       off: seq<int>, ghost at: seq<nat>)
      returns (off': seq<int>, ghost at': seq<nat>)
    requires a as object != buffer as object && buffer.Length == BLOCK_SIZE
    requires size <= BLOCK_SIZE && first + Extent(size) <= a.Length
    requires UpFrom(first, off, at)
    requires at != [] ==> LeftBlock(less, pivot, a[..], first, first + Extent(size), at)
    modifies buffer
    ensures UpFrom(first, off', at')
    ensures LeftBlock(less, pivot, a[..], first, first + Extent(size), at')
    ensures at != [] ==> at' == at
  {
    off', at' := off, at;
    if |off| == 0 {
      NotBelowInBlock(less, pivot, a[..], first, first + Extent(size));
      ghost var s := a[..];
      var num;
      num, at' := FillLeft(a, less, pivot, first, size, buffer);
      assert a[..] == s;
      off' := buffer[..num];
    }
  }

  /** Records the right block in the buffer unless the unread part `off` of it is still in use. */
  method RefillRight<T>(a: array<T>, less: (T, T) -> bool, pivot: T, last: nat, size: int, buffer: array<int>,
                        off: seq<int>, ghost at: seq<nat>)
      returns (off': seq<int>, ghost at': seq<nat>)
    requires a as object != buffer as object && buffer.Length == BLOCK_SIZE
    requires size <= BLOCK_SIZE && Extent(size) <= last <= a.Length
    requires DownFrom(last, off, at)
    requires at != [] ==> RightBlock(less, pivot, a[..], last - Extent(size), last, at)
    modifies buffer
    ensures DownFrom(last, off', at')
    ensures RightBlock(less, pivot, a[..], last - Extent(size), last, at')
    ensures at != [] ==> at' == at
  {
    off', at' := off, at;
    if |off| == 0 {
      BelowInBlock(less, pivot, a[..], last - Extent(size), last);
      ghost var s := a[..];
      var num;
      num, at' := FillRight(a, less, pivot, last, size, buffer);
      assert a[..] == s;
      off' := buffer[..num];
    }
  }

  /** The final exchange may find nothing between the sides but an overlap of one, with `rSize` -1. */
  ghost predicate Tradable<T>(less: (T, T) -> bool, pivot: T, s: seq<T>, first: int, last: int, lSize: int, rSize: int,
                              atL: seq<nat>, atR: seq<nat>) {
    || Blocks(less, pivot, s, first, last, lSize, rSize, atL, atR)
    || (last == first - 1 && lSize == 0 && rSize == -1 && atL == [] && atR == [])
  }

  /** Exchanges what both lists have, then steps over the blocks that are finished. */
  method TradeStep<T>(a: array<T>, less: (T, T) -> bool, pivot: T, ghost begin: nat, ghost end: nat, first: nat,
                      last: nat, lSize: int, rSize: int, offL: seq<int>, offR: seq<int>, ghost atL: seq<nat>,
                      ghost atR: seq<nat>)
      returns (first': nat, last': nat, num: nat)
    requires UpFrom(first, offL, atL) && DownFrom(last, offR, atR)
    requires Sides(less, pivot, a[..], begin, end, first, last)
    requires Tradable(less, pivot, a[..], first, last, lSize, rSize, atL, atR)
    modifies a
    ensures num == Min(|offL|, |offR|)
    ensures first' == (if num == |offL| then first + lSize else first)
    ensures last' == (if num == |offR| then last - rSize else last)
    ensures Sides(less, pivot, a[..], begin, end, first', last')
    ensures Tradable(less, pivot, a[..], first, last, lSize, rSize, atL[num..], atR[num..])
    ensures Permuted(old(a[..]), a[..], begin + 1, end)
  {
    num := Min(|offL|, |offR|);
    ghost var s := a[..];
    if Blocks(less, pivot, s, first, last, lSize, rSize, atL, atR) {
      BlocksApart(less, pivot, s, first, first + lSize, last - rSize, last, atL, atR, num);
    }
    SwapOffsets(a, first, last, offL[..num], offR[..num], |offL| == |offR|, atL[..num], atR[..num]);
    if Blocks(less, pivot, s, first, last, lSize, rSize, atL, atR) {
      BlocksAfter(less, pivot, s, a[..], first, last, lSize, rSize, atL, atR, num);
      SidesKept(less, pivot, s, a[..], begin, end, first, last);
      Advance(less, pivot, a[..], begin, end, first, last, lSize, rSize, atL[num..], atR[num..]);
    }
    first' := if num == |offL| then first + lSize else first;
    last' := if num == |offR| then last - rSize else last;
  }

  lemma UpFromRest(first: int, off: seq<int>, at: seq<nat>, num: nat)
    requires UpFrom(first, off, at) && num <= |off|
    ensures UpFrom(first, off[num..], at[num..])
  {
  }

  lemma DownFromRest(last: int, off: seq<int>, at: seq<nat>, num: nat)
    requires DownFrom(last, off, at) && num <= |off|
    ensures DownFrom(last, off[num..], at[num..])
  {
  }

  lemma LeftoverAfter<T>(less: (T, T) -> bool, pivot: T, s: seq<T>, first: int, last: int, atL: seq<nat>, atR: seq<nat>)
    requires Blocks(less, pivot, s, first, last, BLOCK_SIZE, BLOCK_SIZE, atL, atR)
    requires last - first > 2 * BLOCK_SIZE && (atL == [] || atR == [])
    ensures Leftover(less, pivot, s, if atL == [] then first + BLOCK_SIZE else first,
                     if atR == [] then last - BLOCK_SIZE else last, atL, atR)
  {
  }

  /** One turn of the main loop. `offL` and `offR` are the unread parts of the buffers. */
  method BlockStep<T>(a: array<T>, less: (T, T) -> bool, pivot: T, ghost begin: nat, ghost end: nat, first: nat,
                      last: nat, bufferL: array<int>, bufferR: array<int>, offL: seq<int>, offR: seq<int>,
                      ghost atL: seq<nat>, ghost atR: seq<nat>)
      returns (first': nat, last': nat, offL': seq<int>, offR': seq<int>, ghost atL': seq<nat>, ghost atR': seq<nat>)
    requires a as object != bufferL as object && a as object != bufferR as object
    requires bufferL.Length == BLOCK_SIZE && bufferR.Length == BLOCK_SIZE
    requires UpFrom(first, offL, atL) && DownFrom(last, offR, atR)
    requires Sides(less, pivot, a[..], begin, end, first, last) && Leftover(less, pivot, a[..], first, last, atL, atR)
    requires last - first > 2 * BLOCK_SIZE
    modifies a, bufferL, bufferR
    ensures UpFrom(first', offL', atL') && DownFrom(last', offR', atR')
    ensures Sides(less, pivot, a[..], begin, end, first', last')
    ensures Leftover(less, pivot, a[..], first', last', atL', atR')
    ensures Permuted(old(a[..]), a[..], begin + 1, end)
    ensures last' - first' < last - first
  {
    ghost var s := a[..];
    offL', atL' := RefillLeft(a, less, pivot, first, BLOCK_SIZE, bufferL, offL, atL);
    assert a[..] == s;
    offR', atR' := RefillRight(a, less, pivot, last, BLOCK_SIZE, bufferR, offR, atR);
    assert a[..] == s;
    var num;
    first', last', num := TradeStep(a, less, pivot, begin, end, first, last, BLOCK_SIZE, BLOCK_SIZE,
                                    offL', offR', atL', atR');
    UpFromRest(first, offL', atL', num);
    DownFromRest(last, offR', atR', num);
    offL', offR' := offL'[num..], offR'[num..];
    atL', atR' := atL'[num..], atR'[num..];
    LeftoverAfter(less, pivot, a[..], first, last, atL', atR');
  }

  /** Division as C++ does it, towards zero: half of -1 is 0. */
  function Half(x: int): int { if x < 0 then -(-x / 2) else x / 2 }

  /** Splits what no list covers yet between the two blocks. */
  function FinalSizes(unknown: int, numL: nat, numR: nat): (sizes: (int, int)) {
    if numR > 0 then (unknown, BLOCK_SIZE)
    else if numL > 0 then (BLOCK_SIZE, unknown)
    else (Half(unknown), unknown - Half(unknown))
  }

  /** Lists the remaining elements so that the two blocks cover `[first, last)`. */
  method FinalFill<T>(a: array<T>, less: (T, T) -> bool, pivot: T, first: nat, last: nat,
                      bufferL: array<int>, bufferR: array<int>, offL: seq<int>, offR: seq<int>,
                      ghost atL: seq<nat>, ghost atR: seq<nat>)
      returns (lSize: int, rSize: int, offL': seq<int>, offR': seq<int>, ghost atL': seq<nat>, ghost atR': seq<nat>)
    requires a as object != bufferL as object && a as object != bufferR as object
    requires bufferL.Length == BLOCK_SIZE && bufferR.Length == BLOCK_SIZE
    requires UpFrom(first, offL, atL) && DownFrom(last, offR, atR)
    requires Leftover(less, pivot, a[..], first, last, atL, atR)
    requires first - 1 <= last <= a.Length && first <= a.Length && last - first <= 2 * BLOCK_SIZE
    modifies bufferL, bufferR
    ensures lSize + rSize == last - first
    ensures UpFrom(first, offL', atL') && DownFrom(last, offR', atR')
    ensures Tradable(less, pivot, a[..], first, last, lSize, rSize, atL', atR')
  {
    ghost var s := a[..];
    var unknown := last - first - (if |offR| > 0 || |offL| > 0 then BLOCK_SIZE else 0);
    var sizes := FinalSizes(unknown, |offL|, |offR|);
    lSize, rSize := sizes.0, sizes.1;
    offL', offR', atL', atR' := offL, offR, atL, atR;
    if unknown != 0 {
      offL', atL' := RefillLeft(a, less, pivot, first, lSize, bufferL, offL, atL);
      assert a[..] == s;
      offR', atR' := RefillRight(a, less, pivot, last, rSize, bufferR, offR, atR);
      assert a[..] == s;
      LeftBlockSize(less, pivot, s, first, first + Extent(lSize), atL');
      RightBlockSize(less, pivot, s, last - Extent(rSize), last, atR');
    }
  }

  lemma DividedWhole<T>(less: (T, T) -> bool, pivot: T, s: seq<T>, t: seq<T>, begin: nat, end: nat, lo: nat, mid: nat,
                        hi: nat)
    requires Sides(less, pivot, s, begin, end, lo, hi) && Permuted(s, t, lo, hi)
    requires Divided(less, pivot, t, lo, mid, hi)
    ensures Divided(less, pivot, t, begin + 1, mid, end) && Permuted(s, t, begin + 1, end)
  {
    SidesKept(less, pivot, s, t, begin, end, lo, hi);
  }

  /** The exchange of the final lists, and the draining of whichever is longer. */
  method Finish<T>(a: array<T>, less: (T, T) -> bool, pivot: T, ghost begin: nat, ghost end: nat, first: nat, last: nat,
                   lSize: int, rSize: int, offL: seq<int>, offR: seq<int>, ghost atL: seq<nat>, ghost atR: seq<nat>)
      returns (mid: nat)
    requires UpFrom(first, offL, atL) && DownFrom(last, offR, atR)
    requires Sides(less, pivot, a[..], begin, end, first, last)
    requires Tradable(less, pivot, a[..], first, last, lSize, rSize, atL, atR)
    requires lSize + rSize == last - first
    modifies a
    ensures Divided(less, pivot, a[..], begin + 1, mid, end)
    ensures Permuted(old(a[..]), a[..], begin + 1, end)
  {
    var first', last', num := TradeStep(a, less, pivot, begin, end, first, last, lSize, rSize, offL, offR, atL, atR);
    UpFromRest(first, offL, atL, num);
    DownFromRest(last, offR, atR, num);
    ghost var s := a[..];
    mid := DrainRest(a, less, pivot, begin, end, first, last, lSize, rSize, first', last',
                     offL[num..], offR[num..], atL[num..], atR[num..]);
    PermutedTrans(old(a[..]), s, a[..], begin + 1, end);
  }

  /** What is left of the longer list; `first'` and `last'` are behind the blocks that are finished. */
  method DrainRest<T>(a: array<T>, ghost less: (T, T) -> bool, ghost pivot: T, ghost begin: nat, ghost end: nat,
                      first: nat, last: nat, ghost lSize: int, ghost rSize: int, first': nat, last': nat,
                      offL: seq<int>, offR: seq<int>, ghost atL: seq<nat>, ghost atR: seq<nat>)
      returns (mid: nat)
    requires UpFrom(first, offL, atL) && DownFrom(last, offR, atR) && (offL == [] || offR == [])
    requires Sides(less, pivot, a[..], begin, end, first', last') && lSize + rSize == last - first
    requires Tradable(less, pivot, a[..], first, last, lSize, rSize, atL, atR)
    requires first' == (if offL == [] then first + lSize else first)
    requires last' == (if offR == [] then last - rSize else last)
    modifies a
    ensures Divided(less, pivot, a[..], begin + 1, mid, end) && Permuted(old(a[..]), a[..], begin + 1, end)
  {
    if offL != [] {
      TradedLeft(less, pivot, a[..], first, last, lSize, rSize, atL, atR);
      mid := FinishLeft(a, less, pivot, begin, end, first, last', offL, atL);
    } else if offR != [] {
      TradedRight(less, pivot, a[..], first, last, lSize, rSize, atL, atR);
      mid := FinishRight(a, less, pivot, begin, end, first', last, offR, atR);
    } else {
      mid := first';
    }
  }

  lemma TradedLeft<T>(less: (T, T) -> bool, pivot: T, s: seq<T>, first: int, last: int, lSize: int, rSize: int,
                      atL: seq<nat>, atR: seq<nat>)
    requires Tradable(less, pivot, s, first, last, lSize, rSize, atL, atR) && atL != []
    requires lSize + rSize == last - first
    ensures LeftBlock(less, pivot, s, first, last - rSize, atL)
  {
  }

  lemma TradedRight<T>(less: (T, T) -> bool, pivot: T, s: seq<T>, first: int, last: int, lSize: int, rSize: int,
                       atL: seq<nat>, atR: seq<nat>)
    requires Tradable(less, pivot, s, first, last, lSize, rSize, atL, atR) && atR != []
    requires lSize + rSize == last - first
    ensures RightBlock(less, pivot, s, first + lSize, last, atR)
  {
  }

  /** A left block without a partner. */
  method FinishLeft<T>(a: array<T>, ghost less: (T, T) -> bool, ghost pivot: T, ghost begin: nat, ghost end: nat,
                       first: nat, last: nat, off: seq<int>, ghost at: seq<nat>)
      returns (mid: nat)
    requires UpFrom(first, off, at) && Sides(less, pivot, a[..], begin, end, first, last)
    requires LeftBlock(less, pivot, a[..], first, last, at)
    modifies a
    ensures Divided(less, pivot, a[..], begin + 1, mid, end) && Permuted(old(a[..]), a[..], begin + 1, end)
  {
    ghost var s := a[..];
    LeftBlockSize(less, pivot, s, first, last, at);
    DrainedLeftDivides(less, pivot, s, first, last, at);
    DrainedLeftPermutes(s, first, last, at);
    mid := DrainLeft(a, first, last, off, at);
    DividedWhole(less, pivot, s, a[..], begin, end, first, mid, last);
  }

  /** A right block without a partner. */
  method FinishRight<T>(a: array<T>, ghost less: (T, T) -> bool, ghost pivot: T, ghost begin: nat, ghost end: nat,
                        first: nat, last: nat, off: seq<int>, ghost at: seq<nat>)
      returns (mid: nat)
    requires DownFrom(last, off, at) && Sides(less, pivot, a[..], begin, end, first, last)
    requires RightBlock(less, pivot, a[..], first, last, at)
    modifies a
    ensures Divided(less, pivot, a[..], begin + 1, mid, end) && Permuted(old(a[..]), a[..], begin + 1, end)
  {
    ghost var s := a[..];
    RightBlockSize(less, pivot, s, first, last, at);
    DrainedRightDivides(less, pivot, s, first, last, at);
    DrainedRightPermutes(s, first, last, at);
    mid := DrainRight(a, first, last, off, at);
    DividedWhole(less, pivot, s, a[..], begin, end, first, mid, last);
  }

  lemma SwapMakesSides<T>(less: (T, T) -> bool, s: seq<T>, begin: nat, end: nat, first: nat, last: nat)
    requires RightScanned(less, s, begin, end, first, last) && first < last
    ensures Sides(less, s[begin], Swapped(s, first, last), begin, end, first + 1, last)
  {
  }

  /** The first exchange, if any, leaves everything outside `[first, last)` on its side. */
  method FirstExchange<T>(a: array<T>, less: (T, T) -> bool, begin: nat, end: nat)
      returns (first: nat, last: nat, already: bool)
    requires begin < end <= a.Length
    requires exists i :: begin < i < end && !less(a[i], a[begin])
    modifies a
    ensures a[begin] == old(a[begin]) && Permuted(old(a[..]), a[..], begin + 1, end)
    ensures Sides(less, a[begin], a[..], begin, end, first, last)
    ensures already <==> AlreadyPartitioned(less, old(a[..]), begin, end)
  {
    first, last := FirstPair(a, less, begin, end);
    ScanDecidesPartitioned(less, a[..], begin, end, first, last);
    already := first >= last;
    if !already {
      ghost var s := a[..];
      assert s[begin] == a[begin];
      PermutedSwap(s, first, last, begin + 1, end);
      Swap(a, first, last);
      SwapMakesSides(less, s, begin, end, first, last);
      first := first + 1;
      assert a[begin] == a[..][begin];
    }
  }

  /** The block partition meets the contract of the plain `PartitionRight`. */
  method PartitionRightBranchless<T>(a: array<T>, less: (T, T) -> bool, begin: nat, end: nat)
      returns (pivotPos: nat, already: bool)
    requires begin < end <= a.Length
    requires exists i :: begin < i < end && !less(a[i], a[begin])
    modifies a
    ensures Permuted(old(a[..]), a[..], begin, end)
    ensures PivotedRight(less, a[..], begin, pivotPos, end) && a[pivotPos] == old(a[begin])
    ensures already <==> AlreadyPartitioned(less, old(a[..]), begin, end)
  {
    var pivot := a[begin];
    var first, last;
    first, last, already := FirstExchange(a, less, begin, end);
    var bufferL, bufferR := new int[BLOCK_SIZE], new int[BLOCK_SIZE];
    var offL: seq<int>, offR: seq<int> := [], [];
    ghost var atL: seq<nat>, atR: seq<nat> := [], [];
    while last - first > 2 * BLOCK_SIZE
      invariant UpFrom(first, offL, atL) && DownFrom(last, offR, atR)
      invariant Sides(less, pivot, a[..], begin, end, first, last)
      invariant Leftover(less, pivot, a[..], first, last, atL, atR)
      invariant Permuted(old(a[..]), a[..], begin + 1, end)
    {
      ghost var s := a[..];
      first, last, offL, offR, atL, atR :=
        BlockStep(a, less, pivot, begin, end, first, last, bufferL, bufferR, offL, offR, atL, atR);
      PermutedTrans(old(a[..]), s, a[..], begin + 1, end);
    }
    ghost var s := a[..];
    assert s[begin] == pivot;
    PermutedWiden(old(a[..]), s, begin + 1, end, begin, end);
    pivotPos := FinishAndPlace(a, less, begin, end, first, last, bufferL, bufferR, offL, offR, atL, atR);
    PermutedTrans(old(a[..]), s, a[..], begin, end);
  }

  /** The last blocks, and the pivot between the two sides. */
  method FinishAndPlace<T>(a: array<T>, less: (T, T) -> bool, begin: nat, end: nat, first: nat, last: nat,
                           bufferL: array<int>, bufferR: array<int>, offL: seq<int>, offR: seq<int>,
                           ghost atL: seq<nat>, ghost atR: seq<nat>)
      returns (pivotPos: nat)
    requires a as object != bufferL as object && a as object != bufferR as object
    requires bufferL.Length == BLOCK_SIZE && bufferR.Length == BLOCK_SIZE
    requires begin < end <= a.Length && last - first <= 2 * BLOCK_SIZE
    requires UpFrom(first, offL, atL) && DownFrom(last, offR, atR)
    requires Sides(less, a[begin], a[..], begin, end, first, last)
    requires Leftover(less, a[begin], a[..], first, last, atL, atR)
    modifies a, bufferL, bufferR
    ensures Permuted(old(a[..]), a[..], begin, end)
    ensures PivotedRight(less, a[..], begin, pivotPos, end) && a[pivotPos] == old(a[begin])
  {
    var pivot := a[begin];
    ghost var s := a[..];
    var lSize, rSize, offL', offR', atL', atR' :=
      FinalFill(a, less, pivot, first, last, bufferL, bufferR, offL, offR, atL, atR);
    assert a[..] == s;
    var mid := Finish(a, less, pivot, begin, end, first, last, lSize, rSize, offL', offR', atL', atR');
    ghost var t := a[..];
    PermutedWiden(s, t, begin + 1, end, begin, end);
    assert t[begin] == pivot;
    pivotPos := PlacePivot(a, less, begin, end, mid);
    PermutedTrans(s, t, a[..], begin, end);
  }
}

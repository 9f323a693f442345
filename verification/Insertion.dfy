/** The three insertion sorts of pdqsort: guarded, unguarded and the one that gives up. */
module Insertion {
  import opened SortSpec

  /** Moves allowed before `PartialInsertionSort` gives up. */
  const PARTIAL_INSERTION_SORT_LIMIT := 8

  /** `s` with its element at `c` taken out and put back at `p`, the ones between moved up. */
  function Inserted<T>(s: seq<T>, p: nat, c: nat): seq<T>
    requires p <= c < |s|
  {
    s[..p] + [s[c]] + s[p..c] + s[c + 1..]
  }

  /** `p` is where insertion of `s[c]` into the sorted `s[lo..c]` belongs: just after the last
      element not above it. */
  ghost predicate InsertionPoint<T>(less: (T, T) -> bool, s: seq<T>, lo: nat, c: nat, p: nat)
    requires lo <= c < |s|
  {
    && lo <= p <= c
    && (forall i :: p <= i < c ==> less(s[c], s[i]))
    && (p == lo || !less(s[c], s[p - 1]))
  }

  lemma InsertedPermuted<T>(s: seq<T>, lo: nat, p: nat, c: nat)
    requires lo <= p <= c < |s|
    ensures Permuted(s, Inserted(s, p, c), lo, c + 1)
  {
    assert multiset(Inserted(s, p, c)) == multiset(s) by {
      assert s == s[..p] + s[p..c] + [s[c]] + s[c + 1..];
    }
    PermutedIntro(s, Inserted(s, p, c), lo, c + 1);
  }

  lemma NotBelowPrefix<T(!new)>(less: (T, T) -> bool, s: seq<T>, lo: nat, c: nat, p: nat, i: nat)
    requires StrictWeakOrder(less)
    requires lo <= c < |s| && Sorted(less, s, lo, c) && InsertionPoint(less, s, lo, c, p)
    requires lo <= i < p
    ensures !less(s[c], s[i])
  {
    if less(s[c], s[i]) {
      NegativelyTransitive(less, s[c], s[p - 1], s[i]);
    }
  }

  lemma InsertedSorted<T(!new)>(less: (T, T) -> bool, s: seq<T>, lo: nat, c: nat, p: nat)
    requires StrictWeakOrder(less)
    requires lo <= c < |s| && Sorted(less, s, lo, c) && InsertionPoint(less, s, lo, c, p)
    ensures Sorted(less, Inserted(s, p, c), lo, c + 1)
  {
    var t := Inserted(s, p, c);
    forall i, j | lo <= i < j < c + 1 ensures !less(t[j], t[i]) {
      if j == p {
        NotBelowPrefix(less, s, lo, c, p, i);
      } else if i == p {
        Asymmetric(less, s[c], s[j - 1]);
      } else {
        var i', j' := if i < p then i else i - 1, if j < p then j else j - 1;
        assert t[i] == s[i'] && t[j] == s[j'];
      }
    }
  }

  lemma InsertedByIndex<T>(s: seq<T>, t: seq<T>, p: nat, c: nat)
    requires p <= c < |s| == |t| && t[p] == s[c]
    requires forall i :: 0 <= i < p || c < i < |s| ==> t[i] == s[i]
    requires forall i :: p < i <= c ==> t[i] == s[i - 1]
    ensures t == Inserted(s, p, c)
  {
  }

  /** Sifts `a[cur]` down into the sorted `[begin, cur)`, testing for the start of the range. */
  method Insert<T>(a: array<T>, less: (T, T) -> bool, begin: nat, cur: nat) returns (sift: nat)
    requires begin < cur < a.Length
    modifies a
    ensures InsertionPoint(less, old(a[..]), begin, cur, sift)
    ensures a[..] == Inserted(old(a[..]), sift, cur)
  {
    sift := cur;
    if less(a[sift], a[sift - 1]) {
      var tmp := a[sift];
      a[sift] := a[sift - 1];
      sift := sift - 1;
      while sift != begin && less(tmp, a[sift - 1])
        invariant begin <= sift < cur
        invariant forall i :: 0 <= i < sift || cur < i < a.Length ==> a[i] == old(a[i])
        invariant forall i :: sift < i <= cur ==> a[i] == old(a[i - 1])
        invariant forall i :: sift <= i < cur ==> less(tmp, old(a[i]))
      {
        a[sift] := a[sift - 1];
        sift := sift - 1;
      }
      a[sift] := tmp;
    }
    InsertedByIndex(old(a[..]), a[..], sift, cur);
  }

  /** As `Insert`, but relying on `a[begin - 1]` to stop the scan. */
  method UnguardedInsert<T>(a: array<T>, less: (T, T) -> bool, begin: nat, cur: nat) returns (sift: nat)
    requires 0 < begin < cur < a.Length
    requires !less(a[cur], a[begin - 1])
    modifies a
    ensures InsertionPoint(less, old(a[..]), begin, cur, sift)
    ensures a[..] == Inserted(old(a[..]), sift, cur)
  {
    sift := cur;
    if less(a[sift], a[sift - 1]) {
      var tmp := a[sift];
      a[sift] := a[sift - 1];
      sift := sift - 1;
      while less(tmp, a[sift - 1])
        decreases sift
        invariant begin <= sift < cur
        invariant forall i :: 0 <= i < sift || cur < i < a.Length ==> a[i] == old(a[i])
        invariant forall i :: sift < i <= cur ==> a[i] == old(a[i - 1])
        invariant forall i :: sift <= i < cur ==> less(tmp, old(a[i]))
      {
        a[sift] := a[sift - 1];
        sift := sift - 1;
      }
      a[sift] := tmp;
    }
    InsertedByIndex(old(a[..]), a[..], sift, cur);
  }

  method InsertionSort<T(!new)>(a: array<T>, less: (T, T) -> bool, begin: nat, end: nat)
    requires begin <= end <= a.Length
    requires StrictWeakOrder(less)
    modifies a
    ensures Permuted(old(a[..]), a[..], begin, end)
    ensures Sorted(less, a[..], begin, end)
  {
    if begin == end { return; }
    var cur := begin + 1;
    while cur != end
      invariant begin < cur <= end
      invariant Permuted(old(a[..]), a[..], begin, cur)
      invariant Sorted(less, a[..], begin, cur)
    {
      ghost var s := a[..];
      var sift := Insert(a, less, begin, cur);
      InsertedSorted(less, s, begin, cur, sift);
      InsertedPermuted(s, begin, sift, cur);
      PermutedWiden(old(a[..]), s, begin, cur, begin, cur + 1);
      cur := cur + 1;
    }
  }

  method UnguardedInsertionSort<T(!new)>(a: array<T>, less: (T, T) -> bool, begin: nat, end: nat)
    requires 0 < begin <= end <= a.Length
    requires StrictWeakOrder(less)
    requires forall i :: begin <= i < end ==> !less(a[i], a[begin - 1])
    modifies a
    ensures Permuted(old(a[..]), a[..], begin, end)
    ensures Sorted(less, a[..], begin, end)
  {
    if begin == end { return; }
    var cur := begin + 1;
    while cur != end
      invariant begin < cur <= end
      invariant Permuted(old(a[..]), a[..], begin, cur)
      invariant Sorted(less, a[..], begin, cur)
    {
      ghost var s := a[..];
      assert s[cur] == old(a[..])[cur] && s[begin - 1] == old(a[..])[begin - 1];
      var sift := UnguardedInsert(a, less, begin, cur);
      InsertedSorted(less, s, begin, cur, sift);
      InsertedPermuted(s, begin, sift, cur);
      PermutedWiden(old(a[..]), s, begin, cur, begin, cur + 1);
      cur := cur + 1;
    }
  }

  // ----- counting inversions: when does the partial sort give up?

  /** How many elements of `q` are above `x`. */
  ghost function CountAbove<T>(less: (T, T) -> bool, q: seq<T>, x: T): nat {
    if q == [] then 0
    else CountAbove(less, q[..|q| - 1], x) + if less(x, q[|q| - 1]) then 1 else 0
  }

  /** The pairs of `q` that are out of order. */
  ghost function Inversions<T>(less: (T, T) -> bool, q: seq<T>): nat {
    if q == [] then 0
    else Inversions(less, q[..|q| - 1]) + CountAbove(less, q[..|q| - 1], q[|q| - 1])
  }

  lemma {:induction false} CountRemove<T>(less: (T, T) -> bool, q: seq<T>, k: nat, x: T)
    requires k < |q|
    ensures CountAbove(less, q, x)
         == CountAbove(less, q[..k] + q[k + 1..], x) + if less(x, q[k]) then 1 else 0
  {
    var r := q[..k] + q[k + 1..];
    var init := q[..|q| - 1];
    if k == |q| - 1 {
      assert r == init;
    } else {
      CountRemove(less, init, k, x);
      assert r[..|r| - 1] == init[..k] + init[k + 1..];
    }
  }

  lemma {:induction false} CountPermutation<T>(less: (T, T) -> bool, q: seq<T>, r: seq<T>, x: T)
    requires multiset(q) == multiset(r)
    ensures CountAbove(less, q, x) == CountAbove(less, r, x)
    decreases |q|
  {
    assert |multiset(q)| == |q| && |multiset(r)| == |r|;
    if q != [] {
      var v := q[|q| - 1];
      assert v in multiset(q);
      var k :| 0 <= k < |r| && r[k] == v;
      var r' := r[..k] + r[k + 1..];
      assert q == q[..|q| - 1] + [v];
      assert r == r[..k] + [v] + r[k + 1..];
      assert multiset(q[..|q| - 1]) == multiset(q) - multiset{v};
      assert multiset(r') == multiset(r) - multiset{v};
      CountPermutation(less, q[..|q| - 1], r', x);
      CountRemove(less, r, k, x);
    }
  }

  /** In a sorted prefix the elements above `x` are exactly its tail from the insertion point. */
  lemma {:induction false} CountTail<T>(less: (T, T) -> bool, q: seq<T>, p: nat, x: T)
    requires p <= |q|
    requires forall i :: 0 <= i < |q| ==> (less(x, q[i]) <==> p <= i)
    ensures CountAbove(less, q, x) == |q| - p
  {
    if q != [] {
      var init := q[..|q| - 1];
      if p == |q| {
        CountTail(less, init, |init|, x);
      } else {
        CountTail(less, init, p, x);
      }
    }
  }

  lemma {:induction false} InversionsGrow<T>(less: (T, T) -> bool, q: seq<T>, k: nat)
    requires k <= |q|
    ensures Inversions(less, q[..k]) <= Inversions(less, q)
  {
    if k == |q| {
      assert q[..k] == q;
    } else {
      InversionsGrow(less, q[..|q| - 1], k);
      assert q[..|q| - 1][..k] == q[..k];
    }
  }

  /** One insertion moves its element past exactly as many others as it is inverted with. */
  lemma InsertionDistance<T(!new)>(less: (T, T) -> bool, s0: seq<T>, s: seq<T>, lo: nat, c: nat, p: nat)
    requires StrictWeakOrder(less)
    requires lo <= c < |s| && Permuted(s0, s, lo, c)
    requires Sorted(less, s, lo, c) && InsertionPoint(less, s, lo, c, p)
    ensures Inversions(less, s0[lo..c + 1]) == Inversions(less, s0[lo..c]) + (c - p)
  {
    var q := s[lo..c];
    forall i | 0 <= i < |q| ensures less(s[c], q[i]) <==> p - lo <= i {
      if lo + i < p { NotBelowPrefix(less, s, lo, c, p, lo + i); }
    }
    CountTail(less, q, p - lo, s[c]);
    CountPermutation(less, s0[lo..c], q, s[c]);
    assert s0[lo..c + 1][..c - lo] == s0[lo..c];
  }

  /** One insertion, as it changes the sequence. */
  lemma InsertionStep<T>(s0: seq<T>, s: seq<T>, lo: nat, c: nat, p: nat)
    requires lo <= p <= c < |s| && Permuted(s0, s, lo, c)
    ensures Permuted(s0, Inserted(s, p, c), lo, c + 1)
  {
    var t := Inserted(s, p, c);
    assert Permuted(s, t, lo, c + 1) by { InsertedPermuted(s, lo, p, c); }
    assert Permuted(s0, s, lo, c + 1) by { PermutedWiden(s0, s, lo, c, lo, c + 1); }
    PermutedTrans(s0, s, t, lo, c + 1);
  }

  /** One insertion; the distance moved is the number of inversions it removes. */
  method InsertCounted<T(!new)>(a: array<T>, less: (T, T) -> bool, begin: nat, cur: nat, ghost s0: seq<T>)
      returns (sift: nat)
    requires begin < cur < a.Length == |s0| && StrictWeakOrder(less)
    requires Permuted(s0, a[..], begin, cur) && Sorted(less, a[..], begin, cur)
    modifies a
    ensures sift <= cur
    ensures Permuted(s0, a[..], begin, cur + 1) && Sorted(less, a[..], begin, cur + 1)
    ensures Inversions(less, s0[begin..cur + 1]) == Inversions(less, s0[begin..cur]) + (cur - sift)
  {
    ghost var s := a[..];
    sift := Insert(a, less, begin, cur);
    InsertionStep(s0, s, begin, cur, sift);
    InsertedSorted(less, s, begin, cur, sift);
    InsertionDistance(less, s0, s, begin, cur, sift);
  }

  lemma OneElement<T>(less: (T, T) -> bool, s: seq<T>, lo: nat)
    requires lo < |s|
    ensures Inversions(less, s[lo..lo + 1]) == 0 && Permuted(s, s, lo, lo + 1)
  {
  }

  /** Too many inversions in a prefix are too many in all. */
  lemma GivesUp<T>(less: (T, T) -> bool, s0: seq<T>, t: seq<T>, lo: nat, c: nat, hi: nat)
    requires lo <= c <= hi <= |s0| && Permuted(s0, t, lo, c)
    ensures Permuted(s0, t, lo, hi)
    ensures Inversions(less, s0[lo..c]) <= Inversions(less, s0[lo..hi])
  {
    PermutedWiden(s0, t, lo, c, lo, hi);
    InversionsGrow(less, s0[lo..hi], c - lo);
    assert s0[lo..hi][..c - lo] == s0[lo..c];
  }

  /** Sorts the range unless that takes more moves than the limit; what decides is the number
      of inversions in the input. The range ends up permuted either way. */
  method PartialInsertionSort<T(!new)>(a: array<T>, less: (T, T) -> bool, begin: nat, end: nat)
      returns (done: bool)
    requires begin <= end <= a.Length
    requires StrictWeakOrder(less)
    modifies a
    ensures Permuted(old(a[..]), a[..], begin, end)
    ensures done ==> Sorted(less, a[..], begin, end)
    ensures done <==> Inversions(less, old(a[begin..end])) <= 8
  {
    ghost var s0 := a[..];
    assert a[begin..end] == s0[begin..end];
    if begin == end { return true; }
    var limit := 0;
    var cur := begin + 1;
    OneElement(less, s0, begin);
    while cur != end
      invariant begin < cur <= end
      invariant Permuted(s0, a[..], begin, cur)
      invariant Sorted(less, a[..], begin, cur)
      invariant limit == Inversions(less, s0[begin..cur]) <= PARTIAL_INSERTION_SORT_LIMIT
    {
      var sift := InsertCounted(a, less, begin, cur, s0);
      limit := limit + (cur - sift);
      if limit > PARTIAL_INSERTION_SORT_LIMIT {
        GivesUp(less, s0, a[..], begin, cur + 1, end);
        return false;
      }
      cur := cur + 1;
    }
    return true;
  }
}

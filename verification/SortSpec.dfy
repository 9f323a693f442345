/** What sorting means: strict weak orders, sortedness of a range, and
    permutation of a range that leaves the rest of the array alone. */
module SortSpec {

  /** The laws of a strict weak order at one triple of values. Quantifying over this
      predicate, rather than over its body, keeps the laws from firing unless named. */
  ghost predicate OrderLaws<T>(less: (T, T) -> bool, x: T, y: T, z: T) {
    && !less(x, x)
    && (less(x, y) && less(y, z) ==> less(x, z))
    && (!less(x, y) && !less(y, x) && !less(y, z) && !less(z, y) ==> !less(x, z) && !less(z, x))
  }

  ghost predicate StrictWeakOrder<T(!new)>(less: (T, T) -> bool) {
    forall x, y, z :: OrderLaws(less, x, y, z)
  }

  /** `x` below `z` puts every `y` above `x` or below `z`. */
  lemma NegativelyTransitive<T(!new)>(less: (T, T) -> bool, x: T, y: T, z: T)
    requires StrictWeakOrder(less)
    requires less(x, z)
    ensures less(x, y) || less(y, z)
  {
    assert OrderLaws(less, x, y, z);
    assert OrderLaws(less, y, x, z);
    assert OrderLaws(less, x, z, y);
  }

  lemma Asymmetric<T(!new)>(less: (T, T) -> bool, x: T, y: T)
    requires StrictWeakOrder(less)
    requires less(x, y)
    ensures !less(y, x)
  {
    assert OrderLaws(less, x, y, x);
  }

  ghost predicate Sorted<T>(less: (T, T) -> bool, s: seq<T>, lo: nat, hi: nat)
    requires lo <= hi <= |s|
  {
    forall i, j :: lo <= i < j < hi ==> !less(s[j], s[i])
  }

  /** Nothing in `[mid, hi)` is below anything in `[lo, mid)`. */
  ghost predicate Split<T>(less: (T, T) -> bool, s: seq<T>, lo: nat, mid: nat, hi: nat)
    requires lo <= mid <= hi <= |s|
  {
    forall i, j :: lo <= i < mid <= j < hi ==> !less(s[j], s[i])
  }

  /** `t` rearranges `s` inside `[lo, hi)` and equals it elsewhere. */
  ghost predicate Permuted<T>(s: seq<T>, t: seq<T>, lo: nat, hi: nat) {
    && lo <= hi <= |s| == |t|
    && (forall i :: 0 <= i < lo ==> t[i] == s[i])
    && (forall i :: hi <= i < |s| ==> t[i] == s[i])
    && multiset(t[lo..hi]) == multiset(s[lo..hi])
  }

  lemma PermutedMultiset<T>(s: seq<T>, t: seq<T>, lo: nat, hi: nat)
    requires Permuted(s, t, lo, hi)
    ensures multiset(s) == multiset(t)
  {
    assert s == s[..lo] + s[lo..hi] + s[hi..];
    assert t == t[..lo] + t[lo..hi] + t[hi..];
    assert s[..lo] == t[..lo] && s[hi..] == t[hi..];
  }

  /** The converse: equal outside the range and equal as multisets is permuted. */
  lemma PermutedIntro<T>(s: seq<T>, t: seq<T>, lo: nat, hi: nat)
    requires lo <= hi <= |s| == |t|
    requires forall i :: 0 <= i < lo ==> t[i] == s[i]
    requires forall i :: hi <= i < |s| ==> t[i] == s[i]
    requires multiset(t) == multiset(s)
    ensures Permuted(s, t, lo, hi)
  {
    assert s == s[..lo] + s[lo..hi] + s[hi..];
    assert t == t[..lo] + t[lo..hi] + t[hi..];
    assert s[..lo] == t[..lo] && s[hi..] == t[hi..];
    assert multiset(s) == multiset(s[..lo]) + multiset(s[lo..hi]) + multiset(s[hi..]);
    assert multiset(t) == multiset(t[..lo]) + multiset(t[lo..hi]) + multiset(t[hi..]);
    calc {
      multiset(t[lo..hi]);
      multiset(t) - multiset(t[..lo]) - multiset(t[hi..]);
      multiset(s[lo..hi]);
    }
  }

  lemma PermutedWiden<T>(s: seq<T>, t: seq<T>, lo: nat, hi: nat, lo': nat, hi': nat)
    requires Permuted(s, t, lo, hi)
    requires lo' <= lo && hi <= hi' <= |s|
    ensures Permuted(s, t, lo', hi')
  {
    PermutedMultiset(s, t, lo, hi);
    PermutedIntro(s, t, lo', hi');
  }

  lemma PermutedTrans<T>(s: seq<T>, t: seq<T>, u: seq<T>, lo: nat, hi: nat)
    requires Permuted(s, t, lo, hi) && Permuted(t, u, lo, hi)
    ensures Permuted(s, u, lo, hi)
  {
  }

  function Swapped<T>(s: seq<T>, i: nat, j: nat): seq<T>
    requires i < |s| && j < |s|
  {
    s[i := s[j]][j := s[i]]
  }

  lemma SwappedMultiset<T>(s: seq<T>, i: nat, j: nat)
    requires i < |s| && j < |s|
    ensures multiset(Swapped(s, i, j)) == multiset(s)
  {
  }

  lemma PermutedSwap<T>(s: seq<T>, i: nat, j: nat, lo: nat, hi: nat)
    requires lo <= i < hi <= |s| && lo <= j < hi
    ensures Permuted(s, Swapped(s, i, j), lo, hi)
  {
  }

  /** Every value in the permuted range was somewhere in the range before. */
  lemma PermutedSource<T>(s: seq<T>, t: seq<T>, lo: nat, hi: nat, i: nat) returns (k: nat)
    requires Permuted(s, t, lo, hi)
    requires lo <= i < hi
    ensures lo <= k < hi && s[k] == t[i]
  {
    assert t[lo..hi][i - lo] == t[i];
    assert t[i] in multiset(t[lo..hi]);
    assert t[i] in s[lo..hi];
    var m :| 0 <= m < hi - lo && s[lo..hi][m] == t[i];
    k := lo + m;
  }

  /** Sorting `[lo, mid)` or `[mid, hi)` internally keeps a split at `mid`. */
  lemma SplitPermuted<T>(less: (T, T) -> bool, s: seq<T>, t: seq<T>, lo: nat, mid: nat, hi: nat)
    requires lo <= mid <= hi <= |s|
    requires Split(less, s, lo, mid, hi)
    requires Permuted(s, t, lo, mid) || Permuted(s, t, mid, hi)
    ensures Split(less, t, lo, mid, hi)
  {
    forall i, j | lo <= i < mid <= j < hi ensures !less(t[j], t[i]) {
      if Permuted(s, t, lo, mid) {
        var k := PermutedSource(s, t, lo, mid, i);
        assert t[j] == s[j];
      } else {
        var k := PermutedSource(s, t, mid, hi, j);
        assert t[i] == s[i];
      }
    }
  }
}

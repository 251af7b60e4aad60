/**
 Quicksort (nre/include/collection/QuickSort.h): sorts an array in place with a comparison
 that says "not behind".
 */
module QuickSort {

  ghost predicate TotalPreorder<T(!new)>(cmp: (T, T) -> bool) {
    && (forall x, y :: cmp(x, y) || cmp(y, x))
    && (forall x, y, z :: cmp(x, y) && cmp(y, z) ==> cmp(x, z))
  }

  predicate Sorted<T>(cmp: (T, T) -> bool, s: seq<T>) {
    forall i, j :: 0 <= i < j < |s| ==> cmp(s[i], s[j])
  }

  /** `t` is `s` with the elements from `lo` to `hi` permuted. */
  ghost predicate Permuted<T>(s: seq<T>, t: seq<T>, lo: int, hi: int) {
    && 0 <= lo <= hi <= |s| == |t|
    && s[..lo] == t[..lo] && s[hi..] == t[hi..]
    && multiset(s[lo..hi]) == multiset(t[lo..hi])
  }

  lemma {:induction false} PermutedTwice<T>(s: seq<T>, t: seq<T>, u: seq<T>, lo: int, hi: int)
    ensures Permuted(s, t, lo, hi) && Permuted(t, u, lo, hi) ==> Permuted(s, u, lo, hi)
  {}

  lemma {:induction false} PermutedWider<T>(s: seq<T>, t: seq<T>, lo: int, hi: int, lo': int, hi': int)
    requires Permuted(s, t, lo, hi) && 0 <= lo' <= lo && hi <= hi' <= |s|
    ensures Permuted(s, t, lo', hi')
  {
    assert s[lo'..hi'] == s[lo'..lo] + s[lo..hi] + s[hi..hi'];
    assert t[lo'..hi'] == t[lo'..lo] + t[lo..hi] + t[hi..hi'];
    assert s[lo'..lo] == s[..lo][lo'..] == t[lo'..lo];
    assert s[hi..hi'] == s[hi..][..hi' - hi] == t[hi..hi'];
    assert s[..lo'] == s[..lo][..lo'] == t[..lo'];
    assert s[hi'..] == s[hi..][hi' - hi..] == t[hi'..];
  }

  lemma {:induction false} SwapPermutes<T>(s: seq<T>, i: int, j: int, lo: int, hi: int)
    requires 0 <= lo <= i < hi <= |s| && lo <= j < hi
    ensures Permuted(s, s[i := s[j]][j := s[i]], lo, hi)
  {
    var t := s[i := s[j]][j := s[i]];
    var m, m' := s[lo..hi], t[lo..hi];
    assert m' == m[i - lo := m[j - lo]][j - lo := m[i - lo]];
    assert multiset(m) == multiset(m');
  }

  /** Whatever held of all elements of the range still does. */
  lemma {:induction false} PermutedMembers<T>(s: seq<T>, t: seq<T>, lo: int, hi: int, k: int) returns (j: int)
    requires Permuted(s, t, lo, hi) && lo <= k < hi
    ensures lo <= j < hi && s[j] == t[k]
  {
    assert t[k] == t[lo..hi][k - lo];
    assert t[k] in multiset(t[lo..hi]);
    assert t[k] in s[lo..hi];
    var i :| 0 <= i < hi - lo && s[lo..hi][i] == t[k];
    j := lo + i;
  }

  method Swap<T>(a: array<T>, i: int, j: int, ghost lo: int, ghost hi: int)
    requires 0 <= lo <= i < hi <= a.Length && lo <= j < hi
    modifies a
    ensures a[..] == old(a[..])[i := old(a[j])][j := old(a[i])]
    ensures Permuted(old(a[..]), a[..], lo, hi)
  {
    SwapPermutes(a[..], i, j, lo, hi);
    hide Permuted;
    a[i], a[j] := a[j], a[i];
  }

  /** The elements not behind the pivot come first, then the pivot, then the others. */
  predicate Parted<T>(cmp: (T, T) -> bool, s: seq<T>, lo: int, p: int, hi: int) {
    && 0 <= lo <= p < hi <= |s|
    && (forall k :: lo <= k < p ==> cmp(s[k], s[p]))
    && (forall k :: p < k < hi ==> !cmp(s[k], s[p]))
  }

  /** Partition at work: up to `i`, what is not behind the pivot at `right` is in front of `si`. */
  predicate Sifted<T>(cmp: (T, T) -> bool, s: seq<T>, left: int, si: int, i: int, right: int) {
    && 0 <= left <= si <= i <= right < |s|
    && (forall k :: left <= k < si ==> cmp(s[k], s[right]))
    && (forall k :: si <= k < i ==> !cmp(s[k], s[right]))
  }

  lemma {:induction false} SiftStart<T>(cmp: (T, T) -> bool, s: seq<T>, left: int, right: int)
    requires 0 <= left <= right < |s|
    ensures Sifted(cmp, s, left, left, left, right)
  {}

  lemma {:induction false} SiftStep<T>(cmp: (T, T) -> bool, s: seq<T>, left: int, si: int, i: int, right: int)
    requires Sifted(cmp, s, left, si, i, right) && i < right
    ensures cmp(s[i], s[right]) ==> Sifted(cmp, s[i := s[si]][si := s[i]], left, si + 1, i + 1, right)
    ensures !cmp(s[i], s[right]) ==> Sifted(cmp, s, left, si, i + 1, right)
  {}

  lemma {:induction false} SiftDone<T>(cmp: (T, T) -> bool, s: seq<T>, left: int, si: int, right: int)
    requires Sifted(cmp, s, left, si, right, right)
    ensures Parted(cmp, s[si := s[right]][right := s[si]], left, si, right + 1)
  {}

  method Partition<T>(cmp: (T, T) -> bool, a: array<T>, left: int, right: int, pivot: int) returns (si: int)
    requires 0 <= left <= pivot <= right < a.Length
    modifies a
    ensures left <= si <= right && Parted(cmp, a[..], left, si, right + 1)
    ensures Permuted(old(a[..]), a[..], left, right + 1)
  {
    hide Permuted, Sifted, Parted;
    ghost var s0 := a[..];
    Swap(a, pivot, right, left, right + 1);
    SiftStart(cmp, a[..], left, right);
    si := left;
    var i := left;
    while i < right
      invariant left <= si <= i <= right && Sifted(cmp, a[..], left, si, i, right)
      invariant Permuted(s0, a[..], left, right + 1)
    {
      ghost var s1 := a[..];
      SiftStep(cmp, s1, left, si, i, right);
      if cmp(a[i], a[right]) {
        Swap(a, i, si, left, right + 1);
        PermutedTwice(s0, s1, a[..], left, right + 1);
        si := si + 1;
      }
      i := i + 1;
    }
    ghost var s1 := a[..];
    SiftDone(cmp, s1, left, si, right);
    Swap(a, si, right, left, right + 1);
    PermutedTwice(s0, s1, a[..], left, right + 1);
  }

  /** Sorting the two sides of the pivot sorts the range. */
  lemma {:induction false} SortedAround<T(!new)>(cmp: (T, T) -> bool, s: seq<T>, t: seq<T>, u: seq<T>, lo: int, p: int, hi: int)
    requires TotalPreorder(cmp) && Parted(cmp, s, lo, p, hi)
    requires Permuted(s, t, lo, p) && Sorted(cmp, t[lo..p])
    requires Permuted(t, u, p + 1, hi) && Sorted(cmp, u[p + 1..hi])
    ensures Sorted(cmp, u[lo..hi]) && Permuted(s, u, lo, hi)
  {
    PermutedWider(s, t, lo, p, lo, hi);
    PermutedWider(t, u, p + 1, hi, lo, hi);
    PermutedTwice(s, t, u, lo, hi);
    assert u[p] == t[p] == s[p] && u[lo..p] == t[lo..p] by {
      assert u[p] == u[..p + 1][p] && t[p] == t[..p + 1][p];
      assert s[p] == s[p..][0] && t[p] == t[p..][0];
      assert u[lo..p] == u[..p + 1][lo..p] && t[lo..p] == t[..p + 1][lo..p];
    }
    forall k | lo <= k < p ensures cmp(u[k], u[p]) && u[k] == u[lo..p][k - lo] {
      assert u[k] == u[lo..p][k - lo] && t[k] == t[lo..p][k - lo];
      var j := PermutedMembers(s, t, lo, p, k);
    }
    forall k | p < k < hi ensures cmp(u[p], u[k]) && u[k] == u[p + 1..hi][k - p - 1] {
      var j := PermutedMembers(t, u, p + 1, hi, k);
      assert t[j] == t[p..][j - p] && s[j] == s[p..][j - p];
    }
    hide Permuted, Parted;
    forall i, j | lo <= i < j < hi ensures cmp(u[i], u[j]) {
      if i < p < j {
        assert cmp(u[i], u[p]) && cmp(u[p], u[j]);
      }
    }
  }

  /** The elements from `lo` to `hi` are sorted. */
  ghost predicate SortedIn<T>(cmp: (T, T) -> bool, s: seq<T>, lo: int, hi: int) {
    0 <= lo <= hi <= |s| && Sorted(cmp, s[lo..hi])
  }

  lemma {:induction false} SortedBoth<T(!new)>(cmp: (T, T) -> bool, s: seq<T>, t: seq<T>, u: seq<T>, lo: int, p: int, hi: int)
    ensures TotalPreorder(cmp) && Parted(cmp, s, lo, p, hi) && Permuted(s, t, lo, p) && Permuted(t, u, p + 1, hi)
            && SortedIn(cmp, t, lo, p) && SortedIn(cmp, u, p + 1, hi) ==>
              SortedIn(cmp, u, lo, hi) && Permuted(s, u, lo, hi)
  {
    if Parted(cmp, s, lo, p, hi) && Permuted(s, t, lo, p) && Permuted(t, u, p + 1, hi) {
      if TotalPreorder(cmp) && Sorted(cmp, t[lo..p]) && Sorted(cmp, u[p + 1..hi]) {
        SortedAround(cmp, s, t, u, lo, p, hi);
      }
    }
  }

  lemma {:induction false} SortedAlready<T>(cmp: (T, T) -> bool, s: seq<T>, lo: int, hi: int)
    requires 0 <= lo <= hi <= |s|
    ensures Permuted(s, s, lo, hi) && (hi <= lo + 1 ==> SortedIn(cmp, s, lo, hi))
  {}

  /** The recursive sort of the range from `left` to `right`, both included. */
  method SortRange<T(!new)>(cmp: (T, T) -> bool, a: array<T>, left: int, right: int)
    requires TotalPreorder(cmp) && 0 <= left <= right + 1 <= a.Length
    modifies a
    ensures Permuted(old(a[..]), a[..], left, right + 1) && SortedIn(cmp, a[..], left, right + 1)
    decreases right - left
  {
    hide Permuted, SortedIn, Parted, TotalPreorder;
    ghost var s0 := a[..];
    SortedAlready(cmp, s0, left, right + 1);
    if right > left {
      var p := Partition(cmp, a, left, right, (left + right) / 2);
      ghost var s := a[..];
      SortRange(cmp, a, left, p - 1);
      ghost var t := a[..];
      SortRange(cmp, a, p + 1, right);
      ghost var u := a[..];
      SortedBoth(cmp, s, t, u, left, p, right + 1);
      PermutedTwice(s0, s, u, left, right + 1);
    }
  }

  /** Sorts the first `count` elements. */
  method Sort<T(!new)>(cmp: (T, T) -> bool, a: array<T>, count: nat)
    requires TotalPreorder(cmp) && count <= a.Length
    modifies a
    ensures Sorted(cmp, a[..count]) && multiset(a[..count]) == multiset(old(a[..count]))
    ensures a[count..] == old(a[count..])
  {
    if count > 1 {
      SortRange(cmp, a, 0, count - 1);
      assert a[..][0..count] == a[..count] && a[..][count..] == a[count..];
    }
  }
}

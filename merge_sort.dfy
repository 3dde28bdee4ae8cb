/**
 * `merge_sort` of index.py: a top-down merge sort that copies the two halves
 * of the array, sorts each copy recursively and merges them back into the
 * caller's array with three index-driven loops, taking from the left half on
 * ties.
 */
module MergeSorting {
  import opened SortSpec

  /**
   * The merge the loops perform once the left half has been read up to `i`
   * and the right half up to `j`: repeatedly take the smaller front element,
   * the left one on a tie, and append the rest once one side runs out.
   */
  function MergeFrom<T>(l: seq<T>, r: seq<T>, i: nat, j: nat, key: T -> int): seq<T>
    requires i <= |l| && j <= |r|
    decreases |l| - i + |r| - j
  {
    if i == |l| then r[j..]
    else if j == |r| then l[i..]
    else if key(l[i]) <= key(r[j]) then [l[i]] + MergeFrom(l, r, i + 1, j, key)
    else [r[j]] + MergeFrom(l, r, i, j + 1, key)
  }

  /** The merge of two whole sequences. */
  function Merged<T>(l: seq<T>, r: seq<T>, key: T -> int): seq<T> {
    MergeFrom(l, r, 0, 0, key)
  }

  /** The merge holds exactly the elements not yet taken from both sides. */
  lemma {:induction false} MergeFromPermutation<T>(l: seq<T>, r: seq<T>, i: nat, j: nat, key: T -> int)
    requires i <= |l| && j <= |r|
    ensures multiset(MergeFrom(l, r, i, j, key)) == multiset(l[i..]) + multiset(r[j..])
    ensures |MergeFrom(l, r, i, j, key)| == (|l| - i) + (|r| - j)
    decreases |l| - i + |r| - j
  {
    if i == |l| {
      assert l[i..] == [];
    } else if j == |r| {
      assert r[j..] == [];
    } else {
      assert l[i..] == [l[i]] + l[i + 1..];
      assert r[j..] == [r[j]] + r[j + 1..];
      if key(l[i]) <= key(r[j]) {
        MergeFromPermutation(l, r, i + 1, j, key);
      } else {
        MergeFromPermutation(l, r, i, j + 1, key);
      }
    }
  }

  /** What `merge_sort` leaves in the array, as a function of its contents. */
  function MergeSortOf<T>(s: seq<T>, key: T -> int): (r: seq<T>)
    ensures |r| == |s|
    ensures multiset(r) == multiset(s)
    decreases |s|
  {
    if |s| <= 1 then s
    else
      var mid := |s| / 2;
      var l, r := MergeSortOf(s[..mid], key), MergeSortOf(s[mid..], key);
      assert s == s[..mid] + s[mid..];
      assert l[0..] == l && r[0..] == r;
      MergeFromPermutation(l, r, 0, 0, key);
      Merged(l, r, key)
  }

  /** A smaller key in front of a sorted sequence keeps it sorted. */
  lemma SortedCons<T>(x: T, s: seq<T>, key: T -> int)
    requires SortedBy(s, key)
    requires s != [] ==> key(x) <= key(s[0])
    ensures SortedBy([x] + s, key)
  {
    forall i, j | 0 <= i < j < |s| + 1 ensures key(([x] + s)[i]) <= key(([x] + s)[j]) {
      assert ([x] + s)[j] == s[j - 1];
      if i > 0 {
        assert ([x] + s)[i] == s[i - 1];
      }
    }
  }

  /** Merging the rests of two sorted sequences gives a sorted sequence. */
  lemma {:induction false} MergeFromSorted<T>(l: seq<T>, r: seq<T>, i: nat, j: nat, key: T -> int)
    requires i <= |l| && j <= |r|
    requires SortedBy(l, key) && SortedBy(r, key)
    ensures SortedBy(MergeFrom(l, r, i, j, key), key)
    decreases |l| - i + |r| - j
  {
    if i < |l| && j < |r| {
      if key(l[i]) <= key(r[j]) {
        MergeFromSorted(l, r, i + 1, j, key);
        SortedCons(l[i], MergeFrom(l, r, i + 1, j, key), key);
      } else {
        MergeFromSorted(l, r, i, j + 1, key);
        SortedCons(r[j], MergeFrom(l, r, i, j + 1, key), key);
      }
    }
  }

  /** The result of `merge_sort` is sorted. */
  lemma {:induction false} MergeSortOfSorted<T>(s: seq<T>, key: T -> int)
    ensures SortedBy(MergeSortOf(s, key), key)
    decreases |s|
  {
    if |s| > 1 {
      var mid := |s| / 2;
      MergeSortOfSorted(s[..mid], key);
      MergeSortOfSorted(s[mid..], key);
      MergeFromSorted(MergeSortOf(s[..mid], key), MergeSortOf(s[mid..], key), 0, 0, key);
    }
  }

  /**
   * Taking from the left on ties keeps every group of equal keys in order:
   * the group of `k` in the merge is the left group followed by the right one.
   */
  lemma {:induction false} MergeFromWithKey<T>(l: seq<T>, r: seq<T>, i: nat, j: nat, key: T -> int, k: int)
    requires i <= |l| && j <= |r|
    requires SortedBy(l, key) && SortedBy(r, key)
    ensures WithKey(MergeFrom(l, r, i, j, key), key, k) == WithKeyFrom(l, i, key, k) + WithKeyFrom(r, j, key, k)
    decreases |l| - i + |r| - j, 1
  {
    if i == |l| {
      WithKeyFromSlice(r, j, key, k);
      assert [] + WithKeyFrom(r, j, key, k) == WithKeyFrom(r, j, key, k);
    } else if j == |r| {
      WithKeyFromSlice(l, i, key, k);
      assert WithKeyFrom(l, i, key, k) + [] == WithKeyFrom(l, i, key, k);
    } else if key(l[i]) <= key(r[j]) {
      TakeLeftWithKey(l, r, i, j, key, k);
    } else {
      TakeRightWithKey(l, r, i, j, key, k);
    }
  }

  lemma {:induction false} TakeLeftWithKey<T>(l: seq<T>, r: seq<T>, i: nat, j: nat, key: T -> int, k: int)
    requires i < |l| && j < |r| && key(l[i]) <= key(r[j])
    requires SortedBy(l, key) && SortedBy(r, key)
    ensures WithKey(MergeFrom(l, r, i, j, key), key, k) == WithKeyFrom(l, i, key, k) + WithKeyFrom(r, j, key, k)
    decreases |l| - i + |r| - j, 0
  {
    var rest := MergeFrom(l, r, i + 1, j, key);
    var front := if key(l[i]) == k then [l[i]] else [];
    assert MergeFrom(l, r, i, j, key) == [l[i]] + rest;
    WithKeyCons(l[i], rest, key, k);
    MergeFromWithKey(l, r, i + 1, j, key, k);
    var fromLeft, fromRight := WithKeyFrom(l, i + 1, key, k), WithKeyFrom(r, j, key, k);
    assert WithKeyFrom(l, i, key, k) == front + fromLeft;
    Regroup(front, fromLeft, fromRight);
  }

  lemma {:induction false} TakeRightWithKey<T>(l: seq<T>, r: seq<T>, i: nat, j: nat, key: T -> int, k: int)
    requires i < |l| && j < |r| && key(l[i]) > key(r[j])
    requires SortedBy(l, key) && SortedBy(r, key)
    ensures WithKey(MergeFrom(l, r, i, j, key), key, k) == WithKeyFrom(l, i, key, k) + WithKeyFrom(r, j, key, k)
    decreases |l| - i + |r| - j, 0
  {
    var rest := MergeFrom(l, r, i, j + 1, key);
    var front := if key(r[j]) == k then [r[j]] else [];
    assert MergeFrom(l, r, i, j, key) == [r[j]] + rest;
    WithKeyCons(r[j], rest, key, k);
    MergeFromWithKey(l, r, i, j + 1, key, k);
    var fromLeft, fromRight := WithKeyFrom(l, i, key, k), WithKeyFrom(r, j + 1, key, k);
    assert WithKeyFrom(r, j, key, k) == front + fromRight;
    if key(r[j]) == k {
      // every key left in `l` is above the front key of `r`: no `k` group there
      NoKeyBelowFront(l, i, key, k);
      assert fromLeft == [];
      assert front + (fromLeft + fromRight) == fromLeft + (front + fromRight);
    } else {
      assert front == [];
      assert front + (fromLeft + fromRight) == fromLeft + (front + fromRight);
    }
  }

  lemma Regroup<T>(a: seq<T>, b: seq<T>, c: seq<T>)
    ensures a + (b + c) == (a + b) + c
  {
  }

  /** A sorted sequence whose key at `i` is above `k` has no element with key `k` from `i` on. */
  lemma {:induction false} NoKeyBelowFront<T>(l: seq<T>, i: nat, key: T -> int, k: int)
    requires i < |l| && SortedBy(l, key) && key(l[i]) > k
    ensures WithKeyFrom(l, i, key, k) == []
    decreases |l| - i
  {
    if i + 1 < |l| {
      assert key(l[i]) <= key(l[i + 1]);
      NoKeyBelowFront(l, i + 1, key, k);
    }
  }

  /** `merge_sort` is stable: every group of equal keys keeps its input order. */
  lemma {:induction false} MergeSortOfStable<T>(s: seq<T>, key: T -> int, k: int)
    ensures WithKey(MergeSortOf(s, key), key, k) == WithKey(s, key, k)
    decreases |s|
  {
    if |s| > 1 {
      var mid := |s| / 2;
      var l, r := MergeSortOf(s[..mid], key), MergeSortOf(s[mid..], key);
      assert MergeSortOf(s, key) == MergeFrom(l, r, 0, 0, key);
      MergeSortOfSorted(s[..mid], key);
      MergeSortOfSorted(s[mid..], key);
      MergeFromWithKey(l, r, 0, 0, key, k);
      assert l[0..] == l && r[0..] == r;
      WithKeyFromSlice(l, 0, key, k);
      WithKeyFromSlice(r, 0, key, k);
      MergeSortOfStable(s[..mid], key, k);
      MergeSortOfStable(s[mid..], key, k);
      assert WithKey(MergeSortOf(s, key), key, k) == WithKey(s[..mid], key, k) + WithKey(s[mid..], key, k);
      assert s == s[..mid] + s[mid..];
      WithKeyAppend(s[..mid], s[mid..], key, k);
    }
  }

  /** Merge sort leaves an already sorted sequence exactly as it was. */
  lemma MergeSortOfSortedInput<T>(s: seq<T>, key: T -> int)
    requires SortedBy(s, key)
    ensures MergeSortOf(s, key) == s
  {
    MergeSortOfSorted(s, key);
    forall k ensures WithKey(MergeSortOf(s, key), key, k) == WithKey(s, key, k) {
      MergeSortOfStable(s, key, k);
    }
    StableSortOfSortedIsIdentity(MergeSortOf(s, key), s, key);
  }

  /**
   * The merge step of `merge_sort`: write the merge of the sorted copies
   * `left` and `right` into `a`, which is as long as both together.
   */
  method MergeInto<T>(a: array<T>, left: array<T>, right: array<T>, key: T -> int)
    requires a != left && a != right
    requires a.Length == left.Length + right.Length
    modifies a
    ensures a[..] == Merged(left[..], right[..], key)
  {
    ghost var l, r := left[..], right[..];
    var i, j, k := MergeFront(a, left, right, key);
    // one side is used up, so what is left of the merge is the other's rest
    MergeFromRest(l, r, i, j, key);
    ghost var merged, restLeft, restRight := a[..k], l[i..], r[j..];
    i, k := CopyRest(a, left, i, k);
    ghost var copiedLeft := a[..k];
    j, k := CopyRest(a, right, j, k);
    assert a[..] == a[..k] == copiedLeft + restRight;
    Regroup(merged, restLeft, restRight);
  }

  /**
   * The main loop of the merge: while both copies have elements left, write
   * the smaller front element into `a`, the left one on a tie. What it has
   * written, followed by the merge of what is left, is the whole merge.
   */
  method MergeFront<T>(a: array<T>, left: array<T>, right: array<T>, key: T -> int) returns (i: int, j: int, k: int)
    requires a != left && a != right
    requires a.Length == left.Length + right.Length
    modifies a
    ensures 0 <= i <= left.Length && 0 <= j <= right.Length && k == i + j
    ensures i == left.Length || j == right.Length
    ensures a[..k] + MergeFrom(left[..], right[..], i, j, key) == Merged(left[..], right[..], key)
  {
    ghost var l, r := left[..], right[..];
    ghost var all := Merged(l, r, key);
    i, j, k := 0, 0, 0;
    while i < left.Length && j < right.Length
      invariant 0 <= i <= left.Length && 0 <= j <= right.Length && k == i + j
      invariant a[..k] + MergeFrom(l, r, i, j, key) == all
    {
      ghost var done := a[..k];
      if key(left[i]) <= key(right[j]) {
        Shift(done, l[i], MergeFrom(l, r, i + 1, j, key), all);
        a[k] := left[i];
        i := i + 1;
      } else {
        Shift(done, r[j], MergeFrom(l, r, i, j + 1, key), all);
        a[k] := right[j];
        j := j + 1;
      }
      assert a[..k + 1] == done + [a[k]];
      k := k + 1;
    }
  }

  /** Once one side is used up, the merge is the rest of the other side. */
  lemma MergeFromRest<T>(l: seq<T>, r: seq<T>, i: nat, j: nat, key: T -> int)
    requires i <= |l| && j <= |r| && (i == |l| || j == |r|)
    ensures MergeFrom(l, r, i, j, key) == l[i..] + r[j..]
  {
    if i == |l| {
      assert l[i..] == [];
    } else {
      assert r[j..] == [];
    }
  }

  /**
   * Either tail loop of the merge: copy `src[i0..]` into `a` from index `k0`
   * on, returning the indices the loop leaves behind.
   */
  method CopyRest<T>(a: array<T>, src: array<T>, i0: int, k0: int) returns (i: int, k: int)
    requires a != src
    requires 0 <= i0 <= src.Length && 0 <= k0 && k0 + (src.Length - i0) <= a.Length
    modifies a
    ensures i == src.Length && k == k0 + (src.Length - i0)
    ensures a[..k] == old(a[..k0]) + src[i0..]
  {
    i, k := i0, k0;
    while i < src.Length
      invariant i0 <= i <= src.Length && k == k0 + (i - i0)
      invariant a[..k] == old(a[..k0]) + src[i0..i]
    {
      ghost var done := a[..k];
      a[k] := src[i];
      assert a[..k + 1] == done + [src[i]];
      assert src[i0..i + 1] == src[i0..i] + [src[i]];
      i := i + 1;
      k := k + 1;
    }
    assert src[i0..i] == src[i0..];
  }

  lemma Shift<T>(done: seq<T>, x: T, rest: seq<T>, all: seq<T>)
    requires done + ([x] + rest) == all
    ensures (done + [x]) + rest == all
  {
    assert (done + [x]) + rest == done + ([x] + rest);
  }

  /**
   * `merge_sort(arr)`: sorts `a` in place, stably; arrays of length 0 or 1
   * are left as they are, and so is an array that is already sorted.
   */
  method MergeSort<T>(a: array<T>, key: T -> int)
    modifies a
    ensures a[..] == MergeSortOf(old(a[..]), key)
    ensures SortedBy(a[..], key)
    ensures multiset(a[..]) == multiset(old(a[..]))
    ensures Stable(a[..], old(a[..]), key)
    ensures a.Length <= 1 ==> a[..] == old(a[..])
    ensures SortedBy(old(a[..]), key) ==> a[..] == old(a[..])
    decreases a.Length
  {
    ghost var input := a[..];
    if a.Length > 1 {
      var mid := a.Length / 2;
      var left := new T[mid](i reads a requires 0 <= i < mid => a[i]);
      var right := new T[a.Length - mid](i reads a requires 0 <= i < a.Length - mid => a[mid + i]);
      assert left[..] == input[..mid];
      assert right[..] == input[mid..];
      MergeSort(left, key);
      MergeSort(right, key);
      MergeInto(a, left, right, key);
    }
    MergeSortOfSorted(input, key);
    forall k ensures WithKey(a[..], key, k) == WithKey(input, key, k) {
      MergeSortOfStable(input, key, k);
    }
    // the permutation clause follows from stability alone
    StableIsPermutation(a[..], input, key);
    if SortedBy(input, key) {
      MergeSortOfSortedInput(input, key);
    }
  }
}

/**
 * `quick_sort` of index.py: an in-place quick sort whose recursive helper
 * `_quick_sort` sorts the closed segment `[low, high]` after a Lomuto
 * `partition` around the segment's last element.
 */
module QuickSorting {
  import opened SortSpec

  /** Non-decreasing by key on the positions `[lo, hi)`. */
  ghost predicate SortedRange<T>(s: seq<T>, lo: int, hi: int, key: T -> int)
    requires 0 <= lo <= hi <= |s|
  {
    forall i, j :: lo <= i < j < hi ==> key(s[i]) <= key(s[j])
  }

  /** `t` agrees with `s` everywhere outside the positions `[lo, hi)`. */
  ghost predicate SameOutside<T>(t: seq<T>, s: seq<T>, lo: int, hi: int) {
    |t| == |s| && forall m :: 0 <= m < |s| && !(lo <= m < hi) ==> t[m] == s[m]
  }

  /**
   * The tuple assignment `items[x], items[y] = items[y], items[x]`; `x` and
   * `y` may coincide.
   */
  method Swap<T>(a: array<T>, x: int, y: int)
    requires 0 <= x < a.Length && 0 <= y < a.Length
    modifies a
    ensures a[x] == old(a[y]) && a[y] == old(a[x])
    ensures forall m :: 0 <= m < a.Length && m != x && m != y ==> a[m] == old(a[m])
    ensures multiset(a[..]) == multiset(old(a[..]))
  {
    a[x], a[y] := a[y], a[x];
  }

  /** Equal elements around two multisets cancel. */
  lemma Cancel<T>(a: multiset<T>, b: multiset<T>, b2: multiset<T>, c: multiset<T>)
    requires a + b + c == a + b2 + c
    ensures b == b2
  {
    forall x ensures b[x] == b2[x] {
      assert (a + b + c)[x] == (a + b2 + c)[x];
    }
  }

  /**
   * A rearrangement of a whole sequence that leaves everything outside
   * `[lo, hi)` in place keeps the elements of `[lo, hi)`.
   */
  lemma SegmentKeepsElements<T>(s: seq<T>, t: seq<T>, lo: int, hi: int)
    requires 0 <= lo <= hi <= |s|
    requires SameOutside(t, s, lo, hi) && multiset(t) == multiset(s)
    ensures multiset(t[lo..hi]) == multiset(s[lo..hi])
    ensures t[..lo] == s[..lo] && t[hi..] == s[hi..]
  {
    var front, back := s[..lo], s[hi..];
    assert t[..lo] == front;
    assert t[hi..] == back;
    assert s == front + s[lo..hi] + back;
    assert t == front + t[lo..hi] + back;
    Cancel(multiset(front), multiset(t[lo..hi]), multiset(s[lo..hi]), multiset(back));
  }

  /**
   * A property of every element of `[lo, hi)` survives a rearrangement that
   * leaves everything outside `[lo, hi)` in place.
   */
  lemma SegmentKeepsAll<T>(s: seq<T>, t: seq<T>, lo: int, hi: int, p: T -> bool)
    requires 0 <= lo <= hi <= |s|
    requires SameOutside(t, s, lo, hi) && multiset(t) == multiset(s)
    requires forall m :: lo <= m < hi ==> p(s[m])
    ensures forall m :: lo <= m < hi ==> p(t[m])
  {
    SegmentKeepsElements(s, t, lo, hi);
    forall m | lo <= m < hi ensures p(t[m]) {
      assert t[m] == t[lo..hi][m - lo];
      assert t[m] in multiset(s[lo..hi]);
      var u :| 0 <= u < hi - lo && s[lo..hi][u] == t[m];
      assert s[lo + u] == t[m];
    }
  }

  /**
   * `partition(items, low, high)`: moves every element whose key is at most
   * the pivot's (the segment's last element) in front of it, everything
   * larger behind it, and returns the pivot's final index. The segment keeps
   * its elements, nothing outside `[low, high]` changes, and a sorted segment
   * is left exactly as it was with the pivot staying at `high`.
   */
  method Partition<T>(a: array<T>, low: int, high: int, key: T -> int) returns (p: int)
    requires 0 <= low <= high < a.Length
    modifies a
    ensures low <= p <= high
    ensures a[p] == old(a[high])
    ensures forall t :: low <= t < p ==> key(a[t]) <= key(a[p])
    ensures forall t :: p < t <= high ==> key(a[t]) > key(a[p])
    ensures multiset(a[..]) == multiset(old(a[..]))
    ensures SameOutside(a[..], old(a[..]), low, high + 1)
    ensures multiset(a[low..high + 1]) == multiset(old(a[low..high + 1]))
    ensures SortedRange(old(a[..]), low, high + 1, key) ==> p == high && a[..] == old(a[..])
  {
    ghost var input := a[..];
    var i := Scan(a, low, high, key);
    // place the pivot after the last element not above it
    Swap(a, i + 1, high);
    p := i + 1;
    SegmentKeepsElements(input, a[..], low, high + 1);
  }

  /**
   * The `for j in range(low, high)` loop of `partition`: with the pivot at
   * `high`, swap every element whose key is at most the pivot's to the front
   * region `[low, i]`, leaving the keys above it in `(i, high)`.
   */
  method Scan<T>(a: array<T>, low: int, high: int, key: T -> int) returns (i: int)
    requires 0 <= low <= high < a.Length
    modifies a
    ensures low - 1 <= i < high
    ensures a[high] == old(a[high])
    ensures forall t :: low <= t <= i ==> key(a[t]) <= key(a[high])
    ensures forall t :: i < t < high ==> key(a[t]) > key(a[high])
    ensures multiset(a[..]) == multiset(old(a[..]))
    ensures SameOutside(a[..], old(a[..]), low, high)
    ensures SortedRange(old(a[..]), low, high + 1, key) ==> i == high - 1 && a[..] == old(a[..])
  {
    ghost var input := a[..];
    ghost var sorted := SortedRange(input, low, high + 1, key);
    var pivot := a[high];
    i := low - 1;
    for j := low to high
      invariant low - 1 <= i < j
      invariant a[high] == pivot
      invariant forall t :: low <= t <= i ==> key(a[t]) <= key(pivot)
      invariant forall t :: i < t < j ==> key(a[t]) > key(pivot)
      invariant multiset(a[..]) == multiset(input)
      invariant SameOutside(a[..], input, low, high)
      invariant sorted ==> i == j - 1 && a[..] == input
    {
      if sorted {
        assert key(input[j]) <= key(input[high]);
      }
      if key(a[j]) <= key(pivot) {
        i := i + 1;
        Swap(a, i, j);
      }
    }
  }

  /**
   * Once the partition (to `parted`) and the two recursive calls (to `mid`,
   * then to `fin`) have done what their contracts promise, the segment
   * `[low, high]` is sorted.
   */
  lemma RecursionSorts<T>(parted: seq<T>, mid: seq<T>, fin: seq<T>, low: int, p: int, high: int, key: T -> int)
    requires 0 <= low <= p <= high < |parted|
    requires forall t :: low <= t < p ==> key(parted[t]) <= key(parted[p])
    requires forall t :: p < t <= high ==> key(parted[t]) > key(parted[p])
    requires SameOutside(mid, parted, low, p) && multiset(mid) == multiset(parted) && SortedRange(mid, low, p, key)
    requires SameOutside(fin, mid, p + 1, high + 1) && multiset(fin) == multiset(mid) && SortedRange(fin, p + 1, high + 1, key)
    ensures SortedRange(fin, low, high + 1, key)
  {
    var kp := key(parted[p]);
    // each side still lies on its side of the pivot, which has not moved
    SegmentKeepsAll(parted, mid, low, p, x => key(x) <= kp);
    SegmentKeepsAll(mid, fin, p + 1, high + 1, x => key(x) > kp);
    assert fin[p] == parted[p];
    forall i, j | low <= i < j < high + 1 ensures key(fin[i]) <= key(fin[j]) {
      if j < p {
        assert fin[i] == mid[i] && fin[j] == mid[j];
      } else if i < p {
        assert fin[i] == mid[i];
      }
    }
  }

  /**
   * Under the same three contracts, nothing outside `[low, high]` has moved,
   * and a segment that was sorted to begin with is untouched.
   */
  lemma RecursionFrames<T>(input: seq<T>, parted: seq<T>, mid: seq<T>, fin: seq<T>, low: int, p: int, high: int, key: T -> int)
    requires 0 <= low <= p <= high < |input|
    requires SameOutside(parted, input, low, high + 1)
    requires SortedRange(input, low, high + 1, key) ==> p == high && parted == input
    requires SameOutside(mid, parted, low, p)
    requires SortedRange(parted, low, p, key) ==> mid == parted
    requires SameOutside(fin, mid, p + 1, high + 1)
    requires high <= p + 1 ==> fin == mid
    ensures SameOutside(fin, input, low, high + 1)
    ensures SortedRange(input, low, high + 1, key) ==> fin == input
  {
  }

  /**
   * `_quick_sort(items, low, high)`: sorts the closed segment `[low, high]`
   * in place, keeping its elements; nothing outside the segment moves, and a
   * segment of at most one element, or one that is already sorted, is left
   * as it was.
   */
  method QuickSortRange<T>(a: array<T>, low: int, high: int, key: T -> int)
    requires 0 <= low <= high + 1 <= a.Length
    modifies a
    ensures SortedRange(a[..], low, high + 1, key)
    ensures multiset(a[..]) == multiset(old(a[..]))
    ensures SameOutside(a[..], old(a[..]), low, high + 1)
    ensures high <= low ==> a[..] == old(a[..])
    ensures SortedRange(old(a[..]), low, high + 1, key) ==> a[..] == old(a[..])
    decreases high - low
  {
    if low < high {
      ghost var input := a[..];
      var p := Partition(a, low, high, key);
      ghost var parted := a[..];
      QuickSortRange(a, low, p - 1, key);
      ghost var mid := a[..];
      QuickSortRange(a, p + 1, high, key);
      RecursionSorts(parted, mid, a[..], low, p, high, key);
      RecursionFrames(input, parted, mid, a[..], low, p, high, key);
    }
  }

  /**
   * `quick_sort(arr)`: sorts `a` in place by sorting the segment
   * `[0, len - 1]`; an empty array and an already sorted array are left as
   * they were.
   */
  method QuickSort<T>(a: array<T>, key: T -> int)
    modifies a
    ensures SortedBy(a[..], key)
    ensures multiset(a[..]) == multiset(old(a[..]))
    ensures a.Length == 0 ==> a[..] == old(a[..])
    ensures SortedBy(old(a[..]), key) ==> a[..] == old(a[..])
  {
    QuickSortRange(a, 0, a.Length - 1, key);
  }
}

/**
 * Shared vocabulary for both sorting routines of index.py: elements of any
 * type are compared through an integer key (Python's `<=` on comparable
 * elements; integers use `Identity`), "sorted" means non-decreasing by key,
 * and "stable" means that, for every key value, the elements carrying that
 * key appear in the same relative order before and after sorting.
 */
module SortSpec {

  /** How the benchmark's integer elements are compared: by themselves. */
  function Identity(x: int): int { x }

  /** Non-decreasing by key. */
  ghost predicate SortedBy<T>(s: seq<T>, key: T -> int) {
    forall i, j :: 0 <= i < j < |s| ==> key(s[i]) <= key(s[j])
  }

  /** Distinct elements of `s` never share a key (always so under `Identity`). */
  ghost predicate NoTiedKeys<T>(s: seq<T>, key: T -> int) {
    forall i, j :: 0 <= i < |s| && 0 <= j < |s| && key(s[i]) == key(s[j]) ==> s[i] == s[j]
  }

  /** The subsequence of `s` whose elements have key `k`, in their order in `s`. */
  function WithKey<T>(s: seq<T>, key: T -> int, k: int): seq<T> {
    if s == [] then []
    else (if key(s[0]) == k then [s[0]] else []) + WithKey(s[1..], key, k)
  }

  /** `WithKey(s[i..], key, k)`, walked by index. */
  function WithKeyFrom<T>(s: seq<T>, i: nat, key: T -> int, k: int): seq<T>
    requires i <= |s|
    decreases |s| - i
  {
    if i == |s| then []
    else (if key(s[i]) == k then [s[i]] else []) + WithKeyFrom(s, i + 1, key, k)
  }

  lemma {:induction false} WithKeyFromSlice<T>(s: seq<T>, i: nat, key: T -> int, k: int)
    requires i <= |s|
    ensures WithKey(s[i..], key, k) == WithKeyFrom(s, i, key, k)
    decreases |s| - i
  {
    if i < |s| {
      WithKeyFromSlice(s, i + 1, key, k);
      assert s[i..] == [s[i]] + s[i + 1..];
      WithKeyCons(s[i], s[i + 1..], key, k);
    } else {
      assert s[i..] == [];
    }
  }

  /** `t` keeps the relative order of every group of equal-key elements of `s`. */
  ghost predicate Stable<T>(t: seq<T>, s: seq<T>, key: T -> int) {
    forall k :: WithKey(t, key, k) == WithKey(s, key, k)
  }

  lemma {:induction false} WithKeyAppend<T>(s: seq<T>, u: seq<T>, key: T -> int, k: int)
    ensures WithKey(s + u, key, k) == WithKey(s, key, k) + WithKey(u, key, k)
  {
    if s != [] {
      assert (s + u)[1..] == s[1..] + u;
      WithKeyAppend(s[1..], u, key, k);
    } else {
      assert s + u == u;
    }
  }

  lemma WithKeyCons<T>(x: T, s: seq<T>, key: T -> int, k: int)
    ensures WithKey([x] + s, key, k) == (if key(x) == k then [x] else []) + WithKey(s, key, k)
  {
    assert ([x] + s)[1..] == s;
  }

  /** Everything `WithKey` keeps comes from `s` and carries key `k`. */
  lemma {:induction false} WithKeyMember<T>(s: seq<T>, key: T -> int, k: int, x: T)
    requires x in WithKey(s, key, k)
    ensures x in s && key(x) == k
  {
    if s != [] {
      if x != s[0] || key(s[0]) != k {
        WithKeyMember(s[1..], key, k, x);
      }
    }
  }

  /** Stability alone already makes `t` a permutation of `s`. */
  lemma StableIsPermutation<T>(t: seq<T>, s: seq<T>, key: T -> int)
    requires Stable(t, s, key)
    ensures multiset(t) == multiset(s)
  {
    forall x ensures multiset(t)[x] == multiset(s)[x] {
      WithKeyCount(t, key, x);
      WithKeyCount(s, key, x);
      assert WithKey(t, key, key(x)) == WithKey(s, key, key(x));
    }
  }

  lemma {:induction false} WithKeyCount<T>(s: seq<T>, key: T -> int, x: T)
    ensures multiset(WithKey(s, key, key(x)))[x] == multiset(s)[x]
  {
    if s != [] {
      WithKeyCount(s[1..], key, x);
      assert s == [s[0]] + s[1..];
    }
  }

  /**
   * A stable sort of an already sorted sequence is that sequence: both are
   * sorted and agree on every group of equal keys.
   */
  lemma {:induction false} StableSortOfSortedIsIdentity<T>(t: seq<T>, s: seq<T>, key: T -> int)
    requires SortedBy(t, key) && SortedBy(s, key) && Stable(t, s, key)
    ensures t == s
  {
    if t != [] {
      assert WithKey(t, key, key(t[0])) != [];
      SmallestKeyFirst(s, t, key, key(t[0]));
    }
    if s != [] {
      assert WithKey(s, key, key(s[0])) != [];
      SmallestKeyFirst(t, s, key, key(s[0]));
    }
    if t != [] && s != [] {
      var k0 := key(s[0]);
      assert key(t[0]) == k0;
      assert WithKey(t, key, k0) == [t[0]] + WithKey(t[1..], key, k0);
      assert WithKey(s, key, k0) == [s[0]] + WithKey(s[1..], key, k0);
      assert t[0] == s[0];
      forall k ensures WithKey(t[1..], key, k) == WithKey(s[1..], key, k) {
        assert WithKey(t, key, k) == WithKey(s, key, k);
        assert WithKey(t, key, k) == (if key(t[0]) == k then [t[0]] else []) + WithKey(t[1..], key, k);
        assert WithKey(s, key, k) == (if key(s[0]) == k then [s[0]] else []) + WithKey(s[1..], key, k);
        if key(t[0]) == k {
          assert [t[0]] + WithKey(t[1..], key, k) == [s[0]] + WithKey(s[1..], key, k);
          assert WithKey(t[1..], key, k) == ([t[0]] + WithKey(t[1..], key, k))[1..];
          assert WithKey(s[1..], key, k) == ([s[0]] + WithKey(s[1..], key, k))[1..];
        } else {
          assert [] + WithKey(t[1..], key, k) == WithKey(t[1..], key, k);
          assert [] + WithKey(s[1..], key, k) == WithKey(s[1..], key, k);
        }
      }
      StableSortOfSortedIsIdentity(t[1..], s[1..], key);
      assert t == [t[0]] + t[1..];
      assert s == [s[0]] + s[1..];
    }
  }

  /** If `s` is sorted and has some element with key `k`, its first key is at most `k`. */
  lemma SmallestKeyFirst<T>(s: seq<T>, t: seq<T>, key: T -> int, k: int)
    requires SortedBy(s, key) && Stable(t, s, key)
    requires WithKey(t, key, k) != []
    ensures s != [] && key(s[0]) <= k
  {
    var x := WithKey(s, key, k)[0];
    WithKeyMember(s, key, k, x);
    var i :| 0 <= i < |s| && s[i] == x;
    assert i == 0 || key(s[0]) <= key(s[i]);
  }

  /**
   * When no two distinct elements tie (integers compared as themselves), two
   * sorted permutations of one multiset are equal.
   */
  lemma {:induction false} SortedPermutationUnique<T>(t: seq<T>, s: seq<T>, key: T -> int)
    requires NoTiedKeys(s, key)
    requires SortedBy(t, key) && SortedBy(s, key) && multiset(t) == multiset(s)
    ensures t == s
  {
    assert |t| == |multiset(t)| == |multiset(s)| == |s|;
    if s != [] {
      SameHead(t, s, key);
      assert t == [t[0]] + t[1..];
      assert s == [s[0]] + s[1..];
      assert multiset(t[1..]) == multiset(s[1..]) by {
        assert multiset(t[1..]) == multiset(t) - multiset{t[0]};
        assert multiset(s[1..]) == multiset(s) - multiset{s[0]};
      }
      TailNoTiedKeys(s, key);
      SortedPermutationUnique(t[1..], s[1..], key);
    }
  }

  lemma SameHead<T>(t: seq<T>, s: seq<T>, key: T -> int)
    requires NoTiedKeys(s, key)
    requires SortedBy(t, key) && SortedBy(s, key) && multiset(t) == multiset(s)
    requires s != [] && t != []
    ensures t[0] == s[0]
  {
    assert t[0] in multiset(s);
    var i :| 0 <= i < |s| && s[i] == t[0];
    assert s[0] in multiset(t);
    var j :| 0 <= j < |t| && t[j] == s[0];
    assert i == 0 || key(s[0]) <= key(s[i]);
    assert j == 0 || key(t[0]) <= key(t[j]);
  }

  lemma TailNoTiedKeys<T>(s: seq<T>, key: T -> int)
    requires NoTiedKeys(s, key) && s != []
    ensures NoTiedKeys(s[1..], key)
  {
    forall a, b | 0 <= a < |s| - 1 && 0 <= b < |s| - 1 && key(s[1..][a]) == key(s[1..][b])
      ensures s[1..][a] == s[1..][b]
    {
      assert s[1..][a] == s[a + 1] && s[1..][b] == s[b + 1];
    }
  }

  lemma IntegersNeverTie(s: seq<int>)
    ensures NoTiedKeys(s, Identity)
  {
  }

  /** A property of every element survives any permutation. */
  lemma PermutationKeepsAll<T>(t: seq<T>, s: seq<T>, p: T -> bool)
    requires multiset(t) == multiset(s)
    requires forall i :: 0 <= i < |s| ==> p(s[i])
    ensures forall i :: 0 <= i < |t| ==> p(t[i])
  {
    forall i | 0 <= i < |t| ensures p(t[i]) {
      assert t[i] in multiset(s);
    }
  }
}

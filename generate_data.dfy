/**
 * `generate_data(n, data_type)` of index.py: the three input patterns the
 * benchmark sorts ("random", "sorted", "reverse") and the `ValueError` for
 * any other label. `n` is any integer, as in Python: for `n <= 0` every
 * pattern is empty, because `range` is.
 */
module DataGeneration {
  import opened SortSpec

  /** A generated list, or the `ValueError` raised for an unknown label. */
  datatype Generated = Data(values: seq<int>) | ValueError(message: string)

  /** The labels `generate_data` accepts. */
  const DataTypes: seq<string> := ["random", "sorted", "reverse"]

  /** The message of the `ValueError` for any other label. */
  const Unsupported: string := "Unsupported data type: choose 'random', 'sorted', or 'reverse'."

  /** `len(range(n))`. */
  function Count(n: int): nat {
    if n > 0 then n else 0
  }

  /** `list(range(n))`: `0, 1, ..., n - 1`. */
  function Ascending(n: int): (r: seq<int>)
    ensures |r| == Count(n)
    ensures forall i :: 0 <= i < |r| ==> r[i] == i
  {
    if n <= 0 then [] else Ascending(n - 1) + [n - 1]
  }

  /** `list(range(n, 0, -1))`: `n, n - 1, ..., 1`. */
  function Descending(n: int): (r: seq<int>)
    ensures |r| == Count(n)
    ensures forall i :: 0 <= i < |r| ==> r[i] == n - i
  {
    if n <= 0 then [] else [n] + Descending(n - 1)
  }

  /** `1, 2, ..., n`: the reverse pattern once it has been sorted. */
  function OneTo(n: int): (r: seq<int>)
    ensures |r| == Count(n)
    ensures forall i :: 0 <= i < |r| ==> r[i] == i + 1
  {
    if n <= 0 then [] else OneTo(n - 1) + [n]
  }

  /** The ascending pattern is sorted. */
  lemma AscendingSorted(n: int)
    ensures SortedBy(Ascending(n), Identity)
  {
  }

  /** The descending pattern is sorted only when it has at most one element. */
  lemma DescendingSortedIff(n: int)
    ensures SortedBy(Descending(n), Identity) <==> n <= 1
  {
    if n > 1 {
      var d := Descending(n);
      assert d[0] == n && d[1] == n - 1;
    }
  }

  /** The descending pattern holds exactly `1, ..., n`. */
  lemma {:induction false} DescendingElements(n: int)
    ensures multiset(Descending(n)) == multiset(OneTo(n))
    decreases Count(n)
  {
    if n > 0 {
      DescendingElements(n - 1);
      assert Descending(n) == [n] + Descending(n - 1);
      assert OneTo(n) == OneTo(n - 1) + [n];
    }
  }

  /** Any sorted rearrangement of the reverse pattern is `1, ..., n`. */
  lemma SortedReverseData(n: int, t: seq<int>)
    requires SortedBy(t, Identity) && multiset(t) == multiset(Descending(n))
    ensures t == OneTo(n)
  {
    DescendingElements(n);
    IntegersNeverTie(OneTo(n));
    SortedPermutationUnique(t, OneTo(n), Identity);
  }

  /**
   * `[random.randint(1, n) for _ in range(n)]`: `n` values, each drawn from
   * `[1, n]`; which value is drawn is left open.
   */
  method RandomData(n: int) returns (r: seq<int>)
    ensures |r| == Count(n)
    ensures forall i :: 0 <= i < |r| ==> 1 <= r[i] <= n
  {
    r := [];
    var k := 0;
    while k < n
      invariant 0 <= k <= Count(n) && |r| == k
      invariant forall i :: 0 <= i < |r| ==> 1 <= r[i] <= n
    {
      var v :| 1 <= v <= n;
      r := r + [v];
      k := k + 1;
    }
  }

  /** `generate_data(n, data_type="random")`, branch by branch. */
  method GenerateData(n: int, dataType: string := "random") returns (g: Generated)
    ensures g.Data? <==> dataType in DataTypes
    ensures dataType == "random" ==> |g.values| == Count(n) && forall i :: 0 <= i < |g.values| ==> 1 <= g.values[i] <= n
    ensures dataType == "sorted" ==> g.values == Ascending(n)
    ensures dataType == "reverse" ==> g.values == Descending(n)
    ensures dataType !in DataTypes ==> g.message == Unsupported
  {
    if dataType == "random" {
      var r := RandomData(n);
      g := Data(r);
    } else if dataType == "sorted" {
      g := Data(Ascending(n));
    } else if dataType == "reverse" {
      g := Data(Descending(n));
    } else {
      g := ValueError(Unsupported);
    }
  }
}

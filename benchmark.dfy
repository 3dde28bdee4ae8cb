/**
 * One trial of the benchmark loop of index.py: generate the data, copy it,
 * and sort one copy with `merge_sort` and the other with `quick_sort`.
 * Timing, memory tracing and printing are not modelled; what is modelled is
 * what the two sorts leave behind.
 */
module Benchmark {
  import opened SortSpec
  import opened MergeSorting
  import opened QuickSorting
  import opened DataGeneration

  /** The outcome of a trial: what each sort left in its copy, or the generator's error. */
  datatype Outcome = Sorted(merged: seq<int>, quick: seq<int>) | Failed(message: string)

  /**
   * `arr1`, `arr2 = list(arr1)`, then both sorts: on integers the two sorts
   * agree, and each result is the sorted rearrangement of the data.
   */
  method SortCopies(data: seq<int>) returns (merged: seq<int>, quick: seq<int>)
    ensures merged == quick
    ensures SortedBy(merged, Identity) && multiset(merged) == multiset(data)
    ensures SortedBy(data, Identity) ==> merged == data
  {
    var arr1 := new int[|data|](i requires 0 <= i < |data| => data[i]);
    assert arr1[..] == data;
    var arr2 := new int[arr1.Length](i reads arr1 requires 0 <= i < arr1.Length => arr1[i]);
    assert arr2[..] == data;
    MergeSort(arr1, Identity);
    QuickSort(arr2, Identity);
    merged, quick := arr1[..], arr2[..];
    IntegersNeverTie(quick);
    SortedPermutationUnique(merged, quick, Identity);
  }

  /**
   * One pass of the inner benchmark loop for size `n` and label `dataType`:
   * the sorted pattern comes back unchanged, the reverse pattern as
   * `1, ..., n`, random data as `n` sorted values from `[1, n]`, and an
   * unknown label as the generator's error.
   */
  method RunTrial(n: int, dataType: string) returns (o: Outcome)
    ensures o.Sorted? <==> dataType in DataTypes
    ensures o.Sorted? ==> o.merged == o.quick && SortedBy(o.merged, Identity)
    ensures dataType == "sorted" ==> o == Sorted(Ascending(n), Ascending(n))
    ensures dataType == "reverse" ==> o == Sorted(OneTo(n), OneTo(n))
    ensures dataType == "random" ==> |o.merged| == Count(n) && forall i :: 0 <= i < |o.merged| ==> 1 <= o.merged[i] <= n
    ensures dataType !in DataTypes ==> o == Failed(Unsupported)
  {
    var g := GenerateData(n, dataType);
    if g.ValueError? {
      return Failed(g.message);
    }
    var merged, quick := SortCopies(g.values);
    o := Sorted(merged, quick);
    if dataType == "sorted" {
      AscendingSorted(n);
    } else if dataType == "reverse" {
      SortedReverseData(n, merged);
    } else if dataType == "random" {
      assert |merged| == |multiset(merged)| == |multiset(g.values)| == |g.values|;
      PermutationKeepsAll(merged, g.values, x => 1 <= x <= n);
    }
  }
}

# Merge sort and quick sort of `index.py`, modelled and verified in Dafny

`index.py` benchmarks two divide-and-conquer sorts. This project models the
two sorts, the data generator that feeds them, and the data path of one
benchmark trial.

- `merge_sort` is a top-down merge sort. It copies the two halves of the
  list, sorts each copy recursively and merges them back into the list with
  three index-driven loops. On a tie the main loop takes from the left half.
- `quick_sort` sorts in place. Its recursive `_quick_sort` sorts the closed
  index range `[low, high]` after a Lomuto `partition`, which uses the
  range's last element as the pivot.
- `generate_data(n, data_type)` builds the "random", "sorted" and "reverse"
  inputs and raises `ValueError` for any other label.

Files and modules:

- `sort_spec.dfy` (`SortSpec`) holds the shared vocabulary:
  - elements of any type are compared through an integer key; the benchmark's
    integers use `Identity`;
  - sortedness (`SortedBy`);
  - stability: for every key, the subsequence of elements with that key
    (`WithKey`) is unchanged (`Stable`);
  - lemmas about these.
- `merge_sort.dfy` (`MergeSorting`):
  - `MergeSort` works on `array<T>` and allocates fresh arrays for the copied
    halves;
  - the merge loops are the methods `MergeFront` and `CopyRest`;
  - each method is proved against the functions `MergeFrom`, `Merged` and
    `MergeSortOf`, whose sortedness, permutation and stability are proved as
    lemmas.
- `quick_sort.dfy` (`QuickSorting`):
  - `Partition`, its loop `Scan`, `QuickSortRange` (`_quick_sort`) and
    `QuickSort` work in place on `array<T>`;
  - the tuple swaps are `Swap`;
  - contracts speak of index ranges: `SortedRange` is sorted on `[lo, hi)`,
    and `SameOutside` means unchanged outside `[lo, hi)`.
- `generate_data.dfy` (`DataGeneration`) has the three patterns. The random
  values are a nondeterministic choice within `[1, n]`.
- `benchmark.dfy` (`Benchmark`) covers one trial of the `__main__` loop
  without timing or printing. It generates data, copies it, and sorts one
  copy with each sort.

Decisions:

- The unknown-label error is Python's `ValueError` (index.py:155), carrying the code's exact
  message.
- `data_type` defaults to "random" (index.py:134), as `GenerateData`'s `dataType` does.
- `n` is any integer. For `n <= 0` every pattern is empty, because `range(n)`
  is, and `random.randint` is then never called.
- For `_quick_sort`, an already sorted segment is left unchanged for any
  key, even with ties. Lomuto's scan then only swaps each element with
  itself, and the pivot stays at `high`. This is proved directly, without the
  integers' lack of ties.
- The merge and quick sort results are equal only because distinct integers
  never share a key. Quick sort is not stable, and nothing here claims that
  it is.

## Model

| member | source | states |
|---|---|---|
| MergeSorting.MergeFromPermutation | index.py:53-75 | the merge of the remaining parts of both halves holds exactly their elements, and its length is their combined length |
| MergeSorting.MergeSortOf | index.py:39-50 | merge sort's result has the input's length and exactly its elements |
| MergeSorting.MergeFromSorted | index.py:56-75 | merging two sorted halves gives a sorted sequence |
| MergeSorting.MergeSortOfSorted | index.py:28-75 | merge sort's result is sorted for every input |
| MergeSorting.TakeLeftWithKey | index.py:57-59 | when the left front element is taken, for every key the merge's group of that key is the left half's group followed by the right half's |
| MergeSorting.TakeRightWithKey | index.py:60-62 | the same after taking the right front element; this holds because that element's key is strictly below every key left in the left half |
| MergeSorting.MergeFromWithKey | index.py:56-75 | because ties take from the left, for every key the merge's group is the left half's group followed by the right half's |
| MergeSorting.MergeSortOfStable | index.py:44-75 | merge sort is stable: for every key, the elements with that key keep their input order |
| MergeSorting.MergeSortOfSortedInput | index.py:28-75 | merge sort returns an already sorted input unchanged, for any key |
| MergeSorting.MergeFront | index.py:53-63 | the main merge loop keeps `k == i + j` with `i` and `j` within their halves. It stops once one half is used up. What it wrote into `arr[0..k)`, followed by the merge of what is left, is the whole merge |
| MergeSorting.MergeFromRest | index.py:65-75 | once one half is used up, what is left of the merge is the rest of the other half |
| MergeSorting.CopyRest | index.py:66-75 | a tail loop appends exactly `src[i..]` after the part already written and ends with `i == len(src)` |
| MergeSorting.MergeInto | index.py:53-75 | the three loops together leave `arr` equal to the merge of the two sorted copies |
| MergeSorting.MergeSort | index.py:28-75 | the array becomes merge sort's result: sorted, a permutation of the input and stable. Arrays of length 0 or 1, and sorted arrays, are left unchanged |
| QuickSorting.Swap | index.py:125 | the tuple swap exchanges two entries, changes nothing else and keeps the elements |
| QuickSorting.Scan | index.py:119-125 | after the loop, keys in `[low, i]` are at most the pivot's and keys in `(i, high)` are above it. `low - 1 <= i < high`, the pivot stays at `high`, only `[low, high)` changes and the elements are kept. A sorted segment is left as it was, with `i == high - 1` |
| QuickSorting.Partition | index.py:107-128 | returns `low <= p <= high` with the old `items[high]` at `p`. Keys before `p` are at most the pivot's and keys after it, up to `high`, are above it. The segment keeps its elements and nothing outside `[low, high]` changes. A sorted segment is untouched and `p == high` |
| QuickSorting.SegmentKeepsElements | index.py:100-105 | rearranging the whole array without touching anything outside a segment keeps the segment's elements |
| QuickSorting.SegmentKeepsAll | index.py:104-105 | a property of every element of a segment survives such a rearrangement, so the recursive calls keep each side on its side of the pivot |
| QuickSorting.RecursionSorts | index.py:100-105 | the partition plus the two sorted sides make the whole segment `[low, high]` sorted |
| QuickSorting.RecursionFrames | index.py:100-105 | the partition and the two recursive calls change nothing outside `[low, high]`, and change nothing at all when the segment was already sorted |
| QuickSorting.QuickSortRange | index.py:90-105 | `_quick_sort(items, low, high)` sorts `[low, high]` and keeps the array's elements. It changes nothing outside the segment, and nothing when `high <= low` or the segment is already sorted |
| QuickSorting.QuickSort | index.py:78-131 | the array becomes a sorted permutation of its input. The empty array, where `high == -1`, and a sorted array are left unchanged |
| SortSpec.StableIsPermutation | index.py:44-63 | a property of the stability predicate: a result that keeps every key's group of a sequence is a permutation of it; `MergeSort` derives its permutation clause from its stability through it |
| SortSpec.StableSortOfSortedIsIdentity | index.py:28-75 | a sorted, stable rearrangement of a sorted sequence is that sequence |
| SortSpec.SortedPermutationUnique | index.py:190-197 | with no tied keys, two sorted permutations of one sequence are equal |
| DataGeneration.Ascending | index.py:150 | `list(range(n))` has `max(n, 0)` elements and element `i` is `i` |
| DataGeneration.Descending | index.py:153 | `list(range(n, 0, -1))` has `max(n, 0)` elements and element `i` is `n - i` |
| DataGeneration.AscendingSorted | index.py:148-150 | the "sorted" pattern is sorted |
| DataGeneration.DescendingSortedIff | index.py:151-153 | the "reverse" pattern is sorted exactly when `n <= 1` |
| DataGeneration.DescendingElements | index.py:153 | the "reverse" pattern holds exactly the values `1..n` |
| DataGeneration.SortedReverseData | index.py:153 | any sorted rearrangement of the "reverse" pattern is `1, 2, ..., n` |
| DataGeneration.RandomData | index.py:147 | the "random" pattern has `max(n, 0)` values, each in `[1, n]` |
| DataGeneration.GenerateData | index.py:134-155 | the label defaults to "random"; a result comes back exactly for the three labels: "random" within bounds, "sorted" as `range(n)`, "reverse" as `range(n, 0, -1)`; any other label gives the `ValueError` with the code's message |
| Benchmark.SortCopies | index.py:190-197 | on the two copies of the data, both sorts give the same result: the sorted permutation of the data, which is the data itself when already sorted |
| Benchmark.RunTrial | index.py:188-197 | one trial gives "sorted" back unchanged and "reverse" as `1..n`. "Random" gives `n` sorted values in `[1, n]`. An unknown label fails with the generator's error |

## Left out

- `measure_performance` (index.py:158-175) is not modelled. It consists of wall-clock timing, `tracemalloc` memory tracing and a floating-point conversion to kilobytes.
- The `__main__` driver (index.py:178-201) is modelled only as the data path of one trial (`Benchmark.RunTrial`). Left out: `sys.setrecursionlimit`, the fixed loops over the sizes `[1000, 3000]` and the three labels, and the formatted output.
- DataGeneration.RandomData: the distribution of `random.randint` is not modelled. Each value is an arbitrary choice from `[1, n]`, so only the length and the bounds are stated.
- Running times, the quadratic worst case of quick sort on sorted and reverse input, and recursion depth are performance properties and are not stated.
- Quick sort is not stable, and no stability property is stated for it.
- Python's `<=` on arbitrary comparable objects is modelled as comparing integer keys. Comparisons that raise, and orders that are not total, are not modelled.

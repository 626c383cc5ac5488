# Verified model of `select` (order-preserving stream compaction)

The lab's `select` takes a vector of `int` and a predicate. It returns a new vector
that holds exactly the elements satisfying the predicate, in their original order.
It works in three data-parallel-friendly steps:

1. a transform builds a 0/1 mask (`v_sel`) with one flag per element;
2. an inclusive scan of the mask gives `index[i]`, the number of selected elements
   among `v[0..i]`;
3. the output is sized from the last scan entry (0 for an empty input), and each
   selected `v[i]` is written to `w[index[i] - 1]`.

The model has two modules.

- `CompactionSpec` (compaction_spec.dfy) holds the pure specification:
  - `Filter`, the order-preserving filter that `select` must compute;
  - `MaskOf`, `PrefixCount`, `Scan` and `OutputLength`, which are the mask, the
    inclusive prefix sum and the output size;
  - `ScatterInOrder`, the scatter's writes applied in any order.

  It also holds the lemmas about them: bounds and monotonicity of the scan, the
  rank of each selected element, in-bounds, distinct and covering write targets,
  order-independence of the scatter, and the properties of the filter.
- `Select` (select.dfy) holds the imperative code on arrays. `BuildMask` and
  `InclusiveScan` are loops proved against `MaskOf` and `Scan`. `Select` allocates
  the zero-initialised output and runs the index loop of the scatter. Its loop
  invariant ties the array to `ScatterInOrder` over the positions visited so far,
  and `ScatterAnyOrder` then gives `w[..] == Filter(v[..], pred)`.

The predicate is an arbitrary total function `int -> bool`. The harness predicate
`x % 3 == 0` is `DivisibleBy3`. C++ `%` truncates toward zero and Dafny's `%` is
Euclidean, but they agree on whether the remainder is zero.

The scan at line 92 is modelled twice. `InclusiveScanAsWritten` follows the call as
written: its running sum is a `char`, which wraps (see "## Findings"). `InclusiveScan`
is the intended scan with a `size_t` running sum, and `Select` uses it.

As the code does, the scatter loop evaluates `pred(v[i])` again (line 103) and does
not read the mask. Because the predicate is a pure function, the two tests agree.

## Model

| member | source | states |
|---|---|---|
| `Select.BuildMask` | labs/lab1_select/solutions/exercise1.cpp:87-89 | returns a newly allocated array; the mask has the input's length; `mask[i]` is 1 exactly when `pred(v[i])` holds and 0 exactly when it does not; it equals `MaskOf(v, pred)` |
| `Select.InclusiveScan` | labs/lab1_select/solutions/exercise1.cpp:91-92 | the intended scan, with a `size_t` running sum: `index` is newly allocated, has the mask's length and `index[i]` is the sum of `mask[0..i]` inclusive, i.e. `index == Scan(mask)` |
| `Select.Select` | labs/lab1_select/solutions/exercise1.cpp:84-118 | returns a new array equal to `Filter(v, pred)`, every element of which satisfies `pred`; every scatter write is in bounds (checked at line 103's write) |
| `CompactionSpec.MaskIsFlags` | labs/lab1_select/solutions/exercise1.cpp:87-89 | the mask of a sequence has its length, holds only 0/1 flags, and has a 1 exactly at the selected positions |
| `CompactionSpec.PrefixCountBounds` | labs/lab1_select/solutions/exercise1.cpp:91-92 | the sum of the first `k` flags of a 0/1 mask lies in `[0, k]` |
| `CompactionSpec.PrefixCountMonotone` | labs/lab1_select/solutions/exercise1.cpp:91-92 | prefix sums of a 0/1 mask never decrease as the prefix grows |
| `CompactionSpec.ScanShape` | labs/lab1_select/solutions/exercise1.cpp:91-92 | the scan of a 0/1 mask has its length, starts at `mask[0]`, rises by exactly `mask[i]` at step `i`, is non-decreasing, and satisfies `0 <= index[i] <= i + 1` |
| `CompactionSpec.PrefixCountIsFilterLength` | labs/lab1_select/solutions/exercise1.cpp:91-92 | the sum of the first `k` mask flags equals the number of selected elements in `s[..k]` |
| `CompactionSpec.ScanCountsSelected` | labs/lab1_select/solutions/exercise1.cpp:91-92 | `index[i]` is the number of selected elements among `s[0..i]` inclusive |
| `CompactionSpec.OutputLengthIsCount` | labs/lab1_select/solutions/exercise1.cpp:94-95 | the output size (last scan entry, or 0 for empty input) is the number of selected elements, and it is at most `|s|` |
| `CompactionSpec.ScatterTarget` | labs/lab1_select/solutions/exercise1.cpp:103 | for a selected `i`, the target `index[i] - 1` lies in `[0, numElem)` and the filter holds `s[i]` at that position |
| `CompactionSpec.TargetsDistinct` | labs/lab1_select/solutions/exercise1.cpp:99-104 | selected positions `i < j` get targets `index[i] - 1 < index[j] - 1`, so no two writes collide |
| `CompactionSpec.PrefixCountRank` | labs/lab1_select/solutions/exercise1.cpp:91-95 | every count `r` below a 0/1 mask's prefix total is reached at some position holding a 1 whose inclusive prefix sum is `r + 1` |
| `CompactionSpec.TargetsCover` | labs/lab1_select/solutions/exercise1.cpp:94-104 | every output position `k < numElem` is the target of some selected element, so no output slot is left unwritten |
| `CompactionSpec.ScatterInOrder` | labs/lab1_select/solutions/exercise1.cpp:99-104 | the scatter's writes `w[index[i] - 1] := s[i]`, taken in an arbitrary order, keep the output's length |
| `CompactionSpec.ScatterWrites` | labs/lab1_select/solutions/exercise1.cpp:99-104 | after writes in any order, each output slot holds its filtered element if some step wrote it and its initial value otherwise |
| `CompactionSpec.ScatterAnyOrder` | labs/lab1_select/solutions/exercise1.cpp:99-104 | any write order that visits every selected position leaves the output equal to `Filter(s, p)`: the result does not depend on iteration order |
| `CompactionSpec.FilterConcat` | labs/lab1_select/solutions/exercise1.cpp:99-104 | compacting a concatenation gives the two parts' compactions concatenated |
| `CompactionSpec.FilterSatisfies` | labs/lab1_select/solutions/exercise1.cpp:62-64 | every element of the output satisfies the predicate, which is the harness's `all_of` check |
| `CompactionSpec.FilterLength` | labs/lab1_select/solutions/exercise1.cpp:94-95 | the output is at most as long as the input, and exactly as long if and only if every element satisfies the predicate |
| `CompactionSpec.FilterKeepsAll` | labs/lab1_select/solutions/exercise1.cpp:94-103 | a predicate that holds on every element returns a copy equal to the input |
| `CompactionSpec.FilterDropsAll` | labs/lab1_select/solutions/exercise1.cpp:94-95 | the output is empty if and only if no element satisfies the predicate; this covers an empty input and an always-false predicate |
| `CompactionSpec.FilterIdempotent` | labs/lab1_select/solutions/exercise1.cpp:84-118 | selecting again with the same predicate changes nothing |
| `CompactionSpec.PositionsEmbedFilter` | labs/lab1_select/solutions/exercise1.cpp:99-104 | the input positions of the selected elements increase strictly and map each output position to an equal input element |
| `CompactionSpec.FilterIsSubsequence` | labs/lab1_select/solutions/exercise1.cpp:84-118 | order preservation: some strictly increasing map from output positions to input positions matches values |
| `Select.InclusiveScanAsWritten` | labs/lab1_select/solutions/exercise1.cpp:91-92 | the scan as called, without an initial value: the running sum is a `char` taken from the mask, each `plus<size_t>` result is stored back into it, and each entry is that `char` converted to `size_t`; the result equals `CharScan(mask)` |
| `CompactionSpec.CharAccumulateWraps` | labs/lab1_select/solutions/exercise1.cpp:92 | over a 0/1 mask, the `char` accumulator after `k` entries is the true count reduced into the signed `char` range, i.e. modulo 256 |
| `CompactionSpec.CharScanAgreesBelowCharMax` | labs/lab1_select/solutions/exercise1.cpp:92 | wherever at most 127 elements have been selected so far, the `char` scan entry equals the true count |
| `CompactionSpec.CharScanLosesCount` | labs/lab1_select/solutions/exercise1.cpp:92-103 | for 256 multiples of 3, the `char` scan sizes the output 0 although all 256 are selected, and the first write target falls outside the output |
| `CompactionSpec.ExampleMultiplesOfThree` | labs/lab1_select/solutions/exercise1.cpp:62 | with `x % 3 == 0`, `[3, 6, 1, 9, 2, 12]` compacts to `[3, 6, 9, 12]` |
| `CompactionSpec.ExampleNoMultipleOfThree` | labs/lab1_select/solutions/exercise1.cpp:62 | with `x % 3 == 0`, `[5, 7, 11]` compacts to `[]` |

## Left out

- `main` (lines 46-75) is left out. It parses the command line with `std::stoll` and prints to the console, which is I/O.
- `initialize` (lines 77-82) is left out. It fills the input from a seeded `std::mt19937`, which is a library generator. The model takes any input array instead.
- The preprocessor choice between the `iota`-view loop and the pointer-offset loop (lines 30-37, 97-115) is not modelled. The model uses the index form (line 103). The `&x - v` offset of the other branch is pointer arithmetic that yields the same index.
- Parallel execution of the transform, scan and scatter is not modelled. The model runs each step sequentially. `TargetsDistinct` and `ScatterAnyOrder` state the facts that make a parallel scatter race-free and order-independent.
- The mask scan's `char` accumulator is covered under "## Findings". `Select` uses the corrected scan.
- Other machine widths are not modelled: the `size_t` sums of the corrected scan and the `(int)v.size()` cast. The model uses unbounded integers. A `size_t` sum of 0/1 flags cannot exceed the vector's length, so the corrected scan does not wrap.
- A predicate that throws is not modelled. The predicate is a total, pure function, so the "predicate fault propagates" path does not arise.
- Element types other than `int` are not modelled; the source is fixed to `std::vector<int>`.

## Findings

| source | as written | input that shows it | evidently intended | confidence | as-written member | corrected member |
|---|---|---|---|---|---|---|
| labs/lab1_select/solutions/exercise1.cpp:92 | `std::inclusive_scan(v_sel.begin(), v_sel.end(), index.begin(), std::plus<size_t>{})` has no initial value. The standard library then keeps the running sum in the input's value type, `char`. Each sum is narrowed back into it, so the count wraps once more than 127 elements are selected (signed `char`, as on x86-64). | 256 elements, all multiples of 3: the last scan entry is 0, so `numElem` is 0 (line 94) and line 103 writes `w[0]` into an empty vector. With 128 to 255 selected elements, the entries from the 128th on become huge `size_t` values. | a `size_t` running sum, e.g. passing `size_t{0}` as the initial value, so that `index[i]` is the true count of selected elements in `v[0..i]` | not executed; medium, since it relies on the libstdc++ and libc++ implementation of the overload without an initial value | `Select.InclusiveScanAsWritten`, `CompactionSpec.CharScanLosesCount` | `Select.InclusiveScan`, `CompactionSpec.ScatterTarget` |

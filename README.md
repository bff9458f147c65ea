# Three-pivot quicksort, modelled in Dafny

This project models `src/Quicksort.java`, an in-place three-pivot quicksort on an `int` array after Kushagra et al., "Multi-Pivot Quicksort: Theory and Experiments". It proves that the sort keeps what it promises. All index ranges are closed: `[lo, hi]` means the slots `lo`, `lo + 1`, ..., `hi`.

- **`SortSpec.dfy`** (module `SortSpec`) says what sorting a range in place means, over `seq<int>`:
  - `Sorted`: the range is non-decreasing.
  - `PermutedWithin`: the values of the range are rearranged, and every slot outside the range is unchanged.
  - `BelowBounded`: every slot below the range holds a value at most every value in it.
  - Its lemmas cover transitivity and widening of rearrangements, bounds surviving a rearrangement, and gluing sorted pieces. They also prove that a sorted rearrangement of a range is unique.
- **`Quicksort.dfy`** (module `Quicksort`) models the code as methods on `array<int>`. The sorts and the partition steps have `modifies A` and contracts stated with the `SortSpec` predicates. `Swap` and `SortThree` are specified slot by slot, through the ghost function `Swapped` and the multiset of the three slots. `IsSorted` only reads the array.
  - Methods:
    - `Swap`
    - `InsertionSort` (threshold `InsertionSortThreshold = 47`)
    - `Quicksort3PivotBasic`
    - `IsSorted`
  - Every `Swap` is specified by the ghost function `Swapped` on `A[..]`. The partition steps are proved against the ghost predicates `Classified` (the loop invariant) and `Partitioned` (the result).
  - The body of `quicksort3PivotBasic` is split into methods that run the same statements in the same order:
    - `SelectPivots`: lines 38-50, with `SortThree` for lines 39-44.
    - `Partition`: lines 52-99, with `ScanLeft`, `ScanRight`, `Exchange` and `PlacePivots` for the parts of the loop body and the pivot placement.
    - `SortParts`: lines 101-104.
  - `InsertOne` is one pass of the outer loop of `insertionsort` (lines 17-23).
  - The two branches of the exchange at lines 75-92 are `ExchangeAboveR` and `ExchangeInQR`.

Two things in the code shape the contracts.

- **Insertion sort can reach below `lo`.**
  - The shift loop of `insertionsort` is guarded by `j > 0`, not `j > lo` (line 19). It is therefore guaranteed to sort `[lo, hi]`, leaving the slots below `lo` alone, when no slot below `lo` holds a value greater than a value of the range.
  - Both `InsertionSort` and `Quicksort3PivotBasic` therefore require `BelowBounded(A[..], lo, hi)`. For a whole-array call (`lo == 0`) it holds vacuously. The recursion re-establishes it for every part, through `AfterFirstCall`, `AfterSecondCall` and `AfterThirdCall`.
  - The condition is sufficient, not necessary. Without it the code may misbehave. Worked by hand for `A = [5, 2, 1]`, `lo = 1`, `hi = 2`: the value 1 is shifted down to slot 0, giving `[1, 5, 2]`. It may also still succeed: for `A = [9, 1, 3, 2]`, `lo = 2`, `hi = 3`, the shift stops at `A[1] = 1` and leaves `[9, 1, 2, 3]`.
- **The recursive ranges are exactly the code's.** They are `[lo, a - 1]`, `[a + 1, b]`, `[c, d - 1]` and `[d + 1, hi]`.
  - After the pivots are placed, `c` is `b` or `b + 1` (`Partitioned`). When `c == b`, the second and third ranges share slot `b`, which holds `q`. This is harmless: `q` is at least every value of the second range and at most every value of the third.
  - The pseudo-code in the Kushagra et al. paper recurses on `[a + 1, b - 1]` and `[b + 1, d - 1]`. The model follows the code.
  - Each part is strictly shorter than `[lo, hi]`, because `lo <= a < b < d <= hi`. The verified `decreases` clauses show this.

The partition loop keeps this invariant (`CursorBounds` and `Classified`):
- `[lo + 2, a)` holds values below `p`;
- `[a, b)` holds values in `[p, q]`;
- `(c, d]` holds values in `[q, r]`;
- `(d, hi - 1]` holds values above `r`;
- the pivots stay at `lo`, `lo + 1` and `hi`.

The `[a, b)` segment may hold `q` itself, because the left scan stops only at values of at least `q` and the exchange moves values of at most `q` there.

## Model

| member | source | states |
|---|---|---|
| Quicksort.Swapped | src/Quicksort.java:107-111 | the exchanged sequence has the same length, holds s[j] at i and s[i] at j, and equals s at every other index |
| Quicksort.SwappedPermutes | src/Quicksort.java:107-111 | an exchange inside [lo, hi] keeps a rearrangement of [lo, hi] a rearrangement (same multiset, nothing outside changed) |
| Quicksort.Swap | src/Quicksort.java:107-111 | the new array is the old one with A[i] and A[j] exchanged and nothing else changed |
| Quicksort.InsertionSort | src/Quicksort.java:15-25 | given that no slot below lo exceeds a value of the range, A[lo..hi] ends non-decreasing, its values are rearranged and every slot outside [lo, hi] (including those below lo) is unchanged; on a range of at most one slot the array is unchanged |
| Quicksort.InsertOne | src/Quicksort.java:17-23 | one outer pass extends the sorted prefix [lo, i - 1] to [lo, i], keeps the bound below lo, and only rearranges [lo, i]: slots below lo and after i are unchanged and [lo, i] holds the values it held before |
| Quicksort.InsertionStep | src/Quicksort.java:19-23 | shifting the values above A[i] up one slot and writing A[i] where the shift stopped yields a sorted [lo, i] holding the values [lo, i] held before, keeps the bound below lo, and changes no slot outside [lo, i] |
| Quicksort.InsertionStepPermutes | src/Quicksort.java:19-23 | moving s0[i] down to slot j while shifting s0[j..i - 1] up keeps the multiset of values |
| Quicksort.Midpoint | src/Quicksort.java:38 | (lo + hi) >>> 1 for non-negative bounds lies in [lo, hi], splits it into halves differing by at most one, and lies strictly between lo + 1 and hi when hi - lo >= 47 |
| Quicksort.SortThree | src/Quicksort.java:39-44 | the three conditional swaps leave A[lo] <= A[mid] <= A[hi], holding the same three values as before, with every other slot unchanged |
| Quicksort.SwappedKeepsThree | src/Quicksort.java:39-44 | each of the swaps used there keeps the multiset of the three slots lo, mid, hi |
| Quicksort.SelectPivots | src/Quicksort.java:38-50 | p <= q <= r are the three values of A[lo], A[mid], A[hi]; afterwards p is at lo, q at lo + 1, r at hi, the old A[lo + 1] is at the midpoint, and nothing else changed |
| Quicksort.Partition | src/Quicksort.java:52-99 | the loop and the pivot placement leave p at a, q at b, r at d, values below p before a, values in [p, q] in (a, b), in [q, r] in (b, d), above r after d, with c equal to b or b + 1, all by rearranging [lo, hi] |
| Quicksort.ScanLeft | src/Quicksort.java:60-66 | the left scan keeps the cursor bounds and the classification, rearranges only [lo, hi], and stops with b past c or A[b] >= q |
| Quicksort.ScanLeftStep | src/Quicksort.java:61-65 | one step of the left scan (with or without the exchange into a) keeps the classification one slot further on |
| Quicksort.ScanRight | src/Quicksort.java:67-73 | the right scan keeps the cursor bounds and the classification, rearranges only [lo, hi], and stops with c before b or A[c] <= q |
| Quicksort.ScanRightStep | src/Quicksort.java:68-72 | one step of the right scan (with or without the exchange into d) keeps the classification one slot further on |
| Quicksort.Exchange | src/Quicksort.java:74-93 | when both scans stop with b <= c, the exchange keeps the classification, moves b right and c left by exactly one, d left by one exactly when the old A[b] > r, and a right by one exactly when the old A[c] < p, and rearranges only [lo, hi] |
| Quicksort.ExchangeAboveR | src/Quicksort.java:75-83 | the branch for A[b] > r keeps the classification with b, c and d each moved inward by exactly one, and a moved right by one exactly when the old A[c] < p |
| Quicksort.ExchangeInQR | src/Quicksort.java:84-91 | the branch for A[b] <= r keeps the classification with b and c each moved inward by exactly one, d unchanged, and a moved right by one exactly when the old A[c] < p |
| Quicksort.AboveRBelowPExchanged | src/Quicksort.java:76-83 | the three swaps for A[b] > r and A[c] < p classify both values and move a, b, c, d by one |
| Quicksort.AboveRExchanged | src/Quicksort.java:79-82 | the two swaps for A[b] > r and A[c] >= p classify both values and move b, c, d by one |
| Quicksort.BelowPExchanged | src/Quicksort.java:85-87 | the two swaps for A[b] <= r and A[c] < p classify both values and move a, b, c by one |
| Quicksort.InPExchanged | src/Quicksort.java:88-90 | the swap for A[b] <= r and A[c] >= p classifies both values and moves b and c by one |
| Quicksort.PlacePivots | src/Quicksort.java:96-99 | the cursor adjustments and four swaps turn the loop's final classification into the partition with p at a, q at b and r at d, by rearranging [lo, hi] |
| Quicksort.QPlaced | src/Quicksort.java:96-97 | after the cursors step back, the first two swaps move q from lo + 1 to b, the end of the [p, q] part, leaving values below p in (lo, a), values in [p, q] in [a, b), and the other segments as they were |
| Quicksort.PRPlaced | src/Quicksort.java:98-99 | the last two swaps put p at a and r at d, completing the partition |
| Quicksort.Quicksort3PivotBasic | src/Quicksort.java:30-105 | given that no slot below lo exceeds a value of the range, A[lo..hi] ends non-decreasing and is a rearrangement of its old values, with every slot outside [lo, hi] unchanged |
| Quicksort.SortParts | src/Quicksort.java:101-104 | the four recursive calls on the code's exact ranges sort the whole partitioned range and only rearrange it |
| Quicksort.BelowBoundedSub | src/Quicksort.java:101 | the bound below lo carries over to the first recursive range |
| Quicksort.AfterFirstCall | src/Quicksort.java:101-102 | after the first call the part below p still holds values at most p, and the second call's range is bounded from below |
| Quicksort.AfterSecondCall | src/Quicksort.java:102-103 | after the second call its part lies in [p, q] with q at its end, and the third call's range is bounded from below |
| Quicksort.BelowThirdRange | src/Quicksort.java:102-103 | every slot before c is at most every value of [c, d - 1], even when c == b shares q's slot |
| Quicksort.AfterThirdCall | src/Quicksort.java:103-104 | after the third call its part lies in [q, r], and the fourth call's range is bounded from below |
| Quicksort.AfterLastCall | src/Quicksort.java:101-104 | once all four parts are sorted, the whole range [lo, hi] is sorted |
| Quicksort.UpperPartsSorted | src/Quicksort.java:103-104 | the third part, r at d and the fourth part together form a sorted run of values at least q |
| Quicksort.CallsPermute | src/Quicksort.java:101-104 | four rearrangements of sub-ranges of [lo, hi] compose to a rearrangement of [lo, hi] |
| Quicksort.IsSorted | src/Quicksort.java:113-120 | returns true exactly when A[i - 1] <= A[i] for every i in (lo, hi], which for an in-bounds range is exactly Sorted(A[..], lo, hi) |
| SortSpec.SortedIffAdjacent | src/Quicksort.java:113-120 | a range is sorted (every pair in order) if and only if every adjacent pair is in order, so the adjacent check of isSorted decides sortedness |
| SortSpec.PermutedTransitive | src/Quicksort.java:30-104 | a rearrangement of a rearrangement of [lo, hi] is a rearrangement of [lo, hi] |
| SortSpec.PermutedWiden | src/Quicksort.java:101-104 | a rearrangement of a sub-range is a rearrangement of any range containing it |
| SortSpec.RangeMultiset | src/Quicksort.java:101-104 | a rearrangement of [lo, hi] keeps the multiset of that range's slice |
| SortSpec.PermutedWithinValues | src/Quicksort.java:101-104 | every value of a rearranged range is a value the range held before |
| SortSpec.PermutedKeepsBounds | src/Quicksort.java:101-104 | an upper or lower bound on all values of a range survives rearranging it |
| SortSpec.PermutedKeepsBelowBounded | src/Quicksort.java:30-36 | rearranging [lo, hi] keeps the slots below lo bounded by every value of the range |
| SortSpec.SortedLastIsMax | src/Quicksort.java:102 | after sorting, the last slot of a range holds the largest of the values it held before |
| SortSpec.SortedSeqUnique | src/Quicksort.java:30-36 | two sorted sequences with the same multiset are equal |
| SortSpec.SortedPermutationUnique | src/Quicksort.java:30-36 | a sorted rearrangement of [lo, hi] is unique: sorting an already sorted range changes nothing, sorting twice equals sorting once, and any two correct sorts agree |
| SortSpec.ShortRangeUnchanged | src/Quicksort.java:31-32 | a range of at most one slot has no rearrangement other than leaving the array as it is |
| SortSpec.SortedGlue | src/Quicksort.java:101-104 | two sorted runs separated by a value x (left at most x, right at least x) make one sorted run |

## Left out

- `main` (src/Quicksort.java:122-136) is not modelled. It is a benchmark: seeded random input, wall-clock timing, console output and a call to `Arrays.sort`.
- Only the median-of-three pivot choice (called "naive" at src/Quicksort.java:28) is in the code; no other pivot-selection variant is modelled.
- Quicksort.Midpoint: does not model 32-bit overflow. It models `(lo + hi) >>> 1` as `(lo + hi) / 2`, which agrees on all non-negative `int` bounds. Array values are unbounded `int`s; the code only compares and moves them, so no arithmetic on them can overflow.
- Quicksort.Quicksort3PivotBasic: requires `0 <= lo <= hi + 1 <= A.Length`. The code also accepts `hi < lo - 1` and then does nothing; such calls never arise from its own recursion.
- Quicksort.Quicksort3PivotBasic, Quicksort.InsertionSort and Quicksort.IsSorted: out-of-range bounds are not modelled. Their preconditions keep `lo` and `hi` inside the array, so the model does not capture what the code does with other bounds:
  - `insertionsort` with `lo == -1` sorts `[0, hi]`;
  - with `hi == A.length` it throws `ArrayIndexOutOfBoundsException` after sorting part of the range;
  - `quicksort3PivotBasic` may throw after the first conditional swap has already changed the array;
  - `isSorted` returns false on an early descent before it reaches an out-of-range `hi`.
  No call in the code passes such bounds.
- Quicksort.Quicksort3PivotBasic: does not itself state that a range of at most one slot is left unchanged. That follows from its `PermutedWithin` postcondition by `SortSpec.ShortRangeUnchanged`, and `Quicksort.InsertionSort` states it directly.
- Quicksort.InsertionSort and Quicksort.Quicksort3PivotBasic: calls with `lo > 0` that break `BelowBounded` are not modelled. The code still sorts some of them (`[9, 1, 3, 2]`, `lo = 2`, `hi = 3`) and writes below `lo` on others (`[5, 2, 1]`, `lo = 1`, `hi = 2`). Every call the code makes (its recursion from a whole-array call) meets the condition.
- Recursion depth, stack use, comparison counts and running time are not modelled.
- The body of `quicksort3PivotBasic` and the exchange step are split into several methods, and one pass of `insertionsort` is its own method. Each runs the code's statements in the code's order. Only the split into methods differs from the source.

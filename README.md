# Knapsack solvers and Fibonacci functions of `rust_practice_lab`

This project models the library crate of `rust_practice_lab` (`src/lib.rs`). The crate holds three
strategies for the 0/1 knapsack problem, written as four functions, and two Fibonacci functions.

- **`knapsack::Item`** is a weight and a value. It is modelled as `KnapsackItems.Item`, with
  weight and value sums (`Weight`, `Value`) and the relations between a list of items and a
  selection drawn from it.
- **`get_knapsack_items`** is an exhaustive search. It first computes a size bound `k`: the
  items are sorted by weight, and a `take_while` keeps them while the running weight sum is
  `< weight_limit`. Then every combination of every size `1..=k` is visited in library order.
  A combination replaces the current best only when its value is strictly greater and its
  weight is `<=` the limit. The model has the same two phases:
  - `MaxPossibleCombinations` computes the size bound;
  - `SearchSizes` runs the nested loops;
  - the specification functions are `SizeBound`, `Combinations`, `Scan` and `Search`.
- **`get_knapsack_items_par_threads` / `get_knapsack_items_par_iter`** run the same search.
  Each size goes to its own thread or rayon task, and the compare-and-replace happens under a
  mutex. The model keeps their sequential meaning. `GetKnapsackItemsParallel` processes the
  sizes in an arbitrary order `schedule`, and the model proves that it always reaches the same
  value as the sequential search. `ScanValueOrderIndependent` states this for any order of any
  set of combinations, so it also covers interleavings finer than whole sizes.
- **`get_suboptimal_knapsack_items_val_weight_ratio`** is the greedy heuristic. It stable-sorts
  the items by value/weight ratio, greatest first. A `take_while` then keeps items while they
  fit, so the heuristic stops at the first item that does not fit: it does not skip that item
  and carry on. The model is `GetSuboptimalKnapsackItemsValWeightRatio`, specified by
  `GreedySelection` over the stable ratio sort `SortByRatio`.
- **`fibonacci_recursive` / `fibonacci_iterative`** are modelled as `Fibonacci.FibRecursive`,
  a function, and `Fibonacci.FibIterative`, a method with its `while` loop.

The library's sorts (`itertools::sorted_by`) and combinations (`itertools::combinations`) are
library calls. They are modelled by their documented behaviour:
- a stable sort, written as an insertion sort;
- the length-`i` subsequences in lexicographic order of positions.

Design decisions:
- **Ratios.** The heuristic compares `f64` ratios. The model compares `a.value * b.weight`
  with `b.value * a.weight` exactly, for positive weights. Under `ItemsFitI32`, fields are at
  most 100, so two different ratios differ by at least 1/10000. Since `f64` division is
  correctly rounded, the `f64` comparison then orders the items exactly as the exact one does.
- **The heuristic follows the code.** The heuristic is sometimes described as skipping an
  item that does not fit and going on. The code's `take_while` stops instead, and the model
  follows the code (`GreedyStopsAtFirstOverflow`, `KnapsackExamples.GreedyStopsEarly`).
  It is also natural to expect the exhaustive result never to be below the heuristic. That
  is false for the code as written: `KnapsackExamples.GreedyBeatsStrictSearch` gives four
  items on which the heuristic reaches 7 and the search 6. It does hold for the search with
  the corrected bound (`InclusiveSearchDominatesGreedy`).
- **The two Fibonacci functions disagree for `n <= 0`.** The recursive function returns `n`,
  while the iterative one skips its loop and returns 1. `FibRecursive`'s definition and
  `FibIterative`'s `ensures n < 1 ==> r == 1` state this.

## Model

| member | source | states |
|---|---|---|
| KnapsackItems.Item | rust_practice_lab/src/lib.rs:66-69 | definition: an item is a weight and a value (the `i32` fields are integers, bounded by `ItemsFitI32`); its sums are `Weight` and `Value` |
| KnapsackItems.Weight | rust_practice_lab/src/lib.rs:100 | definition: the sum of the weights of a combination; its properties are in `TotalsAppend`, `TotalsOfPermutation` and `SelectionTotalsFitI32` |
| KnapsackItems.Value | rust_practice_lab/src/lib.rs:99 | definition: the sum of the values of a combination; its properties are in `TotalsAppend`, `TotalsOfPermutation` and `SelectionTotalsFitI32` |
| KnapsackItems.TakeWhileCount | rust_practice_lab/src/lib.rs:87-91 | the number of leading items kept is at most the length; every kept prefix's running sum passes the test (`<`, or `<=` for the corrected bound); if an item was refused, the prefix ending with it fails the test |
| KnapsackItems.TakeWhileCountUnique | rust_practice_lab/src/lib.rs:87-91 | those two conditions determine the count: any `k` meeting them is the count |
| KnapsackItems.TotalsOfPermutation | rust_practice_lab/src/lib.rs:99-100 | the weight and value sums of a combination do not depend on the order of its items |
| KnapsackItems.TotalsAppend | rust_practice_lab/src/lib.rs:99-100 | the sums over a concatenation are the sums of the parts |
| KnapsackItems.SubsequenceIsSubMultiset | rust_practice_lab/src/lib.rs:98 | a combination (a subsequence) takes each item at most as often as it occurs in the list |
| KnapsackItems.SubsequenceOf | rust_practice_lab/src/lib.rs:98 | every selection of items (sub-multiset) is a reordering of some subsequence, i.e. of a combination the search visits |
| KnapsackItems.SelectionTotalsFitI32 | rust_practice_lab/src/lib.rs:66-69 | with at most `I32_MAX / 100` items, each field in `0..=100` and an i32 limit, no selection's weight or value sum leaves i32 |
| KnapsackSort.SortByWeight | rust_practice_lab/src/lib.rs:86 | the weight sort returns the same items (multiset) in ascending weight order |
| KnapsackSort.SortByWeightOfSorted | rust_practice_lab/src/lib.rs:86 | input already in weight order comes out unchanged |
| KnapsackSort.InsertByWeight | rust_practice_lab/src/lib.rs:86 | inserting into a weight-ordered list keeps it ordered and adds exactly the new item |
| KnapsackSort.SortByRatio | rust_practice_lab/src/lib.rs:203-211 | with positive weights, the ratio sort returns the same items with no later item of greater ratio than an earlier one |
| KnapsackSort.InsertByRatio | rust_practice_lab/src/lib.rs:209-211 | inserting into a ratio-ordered list keeps it ordered and adds exactly the new item |
| KnapsackSort.SortByRatioOfSorted | rust_practice_lab/src/lib.rs:209-211 | input already in ratio order comes out unchanged |
| KnapsackSort.SortByRatioStable | rust_practice_lab/src/lib.rs:209-211 | stability: the items of any one ratio keep their input order |
| KnapsackSort.RatioAtLeastTransitive | rust_practice_lab/src/lib.rs:210 | the "ratio at least" comparison by cross multiplication is transitive for positive weights, so it is a valid sort order |
| KnapsackSearch.Combinations | rust_practice_lab/src/lib.rs:98 | some combination of size `i` exists exactly when `i` is at most the number of items; its contents are in `CombinationsMember`, `CombinationsOfOne` and `KnapsackExamples.PairsOfThree` |
| KnapsackSearch.CombinationsMember | rust_practice_lab/src/lib.rs:98 | a list is among the combinations of size `i` exactly when it is a subsequence of the items of length `i` |
| KnapsackSearch.CombinationsOfOne | rust_practice_lab/src/lib.rs:98 | the combinations of size one are the single items in list order |
| KnapsackSearch.SizeBound | rust_practice_lab/src/lib.rs:84-91 | the size bound is at most the number of items; as a take-while count over the weight-sorted items, its meaning is in `TakeWhileCount` and `MaxPossibleCombinations` |
| KnapsackSearch.MaxPossibleCombinations | rust_practice_lab/src/lib.rs:83-91 | the loop computes the size bound: the number of lightest-first items whose running sum stays `< limit`, with the refusing item's prefix failing the test |
| KnapsackSearch.InclusiveBoundCoversFeasible | rust_practice_lab/src/lib.rs:83-91 | with the test written `<=` and non-negative weights, every selection that fits has at most "bound" items |
| KnapsackSearch.LightestPrefixLowerBound | rust_practice_lab/src/lib.rs:86-90 | any `m` items drawn from a weight-sorted list weigh at least its first `m` items |
| KnapsackSearch.Consider | rust_practice_lab/src/lib.rs:101-104 | one compare-and-replace step never lowers the best value; after it the best is worth at least the combination if that fits; the state is kept, or replaced by the fitting combination with its value recorded |
| KnapsackSearch.Scan | rust_practice_lab/src/lib.rs:95-106 | definition: the compare-and-replace steps over a sequence of combinations, in order; its properties are in `ScanBest` and `ScanValueOrderIndependent` |
| KnapsackSearch.ScanBest | rust_practice_lab/src/lib.rs:95-105 | the compare-and-replace fold ends at a value at least the start and at least every fitting combination's value; its result is the start or the first fitting combination that reaches that value |
| KnapsackSearch.ScanValueOrderIndependent | rust_practice_lab/src/lib.rs:137-149 | the value reached depends only on the set of combinations seen, not on their order or interleaving |
| KnapsackSearch.Sizes | rust_practice_lab/src/lib.rs:97 | the sizes visited are `1, 2, ..., k`, in that order |
| KnapsackSearch.Enumeration | rust_practice_lab/src/lib.rs:97-98 | definition: the combinations of each size in turn, concatenated; its contents are in `EnumerationMember` |
| KnapsackSearch.Search | rust_practice_lab/src/lib.rs:95-106 | definition: the scan, from value 0 and the empty list, over the enumeration of the given sizes; its properties are in `SearchResult` and `SearchKeepsFirstFound` |
| KnapsackSearch.EnumerationMember | rust_practice_lab/src/lib.rs:97-98 | the combinations visited over a list of sizes are exactly the subsequences whose length is one of those sizes |
| KnapsackSearch.SearchResult | rust_practice_lab/src/lib.rs:95-107 | the search returns the empty list or a fitting subsequence of positive value whose size is among those visited, with its value recorded; no fitting subsequence of a visited size is worth more |
| KnapsackSearch.SearchKeepsFirstFound | rust_practice_lab/src/lib.rs:101 | ties: the result is the first fitting combination, in visiting order, that reaches the best value (the replacement needs a strictly greater value) |
| KnapsackSearch.SearchValueOrderIndependent | rust_practice_lab/src/lib.rs:180-196 | the value reached does not depend on the order in which the sizes are processed |
| KnapsackSearch.SearchSizes | rust_practice_lab/src/lib.rs:95-106 | the nested loops leave exactly the best that the fold over every combination of every size, in order, defines |
| KnapsackSearch.GetKnapsackItems | rust_practice_lab/src/lib.rs:82-108 | the result is empty or fits and has positive value; it is a subsequence of the items with at most "bound" items; no subsequence of size `1..=bound` that fits is worth more |
| KnapsackSearch.BoundedSearchResult | rust_practice_lab/src/lib.rs:82-108 | the same properties, stated for the search under either test |
| KnapsackSearch.GetKnapsackItemsParallel | rust_practice_lab/src/lib.rs:110-199 | for any processing order of the sizes `1..=bound`, the result fits (or is empty), is a subsequence, and has exactly the value of the sequential search |
| KnapsackSearch.GetKnapsackItemsInclusiveBound | rust_practice_lab/src/lib.rs:82-108 | with the bound's test written `<=`, the result is worth at least any selection of the items that fits |
| KnapsackSearch.InclusiveBoundIsOptimal | rust_practice_lab/src/lib.rs:82-108 | with non-negative weights, the search under the `<=` bound reaches the best value over all fitting selections |
| KnapsackGreedy.GreedySelection | rust_practice_lab/src/lib.rs:203-222 | definition: the leading items of the ratio-sorted list that the `<=` take-while keeps; its properties are in `GreedyStopsAtFirstOverflow` and `GreedyIsSelection` |
| KnapsackGreedy.GetSuboptimalKnapsackItemsValWeightRatio | rust_practice_lab/src/lib.rs:201-223 | the loop returns the leading items of the ratio order that fit; if any item is left, adding the next one would exceed the limit |
| KnapsackGreedy.GreedyStopsAtFirstOverflow | rust_practice_lab/src/lib.rs:212-220 | the heuristic's result is a prefix of the ratio order that fits, and it ends exactly where the next item would overflow |
| KnapsackGreedy.GreedyOfSorted | rust_practice_lab/src/lib.rs:201-223 | on input already in ratio order, the heuristic keeps exactly the leading items the take-while admits |
| KnapsackGreedy.GreedyIsSelection | rust_practice_lab/src/lib.rs:221-222 | the heuristic returns items drawn from the input (a sub-multiset) |
| KnapsackGreedy.InclusiveSearchDominatesGreedy | rust_practice_lab/src/lib.rs:201-223 | the exhaustive search with the `<=` bound is never worth less than the heuristic |
| KnapsackExamples.LimitAtMostLightestGivesEmpty | rust_practice_lab/src/lib.rs:83-107 | a limit no greater than every weight (e.g. a zero limit, or no items) gives bound 0 and an empty result |
| KnapsackExamples.PairsOfThree | rust_practice_lab/src/lib.rs:98 | the combinations of size two of three items are the pairs in lexicographic order of positions: (0,1), (0,2), (1,2) |
| KnapsackExamples.ExactFitIsMissed | rust_practice_lab/src/lib.rs:89 | one item of weight 5 under limit 5: the strict bound is 0 and the search returns nothing; the `<=` bound is 1 and returns the item |
| KnapsackExamples.FourItemsSearch | rust_practice_lab/src/lib.rs:89 | items (2,3), (3,4), (4,5), (5,6) under limit 5: the strict bound is 1, the search returns (5,6), yet (2,3)+(3,4) fits with value 7 |
| KnapsackExamples.GreedyBeatsStrictSearch | rust_practice_lab/src/lib.rs:201-223 | on those four items the heuristic's value is 7 and the as-written search's is 6 |
| KnapsackExamples.GreedyStopsEarly | rust_practice_lab/src/lib.rs:212-220 | items (1,10), (5,10), (1,1) under limit 3: the heuristic returns only (1,10), although (1,1) would still fit |
| Fibonacci.FibRecursive | rust_practice_lab/src/lib.rs:36-41 | the result is non-negative for `n >= 0` and at least 1 for `n >= 1` |
| Fibonacci.FibMonotone | rust_practice_lab/src/lib.rs:36-41 | from index 0 on, the sequence never decreases |
| Fibonacci.FibFitsI64 | rust_practice_lab/src/lib.rs:36-41 | for every i64 argument up to 92, the recursive result (and so every intermediate sum) is an i64 |
| Fibonacci.FibOverflowsAt93 | rust_practice_lab/src/lib.rs:40 | Fibonacci number 93 exceeds `i64::MAX` and number 92 does not: 92 is the largest argument that does not overflow |
| Fibonacci.FibIterative | rust_practice_lab/src/lib.rs:43-57 | for `1 <= n <= 92` the loop returns the same number as the recursive function; for `n < 1` it returns 1; the result is an i64 |

## Left out

- Threads, `Arc`, `Mutex`, rayon and `join` are left out: they are concurrency mechanics, and the model keeps their sequential meaning as a free processing order of the sizes.
- KnapsackSearch.GetKnapsackItemsParallel: its result list (not its value) is stated only for the processing order given. Under a real interleaving of combinations, any maximal fitting combination may win a tie.
- `println!` output and timing (`Instant`) are I/O and are left out.
- `hello` and `counting_until` only print, so they are left out.
- `Item::new` (boxing) and `Item::randomize` (random fields in `1..=100`) are left out. Randomness becomes the requirement that fields lie in `0..=100` (`ItemsFitI32`).
- `test_parallel_knapsack_threads` and the `cxx` bridge are left out: the first is a timing demo, the second is foreign-function glue.
- The `src/bin` programs and `build.rs` are not part of this model.
- KnapsackSearch.GetKnapsackItems: does not model i32 wrap-around of the weight and value sums. It requires `ItemsFitI32`, under which no sum can overflow (`SelectionTotalsFitI32`); the loops of `MaxPossibleCombinations`, `SearchSizes` and `GetSuboptimalKnapsackItemsValWeightRatio` keep their running sums inside i32 as an invariant.
- KnapsackSearch.MaxPossibleCombinations: requires `ItemsFitI32`, for the same reason: the running weight sum of the weight-sorted items then stays inside i32.
- KnapsackSearch.SearchSizes: requires `ItemsFitI32`, so that every combination's value sum, and the best value kept, stays inside i32.
- KnapsackGreedy.GetSuboptimalKnapsackItemsValWeightRatio: requires positive weights. For a zero weight, the source's ratio is infinite or NaN, and a NaN compares as `Equal`; this is not modelled.
- KnapsackGreedy.GetSuboptimalKnapsackItemsValWeightRatio: models the `f64` ratio by exact rational comparison. The two agree for fields in `0..=100`, but the model does not prove this.
- Fibonacci.FibRecursive: is the unbounded recursion. For arguments above 92 the source's i64 addition overflows, which is not modelled; `FibOverflowsAt93` marks the boundary.
- Fibonacci.FibIterative: requires `n <= 92`, because beyond it the source's i64 addition overflows.
- The `&mut Vec<Item>` inputs are modelled as values. The functions never write to them, so this loses nothing except aliasing.

## Findings

| source | as written | input that shows it | evidently intended | confidence | as-written member | corrected member |
|---|---|---|---|---|---|---|
| rust_practice_lab/src/lib.rs:89 | the size bound's `take_while` tests `sum < weight_limit` (likewise at lines 119 and 171), so an item that brings the lightest-first sum exactly to the limit is not counted | one item of weight 5 and value 10, limit 5: the bound is 0 and the search returns nothing, although the item fits | `sum <= weight_limit`, so that the bound is the largest number of items that can fit together and the exhaustive search is optimal | not executed | KnapsackExamples.ExactFitIsMissed | KnapsackSearch.GetKnapsackItemsInclusiveBound |

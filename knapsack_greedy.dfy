/** The greedy heuristic `get_suboptimal_knapsack_items_val_weight_ratio`:
    sort by value/weight ratio, greatest first, and take items while they fit. */
module KnapsackGreedy {
  import opened KnapsackItems
  import opened KnapsackSort
  import opened KnapsackSearch

  /** The items the heuristic returns: the leading items of the ratio-sorted
      sequence that a `take_while` keeps while the running weight stays `<=` the limit. */
  function GreedySelection(items: seq<Item>, limit: int): seq<Item>
    requires PositiveWeights(items)
  {
    var sorted := SortByRatio(items);
    sorted[..TakeWhileCount(sorted, limit, 0, false)]
  }

  /** lib.rs:201-223, the iterator chain written as the loop it runs. */
  method GetSuboptimalKnapsackItemsValWeightRatio(items: seq<Item>, limit: int) returns (taken: seq<Item>)
    requires ItemsFitI32(items, limit)
    requires PositiveWeights(items)
    ensures taken == GreedySelection(items, limit)
    ensures taken == SortByRatio(items)[..|taken|]
    ensures taken == [] || Weight(taken) <= limit
    ensures |taken| == |items| || Weight(taken) + SortByRatio(items)[|taken|].weight > limit
  {
    var sorted := SortByRatio(items);
    ghost var count := TakeWhileCount(sorted, limit, 0, false);
    var sum := 0;
    taken := [];
    var i := 0;
    while i < |sorted|
      invariant i <= count
      invariant taken == sorted[..i]
      invariant sum == Weight(taken)
      invariant 0 <= sum <= I32_MAX
    {
      PrefixTotalsStep(sorted, i);
      assert sum + sorted[i].weight <= I32_MAX by {
        PrefixTotalsFitI32(items, limit, sorted, i + 1);
      }
      assert sum + sorted[i].weight == 0 + Weight(sorted[..i+1]);
      if sum + sorted[i].weight > limit {
        assert count <= i;
        break;
      }
      assert i + 1 <= count;
      sum := sum + sorted[i].weight;
      taken := taken + [sorted[i]];
      assert sorted[..i+1] == taken;
      i := i + 1;
    }
    assert i == count;
  }

  /** The greedy selection is a prefix of the ratio order that fits, and it
      stops at the first item that does not: no later item is taken, even one
      that would still fit. */
  lemma GreedyStopsAtFirstOverflow(items: seq<Item>, limit: int)
    requires PositiveWeights(items)
    ensures var sorted := SortByRatio(items);
      var g := GreedySelection(items, limit);
      && g == sorted[..|g|]
      && (g == [] || Weight(g) <= limit)
      && (|g| == |sorted| || Weight(g) + sorted[|g|].weight > limit)
  {
    var sorted := SortByRatio(items);
    var k := TakeWhileCount(sorted, limit, 0, false);
    var g := sorted[..k];
    assert GreedySelection(items, limit) == g;
    assert |g| == k;
    if k > 0 {
      assert Passes(Weight(sorted[..k]), limit, false);
    }
    if k < |sorted| {
      assert !Passes(Weight(sorted[..k+1]), limit, false);
      PrefixTotalsStep(sorted, k);
    }
  }

  /** On input already in ratio order, the heuristic keeps the leading items
      that the take-while admits. */
  lemma GreedyOfSorted(items: seq<Item>, limit: int)
    requires PositiveWeights(items) && SortedByRatio(items)
    ensures GreedySelection(items, limit) == items[..TakeWhileCount(items, limit, 0, false)]
  {
    SortByRatioOfSorted(items);
  }

  /** The greedy selection is drawn from the items: a sub-multiset of them. */
  lemma GreedyIsSelection(items: seq<Item>, limit: int)
    requires PositiveWeights(items)
    ensures multiset(GreedySelection(items, limit)) <= multiset(items)
  {
    var sorted := SortByRatio(items);
    PrefixIsSubMultiset(sorted, TakeWhileCount(sorted, limit, 0, false));
  }

  /** The exhaustive search with the `<=` size bound is never beaten by the
      heuristic. */
  lemma InclusiveSearchDominatesGreedy(items: seq<Item>, limit: int)
    requires PositiveWeights(items)
    ensures Value(GreedySelection(items, limit)) <= Search(items, Sizes(SizeBound(items, limit, false)), limit).value
  {
    var g := GreedySelection(items, limit);
    GreedyStopsAtFirstOverflow(items, limit);
    GreedyIsSelection(items, limit);
    BoundedSearchResult(items, limit, false);
    if g != [] {
      InclusiveBoundIsOptimal(items, limit, g);
    }
  }
}

/** Boundary cases and concrete inputs on which the two quirks of the solver
    show: the strict size bound, and the heuristic stopping at the first item
    that does not fit. */
module KnapsackExamples {
  import opened KnapsackItems
  import opened KnapsackSort
  import opened KnapsackSearch
  import opened KnapsackGreedy

  /** A limit no heavier than the lightest item (in particular a limit of 0 with
      positive weights, or no items at all) gives a size bound of 0 and an empty result. */
  lemma LimitAtMostLightestGivesEmpty(items: seq<Item>, limit: int)
    requires forall x :: x in items ==> x.weight >= limit
    ensures SizeBound(items, limit, true) == 0
    ensures Search(items, Sizes(SizeBound(items, limit, true)), limit).items == []
  {
    LightestAtLeastLimit(items, limit);
    assert Enumeration(items, Sizes(0)) == [] by {
      assert Sizes(0) == [];
    }
  }

  lemma LightestAtLeastLimit(items: seq<Item>, limit: int)
    requires forall x :: x in items ==> x.weight >= limit
    ensures SizeBound(items, limit, true) == 0
  {
    var sorted := SortByWeight(items);
    if sorted != [] {
      assert sorted[0] in items by {
        assert sorted[0] in multiset(sorted);
      }
    }
    TakeWhileStopsAtOnce(sorted, limit, 0, true);
  }

  /** The pairs of three items come in lexicographic order of positions, as
      `itertools::combinations` yields them. */
  lemma PairsOfThree(s: seq<Item>)
    requires |s| == 3
    ensures Combinations(s, 2) == [[s[0], s[1]], [s[0], s[2]], [s[1], s[2]]]
  {
    var bc := s[1..];
    assert Combinations(bc[1..], 1) == [[s[2]]] by {
      CombinationsOfOne(bc[1..]);
    }
    assert Combinations(bc[1..], 0) == [[]];
    assert Combinations(bc, 1) == [[s[1]], [s[2]]] by {
      CombinationsOfOne(bc);
    }
    assert Combinations(bc, 2) == [[s[1], s[2]]] by {
      assert Combinations(bc[1..], 2) == [];
      assert Prepend(s[1], [[s[2]]]) == [[s[1], s[2]]] by {
        assert [s[1]] + [s[2]] == [s[1], s[2]];
      }
    }
    assert Prepend(s[0], [[s[1]], [s[2]]]) == [[s[0], s[1]], [s[0], s[2]]] by {
      assert [s[0]] + [s[1]] == [s[0], s[1]];
      assert [s[0]] + [s[2]] == [s[0], s[2]];
    }
  }

  /** One item of weight 5 under a limit of 5: the strict bound is 0, so the
      search returns nothing although the item fits; the `<=` bound finds it. */
  lemma ExactFitIsMissed()
    ensures SizeBound([Item(5, 10)], 5, true) == 0
    ensures Search([Item(5, 10)], Sizes(0), 5).items == []
    ensures IsSubsequence([Item(5, 10)], [Item(5, 10)]) && Weight([Item(5, 10)]) == 5 && Value([Item(5, 10)]) == 10
    ensures SizeBound([Item(5, 10)], 5, false) == 1
    ensures Search([Item(5, 10)], Sizes(1), 5).items == [Item(5, 10)]
  {
    var items := [Item(5, 10)];
    assert SortByWeight(items) == items;
    assert items[..1] == items;
    TakeWhileCountUnique(items, 5, 0, true, 0);
    TakeWhileCountUnique(items, 5, 0, false, 1);
    assert Sizes(0) == [];
    assert Sizes(1) == [1];
    assert Combinations(items, 1) == [items];
    assert Enumeration(items, [1]) == [items];
    assert ([items])[..0] == [];
  }

  const FourItems: seq<Item> := [Item(2, 3), Item(3, 4), Item(4, 5), Item(5, 6)]

  lemma FourItemsInWeightOrder()
    ensures SortByWeight(FourItems) == FourItems
  {
    var s := FourItems;
    forall i, j | 0 <= i < j < |s| ensures s[i].weight <= s[j].weight {
      assert s[i].weight == i + 2;
      assert s[j].weight == j + 2;
    }
    SortByWeightOfSorted(s);
  }

  lemma FourItemsInRatioOrder(s: seq<Item>)
    requires s == FourItems
    ensures PositiveWeights(s) && SortedByRatio(s)
  {
    forall i, j | 0 <= i < j < |s| ensures !RatioGreater(s[j], s[i]) {
      assert s[i] == Item(i + 2, i + 3);
      assert s[j] == Item(j + 2, j + 3);
      assert s[j].value * s[i].weight == (j + 3) * (i + 2) == i * j + 3 * i + 2 * j + 6;
      assert s[i].value * s[j].weight == (i + 3) * (j + 2) == i * j + 2 * i + 3 * j + 6;
    }
  }

  /** Four items under a limit of 5: the two lightest weigh exactly 5, so the
      strict bound is 1 and the search returns the single most valuable item,
      worth 6, although the two lightest together fit and are worth 7. */
  lemma FourItemsSearch()
    ensures SizeBound(FourItems, 5, true) == 1
    ensures Search(FourItems, Sizes(1), 5).items == [Item(5, 6)]
    ensures IsSubsequence([Item(2, 3), Item(3, 4)], FourItems)
    ensures Weight([Item(2, 3), Item(3, 4)]) == 5 && Value([Item(2, 3), Item(3, 4)]) == 7
  {
    FourItemsStrictBound();
    FourItemsSingles();
    assert IsSubsequence([Item(3, 4)], FourItems[1..]);
  }

  lemma FourItemsStrictBound()
    ensures SizeBound(FourItems, 5, true) == 1
  {
    FourItemsInWeightOrder();
    TakeWhileOnFourItems(FourItems, true, 1);
  }

  /** The running weight of FourItems is 2 after one item and 5 after two. */
  lemma TakeWhileOnFourItems(items: seq<Item>, strict: bool, k: nat)
    requires items == FourItems
    requires k == if strict then 1 else 2
    ensures TakeWhileCount(items, 5, 0, strict) == k
  {
    assert items[..1] == [Item(2, 3)];
    assert items[..2] == [Item(2, 3), Item(3, 4)];
    assert items[..3] == [Item(2, 3), Item(3, 4), Item(4, 5)];
    assert Weight(items[..1]) == 2;
    PrefixTotalsStep(items, 1);
    PrefixTotalsStep(items, 2);
    TakeWhileCountUnique(items, 5, 0, strict, k);
  }

  lemma FourItemsSingles()
    ensures Search(FourItems, Sizes(1), 5) == Best(6, [Item(5, 6)])
  {
    var singles := [[Item(2, 3)], [Item(3, 4)], [Item(4, 5)], [Item(5, 6)]];
    CombinationsOfOne(FourItems);
    assert Combinations(FourItems, 1) == singles;
    assert Sizes(1) == [1];
    assert Enumeration(FourItems, [1]) == singles by {
      assert [1][..0] == [];
    }
    ScanSingles(singles);
  }

  lemma ScanSingles(singles: seq<seq<Item>>)
    requires singles == [[Item(2, 3)], [Item(3, 4)], [Item(4, 5)], [Item(5, 6)]]
    ensures Scan(Initial, singles, 5) == Best(6, [Item(5, 6)])
  {
    assert singles[..1][..0] == [];
    assert Scan(Initial, singles[..1], 5) == Best(3, [Item(2, 3)]);
    assert singles[..2][..1] == singles[..1];
    assert Scan(Initial, singles[..2], 5) == Best(4, [Item(3, 4)]);
    assert singles[..3][..2] == singles[..2];
    assert Scan(Initial, singles[..3], 5) == Best(5, [Item(4, 5)]);
    assert singles[..3] == singles[..|singles|-1];
  }

  /** On the same four items the heuristic takes the two items of greatest
      ratio and reaches 7: as written, the exhaustive search can end below
      the heuristic. */
  lemma GreedyBeatsStrictSearch(items: seq<Item>)
    requires items == FourItems
    ensures Value(GreedySelection(items, 5)) == 7
    ensures Search(items, Sizes(SizeBound(items, 5, true)), 5).value == 6
  {
    FourItemsGreedyValue(items);
    FourItemsStrictSearchValue(items);
  }

  lemma FourItemsGreedyValue(items: seq<Item>)
    requires items == FourItems
    ensures Value(GreedySelection(items, 5)) == 7
  {
    FourItemsGreedy(items);
    FirstTwoOfFourItems(items);
  }

  lemma FirstTwoOfFourItems(items: seq<Item>)
    requires items == FourItems
    ensures Weight(items[..2]) == 5 && Value(items[..2]) == 7
  {
    assert items[..1] == [Item(2, 3)];
    assert Weight(items[..1]) == 2 && Value(items[..1]) == 3;
    PrefixTotalsStep(items, 1);
  }

  lemma FourItemsStrictSearchValue(items: seq<Item>)
    requires items == FourItems
    ensures Search(items, Sizes(SizeBound(items, 5, true)), 5).value == 6
  {
    FourItemsStrictBound();
    FourItemsSingles();
  }

  lemma FourItemsGreedy(items: seq<Item>)
    requires items == FourItems
    ensures GreedySelection(items, 5) == items[..2]
  {
    FourItemsInRatioOrder(items);
    TakeWhileOnFourItems(items, false, 2);
    GreedyOfSorted(items, 5);
  }

  const ThreeItems: seq<Item> := [Item(1, 10), Item(5, 10), Item(1, 1)]

  lemma ThreeItemsInRatioOrder(s: seq<Item>)
    requires s == ThreeItems
    ensures PositiveWeights(s) && SortedByRatio(s)
  {
    forall i, j | 0 <= i < j < |s| ensures !RatioGreater(s[j], s[i]) {
      assert i == 0 || i == 1;
      assert j == 1 || j == 2;
    }
  }

  /** The heuristic stops at the first item that does not fit: here the second
      item (weight 5) does not, so the third (weight 1), which would, is not taken. */
  lemma GreedyStopsEarly(items: seq<Item>)
    requires items == ThreeItems
    ensures GreedySelection(items, 3) == [Item(1, 10)]
    ensures Weight([Item(1, 10), Item(1, 1)]) <= 3
  {
    ThreeItemsInRatioOrder(items);
    assert items[..1] == [Item(1, 10)];
    assert Weight(items[..1]) == 1;
    PrefixTotalsStep(items, 1);
    TakeWhileCountUnique(items, 3, 0, false, 1);
    GreedyOfSorted(items, 3);
  }
}

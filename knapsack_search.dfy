/** The exhaustive knapsack search `get_knapsack_items` and its two parallel
    variants: a size bound from the lightest items, then every combination of
    each size up to that bound, keeping the best feasible one. */
module KnapsackSearch {
  import opened KnapsackItems
  import opened KnapsackSort

  // ---------------------------------------------------------------------------
  // Combinations (`itertools::combinations`, a library call)

  /** `[x] + c` for every `c` of `cs`, in order. */
  function Prepend(x: Item, cs: seq<seq<Item>>): (r: seq<seq<Item>>)
    ensures |r| == |cs|
    ensures forall j :: 0 <= j < |cs| ==> r[j] == [x] + cs[j]
  {
    seq(|cs|, j requires 0 <= j < |cs| => [x] + cs[j])
  }

  /** `s.iter().combinations(i)`: the length-`i` subsequences of `s`, in
      lexicographic order of the positions taken. */
  function Combinations(s: seq<Item>, i: nat): (r: seq<seq<Item>>)
    ensures |r| > 0 <==> i <= |s|
    decreases |s|
  {
    if i == 0 then [[]]
    else if s == [] then []
    else Prepend(s[0], Combinations(s[1..], i - 1)) + Combinations(s[1..], i)
  }

  lemma PrependMember(x: Item, cs: seq<seq<Item>>, c: seq<Item>)
    ensures c in Prepend(x, cs) <==> c != [] && c[0] == x && c[1..] in cs
  {
    if c != [] && c[0] == x && c[1..] in cs {
      var j :| 0 <= j < |cs| && cs[j] == c[1..];
      assert c == [x] + cs[j];
    }
    if c in Prepend(x, cs) {
      var j :| 0 <= j < |cs| && Prepend(x, cs)[j] == c;
      assert c[1..] == cs[j];
    }
  }

  /** The combinations of size `i` are exactly the subsequences of length `i`. */
  lemma {:induction false} CombinationsMember(s: seq<Item>, i: nat, c: seq<Item>)
    ensures c in Combinations(s, i) <==> IsSubsequence(c, s) && |c| == i
    decreases |s|
  {
    if i == 0 {
      assert Combinations(s, i) == [[]];
    } else if s != [] {
      var taking := Prepend(s[0], Combinations(s[1..], i - 1));
      var skipping := Combinations(s[1..], i);
      assert c in Combinations(s, i) <==> c in taking || c in skipping by {
        assert Combinations(s, i) == taking + skipping;
      }
      assert c in skipping <==> IsSubsequence(c, s[1..]) && |c| == i by {
        CombinationsMember(s[1..], i, c);
      }
      assert c in taking <==> c != [] && c[0] == s[0] && IsSubsequence(c[1..], s[1..]) && |c| == i by {
        var shorter := Combinations(s[1..], i - 1);
        PrependMember(s[0], shorter, c);
        if c != [] {
          var tail := c[1..];
          assert |tail| == |c| - 1;
          assert tail in shorter <==> IsSubsequence(tail, s[1..]) && |tail| == i - 1 by {
            CombinationsMember(s[1..], i - 1, tail);
          }
        }
      }
      assert IsSubsequence(c, s) <==>
        (c != [] && c[0] == s[0] && IsSubsequence(c[1..], s[1..])) || IsSubsequence(c, s[1..]);
    }
  }

  /** The combinations of size one are the single items, in order. */
  lemma {:induction false} CombinationsOfOne(s: seq<Item>)
    ensures Combinations(s, 1) == seq(|s|, j requires 0 <= j < |s| => [s[j]])
  {
    if s != [] {
      CombinationsOfOne(s[1..]);
      assert Combinations(s[1..], 0) == [[]];
      var singles := seq(|s|, j requires 0 <= j < |s| => [s[j]]);
      assert Prepend(s[0], [[]]) == [[s[0]]] by {
        assert [s[0]] + [] == [s[0]];
      }
      assert Combinations(s, 1) == [[s[0]]] + Combinations(s[1..], 1);
      assert singles == [[s[0]]] + seq(|s| - 1, j requires 0 <= j < |s| - 1 => [s[1..][j]]);
    }
  }

  // ---------------------------------------------------------------------------
  // The size bound (lib.rs:83-91)

  /** The largest subset size the search enumerates: how many items, lightest
      first, a `take_while` keeps while their running weight sum passes the test
      against the limit (`<` as written; `<=` when `strict` is false). */
  function SizeBound(items: seq<Item>, limit: int, strict: bool): (k: nat)
    ensures k <= |items|
  {
    TakeWhileCount(SortByWeight(items), limit, 0, strict)
  }

  /** `items.iter().sorted_by(weight).take_while(|item| { sum += item.weight; sum < limit }).count()`. */
  method MaxPossibleCombinations(items: seq<Item>, limit: int, strict: bool) returns (k: nat)
    requires ItemsFitI32(items, limit)
    ensures k == SizeBound(items, limit, strict)
    ensures forall m :: 1 <= m <= k ==> Passes(Weight(SortByWeight(items)[..m]), limit, strict)
    ensures k < |items| ==> !Passes(Weight(SortByWeight(items)[..k+1]), limit, strict)
  {
    var sorted := SortByWeight(items);
    ghost var count := TakeWhileCount(sorted, limit, 0, strict);
    var sum := 0;
    k := 0;
    while k < |sorted|
      invariant k <= count
      invariant sum == Weight(sorted[..k])
      invariant 0 <= sum <= I32_MAX
    {
      PrefixTotalsStep(sorted, k);
      assert 0 <= sum + sorted[k].weight <= I32_MAX by {
        PrefixTotalsFitI32(items, limit, sorted, k + 1);
      }
      sum := sum + sorted[k].weight;
      assert sum == 0 + Weight(sorted[..k+1]);
      if !Passes(sum, limit, strict) {
        assert count <= k;
        break;
      }
      assert k + 1 <= count;
      k := k + 1;
    }
    assert k == count;
  }

  /** Under `<=` and non-negative weights, no selection larger than the bound fits:
      any `m` items weigh at least as much as the `m` lightest. */
  lemma InclusiveBoundCoversFeasible(items: seq<Item>, limit: int, t: seq<Item>)
    requires NonNegativeWeights(items)
    requires multiset(t) <= multiset(items)
    requires Weight(t) <= limit
    ensures |t| <= SizeBound(items, limit, false)
  {
    var sorted := SortByWeight(items);
    var k := TakeWhileCount(sorted, limit, 0, false);
    SubMultisetLength(t, items);
    if |t| > k {
      assert Weight(sorted[..k+1]) > limit;
      LightestPrefixLowerBound(sorted, t);
      assert NonNegativeWeights(sorted) by {
        forall i | 0 <= i < |sorted| ensures sorted[i].weight >= 0 {
          assert sorted[i] in multiset(items);
        }
      }
      PrefixWeightMonotone(sorted, k + 1, |t|);
      assert false;
    }
  }

  /** Any `|t|` items drawn from the sorted `s` weigh at least its `|t|` first items. */
  lemma {:induction false} LightestPrefixLowerBound(s: seq<Item>, t: seq<Item>)
    requires SortedByWeight(s)
    requires multiset(t) <= multiset(s)
    ensures |t| <= |s| && Weight(t) >= Weight(s[..|t|])
    decreases |s|
  {
    SubMultisetLength(t, s);
    if t != [] {
      assert s == [s[0]] + s[1..];
      assert multiset(s[1..]) == multiset(s) - multiset{s[0]};
      if s[0] in multiset(t) {
        LightestTaken(s, t);
      } else {
        LightestSkipped(s, t);
      }
    }
  }

  /** The case where the lightest item is among those drawn. */
  lemma LightestTaken(s: seq<Item>, t: seq<Item>)
    requires SortedByWeight(s) && s != []
    requires multiset(t) <= multiset(s) && |t| <= |s|
    requires multiset(s[1..]) == multiset(s) - multiset{s[0]}
    requires s[0] in multiset(t)
    ensures Weight(t) >= Weight(s[..|t|])
    decreases |s|, 0
  {
    var j := IndexOf(t, s[0]);
    var t' := RemoveAt(t, j);
    var s' := s[1..];
    assert Weight(t') >= Weight(s'[..|t'|]) by {
      RemoveBoth(t, s, j);
      SortedByWeightTail(s);
      LightestPrefixLowerBound(s', t');
    }
    assert Weight(t) == s[0].weight + Weight(t') by {
      TotalsRemoveAt(t, j);
    }
    PrefixWeightTail(s, |t|);
  }

  /** Taking the same item out of a selection and out of what it is drawn from
      keeps the one drawn from the other. */
  lemma RemoveBoth(t: seq<Item>, s: seq<Item>, j: nat)
    requires s != [] && j < |t| && t[j] == s[0]
    requires multiset(t) <= multiset(s)
    requires multiset(s[1..]) == multiset(s) - multiset{s[0]}
    ensures multiset(RemoveAt(t, j)) <= multiset(s[1..])
  {
    assert multiset(RemoveAt(t, j)) == multiset(t) - multiset{s[0]};
  }

  /** The case where the lightest item is not among those drawn. */
  lemma LightestSkipped(s: seq<Item>, t: seq<Item>)
    requires SortedByWeight(s) && s != [] && t != []
    requires multiset(t) <= multiset(s) && |t| <= |s|
    requires multiset(s[1..]) == multiset(s) - multiset{s[0]}
    requires s[0] !in multiset(t)
    ensures Weight(t) >= Weight(s[..|t|])
    decreases |s|, 0
  {
    var s' := s[1..];
    var m := |t|;
    assert Weight(t) >= Weight(s'[..m]) by {
      assert multiset(t) <= multiset(s');
      SortedByWeightTail(s);
      LightestPrefixLowerBound(s', t);
    }
    assert Weight(s'[..m]) == Weight(s'[..m-1]) + s[m].weight by {
      PrefixTotalsStep(s', m - 1);
      assert s'[m - 1] == s[m];
    }
    assert s[0].weight <= s[m].weight;
    PrefixWeightTail(s, m);
  }

  lemma SortedByWeightTail(s: seq<Item>)
    requires SortedByWeight(s) && s != []
    ensures SortedByWeight(s[1..])
  {
    var s' := s[1..];
    forall a, b | 0 <= a < b < |s'| ensures s'[a].weight <= s'[b].weight {
      assert s'[a] == s[a+1] && s'[b] == s[b+1];
    }
  }

  /** A non-empty prefix weighs its first item plus the matching prefix of the tail. */
  lemma PrefixWeightTail(s: seq<Item>, m: nat)
    requires 1 <= m <= |s|
    ensures Weight(s[..m]) == s[0].weight + Weight(s[1..][..m-1])
  {
    assert s[..m][1..] == s[1..][..m-1];
  }

  lemma PrefixWeightMonotone(s: seq<Item>, a: nat, b: nat)
    requires a <= b <= |s|
    requires NonNegativeWeights(s)
    ensures Weight(s[..a]) <= Weight(s[..b])
    decreases b - a
  {
    if a < b {
      PrefixWeightMonotone(s, a, b - 1);
      PrefixTotalsStep(s, b - 1);
    }
  }

  // ---------------------------------------------------------------------------
  // The compare-and-replace over combinations (lib.rs:95-105)

  /** `highest_combined_value` together with `knapsack_items`. */
  datatype Best = Best(value: int, items: seq<Item>)

  const Initial := Best(0, [])

  /** One step of the search: replace the best only by a strictly more valuable
      combination that fits. */
  function Consider(st: Best, c: seq<Item>, limit: int): (r: Best)
    ensures r.value >= st.value
    ensures Weight(c) <= limit ==> r.value >= Value(c)
    ensures r == st || (r.items == c && r.value == Value(c) && Weight(c) <= limit)
  {
    if Value(c) > st.value && Weight(c) <= limit then Best(Value(c), c) else st
  }

  /** The best after considering every combination of `cs`, in order. */
  function Scan(st: Best, cs: seq<seq<Item>>, limit: int): Best
    decreases |cs|
  {
    if cs == [] then st else Consider(Scan(st, cs[..|cs|-1], limit), cs[|cs|-1], limit)
  }

  /** What the scan leaves: at least the starting value; at least the value of
      every combination that fits; and either the starting state or the first
      fitting combination that reaches the final value. */
  lemma {:induction false} ScanBest(st: Best, cs: seq<seq<Item>>, limit: int)
    ensures Scan(st, cs, limit).value >= st.value
    ensures forall j :: 0 <= j < |cs| && Weight(cs[j]) <= limit ==> Value(cs[j]) <= Scan(st, cs, limit).value
    ensures var r := Scan(st, cs, limit);
      r == st ||
      (r.value > st.value &&
       exists j :: 0 <= j < |cs| && cs[j] == r.items && Weight(cs[j]) <= limit && Value(cs[j]) == r.value &&
         forall j' :: 0 <= j' < j && Weight(cs[j']) <= limit ==> Value(cs[j']) < r.value)
    decreases |cs|
  {
    if cs != [] {
      var pre := cs[..|cs|-1];
      ScanBest(st, pre, limit);
      var p := Scan(st, pre, limit);
      var last := cs[|cs|-1];
      assert forall j :: 0 <= j < |pre| ==> cs[j] == pre[j];
      if Value(last) > p.value && Weight(last) <= limit {
        assert cs[|cs|-1] == last;
      } else {
        if p != st {
          var j :| 0 <= j < |pre| && pre[j] == p.items && Weight(pre[j]) <= limit && Value(pre[j]) == p.value &&
            forall j' :: 0 <= j' < j && Weight(pre[j']) <= limit ==> Value(pre[j']) < p.value;
          assert cs[j] == p.items;
        }
      }
    }
  }

  /** The value the scan reaches depends only on which combinations are
      considered, not on their order or repetition: the locked compare-and-replace
      of the parallel variants reaches the same value under any interleaving. */
  lemma ScanValueOrderIndependent(st: Best, cs1: seq<seq<Item>>, cs2: seq<seq<Item>>, limit: int)
    requires forall c :: c in cs1 <==> c in cs2
    ensures Scan(st, cs1, limit).value == Scan(st, cs2, limit).value
  {
    ScanBest(st, cs1, limit);
    ScanBest(st, cs2, limit);
    var r1, r2 := Scan(st, cs1, limit), Scan(st, cs2, limit);
    if r1 != st {
      var j :| 0 <= j < |cs1| && cs1[j] == r1.items && Weight(cs1[j]) <= limit && Value(cs1[j]) == r1.value;
      assert cs1[j] in cs2;
    }
    if r2 != st {
      var j :| 0 <= j < |cs2| && cs2[j] == r2.items && Weight(cs2[j]) <= limit && Value(cs2[j]) == r2.value;
      assert cs2[j] in cs1;
    }
  }

  // ---------------------------------------------------------------------------
  // The search over subset sizes

  /** `1..=k`. */
  function Sizes(k: nat): (r: seq<nat>)
    ensures |r| == k
    ensures forall j :: 0 <= j < k ==> r[j] == j + 1
  {
    seq(k, j requires 0 <= j < k => j + 1)
  }

  lemma SizesMember(k: nat, n: nat)
    ensures n in Sizes(k) <==> 1 <= n <= k
  {
    if 1 <= n <= k {
      assert Sizes(k)[n - 1] == n;
    }
  }

  /** Every combination of every size of `sizes`, size by size. */
  function Enumeration(items: seq<Item>, sizes: seq<nat>): seq<seq<Item>>
    decreases |sizes|
  {
    if sizes == [] then [] else Enumeration(items, sizes[..|sizes|-1]) + Combinations(items, sizes[|sizes|-1])
  }

  lemma {:induction false} EnumerationMember(items: seq<Item>, sizes: seq<nat>, c: seq<Item>)
    ensures c in Enumeration(items, sizes) <==> IsSubsequence(c, items) && |c| in sizes
    decreases |sizes|
  {
    if sizes != [] {
      var pre := sizes[..|sizes|-1];
      EnumerationMember(items, pre, c);
      CombinationsMember(items, sizes[|sizes|-1], c);
      assert sizes == pre + [sizes[|sizes|-1]];
    }
  }

  /** The search with the sizes considered in the order `sizes`. */
  function Search(items: seq<Item>, sizes: seq<nat>, limit: int): Best
  {
    Scan(Initial, Enumeration(items, sizes), limit)
  }

  /** What the search returns: the empty selection, or a subsequence of the
      items of positive value, whose size is one of `sizes`, that fits; and
      nothing of such a size that fits is worth more. */
  lemma SearchResult(items: seq<Item>, sizes: seq<nat>, limit: int)
    ensures var r := Search(items, sizes, limit);
      && r.value == Value(r.items)
      && r.value >= 0
      && (r.items == [] ||
          (IsSubsequence(r.items, items) && |r.items| in sizes && Weight(r.items) <= limit && Value(r.items) > 0))
      && forall c :: IsSubsequence(c, items) && |c| in sizes && Weight(c) <= limit ==> Value(c) <= r.value
  {
    var cs := Enumeration(items, sizes);
    var r := Search(items, sizes, limit);
    ScanBest(Initial, cs, limit);
    if r != Initial {
      var j :| 0 <= j < |cs| && cs[j] == r.items && Weight(cs[j]) <= limit && Value(cs[j]) == r.value;
      EnumerationMember(items, sizes, cs[j]);
    }
    forall c | IsSubsequence(c, items) && |c| in sizes && Weight(c) <= limit ensures Value(c) <= r.value {
      EnumerationMember(items, sizes, c);
    }
  }

  /** Among equally valuable fitting combinations the search keeps the first one
      it meets, sizes in the order given and each size in lexicographic order. */
  lemma SearchKeepsFirstFound(items: seq<Item>, sizes: seq<nat>, limit: int) returns (j: nat)
    ensures var r := Search(items, sizes, limit);
      var cs := Enumeration(items, sizes);
      r.items == [] ||
      (j < |cs| && cs[j] == r.items &&
       forall j' :: 0 <= j' < j && Weight(cs[j']) <= limit ==> Value(cs[j']) < r.value)
  {
    var cs := Enumeration(items, sizes);
    var r := Search(items, sizes, limit);
    ScanBest(Initial, cs, limit);
    j := 0;
    if r != Initial {
      j :| 0 <= j < |cs| && cs[j] == r.items && Weight(cs[j]) <= limit && Value(cs[j]) == r.value &&
        forall j' :: 0 <= j' < j && Weight(cs[j']) <= limit ==> Value(cs[j']) < r.value;
    }
  }

  /** The value the search reaches does not depend on the order of the sizes. */
  lemma SearchValueOrderIndependent(items: seq<Item>, s1: seq<nat>, s2: seq<nat>, limit: int)
    requires forall n :: n in s1 <==> n in s2
    ensures Search(items, s1, limit).value == Search(items, s2, limit).value
  {
    forall c ensures c in Enumeration(items, s1) <==> c in Enumeration(items, s2) {
      EnumerationMember(items, s1, c);
      EnumerationMember(items, s2, c);
    }
    ScanValueOrderIndependent(Initial, Enumeration(items, s1), Enumeration(items, s2), limit);
  }

  /** Considering one more combination of the current size is one more step of the scan. */
  lemma ScanExtend(done: seq<seq<Item>>, cs: seq<seq<Item>>, j: nat, limit: int)
    requires j < |cs|
    ensures Scan(Initial, done + cs[..j+1], limit) == Consider(Scan(Initial, done + cs[..j], limit), cs[j], limit)
  {
    var e := done + cs[..j+1];
    assert e[..|e|-1] == done + cs[..j];
    assert e[|e|-1] == cs[j];
  }

  /** Finishing the combinations of `sizes[n]` finishes the first `n + 1` sizes. */
  lemma EnumerationExtend(items: seq<Item>, sizes: seq<nat>, n: nat)
    requires n < |sizes|
    ensures Enumeration(items, sizes[..n+1]) == Enumeration(items, sizes[..n]) + Combinations(items, sizes[n])
  {
    assert sizes[..n+1][..n] == sizes[..n];
  }

  /** Under ItemsFitI32, the value and weight sums of every combination are i32. */
  lemma CombinationFitsI32(items: seq<Item>, limit: int, i: nat, c: seq<Item>)
    requires ItemsFitI32(items, limit)
    requires c in Combinations(items, i)
    ensures 0 <= Weight(c) <= I32_MAX && 0 <= Value(c) <= I32_MAX
  {
    CombinationsMember(items, i, c);
    SubsequenceIsSubMultiset(c, items);
    SelectionTotalsFitI32(items, limit, c);
  }

  /** The nested loops of lib.rs:97-106, over the sizes in the order `sizes`. */
  method SearchSizes(items: seq<Item>, limit: int, sizes: seq<nat>) returns (knapsackItems: seq<Item>)
    requires ItemsFitI32(items, limit)
    ensures Best(Value(knapsackItems), knapsackItems) == Search(items, sizes, limit)
  {
    var highest := 0;
    knapsackItems := [];
    for n := 0 to |sizes|
      invariant highest == Value(knapsackItems)
      invariant 0 <= highest <= I32_MAX
      invariant Best(highest, knapsackItems) == Search(items, sizes[..n], limit)
    {
      ghost var done := Enumeration(items, sizes[..n]);
      var combinations := Combinations(items, sizes[n]);
      assert done + combinations[..0] == done;
      for j := 0 to |combinations|
        invariant highest == Value(knapsackItems)
        invariant 0 <= highest <= I32_MAX
        invariant Best(highest, knapsackItems) == Scan(Initial, done + combinations[..j], limit)
      {
        ScanExtend(done, combinations, j, limit);
        var combination := combinations[j];
        CombinationFitsI32(items, limit, sizes[n], combination);
        var value := Value(combination);
        var weight := Weight(combination);
        if value > highest && weight <= limit {
          highest := value;
          knapsackItems := combination;
        }
      }
      assert combinations[..|combinations|] == combinations;
      EnumerationExtend(items, sizes, n);
    }
    assert sizes[..|sizes|] == sizes;
  }

  // ---------------------------------------------------------------------------
  // The three entry points

  /** `get_knapsack_items`: the exhaustive search over sizes `1..=k`, with `k`
      the strict size bound. */
  method GetKnapsackItems(items: seq<Item>, limit: int) returns (knapsackItems: seq<Item>)
    requires ItemsFitI32(items, limit)
    ensures knapsackItems == Search(items, Sizes(SizeBound(items, limit, true)), limit).items
    ensures knapsackItems == [] || Weight(knapsackItems) <= limit
    ensures knapsackItems == [] || Value(knapsackItems) > 0
    ensures |knapsackItems| <= SizeBound(items, limit, true)
    ensures IsSubsequence(knapsackItems, items)
    ensures forall c :: IsSubsequence(c, items) && 1 <= |c| <= SizeBound(items, limit, true) && Weight(c) <= limit ==>
      Value(c) <= Value(knapsackItems)
  {
    var k := MaxPossibleCombinations(items, limit, true);
    knapsackItems := SearchSizes(items, limit, Sizes(k));
    BoundedSearchResult(items, limit, true);
  }

  lemma BoundedSearchResult(items: seq<Item>, limit: int, strict: bool)
    ensures var k := SizeBound(items, limit, strict);
      var r := Search(items, Sizes(k), limit);
      && r.value == Value(r.items)
      && (r.items == [] || Weight(r.items) <= limit)
      && (r.items == [] || Value(r.items) > 0)
      && |r.items| <= k
      && IsSubsequence(r.items, items)
      && forall c :: IsSubsequence(c, items) && 1 <= |c| <= k && Weight(c) <= limit ==> Value(c) <= r.value
  {
    var k := SizeBound(items, limit, strict);
    SearchResult(items, Sizes(k), limit);
    var r := Search(items, Sizes(k), limit);
    if r.items != [] {
      SizesMember(k, |r.items|);
    }
    forall c | IsSubsequence(c, items) && 1 <= |c| <= k && Weight(c) <= limit ensures Value(c) <= r.value {
      SizesMember(k, |c|);
    }
  }

  /** A permutation of the sizes `1..=k`: the order in which the workers of a
      parallel variant happen to finish. */
  predicate IsSchedule(schedule: seq<nat>, k: nat)
  {
    multiset(schedule) == multiset(Sizes(k))
  }

  /** `get_knapsack_items_par_threads` and `get_knapsack_items_par_iter`: the
      same search (the same strict size bound, the same locked compare-and-replace)
      with the sizes `1..=k` processed in the order `schedule`. */
  method GetKnapsackItemsParallel(items: seq<Item>, limit: int, schedule: seq<nat>) returns (knapsackItems: seq<Item>)
    requires ItemsFitI32(items, limit)
    requires IsSchedule(schedule, SizeBound(items, limit, true))
    ensures knapsackItems == Search(items, schedule, limit).items
    ensures Value(knapsackItems) == Search(items, Sizes(SizeBound(items, limit, true)), limit).value
    ensures knapsackItems == [] || Weight(knapsackItems) <= limit
    ensures knapsackItems == [] || Value(knapsackItems) > 0
    ensures |knapsackItems| <= SizeBound(items, limit, true)
    ensures IsSubsequence(knapsackItems, items)
  {
    var k := MaxPossibleCombinations(items, limit, true);
    knapsackItems := SearchSizes(items, limit, schedule);
    forall n ensures n in schedule <==> n in Sizes(k) {
      assert n in schedule <==> n in multiset(schedule);
      assert n in Sizes(k) <==> n in multiset(Sizes(k));
    }
    SearchValueOrderIndependent(items, schedule, Sizes(k), limit);
    BoundedSearchResult(items, limit, true);
    SearchResult(items, schedule, limit);
    if knapsackItems != [] {
      SizesMember(k, |knapsackItems|);
    }
  }

  /** The search with the size bound's test written `<=`: every selection of the
      items that fits has at most that many items, so nothing is missed. */
  method GetKnapsackItemsInclusiveBound(items: seq<Item>, limit: int) returns (knapsackItems: seq<Item>)
    requires ItemsFitI32(items, limit)
    ensures knapsackItems == Search(items, Sizes(SizeBound(items, limit, false)), limit).items
    ensures knapsackItems == [] || Weight(knapsackItems) <= limit
    ensures IsSubsequence(knapsackItems, items)
    ensures forall t :: multiset(t) <= multiset(items) && Weight(t) <= limit ==> Value(t) <= Value(knapsackItems)
  {
    var k := MaxPossibleCombinations(items, limit, false);
    knapsackItems := SearchSizes(items, limit, Sizes(k));
    BoundedSearchResult(items, limit, false);
    forall t | multiset(t) <= multiset(items) && Weight(t) <= limit ensures Value(t) <= Value(knapsackItems) {
      InclusiveBoundIsOptimal(items, limit, t);
    }
  }

  /** With non-negative weights, the search under the `<=` bound reaches the
      best value of every selection of the items that fits. */
  lemma InclusiveBoundIsOptimal(items: seq<Item>, limit: int, t: seq<Item>)
    requires NonNegativeWeights(items)
    requires multiset(t) <= multiset(items)
    requires Weight(t) <= limit
    ensures Value(t) <= Search(items, Sizes(SizeBound(items, limit, false)), limit).value
  {
    var k := SizeBound(items, limit, false);
    BoundedSearchResult(items, limit, false);
    SearchResult(items, Sizes(k), limit);
    if t != [] {
      var c := SubsequenceOf(t, items);
      TotalsOfPermutation(c, t);
      assert |c| == |multiset(c)| == |multiset(t)| == |t|;
      InclusiveBoundCoversFeasible(items, limit, t);
    }
  }
}

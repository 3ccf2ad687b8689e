/** The two stable sorts the solver applies (`sorted_by` from itertools, a
    library call), modelled as insertion sorts: ascending by weight for the
    size bound, descending by value/weight ratio for the greedy heuristic. */
module KnapsackSort {
  import opened KnapsackItems

  // ---------------------------------------------------------------------------
  // Ascending by weight

  predicate SortedByWeight(s: seq<Item>)
  {
    forall i, j :: 0 <= i < j < |s| ==> s[i].weight <= s[j].weight
  }

  lemma PrependByWeight(x: Item, t: seq<Item>)
    requires SortedByWeight(t)
    requires forall j :: 0 <= j < |t| ==> x.weight <= t[j].weight
    ensures SortedByWeight([x] + t)
  {
    var r := [x] + t;
    forall i, j | 0 <= i < j < |r| ensures r[i].weight <= r[j].weight {
      assert r[j] == t[j-1];
      if i > 0 { assert r[i] == t[i-1]; }
    }
  }

  lemma HeadIsLightest(s: seq<Item>, y: Item)
    requires SortedByWeight(s) && s != [] && y in multiset(s[1..])
    ensures s[0].weight <= y.weight
  {
    var k := IndexOf(s[1..], y);
    assert s[k + 1] == y;
  }

  /** Inserts `x` before the first element that is not lighter than it. */
  function InsertByWeight(x: Item, s: seq<Item>): (r: seq<Item>)
    requires SortedByWeight(s)
    ensures SortedByWeight(r)
    ensures multiset(r) == multiset(s) + multiset{x}
  {
    if s == [] || x.weight <= s[0].weight then
      [x] + s
    else
      var t := InsertByWeight(x, s[1..]);
      assert s == [s[0]] + s[1..];
      forall j | 0 <= j < |t| ensures s[0].weight <= t[j].weight {
        assert t[j] in multiset(t);
        if t[j] != x {
          HeadIsLightest(s, t[j]);
        }
      }
      PrependByWeight(s[0], t);
      [s[0]] + t
  }

  /** `items.iter().sorted_by(|a, b| a.weight.cmp(&b.weight))`. */
  function SortByWeight(s: seq<Item>): (r: seq<Item>)
    ensures SortedByWeight(r)
    ensures multiset(r) == multiset(s)
    ensures |r| == |s|
  {
    if s == [] then []
    else
      assert s == [s[0]] + s[1..];
      var r := InsertByWeight(s[0], SortByWeight(s[1..]));
      assert |multiset(r)| == |multiset(s)|;
      r
  }

  /** Input already in weight order comes out unchanged. */
  lemma {:induction false} SortByWeightOfSorted(s: seq<Item>)
    requires SortedByWeight(s)
    ensures SortByWeight(s) == s
  {
    if s != [] {
      SortByWeightOfSorted(s[1..]);
      assert s == [s[0]] + s[1..];
    }
  }

  // ---------------------------------------------------------------------------
  // Descending by value/weight ratio, compared exactly by cross multiplication

  /** `a.value / a.weight > b.value / b.weight`, for positive weights. */
  predicate RatioGreater(a: Item, b: Item)
  {
    a.value * b.weight > b.value * a.weight
  }

  /** `a.value / a.weight == b.value / b.weight`, for positive weights. */
  predicate SameRatio(a: Item, b: Item)
  {
    a.value * b.weight == b.value * a.weight
  }

  /** No later item has a greater ratio than an earlier one. */
  predicate SortedByRatio(s: seq<Item>)
  {
    forall i, j :: 0 <= i < j < |s| ==> !RatioGreater(s[j], s[i])
  }

  lemma MulLeq(x: int, y: int, k: int)
    requires k > 0 && x <= y
    ensures x * k <= y * k
  {
  }

  lemma MulLeqCancel(x: int, y: int, k: int)
    requires k > 0 && x * k <= y * k
    ensures x <= y
  {
  }

  /** "Ratio at least" is transitive when weights are positive. */
  lemma RatioAtLeastTransitive(a: Item, b: Item, c: Item)
    requires a.weight > 0 && b.weight > 0 && c.weight > 0
    requires !RatioGreater(b, a) && !RatioGreater(c, b)
    ensures !RatioGreater(c, a)
  {
    MulLeq(b.value * a.weight, a.value * b.weight, c.weight);
    MulLeq(c.value * b.weight, b.value * c.weight, a.weight);
    assert (c.value * a.weight) * b.weight == (c.value * b.weight) * a.weight;
    assert (b.value * c.weight) * a.weight == (b.value * a.weight) * c.weight;
    assert (a.value * b.weight) * c.weight == (a.value * c.weight) * b.weight;
    MulLeqCancel(c.value * a.weight, a.value * c.weight, b.weight);
  }

  /** Equal ratios are transitive when weights are positive. */
  lemma SameRatioTransitive(a: Item, b: Item, c: Item)
    requires a.weight > 0 && b.weight > 0 && c.weight > 0
    requires SameRatio(a, b) && SameRatio(b, c)
    ensures SameRatio(a, c)
  {
    RatioAtLeastTransitive(a, b, c);
    RatioAtLeastTransitive(c, b, a);
  }

  lemma PrependByRatio(x: Item, t: seq<Item>)
    requires x.weight > 0 && PositiveWeights(t) && SortedByRatio(t)
    requires forall j :: 0 <= j < |t| ==> !RatioGreater(t[j], x)
    ensures SortedByRatio([x] + t) && PositiveWeights([x] + t)
  {
    var r := [x] + t;
    forall i, j | 0 <= i < j < |r| ensures !RatioGreater(r[j], r[i]) {
      assert r[j] == t[j-1];
      if i > 0 { assert r[i] == t[i-1]; }
    }
    forall i | 0 <= i < |r| ensures r[i].weight > 0 {
      if i > 0 { assert r[i] == t[i-1]; }
    }
  }

  /** Inserts `x` before the first element whose ratio is not greater than its own,
      so that `x` stays ahead of the elements it ties with. */
  function InsertByRatio(x: Item, s: seq<Item>): (r: seq<Item>)
    requires x.weight > 0 && PositiveWeights(s) && SortedByRatio(s)
    ensures SortedByRatio(r) && PositiveWeights(r)
    ensures multiset(r) == multiset(s) + multiset{x}
  {
    if s == [] || !RatioGreater(s[0], x) then
      forall j | 0 <= j < |s| ensures !RatioGreater(s[j], x) {
        if j > 0 { RatioAtLeastTransitive(x, s[0], s[j]); }
      }
      PrependByRatio(x, s);
      [x] + s
    else
      var t := InsertByRatio(x, s[1..]);
      assert s == [s[0]] + s[1..];
      forall j | 0 <= j < |t| ensures !RatioGreater(t[j], s[0]) && t[j].weight > 0 {
        assert t[j] in multiset(t);
        assert t[j] == x || t[j] in s[1..];
      }
      PrependByRatio(s[0], t);
      [s[0]] + t
  }

  /** `items.iter().sorted_by(|a, b| ratio_b.partial_cmp(ratio_a))`: stable, greatest ratio first. */
  function SortByRatio(s: seq<Item>): (r: seq<Item>)
    requires PositiveWeights(s)
    ensures SortedByRatio(r) && PositiveWeights(r)
    ensures multiset(r) == multiset(s)
    ensures |r| == |s|
  {
    if s == [] then []
    else
      assert s == [s[0]] + s[1..];
      var r := InsertByRatio(s[0], SortByRatio(s[1..]));
      assert |multiset(r)| == |multiset(s)|;
      r
  }

  /** Input already in ratio order comes out unchanged. */
  lemma {:induction false} SortByRatioOfSorted(s: seq<Item>)
    requires PositiveWeights(s) && SortedByRatio(s)
    ensures SortByRatio(s) == s
  {
    if s != [] {
      SortByRatioOfSorted(s[1..]);
      assert s == [s[0]] + s[1..];
    }
  }

  /** The items of `s` whose ratio equals that of `r`, in their order in `s`. */
  function RatioClass(s: seq<Item>, r: Item): seq<Item>
  {
    if s == [] then [] else (if SameRatio(s[0], r) then [s[0]] else []) + RatioClass(s[1..], r)
  }

  lemma {:induction false} InsertByRatioStable(x: Item, s: seq<Item>, r: Item)
    requires x.weight > 0 && r.weight > 0 && PositiveWeights(s) && SortedByRatio(s)
    ensures RatioClass(InsertByRatio(x, s), r) == RatioClass([x] + s, r)
  {
    if s == [] || !RatioGreater(s[0], x) {
    } else {
      var s' := s[1..];
      InsertByRatioStable(x, s', r);
      assert ([s[0]] + InsertByRatio(x, s'))[1..] == InsertByRatio(x, s');
      assert ([x] + s')[1..] == s';
      assert ([x] + s)[1..] == s;
      if SameRatio(s[0], r) && SameRatio(x, r) {
        SameRatioTransitive(s[0], r, x);
        assert false;
      }
    }
  }

  /** Stability: items with equal ratios keep their input order. */
  lemma {:induction false} SortByRatioStable(s: seq<Item>, r: Item)
    requires PositiveWeights(s) && r.weight > 0
    ensures RatioClass(SortByRatio(s), r) == RatioClass(s, r)
  {
    if s != [] {
      SortByRatioStable(s[1..], r);
      InsertByRatioStable(s[0], SortByRatio(s[1..]), r);
      assert ([s[0]] + SortByRatio(s[1..]))[1..] == SortByRatio(s[1..]);
    }
  }
}

/** Items of the knapsack solver, their weight and value totals, and the
    relations between an item sequence and its sub-selections. */
module KnapsackItems {

  const I32_MIN: int := -0x8000_0000
  const I32_MAX: int := 0x7fff_ffff

  /** Largest weight or value an item is given when it is randomised. */
  const MAX_FIELD: int := 100
  /** Largest item count for which no total of MAX_FIELD-bounded fields can leave i32. */
  const MAX_ITEMS: int := I32_MAX / MAX_FIELD

  /** `knapsack::Item`: a weight and a value. */
  datatype Item = Item(weight: int, value: int)

  /** Sum of the weights, as `iter().map(|item| item.weight).sum()`. */
  function Weight(s: seq<Item>): int
  {
    if s == [] then 0 else s[0].weight + Weight(s[1..])
  }

  /** Sum of the values, as `iter().map(|item| item.value).sum()`. */
  function Value(s: seq<Item>): int
  {
    if s == [] then 0 else s[0].value + Value(s[1..])
  }

  /** The inputs for which every sum the solver forms stays inside i32:
      the limit is an i32, there are at most MAX_ITEMS items and every weight
      and value lies in 0..=MAX_FIELD. */
  predicate ItemsFitI32(items: seq<Item>, limit: int)
  {
    && I32_MIN <= limit <= I32_MAX
    && |items| <= MAX_ITEMS
    && forall i :: 0 <= i < |items| ==> 0 <= items[i].weight <= MAX_FIELD && 0 <= items[i].value <= MAX_FIELD
  }

  predicate NonNegativeWeights(items: seq<Item>)
  {
    forall i :: 0 <= i < |items| ==> items[i].weight >= 0
  }

  predicate PositiveWeights(items: seq<Item>)
  {
    forall i :: 0 <= i < |items| ==> items[i].weight > 0
  }

  /** `c` is obtained from `s` by dropping items: its items occur in `s` in the same order. */
  predicate IsSubsequence(c: seq<Item>, s: seq<Item>)
    decreases |s|
  {
    if c == [] then true
    else if s == [] then false
    else (c[0] == s[0] && IsSubsequence(c[1..], s[1..])) || IsSubsequence(c, s[1..])
  }

  /** `s` without its element at position `j`. */
  function RemoveAt(s: seq<Item>, j: nat): (r: seq<Item>)
    requires j < |s|
    ensures |r| == |s| - 1
    ensures multiset(r) == multiset(s) - multiset{s[j]}
    ensures multiset(s) == multiset(r) + multiset{s[j]}
  {
    assert s == s[..j] + [s[j]] + s[j+1..];
    s[..j] + s[j+1..]
  }

  /** A position at which `x` occurs in `s`. */
  lemma IndexOf(s: seq<Item>, x: Item) returns (j: nat)
    requires x in multiset(s)
    ensures j < |s| && s[j] == x
  {
    j :| 0 <= j < |s| && s[j] == x;
  }

  /** Whether the running total passes the take-while test: `<` when `strict`, `<=` otherwise. */
  predicate Passes(total: int, limit: int, strict: bool)
  {
    if strict then total < limit else total <= limit
  }

  /** How many leading items of `s` a `take_while` keeps whose closure adds each
      item's weight to a running sum (starting at `sum`) and tests it against `limit`. */
  function TakeWhileCount(s: seq<Item>, limit: int, sum: int, strict: bool): (k: nat)
    ensures k <= |s|
    ensures forall m :: 1 <= m <= k ==> Passes(sum + Weight(s[..m]), limit, strict)
    ensures k < |s| ==> !Passes(sum + Weight(s[..k+1]), limit, strict)
  {
    if s == [] then 0
    else if Passes(sum + s[0].weight, limit, strict) then
      var k' := TakeWhileCount(s[1..], limit, sum + s[0].weight, strict);
      assert forall m :: 1 <= m <= |s| ==> Weight(s[..m]) == s[0].weight + Weight(s[1..][..m-1]) by {
        forall m | 1 <= m <= |s| ensures Weight(s[..m]) == s[0].weight + Weight(s[1..][..m-1]) {
          assert s[..m][1..] == s[1..][..m-1];
        }
      }
      1 + k'
    else
      assert s[..1][1..] == [];
      0
  }

  /** The two conditions of TakeWhileCount's contract determine the count. */
  lemma TakeWhileCountUnique(s: seq<Item>, limit: int, sum: int, strict: bool, k: nat)
    requires k <= |s|
    requires forall m :: 1 <= m <= k ==> Passes(sum + Weight(s[..m]), limit, strict)
    requires k < |s| ==> !Passes(sum + Weight(s[..k+1]), limit, strict)
    ensures k == TakeWhileCount(s, limit, sum, strict)
  {
  }

  /** A take-while whose first item already fails keeps nothing. */
  lemma TakeWhileStopsAtOnce(s: seq<Item>, limit: int, sum: int, strict: bool)
    requires s == [] || !Passes(sum + s[0].weight, limit, strict)
    ensures TakeWhileCount(s, limit, sum, strict) == 0
  {
  }

  lemma {:induction false} TotalsAppend(a: seq<Item>, b: seq<Item>)
    ensures Weight(a + b) == Weight(a) + Weight(b)
    ensures Value(a + b) == Value(a) + Value(b)
  {
    if a != [] {
      assert (a + b)[1..] == a[1..] + b;
      TotalsAppend(a[1..], b);
    } else {
      assert a + b == b;
    }
  }

  /** Extending a prefix by one item adds that item's weight and value. */
  lemma PrefixTotalsStep(s: seq<Item>, k: nat)
    requires k < |s|
    ensures Weight(s[..k+1]) == Weight(s[..k]) + s[k].weight
    ensures Value(s[..k+1]) == Value(s[..k]) + s[k].value
  {
    assert s[..k+1] == s[..k] + [s[k]];
    TotalsAppend(s[..k], [s[k]]);
  }

  lemma TotalsRemoveAt(s: seq<Item>, j: nat)
    requires j < |s|
    ensures Weight(s) == s[j].weight + Weight(RemoveAt(s, j))
    ensures Value(s) == s[j].value + Value(RemoveAt(s, j))
  {
    assert Weight(s) == Weight(s[..j]) + Weight(s[j..]) && Value(s) == Value(s[..j]) + Value(s[j..]) by {
      assert s == s[..j] + s[j..];
      TotalsAppend(s[..j], s[j..]);
    }
    assert s[j..][1..] == s[j+1..];
    TotalsAppend(s[..j], s[j+1..]);
  }

  /** Weight and value do not depend on the order of the items. */
  lemma {:induction false} TotalsOfPermutation(a: seq<Item>, b: seq<Item>)
    requires multiset(a) == multiset(b)
    ensures Weight(a) == Weight(b) && Value(a) == Value(b)
    decreases |a|
  {
    if a != [] {
      assert a[0] in multiset(b);
      var j :| 0 <= j < |b| && b[j] == a[0];
      assert a == [a[0]] + a[1..];
      assert multiset(a[1..]) == multiset(a) - multiset{a[0]};
      TotalsOfPermutation(a[1..], RemoveAt(b, j));
      TotalsRemoveAt(b, j);
    } else {
      assert b == [];
    }
  }

  /** The items of a subsequence are a sub-multiset of the items it is taken from. */
  lemma {:induction false} SubsequenceIsSubMultiset(c: seq<Item>, s: seq<Item>)
    requires IsSubsequence(c, s)
    ensures multiset(c) <= multiset(s)
    decreases |s|
  {
    if c != [] {
      assert s == [s[0]] + s[1..];
      if c[0] == s[0] && IsSubsequence(c[1..], s[1..]) {
        SubsequenceIsSubMultiset(c[1..], s[1..]);
        assert c == [c[0]] + c[1..];
      } else {
        SubsequenceIsSubMultiset(c, s[1..]);
      }
    }
  }

  /** Every sub-multiset of `s` is a reordering of some subsequence of `s`. */
  lemma {:induction false} SubsequenceOf(t: seq<Item>, s: seq<Item>) returns (c: seq<Item>)
    requires multiset(t) <= multiset(s)
    ensures IsSubsequence(c, s) && multiset(c) == multiset(t)
    decreases |s|
  {
    if s == [] {
      c := [];
    } else {
      assert multiset(s) == multiset{s[0]} + multiset(s[1..]) by {
        assert s == [s[0]] + s[1..];
      }
      if s[0] in multiset(t) {
        var j :| 0 <= j < |t| && t[j] == s[0];
        var t' := RemoveAt(t, j);
        assert multiset(t') <= multiset(s[1..]);
        var c' := SubsequenceOf(t', s[1..]);
        c := [s[0]] + c';
        assert c[0] == s[0] && c[1..] == c';
        assert multiset(c) == multiset{s[0]} + multiset(c');
        assert multiset(t) == multiset(t') + multiset{s[0]};
      } else {
        assert multiset(t) <= multiset(s[1..]);
        c := SubsequenceOf(t, s[1..]);
      }
    }
  }

  lemma PrefixIsSubMultiset(s: seq<Item>, k: nat)
    requires k <= |s|
    ensures multiset(s[..k]) <= multiset(s)
  {
    assert s == s[..k] + s[k..];
    assert multiset(s) == multiset(s[..k]) + multiset(s[k..]);
  }

  lemma SubMultisetLength(c: seq<Item>, s: seq<Item>)
    requires multiset(c) <= multiset(s)
    ensures |c| <= |s|
  {
    var rest := multiset(s) - multiset(c);
    assert multiset(s) == multiset(c) + rest;
    assert |multiset(s)| == |multiset(c)| + |rest|;
    assert |multiset(c)| == |c| && |multiset(s)| == |s|;
  }

  lemma {:induction false} TotalsBounded(c: seq<Item>)
    requires forall x :: x in c ==> 0 <= x.weight <= MAX_FIELD && 0 <= x.value <= MAX_FIELD
    ensures 0 <= Weight(c) <= MAX_FIELD * |c| && 0 <= Value(c) <= MAX_FIELD * |c|
  {
    if c != [] {
      TotalsBounded(c[1..]);
    }
  }

  /** Under ItemsFitI32, no selection of the items has a weight or value sum outside i32. */
  lemma SelectionTotalsFitI32(items: seq<Item>, limit: int, c: seq<Item>)
    requires ItemsFitI32(items, limit)
    requires multiset(c) <= multiset(items)
    ensures 0 <= Weight(c) <= I32_MAX && 0 <= Value(c) <= I32_MAX
  {
    SubMultisetLength(c, items);
    forall x | x in c ensures 0 <= x.weight <= MAX_FIELD && 0 <= x.value <= MAX_FIELD {
      assert x in multiset(items);
    }
    TotalsBounded(c);
  }

  /** Under ItemsFitI32, every prefix of a reordering of the items (a running
      sum of the solver) stays inside i32. */
  lemma PrefixTotalsFitI32(items: seq<Item>, limit: int, s: seq<Item>, m: nat)
    requires ItemsFitI32(items, limit)
    requires multiset(s) == multiset(items) && m <= |s|
    ensures 0 <= Weight(s[..m]) <= I32_MAX && 0 <= Value(s[..m]) <= I32_MAX
  {
    PrefixIsSubMultiset(s, m);
    SelectionTotalsFitI32(items, limit, s[..m]);
  }
}

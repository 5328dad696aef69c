/**
 The records of the approximate solver (solutions/efficient-solution.py):
 an item tagged with its position in the kernelised list, and a mule with
 its running value and weight totals, its capacity and its item list.
 Also the bookkeeping the proofs need: sums over item lists, the multiset
 of all assigned items, and the sum of squared mule values.
 */
module Mules {
  import opened Numbers

  /** `(value, weight, original_index)`. */
  datatype Tagged = Tagged(value: int, weight: int, index: nat)

  /** `{'value', 'weight', 'capacity', 'items'}`. */
  datatype Mule = Mule(value: int, weight: int, capacity: int, items: seq<Tagged>)

  /**
   Sum of values over a mule's list. It recurses from the back because
   lists grow by appending; `Cargo.SumValues` sums the untagged input from
   the front, the order in which the exact search consumes it.
   */
  function ItemValues(s: seq<Tagged>): int
  {
    if |s| == 0 then 0 else ItemValues(s[..|s| - 1]) + s[|s| - 1].value
  }

  /** Sum of weights over a mule's list, in the same order as ItemValues. */
  function ItemWeights(s: seq<Tagged>): int
  {
    if |s| == 0 then 0 else ItemWeights(s[..|s| - 1]) + s[|s| - 1].weight
  }

  /** The running totals agree with the item list. */
  predicate Tallied(m: Mule)
  {
    m.value == ItemValues(m.items) && m.weight == ItemWeights(m.items)
  }

  /** Within capacity, holding only items of non-negative weight. */
  predicate Loadable(m: Mule)
  {
    m.weight <= m.capacity && forall t :: t in m.items ==> t.weight >= 0
  }

  predicate AllTallied(ms: seq<Mule>)
  {
    forall k :: 0 <= k < |ms| ==> Tallied(ms[k])
  }

  predicate AllLoadable(ms: seq<Mule>)
  {
    forall k :: 0 <= k < |ms| ==> Loadable(ms[k])
  }

  function Capacities(ms: seq<Mule>): (cs: seq<int>)
    ensures |cs| == |ms|
    ensures forall k :: 0 <= k < |ms| ==> cs[k] == ms[k].capacity
  {
    seq(|ms|, k requires 0 <= k < |ms| => ms[k].capacity)
  }

  /**
   The mules' values in mule order: `ExactSearch.Values` for the
   approximate solver's mule records, a different type from the exact
   search's tallies.
   */
  function MuleValues(ms: seq<Mule>): (vs: seq<int>)
    ensures |vs| == |ms|
    ensures forall k :: 0 <= k < |ms| ==> vs[k] == ms[k].value
  {
    seq(|ms|, k requires 0 <= k < |ms| => ms[k].value)
  }

  /** `max(mule['value']) - min(mule['value'])`. */
  function MuleSpread(ms: seq<Mule>): (d: int)
    requires |ms| > 0
    ensures d >= 0
    ensures forall j, k :: 0 <= j < |ms| && 0 <= k < |ms| ==> ms[j].value - ms[k].value <= d
  {
    Spread(MuleValues(ms))
  }

  /** Every item held by some mule, with multiplicity. */
  function AllItems(ms: seq<Mule>): multiset<Tagged>
  {
    if |ms| == 0 then multiset{} else AllItems(ms[..|ms| - 1]) + multiset(ms[|ms| - 1].items)
  }

  function Square(x: int): nat
  {
    x * x
  }

  /** Sum of squared mule values: the measure the local search decreases. */
  function SumSquares(ms: seq<Mule>): nat
  {
    if |ms| == 0 then 0 else SumSquares(ms[..|ms| - 1]) + Square(ms[|ms| - 1].value)
  }

  /** Fresh mules `{'value': 0, 'weight': 0, 'capacity': c, 'items': []}`. */
  function EmptyMules(caps: seq<int>): (ms: seq<Mule>)
    ensures |ms| == |caps|
    ensures forall k :: 0 <= k < |caps| ==> ms[k] == Mule(0, 0, caps[k], [])
  {
    seq(|caps|, k requires 0 <= k < |caps| => Mule(0, 0, caps[k], []))
  }

  // ---------------------------------------------------------------------
  // Sums over item lists
  // ---------------------------------------------------------------------

  lemma {:induction false} ItemSumsAppend(s: seq<Tagged>, t: seq<Tagged>)
    ensures ItemValues(s + t) == ItemValues(s) + ItemValues(t)
    ensures ItemWeights(s + t) == ItemWeights(s) + ItemWeights(t)
    decreases |t|
  {
    if |t| > 0 {
      assert (s + t)[..|s + t| - 1] == s + t[..|t| - 1];
      ItemSumsAppend(s, t[..|t| - 1]);
    } else {
      assert s + t == s;
    }
  }

  lemma ItemSumsSingle(x: Tagged)
    ensures ItemValues([x]) == x.value && ItemWeights([x]) == x.weight
  {
    assert [x][..0] == [];
  }

  /** Removing position `i` takes that item's value and weight off the sums. */
  lemma ItemSumsRemove(s: seq<Tagged>, i: nat)
    requires i < |s|
    ensures ItemValues(s[..i] + s[i + 1..]) == ItemValues(s) - s[i].value
    ensures ItemWeights(s[..i] + s[i + 1..]) == ItemWeights(s) - s[i].weight
  {
    var pre, post := s[..i], s[i + 1..];
    assert s == (pre + [s[i]]) + post by {
      assert s == s[..i] + s[i..];
      assert s[i..] == [s[i]] + post;
    }
    ItemSumsSplice(pre, s[i], post);
  }

  /** The sums of `pre + [x] + post` are those of `pre + post` plus `x`'s. */
  lemma ItemSumsSplice(pre: seq<Tagged>, x: Tagged, post: seq<Tagged>)
    ensures ItemValues((pre + [x]) + post) == ItemValues(pre + post) + x.value
    ensures ItemWeights((pre + [x]) + post) == ItemWeights(pre + post) + x.weight
  {
    ItemSumsAppend(pre + [x], post);
    ItemSumsAppend(pre, [x]);
    ItemSumsAppend(pre, post);
    ItemSumsSingle(x);
  }

  /** Overwriting position `i` with `x` swaps that item's value and weight in the sums. */
  lemma ItemSumsReplace(s: seq<Tagged>, i: nat, x: Tagged)
    requires i < |s|
    ensures ItemValues(s[i := x]) == ItemValues(s) - s[i].value + x.value
    ensures ItemWeights(s[i := x]) == ItemWeights(s) - s[i].weight + x.weight
  {
    assert s == (s[..i] + [s[i]]) + s[i + 1..];
    assert s[i := x] == (s[..i] + [x]) + s[i + 1..];
    ItemSumsSplice(s[..i], s[i], s[i + 1..]);
    ItemSumsSplice(s[..i], x, s[i + 1..]);
  }

  // ---------------------------------------------------------------------
  // The three ways one mule's list changes
  // ---------------------------------------------------------------------

  /** Append an item: both totals grow by the item's. */
  function Load(m: Mule, t: Tagged): Mule
  {
    Mule(m.value + t.value, m.weight + t.weight, m.capacity, m.items + [t])
  }

  /** `items.pop(i)`: both totals shrink by the removed item's. */
  function Unload(m: Mule, i: nat): Mule
    requires i < |m.items|
  {
    var t := m.items[i];
    Mule(m.value - t.value, m.weight - t.weight, m.capacity, m.items[..i] + m.items[i + 1..])
  }

  /** `items[i] = x`: the totals trade the old item's for `x`'s. */
  function Exchange(m: Mule, i: nat, x: Tagged): Mule
    requires i < |m.items|
  {
    var t := m.items[i];
    Mule(m.value + x.value - t.value, m.weight + x.weight - t.weight, m.capacity, m.items[i := x])
  }

  lemma LoadKeeps(m: Mule, t: Tagged)
    ensures multiset(Load(m, t).items) == multiset(m.items) + multiset{t}
    ensures Tallied(m) ==> Tallied(Load(m, t))
    ensures Loadable(m) && t.weight >= 0 && m.weight + t.weight <= m.capacity ==> Loadable(Load(m, t))
  {
    ItemSumsAppend(m.items, [t]);
    ItemSumsSingle(t);
  }

  lemma UnloadKeeps(m: Mule, i: nat)
    requires i < |m.items|
    ensures multiset(Unload(m, i).items) + multiset{m.items[i]} == multiset(m.items)
    ensures Tallied(m) ==> Tallied(Unload(m, i))
    ensures Loadable(m) ==> Loadable(Unload(m, i))
  {
    var s := m.items;
    assert s == s[..i] + [s[i]] + s[i + 1..];
    ItemSumsRemove(s, i);
    assert forall x :: x in s[..i] + s[i + 1..] ==> x in s;
    assert s[i] in s;
  }

  lemma ExchangeKeeps(m: Mule, i: nat, x: Tagged)
    requires i < |m.items|
    ensures multiset(Exchange(m, i, x).items) + multiset{m.items[i]} == multiset(m.items) + multiset{x}
    ensures Tallied(m) ==> Tallied(Exchange(m, i, x))
    ensures Loadable(m) && x.weight >= 0 && Exchange(m, i, x).weight <= m.capacity ==> Loadable(Exchange(m, i, x))
  {
    var s := m.items;
    ItemSumsReplace(s, i, x);
    assert forall y :: y in s[i := x] ==> y in s || y == x;
    assert s[i] in multiset(s);
  }

  // ---------------------------------------------------------------------
  // Updating one mule
  // ---------------------------------------------------------------------

  lemma {:induction false} AllItemsUpdate(ms: seq<Mule>, k: nat, m: Mule)
    requires k < |ms|
    ensures AllItems(ms[k := m]) + multiset(ms[k].items) == AllItems(ms) + multiset(m.items)
    decreases |ms|
  {
    var n := |ms| - 1;
    if k < n {
      assert ms[k := m][..n] == ms[..n][k := m];
      assert ms[k := m][n] == ms[n] && ms[..n][k] == ms[k];
      AllItemsUpdate(ms[..n], k, m);
      calc {
        AllItems(ms[k := m]) + multiset(ms[k].items);
        AllItems(ms[..n][k := m]) + multiset(ms[n].items) + multiset(ms[k].items);
        (AllItems(ms[..n][k := m]) + multiset(ms[..n][k].items)) + multiset(ms[n].items);
        (AllItems(ms[..n]) + multiset(m.items)) + multiset(ms[n].items);
        AllItems(ms) + multiset(m.items);
      }
    } else {
      assert ms[k := m][..n] == ms[..n];
    }
  }

  lemma {:induction false} SumSquaresUpdate(ms: seq<Mule>, k: nat, m: Mule)
    requires k < |ms|
    ensures SumSquares(ms[k := m]) + Square(ms[k].value) == SumSquares(ms) + Square(m.value)
    decreases |ms|
  {
    var n := |ms| - 1;
    if k < n {
      assert ms[k := m][..n] == ms[..n][k := m];
      SumSquaresUpdate(ms[..n], k, m);
    } else {
      assert ms[k := m][..n] == ms[..n];
    }
  }

  lemma {:induction false} EmptyMulesHoldNothing(caps: seq<int>)
    ensures AllItems(EmptyMules(caps)) == multiset{}
    decreases |caps|
  {
    if |caps| > 0 {
      var n := |caps| - 1;
      assert EmptyMules(caps)[..n] == EmptyMules(caps[..n]);
      EmptyMulesHoldNothing(caps[..n]);
    }
  }
}

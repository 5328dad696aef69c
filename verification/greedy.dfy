/**
 The constructive stage of `efficient_solution` (solutions/efficient-solution.py):
 tag each kernelised item with its position, order the tagged items by value,
 highest first and stably, then give each item in turn to the lowest-value
 mule that still has room, or record it as unassigned when none has.
 */
module Greedy {
  import opened Wrappers
  import opened Cargo
  import opened Mules

  // ---------------------------------------------------------------------
  // Tagging and ordering
  // ---------------------------------------------------------------------

  /** `[(value, weight, idx) for idx, (value, weight) in enumerate(items)]`. */
  function Enumerate(items: seq<Item>): (r: seq<Tagged>)
    ensures |r| == |items|
    ensures forall i :: 0 <= i < |items| ==> r[i] == Tagged(items[i].value, items[i].weight, i)
    ensures IndicesAscending(r)
  {
    seq(|items|, i requires 0 <= i < |items| => Tagged(items[i].value, items[i].weight, i))
  }

  /** Tags strictly increase along the sequence (true of a fresh enumeration). */
  predicate IndicesAscending(s: seq<Tagged>)
  {
    forall i, j :: 0 <= i < j < |s| ==> s[i].index < s[j].index
  }

  /** `a` is placed before `b`: higher value first, equal values by ascending tag. */
  predicate Before(a: Tagged, b: Tagged)
  {
    a.value > b.value || (a.value == b.value && a.index < b.index)
  }

  /**
   The order a stable sort by value, descending, produces on input whose tags
   ascend: each entry is Before the next.
   */
  predicate Ranked(s: seq<Tagged>)
  {
    forall i :: 0 < i < |s| ==> Before(s[i - 1], s[i])
  }

  /** Ranked is the pairwise order: every entry is Before every later one. */
  lemma {:induction false} RankedPairwise(s: seq<Tagged>)
    requires Ranked(s)
    ensures forall i, j :: 0 <= i < j < |s| ==> Before(s[i], s[j])
    decreases |s|
  {
    if |s| > 1 {
      var n := |s| - 1;
      assert Ranked(s[..n]);
      RankedPairwise(s[..n]);
      forall i | 0 <= i < n
        ensures Before(s[i], s[n])
      {
        assert s[..n][i] == s[i];
        if i < n - 1 {
          assert Before(s[..n][i], s[..n][n - 1]);
        }
      }
    }
  }

  /** Before is a strict order: never both ways. */
  lemma BeforeAsymmetric(a: Tagged, b: Tagged)
    ensures !(Before(a, b) && Before(b, a))
  {
  }

  /**
   A ranked order is determined by its contents: two ranked sequences with
   the same items are equal. So the sorted order is the only one a stable
   value-descending sort can produce.
   */
  lemma {:induction false} RankedUnique(a: seq<Tagged>, b: seq<Tagged>)
    requires Ranked(a) && Ranked(b) && multiset(a) == multiset(b)
    ensures a == b
    decreases |a|
  {
    if |a| > 0 {
      assert |b| == |multiset(b)| == |a|;
      RankedPairwise(a);
      RankedPairwise(b);
      assert b[0] in multiset(a) && a[0] in multiset(b);
      var i :| 0 <= i < |a| && a[i] == b[0];
      var j :| 0 <= j < |b| && b[j] == a[0];
      assert i == 0 || Before(a[0], a[i]);
      assert j == 0 || Before(b[0], b[j]);
      BeforeAsymmetric(a[0], b[0]);
      assert a == [a[0]] + a[1..] && b == [b[0]] + b[1..];
      assert multiset(a) == multiset{a[0]} + multiset(a[1..]);
      assert multiset(b) == multiset{b[0]} + multiset(b[1..]);
      forall y
        ensures multiset(a[1..])[y] == multiset(b[1..])[y]
      {
        assert (multiset{a[0]} + multiset(a[1..]))[y] == (multiset{b[0]} + multiset(b[1..]))[y];
      }
      RankedTail(a);
      RankedTail(b);
      RankedUnique(a[1..], b[1..]);
    }
  }

  /** A ranked sequence stays ranked when an entry that goes before its head is put in front. */
  lemma RankedCons(a: Tagged, s: seq<Tagged>)
    requires Ranked(s)
    requires |s| > 0 ==> Before(a, s[0])
    ensures Ranked([a] + s)
  {
    var r := [a] + s;
    forall i | 0 < i < |r|
      ensures Before(r[i - 1], r[i])
    {
      if i > 1 {
        assert r[i - 1] == s[i - 2] && r[i] == s[i - 1];
      }
    }
  }

  lemma RankedTail(s: seq<Tagged>)
    requires Ranked(s) && |s| > 0
    ensures Ranked(s[1..])
    ensures |s| > 1 ==> Before(s[0], s[1])
  {
    forall i | 0 < i < |s| - 1
      ensures Before(s[1..][i - 1], s[1..][i])
    {
      assert s[1..][i - 1] == s[i] && s[1..][i] == s[i + 1];
    }
  }

  /** Insert `x` before the first element whose value does not exceed its own. */
  function Insert(x: Tagged, t: seq<Tagged>): (r: seq<Tagged>)
    requires Ranked(t)
    requires forall y :: y in t ==> x.index < y.index
    ensures multiset(r) == multiset(t) + multiset{x}
    ensures |r| == |t| + 1
    ensures r[0] == x || (|t| > 0 && r[0] == t[0])
    ensures Ranked(r)
  {
    if |t| == 0 || x.value >= t[0].value then
      assert |t| > 0 ==> t[0] in t;
      RankedCons(x, t);
      [x] + t
    else
      assert forall y :: y in t[1..] ==> y in t;
      RankedTail(t);
      var rest := Insert(x, t[1..]);
      assert t == [t[0]] + t[1..];
      RankedCons(t[0], rest);
      [t[0]] + rest
  }

  /**
   `sorted(..., key=lambda x: x[0], reverse=True)`: Python's sort is stable
   also in reverse, so items of equal value keep their input order.
   */
  function SortByValue(s: seq<Tagged>): (r: seq<Tagged>)
    requires IndicesAscending(s)
    ensures multiset(r) == multiset(s)
    ensures |r| == |s|
    ensures Ranked(r)
  {
    if |s| == 0 then []
    else
      LaterTags(s);
      var rest := SortByValue(s[1..]);
      SortedTailAfterHead(s, rest);
      Insert(s[0], rest)
  }

  /** Whatever order the tail is sorted into, the head's tag is below all of it. */
  lemma SortedTailAfterHead(s: seq<Tagged>, rest: seq<Tagged>)
    requires IndicesAscending(s) && |s| > 0
    requires multiset(rest) == multiset(s[1..])
    ensures forall y :: y in rest ==> s[0].index < y.index
    ensures multiset(s) == multiset(rest) + multiset{s[0]}
  {
    LaterTags(s);
    forall y | y in rest
      ensures s[0].index < y.index
    {
      assert y in multiset(s[1..]);
    }
    assert s == [s[0]] + s[1..];
  }

  /** The tail of an ascending enumeration ascends, and its head's tag is below all of it. */
  lemma LaterTags(s: seq<Tagged>)
    requires IndicesAscending(s) && |s| > 0
    ensures IndicesAscending(s[1..])
    ensures forall y :: y in s[1..] ==> s[0].index < y.index
  {
    forall i, j | 0 <= i < j < |s| - 1
      ensures s[1..][i].index < s[1..][j].index
    {
      assert s[1..][i] == s[i + 1] && s[1..][j] == s[j + 1];
    }
  }

  /**
   The order greedy sees: every entry's tag is its position in the
   kernelised list, whose item it carries, and the entries are a
   permutation of that list's enumeration ordered by value.
   */
  lemma SortedTagsPointBack(valid: seq<Item>)
    ensures var order := SortByValue(Enumerate(valid));
      && multiset(order) == multiset(Enumerate(valid))
      && Ranked(order)
      && forall t :: t in order ==>
           0 <= t.index < |valid| && valid[t.index] == Item(t.value, t.weight)
  {
    var order := SortByValue(Enumerate(valid));
    forall t | t in order
      ensures 0 <= t.index < |valid| && valid[t.index] == Item(t.value, t.weight)
    {
      assert t in multiset(Enumerate(valid));
      var i :| 0 <= i < |valid| && Enumerate(valid)[i] == t;
    }
  }

  // ---------------------------------------------------------------------
  // Choosing a mule
  // ---------------------------------------------------------------------

  /**
   The room test (solutions/efficient-solution.py:41) on a mule record; `ExactSearch.Fits` is the
   same test on the exact search's (value, weight) tallies, which carry no
   capacity of their own.
   */
  predicate HasRoom(m: Mule, w: int)
  {
    m.weight + w <= m.capacity
  }

  /**
   Mule `j` comes no later than mule `k` in
   `sorted(range(mule_count), key=value)` (stable: ties by index).
   */
  predicate Precedes(ms: seq<Mule>, j: nat, k: nat)
    requires j < |ms| && k < |ms|
  {
    ms[j].value < ms[k].value || (ms[j].value == ms[k].value && j <= k)
  }

  /** Scan mules `k..` for the earliest in that order with room, given the best so far. */
  function ChooseFrom(ms: seq<Mule>, w: int, k: nat, best: Option<nat>): (r: Option<nat>)
    requires k <= |ms|
    requires best.Some? ==> best.value < k && HasRoom(ms[best.value], w)
    requires best.Some? ==> forall i :: 0 <= i < k && HasRoom(ms[i], w) ==> Precedes(ms, best.value, i)
    requires best.None? ==> forall i :: 0 <= i < k ==> !HasRoom(ms[i], w)
    ensures r.Some? ==> r.value < |ms| && HasRoom(ms[r.value], w)
    ensures r.Some? ==> forall i :: 0 <= i < |ms| && HasRoom(ms[i], w) ==> Precedes(ms, r.value, i)
    ensures r.None? ==> forall i :: 0 <= i < |ms| ==> !HasRoom(ms[i], w)
    decreases |ms| - k
  {
    if k == |ms| then best
    else if HasRoom(ms[k], w) && (best.None? || ms[k].value < ms[best.value].value) then
      assert forall i :: 0 <= i < k && HasRoom(ms[i], w) ==> Precedes(ms, k, i) by {
        forall i | 0 <= i < k && HasRoom(ms[i], w)
          ensures Precedes(ms, k, i)
        {
          assert Precedes(ms, best.value, i);
        }
      }
      ChooseFrom(ms, w, k + 1, Some(k))
    else
      ChooseFrom(ms, w, k + 1, best)
  }

  /**
   The mule the inner `for mule_idx in mule_indices_by_value` loop breaks
   on: the first mule, by value then index, with room for weight `w`; None
   exactly when no mule has room.
   */
  function ChooseMule(ms: seq<Mule>, w: int): (r: Option<nat>)
    ensures r.Some? ==> r.value < |ms| && HasRoom(ms[r.value], w)
    ensures r.Some? ==> forall i :: 0 <= i < |ms| && HasRoom(ms[i], w) ==> Precedes(ms, r.value, i)
    ensures r.None? <==> forall i :: 0 <= i < |ms| ==> !HasRoom(ms[i], w)
  {
    ChooseFrom(ms, w, 0, None)
  }

  // ---------------------------------------------------------------------
  // The placement loop
  // ---------------------------------------------------------------------

  datatype Placement = Placement(mules: seq<Mule>, unassigned: seq<Tagged>)

  /** The first mule in (value, index) order among those with room for `w`. */
  predicate FirstWithRoom(ms: seq<Mule>, w: int, j: nat)
  {
    j < |ms| && HasRoom(ms[j], w) &&
    forall i :: 0 <= i < |ms| && HasRoom(ms[i], w) ==> Precedes(ms, j, i)
  }

  /** One turn of `for value, weight, original_index in sorted_items`. */
  function GreedyStep(p: Placement, t: Tagged): Placement
  {
    match ChooseMule(p.mules, t.weight)
    case None => Placement(p.mules, p.unassigned + [t])
    case Some(j) => Placement(p.mules[j := Load(p.mules[j], t)], p.unassigned)
  }

  /**
   The item goes to the first mule with room and nothing else changes, or,
   when no mule has room, it is appended to the unassigned list and nothing
   else changes.
   */
  lemma GreedyStepSpec(p: Placement, t: Tagged)
    ensures (forall i :: 0 <= i < |p.mules| ==> !HasRoom(p.mules[i], t.weight)) ==>
              GreedyStep(p, t) == Placement(p.mules, p.unassigned + [t])
    ensures (exists i :: 0 <= i < |p.mules| && HasRoom(p.mules[i], t.weight)) ==>
              && GreedyStep(p, t).unassigned == p.unassigned
              && exists j: nat :: FirstWithRoom(p.mules, t.weight, j) &&
                                  GreedyStep(p, t).mules == p.mules[j := Load(p.mules[j], t)]
  {
    match ChooseMule(p.mules, t.weight)
    case None =>
    case Some(j) =>
      assert FirstWithRoom(p.mules, t.weight, j);
  }

  /** Every item of `order`, in turn. */
  function GreedyPlace(p: Placement, order: seq<Tagged>): Placement
    decreases |order|
  {
    if |order| == 0 then p else GreedyPlace(GreedyStep(p, order[0]), order[1..])
  }

  /** One turn changes neither the number of mules nor their capacities. */
  lemma GreedyStepShape(p: Placement, t: Tagged)
    ensures |GreedyStep(p, t).mules| == |p.mules|
    ensures Capacities(GreedyStep(p, t).mules) == Capacities(p.mules)
  {
  }

  /** One turn moves the item into exactly one mule list or the unassigned list. */
  lemma GreedyStepConserves(p: Placement, t: Tagged)
    ensures AllItems(GreedyStep(p, t).mules) + multiset(GreedyStep(p, t).unassigned) ==
            AllItems(p.mules) + multiset(p.unassigned) + multiset{t}
  {
    var q := GreedyStep(p, t);
    match ChooseMule(p.mules, t.weight)
    case None =>
      assert q == Placement(p.mules, p.unassigned + [t]);
      assert multiset(p.unassigned + [t]) == multiset(p.unassigned) + multiset{t};
    case Some(j) =>
      var m := p.mules[j];
      assert q.mules == p.mules[j := Load(m, t)] && q.unassigned == p.unassigned;
      AllItemsUpdate(p.mules, j, Load(m, t));
      LoadKeeps(m, t);
      var lhs := AllItems(q.mules) + multiset(q.unassigned);
      var rhs := AllItems(p.mules) + multiset(p.unassigned) + multiset{t};
      forall x
        ensures lhs[x] == rhs[x]
      {
        assert (AllItems(q.mules) + multiset(m.items))[x] == (AllItems(p.mules) + multiset(Load(m, t).items))[x];
      }
      assert lhs == rhs;
  }

  /** One turn keeps every mule's totals equal to its item sums and within capacity. */
  lemma GreedyStepTallies(p: Placement, t: Tagged)
    ensures AllTallied(p.mules) ==> AllTallied(GreedyStep(p, t).mules)
    ensures AllLoadable(p.mules) && t.weight >= 0 ==> AllLoadable(GreedyStep(p, t).mules)
  {
    match ChooseMule(p.mules, t.weight)
    case None =>
    case Some(j) =>
      var m := p.mules[j];
      LoadKeeps(m, t);
      var q := GreedyStep(p, t);
      assert q.mules == p.mules[j := Load(m, t)];
  }

  /** Over the whole loop the mule count and capacities stay, and earlier unassigned items stay first. */
  lemma {:induction false} GreedyPlaceShape(p: Placement, order: seq<Tagged>)
    ensures |GreedyPlace(p, order).mules| == |p.mules|
    ensures Capacities(GreedyPlace(p, order).mules) == Capacities(p.mules)
    ensures p.unassigned <= GreedyPlace(p, order).unassigned
    decreases |order|
  {
    if |order| > 0 {
      GreedyStepShape(p, order[0]);
      GreedyPlaceShape(GreedyStep(p, order[0]), order[1..]);
    }
  }

  /** Conservation: every item of `order` ends in exactly one mule list or in the unassigned list. */
  lemma {:induction false} GreedyPlaceConserves(p: Placement, order: seq<Tagged>)
    ensures AllItems(GreedyPlace(p, order).mules) + multiset(GreedyPlace(p, order).unassigned) ==
            AllItems(p.mules) + multiset(p.unassigned) + multiset(order)
    decreases |order|
  {
    if |order| > 0 {
      var p1 := GreedyStep(p, order[0]);
      var q := GreedyPlace(p, order);
      GreedyStepConserves(p, order[0]);
      GreedyPlaceConserves(p1, order[1..]);
      assert order == [order[0]] + order[1..];
      assert multiset(order) == multiset{order[0]} + multiset(order[1..]);
      assert q == GreedyPlace(p1, order[1..]);
      var lhs := AllItems(q.mules) + multiset(q.unassigned);
      var mid := AllItems(p1.mules) + multiset(p1.unassigned);
      var rhs := AllItems(p.mules) + multiset(p.unassigned) + multiset(order);
      forall x
        ensures lhs[x] == rhs[x]
      {
        assert lhs[x] == mid[x] + multiset(order[1..])[x];
        assert mid[x] == (AllItems(p.mules) + multiset(p.unassigned))[x] + multiset{order[0]}[x];
      }
      assert lhs == rhs;
    }
  }

  /**
   Over the whole loop the totals stay equal to the item sums, and mules
   stay within capacity when every item has non-negative weight.
   */
  lemma {:induction false} GreedyPlaceTallies(p: Placement, order: seq<Tagged>)
    ensures AllTallied(p.mules) ==> AllTallied(GreedyPlace(p, order).mules)
    ensures AllLoadable(p.mules) && (forall t :: t in order ==> t.weight >= 0) ==>
            AllLoadable(GreedyPlace(p, order).mules)
    decreases |order|
  {
    if |order| > 0 {
      GreedyStepTallies(p, order[0]);
      GreedyPlaceTallies(GreedyStep(p, order[0]), order[1..]);
      assert forall t :: t in order[1..] ==> t in order;
    }
  }
}

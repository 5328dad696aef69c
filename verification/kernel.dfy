/**
 `kernelization_preprocessing` (solutions/efficient-solution.py): set aside
 every item heavier than the strongest mule's capacity, since no assignment
 can carry it; keep the rest, both lists in input order.
 */
module Kernelization {
  import opened Numbers
  import opened Cargo

  /** The items of weight at most `limit`, in input order. */
  function Light(items: seq<Item>, limit: int): seq<Item>
  {
    if |items| == 0 then []
    else Light(items[..|items| - 1], limit) +
         (if items[|items| - 1].weight <= limit then [items[|items| - 1]] else [])
  }

  /** The items heavier than `limit`, in input order. */
  function Heavy(items: seq<Item>, limit: int): seq<Item>
  {
    if |items| == 0 then []
    else Heavy(items[..|items| - 1], limit) +
         (if items[|items| - 1].weight > limit then [items[|items| - 1]] else [])
  }

  /** Light and Heavy together hold every input item exactly once. */
  lemma {:induction false} SplitCounts(items: seq<Item>, limit: int)
    ensures multiset(Light(items, limit)) + multiset(Heavy(items, limit)) == multiset(items)
    decreases |items|
  {
    if |items| > 0 {
      var n := |items| - 1;
      var init, x := items[..n], items[n];
      var l, h := Light(init, limit), Heavy(init, limit);
      SplitCounts(init, limit);
      assert items == init + [x];
      assert multiset(items) == multiset(init) + multiset{x};
      if x.weight <= limit {
        assert Light(items, limit) == l + [x];
        assert Heavy(items, limit) == h;
        assert multiset(l + [x]) == multiset(l) + multiset{x};
      } else {
        assert Light(items, limit) == l;
        assert Heavy(items, limit) == h + [x];
        assert multiset(h + [x]) == multiset(h) + multiset{x};
      }
    }
  }

  /** Between them Light and Heavy are as long as the input. */
  lemma {:induction false} SplitLengths(items: seq<Item>, limit: int)
    ensures |Light(items, limit)| + |Heavy(items, limit)| == |items|
    decreases |items|
  {
    if |items| > 0 {
      SplitLengths(items[..|items| - 1], limit);
    }
  }

  /** Light holds exactly the input items of weight at most `limit`. */
  lemma {:induction false} LightMembers(items: seq<Item>, limit: int)
    ensures forall x :: x in Light(items, limit) <==> x in items && x.weight <= limit
    decreases |items|
  {
    if |items| > 0 {
      var n := |items| - 1;
      LightMembers(items[..n], limit);
      assert items == items[..n] + [items[n]];
    }
  }

  /** Heavy holds exactly the input items heavier than `limit`. */
  lemma {:induction false} HeavyMembers(items: seq<Item>, limit: int)
    ensures forall x :: x in Heavy(items, limit) <==> x in items && x.weight > limit
    decreases |items|
  {
    if |items| > 0 {
      var n := |items| - 1;
      HeavyMembers(items[..n], limit);
      assert items == items[..n] + [items[n]];
    }
  }

  /**
   Stability: filtering a concatenation filters each part and keeps the
   parts in order, so both lists keep the input order of their items.
   */
  lemma {:induction false} FilterAppend(a: seq<Item>, b: seq<Item>, limit: int)
    ensures Light(a + b, limit) == Light(a, limit) + Light(b, limit)
    ensures Heavy(a + b, limit) == Heavy(a, limit) + Heavy(b, limit)
    decreases |b|
  {
    if |b| == 0 {
      assert a + b == a;
    } else {
      var n := |b| - 1;
      assert (a + b)[..|a + b| - 1] == a + b[..n];
      FilterAppend(a, b[..n], limit);
    }
  }

  /**
   Light and Heavy split the input: each item lands in exactly one of them,
   Light holds exactly the items within `limit`, Heavy exactly the others.
   */
  lemma SplitIsPartition(items: seq<Item>, limit: int)
    ensures multiset(Light(items, limit)) + multiset(Heavy(items, limit)) == multiset(items)
    ensures forall x :: x in Light(items, limit) <==> x in items && x.weight <= limit
    ensures forall x :: x in Heavy(items, limit) <==> x in items && x.weight > limit
    ensures |Light(items, limit)| + |Heavy(items, limit)| == |items|
  {
    SplitCounts(items, limit);
    SplitLengths(items, limit);
    LightMembers(items, limit);
    HeavyMembers(items, limit);
  }

  /** When no item is heavier than `limit`, Light keeps the whole input. */
  lemma {:induction false} LightKeepsAll(items: seq<Item>, limit: int)
    requires forall i :: 0 <= i < |items| ==> items[i].weight <= limit
    ensures Light(items, limit) == items
    decreases |items|
  {
    if |items| > 0 {
      var n := |items| - 1;
      LightKeepsAll(items[..n], limit);
      assert items == items[..n] + [items[n]];
    }
  }

  /**
   The source's loop: with no mules every item is infeasible; otherwise an
   item goes to `infeasible_items` when its weight exceeds the largest
   capacity and to `valid_items` when it does not.
   */
  method Kernelize(items: seq<Item>, caps: seq<int>) returns (valid: seq<Item>, infeasible: seq<Item>)
    ensures |caps| == 0 ==> valid == [] && infeasible == items
    ensures |caps| > 0 ==> valid == Light(items, Max(caps)) && infeasible == Heavy(items, Max(caps))
    ensures multiset(valid) + multiset(infeasible) == multiset(items)
    // an item is kept exactly when some mule could carry it on its own
    ensures forall x :: x in valid <==> x in items && exists k :: 0 <= k < |caps| && x.weight <= caps[k]
    ensures forall x :: x in infeasible <==> x in items && forall k :: 0 <= k < |caps| ==> x.weight > caps[k]
  {
    if |caps| == 0 {
      return [], items;
    }
    var limit := Max(caps);
    valid, infeasible := [], [];
    for i := 0 to |items|
      invariant valid == Light(items[..i], limit)
      invariant infeasible == Heavy(items[..i], limit)
    {
      assert items[..i + 1][..i] == items[..i];
      if items[i].weight > limit {
        infeasible := infeasible + [items[i]];
      } else {
        valid := valid + [items[i]];
      }
    }
    assert items[..|items|] == items;
    SplitIsPartition(items, limit);
    forall x | x in items
      ensures (x.weight <= limit) <==> exists k :: 0 <= k < |caps| && x.weight <= caps[k]
    {
      if x.weight <= limit {
        var k := MaxAttained(caps);
      }
    }
  }
}

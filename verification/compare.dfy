/**
 How the two solvers relate. Any loading of mules that holds every item
 exactly once, keeps its totals equal to its item sums and keeps every
 mule within capacity is one of the assignments the exact search ranges
 over, so the exact result is never worse than such a loading's spread.
 */
module Comparison {
  import opened Cargo
  import opened ExactSearch
  import opened Mules
  import opened Greedy

  /** Replaying `a` with one more item at the end places that item last. */
  lemma {:induction false} RunSnoc(items: seq<Item>, idx: nat, states: seq<MuleState>, a: seq<int>, k: nat)
    requires 0 < |items| && idx < |items| && |a| == |items| - 1 - idx
    requires InRange(a, |states|) && k < |states|
    ensures InRange(a + [k], |states|)
    ensures Run(items, idx, states, a + [k]) ==
            Place(Run(items[..|items| - 1], idx, states, a), k, items[|items| - 1])
    decreases |items| - idx
  {
    var n := |items| - 1;
    var b := a + [k];
    assert forall i :: 0 <= i < |b| ==> b[i] == (if i < |a| then a[i] else k);
    if idx < n {
      var next := Place(states, a[0], items[idx]);
      assert b[1..] == a[1..] + [k];
      assert items[..n][idx] == items[idx];
      RunSnoc(items, idx + 1, next, a[1..], k);
    } else {
      assert b == [k];
    }
  }

  /** A mule's item list is part of the multiset of all held items. */
  lemma {:induction false} HeldInAll(ms: seq<Mule>, k: nat)
    requires k < |ms|
    ensures multiset(ms[k].items) <= AllItems(ms)
    decreases |ms|
  {
    var n := |ms| - 1;
    if k < n {
      assert ms[..n][k] == ms[k];
      HeldInAll(ms[..n], k);
    }
  }

  /** Every held item sits at some position of some mule's list. */
  lemma {:induction false} Holder(ms: seq<Mule>, t: Tagged) returns (k: nat, i: nat)
    requires t in AllItems(ms)
    ensures k < |ms| && i < |ms[k].items| && ms[k].items[i] == t
    decreases |ms|
  {
    var n := |ms| - 1;
    if t in multiset(ms[n].items) {
      k := n;
      i :| 0 <= i < |ms[n].items| && ms[n].items[i] == t;
    } else {
      k, i := Holder(ms[..n], t);
      assert ms[..n][k] == ms[k];
    }
  }

  /** Tagging a longer list tags the shorter one and then the last item. */
  lemma EnumerateSnoc(items: seq<Item>)
    requires 0 < |items|
    ensures var n := |items| - 1;
      Enumerate(items) == Enumerate(items[..n]) + [Tagged(items[n].value, items[n].weight, n)]
  {
  }

  /** A tallied loading that holds nothing has every total at zero. */
  lemma EmptyLoading(ms: seq<Mule>)
    requires AllItems(ms) == multiset{} && AllTallied(ms)
    ensures forall k :: 0 <= k < |ms| ==> ms[k].value == 0 && ms[k].weight == 0
  {
    forall k | 0 <= k < |ms|
      ensures ms[k].value == 0 && ms[k].weight == 0
    {
      HeldInAll(ms, k);
      assert |multiset(ms[k].items)| == 0;
      assert ms[k].items == [];
      assert Tallied(ms[k]);
    }
  }

  /** Unloading one item takes exactly that item out of the multiset of all held items. */
  lemma UnloadFromAll(ms: seq<Mule>, k: nat, i: nat)
    requires k < |ms| && i < |ms[k].items|
    ensures AllItems(ms[k := Unload(ms[k], i)]) + multiset{ms[k].items[i]} == AllItems(ms)
  {
    var m := Unload(ms[k], i);
    UnloadKeeps(ms[k], i);
    AllItemsUpdate(ms, k, m);
    forall x
      ensures (AllItems(ms[k := m]) + multiset{ms[k].items[i]})[x] == AllItems(ms)[x]
    {
      assert (AllItems(ms[k := m]) + multiset(ms[k].items))[x] == (AllItems(ms) + multiset(m.items))[x];
      assert multiset(ms[k].items)[x] == multiset(m.items)[x] + multiset{ms[k].items[i]}[x];
    }
  }

  /** Unloading one item keeps every mule's totals equal to its item sums. */
  lemma UnloadTallied(ms: seq<Mule>, k: nat, i: nat)
    requires k < |ms| && i < |ms[k].items|
    requires AllTallied(ms)
    ensures AllTallied(ms[k := Unload(ms[k], i)])
  {
    var rest := ms[k := Unload(ms[k], i)];
    assert Tallied(ms[k]);
    UnloadKeeps(ms[k], i);
    forall j | 0 <= j < |rest|
      ensures Tallied(rest[j])
    {
      if j != k {
        assert Tallied(ms[j]);
      }
    }
  }

  /** Taking the last tag out of the multiset of a tagged list leaves the shorter list's tags. */
  lemma DropLastTag(items: seq<Item>, held: multiset<Tagged>)
    requires 0 < |items|
    requires held + multiset{Tagged(items[|items| - 1].value, items[|items| - 1].weight, |items| - 1)} ==
             multiset(Enumerate(items))
    ensures held == multiset(Enumerate(items[..|items| - 1]))
  {
    var n := |items| - 1;
    var t := Tagged(items[n].value, items[n].weight, n);
    EnumerateSnoc(items);
    assert multiset(Enumerate(items)) == multiset(Enumerate(items[..n])) + multiset{t};
    forall x
      ensures held[x] == multiset(Enumerate(items[..n]))[x]
    {
      assert (held + multiset{t})[x] == (multiset(Enumerate(items[..n])) + multiset{t})[x];
    }
  }

  /**
   Taking the last tagged item out of the mule that holds it leaves a
   tallied loading of the shorter list, and that mule's totals drop by
   the item's.
   */
  lemma PeelLast(items: seq<Item>, ms: seq<Mule>) returns (k: nat, rest: seq<Mule>)
    requires 0 < |items|
    requires AllItems(ms) == multiset(Enumerate(items))
    requires AllTallied(ms)
    ensures k < |ms| && |rest| == |ms|
    ensures AllItems(rest) == multiset(Enumerate(items[..|items| - 1]))
    ensures AllTallied(rest)
    ensures forall j :: 0 <= j < |ms| && j != k ==> rest[j] == ms[j]
    ensures rest[k].value + items[|items| - 1].value == ms[k].value
    ensures rest[k].weight + items[|items| - 1].weight == ms[k].weight
  {
    var n := |items| - 1;
    var t := Tagged(items[n].value, items[n].weight, n);
    assert Enumerate(items)[n] == t;
    var i;
    k, i := Holder(ms, t);
    var m := Unload(ms[k], i);
    rest := ms[k := m];
    UnloadFromAll(ms, k, i);
    DropLastTag(items, AllItems(rest));
    UnloadTallied(ms, k, i);
  }

  /**
   A tallied loading of exactly the tagged items is the result of an
   assignment: replaying it from all-zero tallies gives every mule its
   value and weight.
   */
  lemma {:induction false} Realize(items: seq<Item>, ms: seq<Mule>) returns (a: seq<int>)
    requires AllItems(ms) == multiset(Enumerate(items))
    requires AllTallied(ms)
    ensures |a| == |items| && InRange(a, |ms|)
    ensures forall k :: 0 <= k < |ms| ==>
              Run(items, 0, Zeros(|ms|), a)[k] == MuleState(ms[k].value, ms[k].weight)
    decreases |items|
  {
    if |items| == 0 {
      a := [];
      EmptyLoading(ms);
    } else {
      var n := |items| - 1;
      var k, rest := PeelLast(items, ms);
      var b := Realize(items[..n], rest);
      a := b + [k];
      var before := Run(items[..n], 0, Zeros(|ms|), b);
      var after := before[k := MuleState(before[k].value + items[n].value, before[k].weight + items[n].weight)];
      PlaceLast(items, before, after, b, k);
      forall j | 0 <= j < |ms|
        ensures after[j] == MuleState(ms[j].value, ms[j].weight)
      {
        if j != k {
          assert rest[j] == ms[j];
        }
      }
    }
  }

  /**
   Replaying `b + [k]` ends where replaying `b` over all but the last item
   ends, with the last item added to mule `k`'s tally.
   */
  lemma PlaceLast(items: seq<Item>, before: seq<MuleState>, after: seq<MuleState>, b: seq<int>, k: nat)
    requires 0 < |items| && |b| == |items| - 1 && k < |before| && InRange(b, |before|)
    requires Run(items[..|items| - 1], 0, Zeros(|before|), b) == before
    requires after == before[k := MuleState(before[k].value + items[|items| - 1].value,
                                            before[k].weight + items[|items| - 1].weight)]
    ensures InRange(b + [k], |before|)
    ensures Run(items, 0, Zeros(|before|), b + [k]) == after
  {
    RunSnoc(items, 0, Zeros(|before|), b, k);
  }

  /**
   The exact search is a lower bound: when a loading holds every item once,
   with tallied totals and every mule within its capacity, on input with
   nothing negative, the exact result is finite and its spread is at most
   that loading's.
   */
  lemma ExactIsLowerBound(items: seq<Item>, caps: seq<int>, ms: seq<Mule>)
    requires |caps| > 0 && NonNegative(items, caps)
    requires Capacities(ms) == caps && AllTallied(ms) && AllLoadable(ms)
    requires AllItems(ms) == multiset(Enumerate(items))
    ensures Solve(items, caps, 0, Zeros(|caps|)).Found?
    ensures Solve(items, caps, 0, Zeros(|caps|)).diff <= MuleSpread(ms)
  {
    var zeros := Zeros(|caps|);
    var a := Realize(items, ms);
    var final := Run(items, 0, zeros, a);
    assert Within(final, caps) by {
      forall k | 0 <= k < |caps|
        ensures final[k].weight <= caps[k]
      {
        assert Loadable(ms[k]);
      }
    }
    RespectsIffFinalWithin(items, caps, 0, zeros, a);
    SolveOptimal(items, caps, 0, zeros, a);
    assert Values(final) == MuleValues(ms);
  }
}

/**
 `efficient_solution` (solutions/efficient-solution.py): kernelisation,
 then greedy placement of the kept items in value order, then local search,
 returning the final spread, the mules and the greedy stage's unassigned
 items. Items rejected by kernelisation are not part of the result.
 */
module Approximate {
  import opened Numbers
  import opened Cargo
  import opened Mules
  import opened Kernelization
  import opened Greedy
  import opened LocalSearch
  import opened ExactSearch
  import opened Comparison

  /** The kept items, tagged with their positions and ordered by value. */
  function GreedyOrder(items: seq<Item>, caps: seq<int>): seq<Tagged>
    requires |caps| > 0
  {
    SortByValue(Enumerate(Light(items, Max(caps))))
  }

  /** The placement the local search starts from. */
  function GreedyResult(items: seq<Item>, caps: seq<int>): (p: Placement)
    requires |caps| > 0
    ensures |p.mules| == |caps|
  {
    var start := Placement(EmptyMules(caps), []);
    GreedyPlaceShape(start, GreedyOrder(items, caps));
    GreedyPlace(start, GreedyOrder(items, caps))
  }

  lemma EmptyMulesInvariants(caps: seq<int>)
    ensures Capacities(EmptyMules(caps)) == caps
    ensures AllTallied(EmptyMules(caps))
    ensures (forall k :: 0 <= k < |caps| ==> caps[k] >= 0) ==> AllLoadable(EmptyMules(caps))
  {
    assert forall k :: 0 <= k < |caps| ==> EmptyMules(caps)[k].items == [];
  }

  /** Capacities in order, and every kept item in one mule list or the unassigned list. */
  lemma GreedyConserves(items: seq<Item>, caps: seq<int>)
    requires |caps| > 0
    ensures Capacities(GreedyResult(items, caps).mules) == caps
    ensures AllItems(GreedyResult(items, caps).mules) + multiset(GreedyResult(items, caps).unassigned) ==
            multiset(Enumerate(Light(items, Max(caps))))
  {
    var start := Placement(EmptyMules(caps), []);
    var order := GreedyOrder(items, caps);
    EmptyMulesInvariants(caps);
    EmptyMulesHoldNothing(caps);
    GreedyPlaceShape(start, order);
    GreedyPlaceConserves(start, order);
    SortedTagsPointBack(Light(items, Max(caps)));
  }

  /** The tags left unassigned are positions in the kept list. */
  lemma GreedyUnassignedPointBack(items: seq<Item>, caps: seq<int>)
    requires |caps| > 0
    ensures var valid := Light(items, Max(caps));
      forall t :: t in GreedyResult(items, caps).unassigned ==>
        0 <= t.index < |valid| && valid[t.index] == Item(t.value, t.weight)
  {
    var valid := Light(items, Max(caps));
    var p := GreedyResult(items, caps);
    GreedyConserves(items, caps);
    SortedTagsPointBack(valid);
    forall t | t in p.unassigned
      ensures 0 <= t.index < |valid| && valid[t.index] == Item(t.value, t.weight)
    {
      assert t in AllItems(p.mules) + multiset(p.unassigned);
      assert t in GreedyOrder(items, caps);
    }
  }

  /** Greedy placement keeps the totals tallied and, on non-negative input, every mule within capacity. */
  lemma GreedyTallies(items: seq<Item>, caps: seq<int>)
    requires |caps| > 0
    ensures AllTallied(GreedyResult(items, caps).mules)
    ensures NonNegative(items, caps) ==> AllLoadable(GreedyResult(items, caps).mules)
  {
    var valid := Light(items, Max(caps));
    var start := Placement(EmptyMules(caps), []);
    var order := GreedyOrder(items, caps);
    EmptyMulesInvariants(caps);
    GreedyPlaceTallies(start, order);
    if NonNegative(items, caps) {
      SortedTagsPointBack(valid);
      SplitIsPartition(items, Max(caps));
      forall t | t in order
        ensures t.weight >= 0
      {
        assert valid[t.index] in items;
      }
    }
  }

  /**
   When kernelisation keeps every item and the final mules hold all of them,
   the loading is one the exact search ranges over, so its optimum is no larger.
   */
  lemma CompleteAnswerBound(items: seq<Item>, caps: seq<int>, mules: seq<Mule>)
    requires |caps| > 0 && NonNegative(items, caps)
    requires forall i :: 0 <= i < |items| ==> items[i].weight <= Max(caps)
    requires Capacities(mules) == caps && AllTallied(mules) && AllLoadable(mules)
    requires AllItems(mules) == multiset(Enumerate(Light(items, Max(caps))))
    ensures Solve(items, caps, 0, Zeros(|caps|)).Found?
    ensures Solve(items, caps, 0, Zeros(|caps|)).diff <= MuleSpread(mules)
  {
    LightKeepsAll(items, Max(caps));
    ExactIsLowerBound(items, caps, mules);
  }

  method EfficientSolution(items: seq<Item>, caps: seq<int>)
    returns (diff: int, mules: seq<Mule>, unassigned: seq<Tagged>)
    requires |caps| > 0
    // one mule per capacity, in order
    ensures |mules| == |caps| && Capacities(mules) == caps
    // the returned objective is the final spread
    ensures diff == MuleSpread(mules) && diff >= 0
    // local search never makes the greedy spread worse, and leaves the unassigned list alone
    ensures diff <= MuleSpread(GreedyResult(items, caps).mules)
    ensures unassigned == GreedyResult(items, caps).unassigned
    // every kept item ends in exactly one mule list or in the unassigned list
    ensures AllItems(mules) + multiset(unassigned) == multiset(Enumerate(Light(items, Max(caps))))
    // the tags are positions in the kept list
    ensures forall t :: t in unassigned ==>
              var valid := Light(items, Max(caps));
              0 <= t.index < |valid| && valid[t.index] == Item(t.value, t.weight)
    // totals equal item sums; with non-negative input every mule is within capacity
    ensures AllTallied(mules)
    ensures NonNegative(items, caps) ==> AllLoadable(mules)
    // at exit no move or swap between richest and poorest improves
    ensures LocalOptimum(mules)
    // when every item fits some mule and none is left unassigned, on non-negative
    // input, the exact search's optimum is no larger than this answer
    ensures NonNegative(items, caps) && (forall i :: 0 <= i < |items| ==> items[i].weight <= Max(caps)) &&
            |unassigned| == 0 ==>
              Solve(items, caps, 0, Zeros(|caps|)).Found? && Solve(items, caps, 0, Zeros(|caps|)).diff <= diff
  {
    var valid, rejected := Kernelize(items, caps);
    var order := SortByValue(Enumerate(valid));
    var placed := GreedyPlace(Placement(EmptyMules(caps), []), order);
    assert placed == GreedyResult(items, caps);
    GreedyConserves(items, caps);
    GreedyUnassignedPointBack(items, caps);
    GreedyTallies(items, caps);

    mules := Refine(placed.mules);
    unassigned := placed.unassigned;
    diff := Max(MuleValues(mules)) - Min(MuleValues(mules));
    if NonNegative(items, caps) && (forall i :: 0 <= i < |items| ==> items[i].weight <= Max(caps)) &&
       |unassigned| == 0 {
      CompleteAnswerBound(items, caps, mules);
    }
  }
}

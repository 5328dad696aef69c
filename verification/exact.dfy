/**
 The exact solver (solutions/DP-solution.py): a recursion over the item
 index that branches on every mule with room for the current item and scores
 a complete assignment by the spread of the per-mule value totals.

 This module holds the pure recursion `Solve` and what is proved about it:
 what a finite result means (a reachable, capacity-respecting configuration
 whose spread is the reported diff), optimality over every capacity-respecting
 assignment, the infeasibility sentinel, the lowest-mule tie-break and
 conservation of totals. The memoised form is in module ExactMemo.
 */
module ExactSearch {
  import opened Numbers
  import opened Cargo

  /** The per-mule tally the search carries: (accumulated value, accumulated weight). */
  datatype MuleState = MuleState(value: int, weight: int)

  /**
   What `solve` returns: the pair (float('inf'), None) is `Infeasible`,
   any other pair (diff, configuration) is `Found`.
   */
  datatype Outcome = Infeasible | Found(diff: int, config: seq<MuleState>)

  function Zeros(m: nat): (z: seq<MuleState>)
    ensures |z| == m
    ensures forall k :: 0 <= k < m ==> z[k] == MuleState(0, 0)
  {
    seq(m, _ => MuleState(0, 0))
  }

  function Values(states: seq<MuleState>): (vs: seq<int>)
    ensures |vs| == |states|
    ensures forall k :: 0 <= k < |states| ==> vs[k] == states[k].value
  {
    seq(|states|, k requires 0 <= k < |states| => states[k].value)
  }

  /** max(values) - min(values) over a configuration. */
  function StateSpread(states: seq<MuleState>): (d: int)
    requires |states| > 0
    ensures d >= 0
    ensures forall j, k :: 0 <= j < |states| && 0 <= k < |states| ==> states[j].value - states[k].value <= d
  {
    Spread(Values(states))
  }

  /** A finite outcome is a configuration of m mules scored by its own spread. */
  predicate Scored(o: Outcome, m: nat)
  {
    o.Found? ==> m > 0 && |o.config| == m && o.diff == StateSpread(o.config)
  }

  /** The mule `j` has room for `it`. */
  predicate Fits(states: seq<MuleState>, caps: seq<int>, j: nat, it: Item)
    requires |states| == |caps| && j < |caps|
  {
    states[j].weight + it.weight <= caps[j]
  }

  /** Add `it` to mule `j`'s tally, leaving the others alone. */
  function Place(states: seq<MuleState>, j: nat, it: Item): (s: seq<MuleState>)
    requires j < |states|
    ensures |s| == |states|
  {
    states[j := MuleState(states[j].value + it.value, states[j].weight + it.weight)]
  }

  /** The strict `diff < best_diff` update, with Infeasible as +infinity. */
  function Better(best: Outcome, cand: Outcome): (r: Outcome)
    ensures r == best || r == cand
    ensures r.Infeasible? <==> best.Infeasible? && cand.Infeasible?
    ensures r.Found? && best.Found? ==> r.diff <= best.diff
    ensures r.Found? && cand.Found? ==> r.diff <= cand.diff
    ensures r == cand && cand != best ==> best.Infeasible? || cand.diff < best.diff
  {
    if cand.Found? && (best.Infeasible? || cand.diff < best.diff) then cand else best
  }

  /**
   A search state: an index into the items and one tally per mule. With no
   mules only an inner index is a state (at the terminal index `max` of no
   values would fail).
   */
  predicate Shape(items: seq<Item>, caps: seq<int>, idx: nat, states: seq<MuleState>)
  {
    idx <= |items| && |states| == |caps| && (|caps| > 0 || idx < |items|)
  }

  /** `solve(idx, mule_states)` without the memo. */
  function Solve(items: seq<Item>, caps: seq<int>, idx: nat, states: seq<MuleState>): (r: Outcome)
    requires Shape(items, caps, idx, states)
    ensures Scored(r, |caps|)
    decreases |items| - idx, |caps| + 1
  {
    if idx == |items| then Found(StateSpread(states), states)
    else Branches(items, caps, idx, states, 0, Infeasible)
  }

  /** The `for mule_idx in range(num_mules)` loop, from mule `j` on, with running best `best`. */
  function Branches(items: seq<Item>, caps: seq<int>, idx: nat, states: seq<MuleState>,
                    j: nat, best: Outcome): (r: Outcome)
    requires Shape(items, caps, idx, states) && idx < |items| && j <= |caps|
    requires Scored(best, |caps|)
    ensures Scored(r, |caps|)
    decreases |items| - idx, |caps| - j
  {
    if j == |caps| then best
    else if Fits(states, caps, j, items[idx]) then
      Branches(items, caps, idx, states, j + 1,
               Better(best, Solve(items, caps, idx + 1, Place(states, j, items[idx]))))
    else Branches(items, caps, idx, states, j + 1, best)
  }

  /** What the branch for mule `k` contributes: its sub-result, or nothing when it has no room. */
  function Candidate(items: seq<Item>, caps: seq<int>, idx: nat, states: seq<MuleState>, k: nat): (c: Outcome)
    requires Shape(items, caps, idx, states) && idx < |items| && k < |caps|
    ensures Scored(c, |caps|)
  {
    if Fits(states, caps, k, items[idx]) then Solve(items, caps, idx + 1, Place(states, k, items[idx]))
    else Infeasible
  }

  /** The branches of every mule, in mule order. */
  function Candidates(items: seq<Item>, caps: seq<int>, idx: nat, states: seq<MuleState>): (cs: seq<Outcome>)
    requires Shape(items, caps, idx, states) && idx < |items|
    ensures |cs| == |caps|
    ensures forall k :: 0 <= k < |caps| ==> cs[k] == Candidate(items, caps, idx, states, k)
  {
    seq(|caps|, k requires 0 <= k < |caps| => Candidate(items, caps, idx, states, k))
  }

  /** The running-best update applied to each outcome of `cs` in turn, starting from `best`. */
  function Fold(best: Outcome, cs: seq<Outcome>): Outcome
    decreases |cs|
  {
    if |cs| == 0 then best else Fold(Better(best, cs[0]), cs[1..])
  }

  /**
   `cs[k]` is finite, strictly better than `best`, and strictly better than
   every earlier entry: the entry a strict `<` update settles on.
   */
  predicate FirstBest(cs: seq<Outcome>, k: nat, best: Outcome)
  {
    && k < |cs|
    && cs[k].Found?
    && (best.Infeasible? || cs[k].diff < best.diff)
    && forall k' :: 0 <= k' < k ==> cs[k'].Infeasible? || cs[k'].diff > cs[k].diff
  }

  /** One turn of the mule loop folds that mule's candidate into the running best. */
  lemma BranchesStep(items: seq<Item>, caps: seq<int>, idx: nat, states: seq<MuleState>, j: nat, best: Outcome)
    requires Shape(items, caps, idx, states) && idx < |items| && j < |caps|
    requires Scored(best, |caps|)
    ensures Branches(items, caps, idx, states, j, best) ==
            Branches(items, caps, idx, states, j + 1, Better(best, Candidate(items, caps, idx, states, j)))
  {
  }

  /** The mule loop from mule `j` is the fold of the remaining branches. */
  lemma {:induction false} BranchesIsFold(items: seq<Item>, caps: seq<int>, idx: nat, states: seq<MuleState>,
                                          j: nat, best: Outcome)
    requires Shape(items, caps, idx, states) && idx < |items| && j <= |caps|
    requires Scored(best, |caps|)
    ensures Branches(items, caps, idx, states, j, best) == Fold(best, Candidates(items, caps, idx, states)[j..])
    decreases |caps| - j
  {
    var cs := Candidates(items, caps, idx, states);
    if j < |caps| {
      BranchesStep(items, caps, idx, states, j, best);
      BranchesIsFold(items, caps, idx, states, j + 1, Better(best, cs[j]));
      assert cs[j..][1..] == cs[j + 1..];
    }
  }

  /** The fold is Infeasible exactly when its start value and every outcome are. */
  lemma {:induction false} FoldInfeasible(best: Outcome, cs: seq<Outcome>)
    ensures Fold(best, cs).Infeasible? <==> best.Infeasible? && forall k :: 0 <= k < |cs| ==> cs[k].Infeasible?
    decreases |cs|
  {
    if |cs| > 0 {
      FoldInfeasible(Better(best, cs[0]), cs[1..]);
      assert forall k :: 1 <= k < |cs| ==> cs[k] == cs[1..][k - 1];
    }
  }

  /** The fold is never worse than its start value. */
  lemma {:induction false} FoldKeepsBest(best: Outcome, cs: seq<Outcome>)
    ensures best.Found? ==> Fold(best, cs).Found? && Fold(best, cs).diff <= best.diff
    decreases |cs|
  {
    if |cs| > 0 {
      FoldKeepsBest(Better(best, cs[0]), cs[1..]);
    }
  }

  /** The fold is no larger than any finite outcome. */
  lemma {:induction false} FoldBound(best: Outcome, cs: seq<Outcome>)
    ensures forall k :: 0 <= k < |cs| && cs[k].Found? ==> Fold(best, cs).Found? && Fold(best, cs).diff <= cs[k].diff
    decreases |cs|
  {
    if |cs| > 0 {
      var next := Better(best, cs[0]);
      FoldBound(next, cs[1..]);
      FoldKeepsBest(next, cs[1..]);
      assert forall k :: 1 <= k < |cs| ==> cs[k] == cs[1..][k - 1];
    }
  }

  /** The fold keeps its start value or settles on the first strictly better outcome. */
  lemma {:induction false} FoldFirst(best: Outcome, cs: seq<Outcome>) returns (k: nat)
    ensures Fold(best, cs) == best || (FirstBest(cs, k, best) && cs[k] == Fold(best, cs))
    decreases |cs|
  {
    k := 0;
    if |cs| > 0 {
      var next := Better(best, cs[0]);
      var r := Fold(best, cs);
      var k' := FoldFirst(next, cs[1..]);
      if r != best && r != next {
        k := k' + 1;
        assert forall i :: 1 <= i < |cs| ==> cs[i] == cs[1..][i - 1];
      }
    }
  }

  /**
   At an inner index the search is Infeasible exactly when every branch is,
   so any feasible sibling dominates the sentinel, and it is no larger than
   any feasible branch.
   */
  lemma SolveDominates(items: seq<Item>, caps: seq<int>, idx: nat, states: seq<MuleState>)
    requires Shape(items, caps, idx, states) && idx < |items|
    ensures var r := Solve(items, caps, idx, states);
      && (r.Infeasible? <==> forall k :: 0 <= k < |caps| ==> Candidate(items, caps, idx, states, k).Infeasible?)
      && (forall k :: 0 <= k < |caps| && Candidate(items, caps, idx, states, k).Found? ==>
            r.Found? && r.diff <= Candidate(items, caps, idx, states, k).diff)
  {
    var cs := Candidates(items, caps, idx, states);
    BranchesIsFold(items, caps, idx, states, 0, Infeasible);
    assert cs[0..] == cs;
    FoldInfeasible(Infeasible, cs);
    FoldBound(Infeasible, cs);
  }

  /**
   Tie-break: a finite result at an inner index is the sub-result of the
   FIRST branch (lowest mule index) that is strictly smaller than every
   earlier branch, because the comparison is the strict `<`.
   */
  lemma SolveChoice(items: seq<Item>, caps: seq<int>, idx: nat, states: seq<MuleState>) returns (k: nat)
    requires Shape(items, caps, idx, states) && idx < |items|
    requires Solve(items, caps, idx, states).Found?
    ensures k < |caps| && Candidate(items, caps, idx, states, k) == Solve(items, caps, idx, states)
    ensures FirstBest(Candidates(items, caps, idx, states), k, Infeasible)
  {
    var cs := Candidates(items, caps, idx, states);
    BranchesIsFold(items, caps, idx, states, 0, Infeasible);
    assert cs[0..] == cs;
    k := FoldFirst(Infeasible, cs);
  }

  /** At the terminal index the result is the spread of the state together with the state itself. */
  lemma SolveTerminal(items: seq<Item>, caps: seq<int>, states: seq<MuleState>)
    requires Shape(items, caps, |items|, states)
    ensures Solve(items, caps, |items|, states).Found?
    ensures Solve(items, caps, |items|, states).config == states
    ensures Solve(items, caps, |items|, states).diff == Max(Values(states)) - Min(Values(states))
  {
  }

  // ---------------------------------------------------------------------
  // Assignments: the reference semantics the search is measured against.
  // ---------------------------------------------------------------------

  predicate InRange(a: seq<int>, m: nat)
  {
    forall k :: 0 <= k < |a| ==> 0 <= a[k] < m
  }

  /**
   The tallies after giving item `idx + k` to mule `a[k]` for every k, in
   item order, starting from `states`.
   */
  function Run(items: seq<Item>, idx: nat, states: seq<MuleState>, a: seq<int>): (s: seq<MuleState>)
    requires idx <= |items| && |a| == |items| - idx && InRange(a, |states|)
    ensures |s| == |states|
    decreases |items| - idx
  {
    if idx == |items| then states
    else Run(items, idx + 1, Place(states, a[0], items[idx]), a[1..])
  }

  /** Every placement of the assignment finds room at its turn. */
  predicate StepsFit(items: seq<Item>, caps: seq<int>, idx: nat, states: seq<MuleState>, a: seq<int>)
    requires idx <= |items| && |a| == |items| - idx && |states| == |caps| && InRange(a, |caps|)
    decreases |items| - idx
  {
    idx == |items| ||
    (Fits(states, caps, a[0], items[idx]) &&
     StepsFit(items, caps, idx + 1, Place(states, a[0], items[idx]), a[1..]))
  }

  /** `a` sends each remaining item to a real mule and every mule keeps within its capacity throughout. */
  predicate Respects(items: seq<Item>, caps: seq<int>, idx: nat, states: seq<MuleState>, a: seq<int>)
    requires idx <= |items| && |states| == |caps|
  {
    |a| == |items| - idx && InRange(a, |caps|) && StepsFit(items, caps, idx, states, a)
  }

  predicate Within(states: seq<MuleState>, caps: seq<int>)
    requires |states| == |caps|
  {
    forall k :: 0 <= k < |caps| ==> states[k].weight <= caps[k]
  }

  function TotalValue(states: seq<MuleState>): int
  {
    if |states| == 0 then 0 else states[0].value + TotalValue(states[1..])
  }

  function TotalWeight(states: seq<MuleState>): int
  {
    if |states| == 0 then 0 else states[0].weight + TotalWeight(states[1..])
  }

  /** A finite result is reached by a capacity-respecting assignment of the remaining items. */
  lemma {:induction false} SolveSound(items: seq<Item>, caps: seq<int>, idx: nat, states: seq<MuleState>)
    returns (a: seq<int>)
    requires Shape(items, caps, idx, states)
    requires Solve(items, caps, idx, states).Found?
    ensures Respects(items, caps, idx, states, a)
    ensures Run(items, idx, states, a) == Solve(items, caps, idx, states).config
    decreases |items| - idx
  {
    if idx == |items| {
      a := [];
    } else {
      var k := SolveChoice(items, caps, idx, states);
      var next := Place(states, k, items[idx]);
      var rest := SolveSound(items, caps, idx + 1, next);
      a := [k] + rest;
      assert a[1..] == rest;
    }
  }

  /** No capacity-respecting assignment of the remaining items beats the search. */
  lemma {:induction false} SolveOptimal(items: seq<Item>, caps: seq<int>, idx: nat, states: seq<MuleState>, a: seq<int>)
    requires Shape(items, caps, idx, states)
    requires Respects(items, caps, idx, states, a)
    ensures Solve(items, caps, idx, states).Found?
    ensures Solve(items, caps, idx, states).diff <= StateSpread(Run(items, idx, states, a))
    decreases |items| - idx
  {
    if idx < |items| {
      var k := a[0];
      var next := Place(states, k, items[idx]);
      assert InRange(a[1..], |caps|);
      SolveOptimal(items, caps, idx + 1, next, a[1..]);
      assert Candidate(items, caps, idx, states, k) == Solve(items, caps, idx + 1, next);
      SolveDominates(items, caps, idx, states);
    }
  }

  /** The sentinel is returned exactly when no capacity-respecting assignment exists. */
  lemma InfeasibleIff(items: seq<Item>, caps: seq<int>, idx: nat, states: seq<MuleState>)
    requires Shape(items, caps, idx, states)
    ensures Solve(items, caps, idx, states).Infeasible? <==>
            forall a :: !Respects(items, caps, idx, states, a)
  {
    if Solve(items, caps, idx, states).Found? {
      var a := SolveSound(items, caps, idx, states);
    } else {
      forall a | Respects(items, caps, idx, states, a)
        ensures false
      {
        SolveOptimal(items, caps, idx, states, a);
      }
    }
  }

  /** Capacity safety: starting within capacity, every respecting run ends within capacity. */
  lemma {:induction false} RunStaysWithin(items: seq<Item>, caps: seq<int>, idx: nat, states: seq<MuleState>, a: seq<int>)
    requires Shape(items, caps, idx, states)
    requires Respects(items, caps, idx, states, a)
    requires Within(states, caps)
    ensures Within(Run(items, idx, states, a), caps)
    decreases |items| - idx
  {
    if idx < |items| {
      assert InRange(a[1..], |caps|);
      RunStaysWithin(items, caps, idx + 1, Place(states, a[0], items[idx]), a[1..]);
    }
  }

  /** Along a run with non-negative weights a mule's weight only grows. */
  lemma {:induction false} RunWeightGrows(items: seq<Item>, idx: nat, states: seq<MuleState>, a: seq<int>, k: nat)
    requires idx <= |items| && |a| == |items| - idx && InRange(a, |states|) && k < |states|
    requires forall i :: idx <= i < |items| ==> items[i].weight >= 0
    ensures states[k].weight <= Run(items, idx, states, a)[k].weight
    decreases |items| - idx
  {
    if idx < |items| {
      assert InRange(a[1..], |states|);
      RunWeightGrows(items, idx + 1, Place(states, a[0], items[idx]), a[1..], k);
    }
  }

  /**
   With non-negative weights, checking capacity at every step (as the search
   does) is the same as checking the final tallies: an assignment respects
   capacities exactly when its final configuration is within capacity.
   */
  lemma {:induction false} RespectsIffFinalWithin(items: seq<Item>, caps: seq<int>, idx: nat, states: seq<MuleState>, a: seq<int>)
    requires Shape(items, caps, idx, states)
    requires |a| == |items| - idx && InRange(a, |caps|)
    requires Within(states, caps)
    requires forall i :: idx <= i < |items| ==> items[i].weight >= 0
    ensures Respects(items, caps, idx, states, a) <==> Within(Run(items, idx, states, a), caps)
    decreases |items| - idx
  {
    if idx < |items| {
      var next := Place(states, a[0], items[idx]);
      assert InRange(a[1..], |caps|);
      var final := Run(items, idx, states, a);
      if Within(final, caps) {
        RunWeightGrows(items, idx + 1, next, a[1..], a[0]);
        assert Fits(states, caps, a[0], items[idx]);
        assert Within(next, caps) by {
          forall k | 0 <= k < |caps| ensures next[k].weight <= caps[k] {
            RunWeightGrows(items, idx + 1, next, a[1..], k);
          }
        }
        RespectsIffFinalWithin(items, caps, idx + 1, next, a[1..]);
      } else if Respects(items, caps, idx, states, a) {
        RunStaysWithin(items, caps, idx, states, a);
      }
    }
  }

  lemma {:induction false} PlaceTotals(states: seq<MuleState>, j: nat, it: Item)
    requires j < |states|
    ensures TotalValue(Place(states, j, it)) == TotalValue(states) + it.value
    ensures TotalWeight(Place(states, j, it)) == TotalWeight(states) + it.weight
    decreases |states|
  {
    var p := Place(states, j, it);
    if j > 0 {
      assert p[1..] == Place(states[1..], j - 1, it);
      PlaceTotals(states[1..], j - 1, it);
    } else {
      assert p[1..] == states[1..];
    }
  }

  /** Conservation: a run adds each remaining item's value and weight exactly once. */
  lemma {:induction false} RunTotals(items: seq<Item>, idx: nat, states: seq<MuleState>, a: seq<int>)
    requires idx <= |items| && |a| == |items| - idx && InRange(a, |states|)
    ensures TotalValue(Run(items, idx, states, a)) == TotalValue(states) + SumValues(items[idx..])
    ensures TotalWeight(Run(items, idx, states, a)) == TotalWeight(states) + SumWeights(items[idx..])
    decreases |items| - idx
  {
    if idx < |items| {
      assert InRange(a[1..], |states|);
      assert items[idx..][1..] == items[idx + 1..];
      PlaceTotals(states, a[0], items[idx]);
      RunTotals(items, idx + 1, Place(states, a[0], items[idx]), a[1..]);
    }
  }

  lemma {:induction false} ZerosTotals(m: nat)
    ensures TotalValue(Zeros(m)) == 0 && TotalWeight(Zeros(m)) == 0
  {
    if m > 0 {
      assert Zeros(m)[1..] == Zeros(m - 1);
      ZerosTotals(m - 1);
    }
  }

  // ---------------------------------------------------------------------
  // The search from the all-zero start
  // ---------------------------------------------------------------------

  /**
   A finite result from the start is reached by a capacity-respecting
   assignment of every item, its totals are the item sums, and with
   non-negative capacities it is within capacity.
   */
  lemma FoundFromStart(items: seq<Item>, caps: seq<int>)
    requires Shape(items, caps, 0, Zeros(|caps|)) && Solve(items, caps, 0, Zeros(|caps|)).Found?
    ensures var r := Solve(items, caps, 0, Zeros(|caps|));
      && (exists a :: Respects(items, caps, 0, Zeros(|caps|), a) && Run(items, 0, Zeros(|caps|), a) == r.config)
      && TotalValue(r.config) == SumValues(items) && TotalWeight(r.config) == SumWeights(items)
      && ((forall k :: 0 <= k < |caps| ==> caps[k] >= 0) ==> Within(r.config, caps))
  {
    var zeros := Zeros(|caps|);
    var a := SolveSound(items, caps, 0, zeros);
    StartTotals(items, |caps|, a);
    if forall k :: 0 <= k < |caps| ==> caps[k] >= 0 {
      RunStaysWithin(items, caps, 0, zeros, a);
    }
  }

  /** Conservation from the start: a full run's totals are the item sums. */
  lemma StartTotals(items: seq<Item>, m: nat, a: seq<int>)
    requires |a| == |items| && InRange(a, m)
    ensures TotalValue(Run(items, 0, Zeros(m), a)) == SumValues(items)
    ensures TotalWeight(Run(items, 0, Zeros(m), a)) == SumWeights(items)
  {
    RunTotals(items, 0, Zeros(m), a);
    ZerosTotals(m);
    assert items[0..] == items;
  }

  /** From the start, the result is no larger than the spread of any capacity-respecting assignment. */
  lemma OptimalFromStart(items: seq<Item>, caps: seq<int>)
    requires Shape(items, caps, 0, Zeros(|caps|))
    ensures forall a :: Respects(items, caps, 0, Zeros(|caps|), a) ==>
              Solve(items, caps, 0, Zeros(|caps|)).Found? &&
              Solve(items, caps, 0, Zeros(|caps|)).diff <= Spread(Values(Run(items, 0, Zeros(|caps|), a)))
  {
    forall a | Respects(items, caps, 0, Zeros(|caps|), a)
      ensures Solve(items, caps, 0, Zeros(|caps|)).Found? &&
              Solve(items, caps, 0, Zeros(|caps|)).diff <= Spread(Values(Run(items, 0, Zeros(|caps|), a)))
    {
      SolveOptimal(items, caps, 0, Zeros(|caps|), a);
    }
  }

  /** With no items the result is spread 0 at the all-zero configuration. */
  lemma NothingToCarry(items: seq<Item>, caps: seq<int>)
    requires |caps| > 0 && |items| == 0
    ensures Solve(items, caps, 0, Zeros(|caps|)) == Found(0, Zeros(|caps|))
  {
    var zeros := Zeros(|caps|);
    var i := MaxAttained(Values(zeros));
    var j := MinAttained(Values(zeros));
  }
}

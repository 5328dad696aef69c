/**
 The memoised recursion of solutions/DP-solution.py and its entry point
 `solve_discrete_transport`. The memo dictionary is threaded through the
 recursion as a value; the search state (idx, mule tallies) is its key.
 */
module ExactMemo {
  import opened Numbers
  import opened Cargo
  import opened ExactSearch

  /** `current_state = (idx, mule_states)`. */
  datatype Key = Key(idx: nat, states: seq<MuleState>)

  type Memo = map<Key, Outcome>

  /** Every entry of the memo is what the pure recursion computes for its key. */
  predicate MemoSound(items: seq<Item>, caps: seq<int>, memo: Memo)
  {
    forall key :: key in memo ==>
      && Shape(items, caps, key.idx, key.states)
      && memo[key] == Solve(items, caps, key.idx, key.states)
  }

  /**
   `solve(idx, mule_states)` with the memo: a hit returns the stored pair;
   the terminal index returns without storing; an inner index stores its
   result before returning. Memo soundness: given a sound memo, the result
   equals the pure recursion and the memo handed back is sound.
   */
  function SolveMemo(items: seq<Item>, caps: seq<int>, idx: nat, states: seq<MuleState>, memo: Memo)
    : (res: (Outcome, Memo))
    requires Shape(items, caps, idx, states)
    requires MemoSound(items, caps, memo)
    ensures MemoSound(items, caps, res.1)
    ensures res.0 == Solve(items, caps, idx, states)
    decreases |items| - idx, |caps| + 1
  {
    var key := Key(idx, states);
    if key in memo then (memo[key], memo)
    else if idx == |items| then (Found(StateSpread(states), states), memo)
    else
      var (r, memo') := BranchesMemo(items, caps, idx, states, 0, Infeasible, memo);
      (r, memo'[key := r])
  }

  /** The mule loop of `solve`, threading the memo through the recursive calls. */
  function BranchesMemo(items: seq<Item>, caps: seq<int>, idx: nat, states: seq<MuleState>,
                        j: nat, best: Outcome, memo: Memo): (res: (Outcome, Memo))
    requires Shape(items, caps, idx, states) && idx < |items| && j <= |caps|
    requires Scored(best, |caps|)
    requires MemoSound(items, caps, memo)
    ensures MemoSound(items, caps, res.1)
    ensures res.0 == Branches(items, caps, idx, states, j, best)
    decreases |items| - idx, |caps| - j
  {
    if j == |caps| then (best, memo)
    else if Fits(states, caps, j, items[idx]) then
      var (c, memo') := SolveMemo(items, caps, idx + 1, Place(states, j, items[idx]), memo);
      BranchesMemo(items, caps, idx, states, j + 1, Better(best, c), memo')
    else BranchesMemo(items, caps, idx, states, j + 1, best, memo)
  }

  /**
   `solve_discrete_transport(items, mule_capacities)`: search from index 0
   with every mule at (0, 0) and an empty memo.
   */
  method SolveDiscreteTransport(items: seq<Item>, caps: seq<int>) returns (r: Outcome)
    requires |caps| > 0 || |items| > 0
    // the memoised search returns what the plain recursion returns
    ensures r == Solve(items, caps, 0, Zeros(|caps|))
    // a finite result is a full capacity-respecting assignment, scored by its spread
    ensures r.Found? ==> |r.config| == |caps| && r.diff == Spread(Values(r.config))
    ensures r.Found? ==> exists a :: Respects(items, caps, 0, Zeros(|caps|), a) &&
                                     Run(items, 0, Zeros(|caps|), a) == r.config
    // optimality over every capacity-respecting assignment of all items
    ensures forall a :: Respects(items, caps, 0, Zeros(|caps|), a) ==>
              r.Found? && r.diff <= Spread(Values(Run(items, 0, Zeros(|caps|), a)))
    // the sentinel means no capacity-respecting assignment exists
    ensures r.Infeasible? <==> forall a :: !Respects(items, caps, 0, Zeros(|caps|), a)
    // conservation of value and weight
    ensures r.Found? ==> TotalValue(r.config) == SumValues(items) && TotalWeight(r.config) == SumWeights(items)
    // with non-negative capacities the configuration is capacity-feasible
    ensures r.Found? && (forall k :: 0 <= k < |caps| ==> caps[k] >= 0) ==> Within(r.config, caps)
    // no mules: nothing can be carried
    ensures |caps| == 0 ==> r == Infeasible
    // no items: diff 0 with all-zero tallies
    ensures |items| == 0 ==> r == Found(0, Zeros(|caps|))
  {
    var res := SolveMemo(items, caps, 0, Zeros(|caps|), map[]);
    r := res.0;
    InfeasibleIff(items, caps, 0, Zeros(|caps|));
    OptimalFromStart(items, caps);
    if r.Found? {
      FoundFromStart(items, caps);
    }
    if |items| == 0 {
      NothingToCarry(items, caps);
    }
  }
}

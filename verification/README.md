# Discrete mule transport: exact and approximate solvers

The repository solves one problem. Items with a value and a weight are
distributed over capacity-limited mules so that no mule exceeds its
capacity. The goal is to minimise the spread: the largest per-mule value
total minus the smallest. It offers two solvers.

- `solve_discrete_transport` (solutions/DP-solution.py) is an exact,
  memoised search. It recurses over the item index and branches on every
  mule with room for the item. At the last index it scores the state by
  max − min of the mule values. The infinite sentinel stands for "no
  assignment". The search keeps the first strictly better branch.
- `efficient_solution` (solutions/efficient-solution.py) is an approximate
  pipeline. `kernelization_preprocessing` drops items heavier than the
  largest capacity. A greedy pass takes items in value-descending stable
  order and gives each one to the lowest-value mule (ties by index) with
  room, or records it as unassigned. A first-improvement local search
  then tries single-item moves, then pairwise swaps, between the current
  richest and poorest mule. It accepts a change only if the two-mule
  difference strictly drops. The result is the final spread, the mules
  and the unassigned items.

The model is functional:
- Items are `Item(value, weight)`. Greedy items are `Tagged(value, weight, index)`.
- A mule is `Mule(value, weight, capacity, items)`.
- The DP's per-mule state is `MuleState(value, weight)`. `float('inf')` is
  the `Infeasible` outcome.
- The memo dictionary is a `map` threaded through the recursion.
- The local search is a pure one-pass `Step` inside a `while` loop whose
  termination measure is the sum of squared mule values.

Files:
- numbers.dfy: `Numbers`, Max/Min/Spread and first-arg-max/min.
- cargo.dfy: `Cargo`, items and their sums.
- wrappers.dfy: `Wrappers`, Option.
- exact.dfy: `ExactSearch`, the pure recursion and its properties.
- exact_memo.dfy: `ExactMemo`, the memoised search and its entry point.
- kernel.dfy: `Kernelization`.
- mules.dfy: `Mules`, records and invariants.
- greedy.dfy: `Greedy`.
- local_search.dfy: `LocalSearch`.
- approx.dfy: `Approximate`, the whole `efficient_solution`.
- compare.dfy: `Comparison`, the exact optimum as a lower bound for any complete loading.

Values, weights and capacities are unbounded integers. The facts about
capacities are stated for non-negative input, the only kind the program's
case generator produces (experimental_analysis/experimental_analysis.py:12-31:
positive values and weights, capacity 50). The solvers themselves do not
check their input.

## Model

| member | source | states |
|---|---|---|
| ExactSearch.Solve | solutions/DP-solution.py:9-40 | A finite result holds one state per mule, and its diff is the spread (max − min) of that state's values. |
| ExactSearch.Zeros | solutions/DP-solution.py:42 | `initial_mule_states`: one (0, 0) tally per mule, exactly m of them. |
| ExactSearch.StateSpread | solutions/DP-solution.py:17-19 | The terminal score `max(values) - min(values)`: non-negative, and no two mules' values differ by more than it; `Numbers.MaxAttained` and `Numbers.MinAttained` show it is reached. |
| ExactSearch.Fits | solutions/DP-solution.py:29 | The room test `current_weight + item_weight <= mule_capacities[mule_idx]`; `ExactSearch.RespectsIffFinalWithin` and `ExactSearch.RunStaysWithin` relate it to final capacity. |
| ExactSearch.Place | solutions/DP-solution.py:30-31 | Adds the item to one mule's tally and keeps the number of mules; `ExactSearch.PlaceTotals` shows both totals grow by exactly the item's value and weight. |
| ExactSearch.Better | solutions/DP-solution.py:35-37 | The strict `diff < best_diff` update with Infeasible as infinity. The result is one of the two, infeasible only when both are, and no larger than either finite one. It replaces the running best only with a strictly smaller or first finite value. |
| ExactSearch.Branches | solutions/DP-solution.py:26-37 | The mule loop from mule j with a running best. Every finite result is a configuration of all mules scored by its own spread; `ExactSearch.BranchesIsFold` equates it with a fold of per-mule candidates. |
| ExactSearch.SolveTerminal | solutions/DP-solution.py:16-19 | At the terminal index the result is finite, its configuration is the state itself, and its diff is max − min of the state's values. |
| ExactSearch.BranchesIsFold | solutions/DP-solution.py:26-37 | The mule loop from mule j is the strict-`<` best-update applied in mule order to each branch's sub-result. A branch without room contributes nothing. |
| ExactSearch.FoldInfeasible | solutions/DP-solution.py:21-37 | The running best stays at the infinite sentinel exactly when it starts there and every branch is infeasible. |
| ExactSearch.FoldKeepsBest | solutions/DP-solution.py:35-37 | Once finite, the running best stays finite and never increases. |
| ExactSearch.FoldBound | solutions/DP-solution.py:35-37 | The running best ends no larger than every finite branch. |
| ExactSearch.FoldFirst | solutions/DP-solution.py:35-37 | The running best ends at its start value, or at the first branch strictly better than the start and than every earlier branch. |
| ExactSearch.SolveDominates | solutions/DP-solution.py:21-40 | At an inner index the result is infeasible iff every branch is; otherwise it is no larger than any feasible branch, so a feasible sibling dominates the sentinel. |
| ExactSearch.SolveChoice | solutions/DP-solution.py:26-37 | Tie-break: a finite result is the sub-result of the lowest-index mule that is strictly better than all earlier mules. |
| ExactSearch.SolveSound | solutions/DP-solution.py:24-33 | A finite result is the final state of an assignment that sends every remaining item to a real mule with room at its turn. |
| ExactSearch.SolveOptimal | solutions/DP-solution.py:21-40 | Against any capacity-respecting assignment of the remaining items, the result is finite and no larger than that assignment's spread. |
| ExactSearch.InfeasibleIff | solutions/DP-solution.py:21-40 | The result is the infinite sentinel exactly when no capacity-respecting assignment exists. |
| ExactSearch.RunStaysWithin | solutions/DP-solution.py:29-31 | Starting within capacity, every capacity-respecting assignment ends with each mule within its capacity. |
| ExactSearch.RunWeightGrows | solutions/DP-solution.py:29-31 | With non-negative weights, a mule's accumulated weight never drops along an assignment. |
| ExactSearch.RespectsIffFinalWithin | solutions/DP-solution.py:29-31 | With non-negative weights, checking room at every step is equivalent to checking the final tallies against the capacities. |
| ExactSearch.PlaceTotals | solutions/DP-solution.py:30-31 | Placing an item on one mule raises the total value and total weight over all mules by the item's. |
| ExactSearch.RunTotals | solutions/DP-solution.py:24-33 | An assignment adds each remaining item's value and weight exactly once to the totals. |
| ExactSearch.StartTotals | solutions/DP-solution.py:42-43 | From the all-zero start, an assignment of every item ends with totals equal to the item sums. |
| ExactSearch.FoundFromStart | solutions/DP-solution.py:42-45 | A finite answer is reached by a capacity-respecting assignment of all items. Its totals equal the item sums. With non-negative capacities, every mule is within capacity. |
| ExactSearch.OptimalFromStart | solutions/DP-solution.py:42-45 | The answer is no larger than the spread of any capacity-respecting assignment of all items. |
| ExactSearch.NothingToCarry | solutions/DP-solution.py:16-19 | With no items the answer is diff 0 with all-zero states. |
| ExactMemo.SolveMemo | solutions/DP-solution.py:9-40 | Memo soundness: from a memo whose entries all equal the pure recursion, the memoised call returns the pure recursion's result, and every entry of the memo it hands back still equals the pure recursion. |
| ExactMemo.BranchesMemo | solutions/DP-solution.py:26-39 | The memoised mule loop returns the pure loop's result and keeps the memo sound. |
| ExactMemo.SolveDiscreteTransport | solutions/DP-solution.py:1-45 | The answer equals the pure recursion from the all-zero start. A finite answer is a reachable capacity-respecting configuration scored by its own spread, with conserved totals. It is optimal over all capacity-respecting assignments. The sentinel comes back iff none exists, and always with no mules. No items gives 0. |
| Kernelization.Light | solutions/efficient-solution.py:11-16 | The items of weight at most the limit, in input order (`valid_items`); `Kernelization.LightMembers`, `Kernelization.FilterAppend` and `Kernelization.SplitIsPartition` characterise it. |
| Kernelization.Heavy | solutions/efficient-solution.py:11-14 | The items heavier than the limit, in input order (`infeasible_items`); `Kernelization.HeavyMembers` and `Kernelization.SplitIsPartition` characterise it. |
| Kernelization.Kernelize | solutions/efficient-solution.py:1-17 | With no capacities, nothing is kept and every item is rejected. Otherwise the kept and rejected lists are the stable filters at the largest capacity. Together they hold every item exactly once. An item is kept iff some mule could carry it alone, and rejected iff none could. |
| Kernelization.SplitCounts | solutions/efficient-solution.py:11-16 | The two lists together hold every input item with its multiplicity. |
| Kernelization.SplitLengths | solutions/efficient-solution.py:11-16 | The two lists' lengths add up to the input length. |
| Kernelization.LightMembers | solutions/efficient-solution.py:13-16 | The kept list holds exactly the input items of weight at most the limit. |
| Kernelization.HeavyMembers | solutions/efficient-solution.py:13-14 | The rejected list holds exactly the input items heavier than the limit. |
| Kernelization.FilterAppend | solutions/efficient-solution.py:11-16 | Stability: filtering a concatenation is the concatenation of the filtered parts, so both lists keep input order. |
| Kernelization.LightKeepsAll | solutions/efficient-solution.py:11-16 | When no item exceeds the limit, the kept list is the whole input. |
| Kernelization.SplitIsPartition | solutions/efficient-solution.py:8-17 | The two lists are a partition of the input by weight ≤ limit. |
| Greedy.Enumerate | solutions/efficient-solution.py:25 | Each tagged item carries the value and weight of the kernelised item at its position, and its tag is that position. |
| Greedy.RankedPairwise | solutions/efficient-solution.py:24-28 | In a ranked sequence every entry precedes every later one: higher value first, equal values by ascending tag. |
| Greedy.RankedUnique | solutions/efficient-solution.py:24-28 | Two ranked sequences with the same items are equal, so a stable value-descending sort has exactly one possible result. |
| Greedy.Insert | solutions/efficient-solution.py:24-28 | Inserting an item whose tag is below all others into a ranked sequence adds exactly that item and keeps the sequence ranked. |
| Greedy.SortByValue | solutions/efficient-solution.py:24-28 | The result is a permutation of the input, ranked: values non-increasing, ties in input (tag) order. |
| Greedy.SortedTagsPointBack | solutions/efficient-solution.py:24-28 | The greedy order is a ranked permutation of the kernelised list's enumeration, and every entry's tag indexes the kernelised item it carries. |
| Greedy.ChooseFrom | solutions/efficient-solution.py:38-46 | The scan over mules returns one with room that comes first in (value, index) order among all mules with room, or none exactly when no mule has room. |
| Greedy.ChooseMule | solutions/efficient-solution.py:38-46 | The mule the loop breaks on is the first with room in (value ascending, index ascending) order. None comes back iff no mule has room. |
| Greedy.HasRoom | solutions/efficient-solution.py:41 | The room test `weight + item_weight <= capacity` on a mule record; `Greedy.GreedyStepSpec` shows the chosen mule passes it and that None means no mule does. |
| Greedy.Precedes | solutions/efficient-solution.py:38 | The order of `sorted(range(mule_count), key=value)`: by value, ties by lower index; `Greedy.ChooseMule` returns the mule with room that precedes every other mule with room. |
| Greedy.GreedyStep | solutions/efficient-solution.py:37-48 | One turn of the placement loop: load the chosen mule or record the item as unassigned. `Greedy.GreedyStepSpec`, `Greedy.GreedyStepConserves` and `Greedy.GreedyStepTallies` state its effect. |
| Greedy.GreedyPlace | solutions/efficient-solution.py:37-48 | The loop over the sorted items; `Greedy.GreedyPlaceShape`, `Greedy.GreedyPlaceConserves` and `Greedy.GreedyPlaceTallies` state what it keeps. |
| Greedy.GreedyStepSpec | solutions/efficient-solution.py:37-48 | If no mule has room, the item is appended to the unassigned list and the mules are unchanged. Otherwise the unassigned list is unchanged, and only the first mule with room changes: it has the item loaded. |
| Greedy.GreedyStepShape | solutions/efficient-solution.py:37-48 | One greedy turn keeps the number of mules and their capacities. |
| Greedy.GreedyStepConserves | solutions/efficient-solution.py:37-48 | One greedy turn puts the item in exactly one mule list or in the unassigned list. |
| Greedy.GreedyStepTallies | solutions/efficient-solution.py:41-44 | One greedy turn keeps totals equal to item sums and, for a non-negative weight, every mule within capacity. |
| Greedy.GreedyPlaceShape | solutions/efficient-solution.py:37-48 | The greedy loop keeps the mule count and capacities, and only appends to the unassigned list. |
| Greedy.GreedyPlaceConserves | solutions/efficient-solution.py:37-48 | After the greedy loop every item of the order is in exactly one mule list or the unassigned list. |
| Greedy.GreedyPlaceTallies | solutions/efficient-solution.py:37-48 | The greedy loop keeps mule totals equal to item sums and, for non-negative weights, every mule within capacity. |
| Mules.EmptyMules | solutions/efficient-solution.py:31-34 | One fresh mule per capacity, in order, with value 0, weight 0, that capacity and no items. |
| Mules.MuleSpread | solutions/efficient-solution.py:109 | The returned `value_difference`: non-negative, and no two mules' values differ by more than it. |
| Mules.Load | solutions/efficient-solution.py:42-44 | Append an item and add its value and weight; `Mules.LoadKeeps` states the multiset, tally and capacity facts. |
| Mules.Unload | solutions/efficient-solution.py:66-68 | `items.pop(i)` with the totals lowered by that item's; `Mules.UnloadKeeps` states its effect. |
| Mules.Exchange | solutions/efficient-solution.py:96-103 | Overwrite slot i and trade the totals; `Mules.ExchangeKeeps` states its effect. |
| Mules.LoadKeeps | solutions/efficient-solution.py:41-44 | Appending an item adds exactly it to the list. It keeps the totals equal to the item sums, and keeps the mule within capacity when the room check passed. |
| Mules.UnloadKeeps | solutions/efficient-solution.py:66-68 | Popping an item removes exactly it and keeps the totals tallied and the mule within capacity. |
| Mules.ExchangeKeeps | solutions/efficient-solution.py:96-103 | Overwriting one item trades exactly it for the new one. The totals stay tallied, and the mule stays within capacity when the swap's check passed. |
| Mules.ItemSumsAppend | solutions/efficient-solution.py:42-44 | Item sums over a concatenation are the sums of the parts. |
| Mules.AllItemsUpdate | solutions/efficient-solution.py:66 | Replacing one mule changes the multiset of all assigned items by exactly that mule's old and new lists. |
| Mules.SumSquaresUpdate | solutions/efficient-solution.py:66-70 | Replacing one mule changes the sum of squared values by exactly its old and new squares. |
| Numbers.Max | solutions/efficient-solution.py:109 | The result bounds every element from above. |
| Numbers.Min | solutions/efficient-solution.py:109 | The result bounds every element from below. |
| Numbers.MaxAttained | solutions/efficient-solution.py:109 | The maximum is one of the elements. |
| Numbers.MinAttained | solutions/efficient-solution.py:109 | The minimum is one of the elements. |
| Numbers.SpreadWithin | solutions/efficient-solution.py:109 | Elements that all lie in [lo, hi] have spread at most hi − lo. |
| Numbers.Spread | solutions/efficient-solution.py:109 | Largest minus smallest element: non-negative and at least every pairwise difference of elements. |
| Numbers.ArgMax | solutions/efficient-solution.py:54 | The first index holding the maximum: no element is larger, and every earlier one is strictly smaller. |
| Numbers.ArgMin | solutions/efficient-solution.py:55 | The first index holding the minimum: no element is smaller, and every earlier one is strictly larger. |
| Numbers.ArgExtremes | solutions/efficient-solution.py:54-55 | The index scans and the value folds agree: the element at the first arg-max is the maximum, and the element at the first arg-min is the minimum. |
| LocalSearch.Richest | solutions/efficient-solution.py:54 | The richest mule is the first mule of largest value. |
| LocalSearch.Poorest | solutions/efficient-solution.py:55 | The poorest mule is the first mule of smallest value. |
| LocalSearch.CurrentDiff | solutions/efficient-solution.py:56 | Richest value minus poorest value; `LocalSearch.ImprovementNeedsSpread` shows any accepted change needs it positive. |
| LocalSearch.MoveImproves | solutions/efficient-solution.py:60-65 | The poorest mule has room for item i and `abs(...) < current_diff`; `LocalSearch.AcceptedTransfer` turns that into 0 < value < current_diff. |
| LocalSearch.SwapImproves | solutions/efficient-solution.py:80-95 | Both mules have room after the exchange and the new two-mule difference is below current_diff. |
| LocalSearch.LocalOptimum | solutions/efficient-solution.py:51-107 | The state in which a pass of `while improved` sets nothing: no move and no swap between the richest and poorest mule is accepted; `LocalSearch.Step` returns None exactly then, and `LocalSearch.Refine` ends in it. |
| LocalSearch.ApplyMove | solutions/efficient-solution.py:66-70 | Pop item i from the richest mule and append it to the poorest, adjusting both totals; `LocalSearch.MoveKeeps` states its effect. |
| LocalSearch.ApplySwap | solutions/efficient-solution.py:96-103 | Exchange item i of the richest with item j of the poorest, adjusting both totals; `LocalSearch.SwapKeeps` states its effect. |
| LocalSearch.FindMove | solutions/efficient-solution.py:58-72 | Returns the first item of the richest mule whose move fits the poorest mule and strictly lowers the two-mule difference. None comes back iff there is no such item. |
| LocalSearch.FindSwap | solutions/efficient-solution.py:76-107 | Returns the first pair in nested-loop order whose exchange fits both mules and strictly lowers the two-mule difference. None comes back iff there is no such pair. |
| LocalSearch.Step | solutions/efficient-solution.py:51-107 | A pass changes nothing exactly when no move and no swap between the richest and poorest mule improves. |
| LocalSearch.StepChoice | solutions/efficient-solution.py:58-105 | First improvement, moves before swaps. If a move improves, the pass applies the first such move. Otherwise it applies the first improving swap. |
| LocalSearch.ImprovementNeedsSpread | solutions/efficient-solution.py:56-65 | If anything improves, the current difference is positive, so the richest and poorest mules are distinct. |
| LocalSearch.AcceptedTransfer | solutions/efficient-solution.py:61-65 | An accepted difference `abs(D − 2d) < D` means the net transfer d satisfies 0 < d < D. |
| LocalSearch.TransferNarrows | solutions/efficient-solution.py:66-70 | Handing d with 0 < d < a − b from value a to value b puts both strictly between b and a, and strictly lowers a² + b². |
| LocalSearch.PairSquares | solutions/efficient-solution.py:66-70 | The transfer strictly lowers the sum of squared mule values. |
| LocalSearch.PairSpread | solutions/efficient-solution.py:66-70 | Both changed mules end strictly between the old poorest and richest values, so the spread does not grow. |
| LocalSearch.PairItems | solutions/efficient-solution.py:66 | If the two changed mules together hold the same items, all assigned items are unchanged. |
| LocalSearch.PairImproves | solutions/efficient-solution.py:56-105 | A value-d transfer between the richest and poorest mule keeps the item multiset, capacities and invariants. It leaves every other mule alone, keeps the spread from growing and lowers the sum of squares. |
| LocalSearch.MoveKeeps | solutions/efficient-solution.py:58-72 | An accepted move shifts exactly the item's value and weight from the richest to the poorest mule, with 0 < value < current_diff. It changes only those two mules, keeps the assigned items, tallies and capacities, puts both strictly between the old extremes, and lowers the sum of squares. |
| LocalSearch.ExchangeBoth | solutions/efficient-solution.py:96-99 | Trading a for b in one list and b for a in the other leaves the pair's combined items unchanged. |
| LocalSearch.SwapKeeps | solutions/efficient-solution.py:76-105 | An accepted swap shifts exactly d = rich_value − poor_value (and the weight difference) from the richest to the poorest mule, with 0 < d < current_diff. It changes only those two mules, keeps the assigned items, tallies and capacities, puts both strictly between the old extremes, and lowers the sum of squares. |
| LocalSearch.StepKeeps | solutions/efficient-solution.py:51-107 | Every accepted pass, move or swap, changes only the richest and poorest mule and keeps their combined value, so a net value moves between them; both end strictly between the old extremes. It keeps items, tallies and capacities and lowers the sum of squares. |
| LocalSearch.Refine | solutions/efficient-solution.py:51-107 | The loop terminates (the sum of squares strictly drops). It keeps the mules, capacities, assigned items and invariants, and never raises the spread. It ends at a local optimum. Started at one, it changes nothing. |
| Approximate.GreedyOrder | solutions/efficient-solution.py:21-28 | The kept items tagged with their positions and sorted by value; `Greedy.SortedTagsPointBack` shows it is a ranked permutation of that tagging. |
| Approximate.GreedyResult | solutions/efficient-solution.py:30-48 | The greedy stage yields one mule per capacity. |
| Approximate.EmptyMulesInvariants | solutions/efficient-solution.py:31-34 | Fresh mules carry the capacities in order and are tallied; with non-negative capacities they are within capacity. |
| Approximate.GreedyConserves | solutions/efficient-solution.py:21-48 | After greedy, capacities are in order, and every kernelised item is in exactly one mule list or the unassigned list. |
| Approximate.GreedyUnassignedPointBack | solutions/efficient-solution.py:24-48 | Every unassigned entry's tag is a position in the kernelised list, holding that entry's item. |
| Approximate.GreedyTallies | solutions/efficient-solution.py:36-48 | After greedy, totals equal item sums, and on non-negative input every mule is within capacity. |
| Approximate.CompleteAnswerBound | solutions/efficient-solution.py:8-48 | When kernelisation keeps every item and the mules hold all of them, tallied and within capacity, the exact search is finite and its spread is no larger than the mules'. |
| Approximate.EfficientSolution | solutions/efficient-solution.py:19-110 | Returns one mule per capacity and diff = max − min ≥ 0, no larger than the greedy spread. The unassigned list is the greedy one. Every kernelised item is in exactly one mule list or the unassigned list, with tags pointing back. Mules are tallied, within capacity on non-negative input, and at a local optimum. On non-negative input where every item fits some mule and none is left unassigned, the exact solver's optimum is no larger than `diff`. |
| Comparison.RunSnoc | solutions/DP-solution.py:24-33 | Replaying an assignment extended by one mule index places the last item on that mule after replaying the rest. |
| Comparison.HeldInAll | solutions/efficient-solution.py:31-34 | Proof step of the cross-solver bound: a mule's item list is contained in the multiset of all held items. |
| Comparison.Holder | solutions/efficient-solution.py:44 | Proof step of the cross-solver bound: every held item is at some position of some mule's list. |
| Comparison.EnumerateSnoc | solutions/efficient-solution.py:25 | Proof step of the cross-solver bound: tagging a list is tagging its prefix and then the last item with the last index. |
| Comparison.EmptyLoading | solutions/efficient-solution.py:31-34 | Proof step of the cross-solver bound: a tallied loading holding nothing has all totals zero, as the fresh mules do. |
| Comparison.UnloadFromAll | solutions/efficient-solution.py:66-68 | Popping one item takes exactly that item out of the multiset of held items. |
| Comparison.UnloadTallied | solutions/efficient-solution.py:66-68 | Popping one item keeps every mule tallied. |
| Comparison.DropLastTag | solutions/efficient-solution.py:25 | Proof step of the cross-solver bound: removing the last tag from a full tagging leaves the tagging of the prefix. |
| Comparison.PeelLast | solutions/efficient-solution.py:44 | Proof step of the cross-solver bound: taking the last item out of its mule leaves a tallied loading of the prefix. Only that mule changes, and its totals drop by the item's. |
| Comparison.PlaceLast | solutions/DP-solution.py:30-31 | Proof step of the cross-solver bound: replaying one more mule choice ends at the shorter replay's tallies with the last item added to that mule, and nothing else changed. |
| Comparison.Realize | solutions/DP-solution.py:24-33 | Every tallied loading of exactly the tagged items is some assignment's outcome: replaying it from zero tallies gives each mule its value and weight. |
| Comparison.ExactIsLowerBound | solutions/DP-solution.py:9-45 | Assume non-negative input and a loading that holds each item once, tallied and within capacity. Then the exact search is finite and its spread is at most that loading's. |

## Left out

- experimental_analysis/experimental_analysis.py and main.py: random instance generation, timing, CSV export, plotting and the command-line entry point are not part of this model.
- Zero mules in `efficient_solution`: it fails at solutions/efficient-solution.py:54 (`max` of an empty range). `Approximate.EfficientSolution` therefore requires at least one capacity. The exact solver with no mules and no items fails the same way (`max([])`), so `ExactMemo.SolveDiscreteTransport` requires at least one mule or one item. With no mules and some items it models the infeasible sentinel the source returns.
- Input validation: the source accepts negative values, weights and capacities. The capacity invariants (`Loadable`, `Within`) are stated for non-negative weights and capacities only. With a negative weight, a move can push the richest mule over its capacity.
- Numeric types: values, weights and capacities are unbounded integers rather than Python numbers, and `float('inf')` is the `Infeasible` outcome.
- In-place Python mutation: dict aliasing, `list.pop`, `append` and tuple-swap assignment are modelled as pure updates of a sequence of mule records.
- Items rejected by kernelisation: `efficient_solution` discards them, and the model does the same (they are not part of its result).
- Mule order in greedy: re-sorting mule indices by value before every item is modelled as a scan for the first mule in (value, index) order with room. That is the mule a stable sort followed by the first-fit loop reaches (`Greedy.ChooseMule`).
- Numbers.Spread: its own contract bounds every pairwise difference but does not say the bound is reached; `Numbers.MaxAttained` and `Numbers.MinAttained` carry that.
- Approximate.EfficientSolution: the bound against the exact optimum is stated only when every item ends up assigned. With items rejected or left unassigned the two solvers answer different instances.

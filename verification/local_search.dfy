/**
 The refinement stage of `efficient_solution` (solutions/efficient-solution.py):
 first-improvement local search between the current richest and poorest
 mules, trying single-item moves before pairwise swaps, and accepting a
 change only when it strictly lowers the two-mule difference.

 Every accepted change hands a net value d with 0 < d < current_diff from
 the richest to the poorest mule, so both end strictly between the old
 extremes, the global spread never grows, and the sum of squared mule
 values strictly drops: that sum is the loop's termination measure.
 */
module LocalSearch {
  import opened Numbers
  import opened Wrappers
  import opened Mules

  /** `max(range(mule_count), key=value)`: the first mule of largest value. */
  function Richest(ms: seq<Mule>): (r: nat)
    requires |ms| > 0
    ensures r < |ms|
    ensures forall k :: 0 <= k < |ms| ==> ms[k].value <= ms[r].value
    ensures forall k :: 0 <= k < r ==> ms[k].value < ms[r].value
  {
    ArgMax(MuleValues(ms))
  }

  /** `min(range(mule_count), key=value)`: the first mule of smallest value. */
  function Poorest(ms: seq<Mule>): (p: nat)
    requires |ms| > 0
    ensures p < |ms|
    ensures forall k :: 0 <= k < |ms| ==> ms[p].value <= ms[k].value
    ensures forall k :: 0 <= k < p ==> ms[p].value < ms[k].value
  {
    ArgMin(MuleValues(ms))
  }

  /** `current_diff`: the richest value minus the poorest. */
  function CurrentDiff(ms: seq<Mule>): int
    requires |ms| > 0
  {
    ms[Richest(ms)].value - ms[Poorest(ms)].value
  }

  /** Moving `rich.items[i]` onto `poor` fits and gives a two-mule difference below `diff`. */
  predicate MoveImproves(rich: Mule, poor: Mule, diff: int, i: nat)
    requires i < |rich.items|
  {
    var t := rich.items[i];
    && poor.weight + t.weight <= poor.capacity
    && Abs((rich.value - t.value) - (poor.value + t.value)) < diff
  }

  /** Exchanging `rich.items[i]` and `poor.items[j]` fits both and gives a two-mule difference below `diff`. */
  predicate SwapImproves(rich: Mule, poor: Mule, diff: int, i: nat, j: nat)
    requires i < |rich.items| && j < |poor.items|
  {
    var a := rich.items[i];
    var b := poor.items[j];
    && rich.weight - a.weight + b.weight <= rich.capacity
    && poor.weight - b.weight + a.weight <= poor.capacity
    && Abs((rich.value - a.value + b.value) - (poor.value - b.value + a.value)) < diff
  }

  /** (i, j) comes strictly before (i', j') in the nested loops' order. */
  predicate LexBefore(i: nat, j: nat, i': nat, j': nat)
  {
    i < i' || (i == i' && j < j')
  }

  /** The first improving move at position `i` or later. */
  function FindMove(rich: Mule, poor: Mule, diff: int, i: nat): (r: Option<nat>)
    requires i <= |rich.items|
    ensures r.Some? ==> i <= r.value < |rich.items| && MoveImproves(rich, poor, diff, r.value)
    ensures r.Some? ==> forall k :: i <= k < r.value ==> !MoveImproves(rich, poor, diff, k)
    ensures r.None? ==> forall k :: i <= k < |rich.items| ==> !MoveImproves(rich, poor, diff, k)
    decreases |rich.items| - i
  {
    if i == |rich.items| then None
    else if MoveImproves(rich, poor, diff, i) then Some(i)
    else FindMove(rich, poor, diff, i + 1)
  }

  /** The first improving swap at (i, j) or later in the nested loops' order. */
  function FindSwap(rich: Mule, poor: Mule, diff: int, i: nat, j: nat): (r: Option<(nat, nat)>)
    requires i <= |rich.items| && j <= |poor.items|
    ensures r.Some? ==> r.value.0 < |rich.items| && r.value.1 < |poor.items|
    ensures r.Some? ==> SwapImproves(rich, poor, diff, r.value.0, r.value.1)
    ensures r.Some? ==> !LexBefore(r.value.0, r.value.1, i, j)
    ensures r.Some? ==>
              forall a, b :: 0 <= a < |rich.items| && 0 <= b < |poor.items| &&
                             !LexBefore(a, b, i, j) && LexBefore(a, b, r.value.0, r.value.1)
                             ==> !SwapImproves(rich, poor, diff, a, b)
    ensures r.None? ==>
              forall a, b :: 0 <= a < |rich.items| && 0 <= b < |poor.items| && !LexBefore(a, b, i, j)
                             ==> !SwapImproves(rich, poor, diff, a, b)
    decreases |rich.items| - i, |poor.items| - j
  {
    if i == |rich.items| then None
    else if j == |poor.items| then FindSwap(rich, poor, diff, i + 1, 0)
    else if SwapImproves(rich, poor, diff, i, j) then Some((i, j))
    else FindSwap(rich, poor, diff, i, j + 1)
  }

  /**
   `mules[poorest]['items'].append(mules[richest]['items'].pop(i))` and the
   matching updates of both mules' value and weight.
   */
  function ApplyMove(ms: seq<Mule>, r: nat, p: nat, i: nat): seq<Mule>
    requires r < |ms| && p < |ms| && i < |ms[r].items|
  {
    ms[r := Unload(ms[r], i)][p := Load(ms[p], ms[r].items[i])]
  }

  /** Exchange `rich.items[i]` with `poor.items[j]` in place, updating both mules' totals. */
  function ApplySwap(ms: seq<Mule>, r: nat, p: nat, i: nat, j: nat): seq<Mule>
    requires r < |ms| && p < |ms| && i < |ms[r].items| && j < |ms[p].items|
  {
    ms[r := Exchange(ms[r], i, ms[p].items[j])][p := Exchange(ms[p], j, ms[r].items[i])]
  }

  /** No move and no swap between the richest and poorest mule strictly lowers their difference. */
  predicate LocalOptimum(ms: seq<Mule>)
    requires |ms| > 0
  {
    var r := Richest(ms);
    var p := Poorest(ms);
    var diff := CurrentDiff(ms);
    && (forall i :: 0 <= i < |ms[r].items| ==> !MoveImproves(ms[r], ms[p], diff, i))
    && (forall i, j :: 0 <= i < |ms[r].items| && 0 <= j < |ms[p].items| ==> !SwapImproves(ms[r], ms[p], diff, i, j))
  }

  /** An accepted change needs a positive current difference, hence two distinct mules. */
  lemma ImprovementNeedsSpread(ms: seq<Mule>)
    requires |ms| > 0
    requires !LocalOptimum(ms)
    ensures CurrentDiff(ms) > 0 && Richest(ms) != Poorest(ms)
  {
  }

  /**
   One pass of `while improved`: the first improving move if there is one,
   else the first improving swap, else nothing (the loop then stops).
   */
  function Step(ms: seq<Mule>): (next: Option<seq<Mule>>)
    requires |ms| > 0
    ensures next.None? <==> LocalOptimum(ms)
  {
    var r := Richest(ms);
    var p := Poorest(ms);
    var diff := CurrentDiff(ms);
    match FindMove(ms[r], ms[p], diff, 0)
    case Some(i) => Some(ApplyMove(ms, r, p, i))
    case None =>
      match FindSwap(ms[r], ms[p], diff, 0, 0)
      case Some((i, j)) => Some(ApplySwap(ms, r, p, i, j))
      case None => None
  }

  /** The first position of an improving move. */
  predicate FirstMove(ms: seq<Mule>, i: nat)
    requires |ms| > 0
  {
    var r := Richest(ms);
    i < |ms[r].items| && MoveImproves(ms[r], ms[Poorest(ms)], CurrentDiff(ms), i) &&
    forall k :: 0 <= k < i ==> !MoveImproves(ms[r], ms[Poorest(ms)], CurrentDiff(ms), k)
  }

  /** The first pair, in the nested loops' order, of an improving swap. */
  predicate FirstSwap(ms: seq<Mule>, i: nat, j: nat)
    requires |ms| > 0
  {
    var r := Richest(ms);
    var p := Poorest(ms);
    && i < |ms[r].items| && j < |ms[p].items|
    && SwapImproves(ms[r], ms[p], CurrentDiff(ms), i, j)
    && forall a, b :: 0 <= a < |ms[r].items| && 0 <= b < |ms[p].items| && LexBefore(a, b, i, j) ==>
         !SwapImproves(ms[r], ms[p], CurrentDiff(ms), a, b)
  }

  /**
   First improvement, moves before swaps: when some move improves, the pass
   applies the first such move; when none does, it applies the first
   improving swap.
   */
  lemma StepChoice(ms: seq<Mule>)
    requires |ms| > 0
    ensures var r, p := Richest(ms), Poorest(ms);
      && (forall i: nat :: FirstMove(ms, i) ==> Step(ms) == Some(ApplyMove(ms, r, p, i)))
      && ((forall i :: 0 <= i < |ms[r].items| ==> !MoveImproves(ms[r], ms[p], CurrentDiff(ms), i)) ==>
            forall i: nat, j: nat :: FirstSwap(ms, i, j) ==> Step(ms) == Some(ApplySwap(ms, r, p, i, j)))
  {
    var r, p, diff := Richest(ms), Poorest(ms), CurrentDiff(ms);
    match FindMove(ms[r], ms[p], diff, 0)
    case Some(k) =>
      forall i: nat | FirstMove(ms, i) ensures i == k {
      }
    case None =>
      match FindSwap(ms[r], ms[p], diff, 0, 0)
      case Some((a, b)) =>
        forall i: nat, j: nat | FirstSwap(ms, i, j) ensures (i, j) == (a, b) {
        }
      case None =>
  }

  // ---------------------------------------------------------------------
  // What an accepted change does
  // ---------------------------------------------------------------------

  /**
   Handing net value d, 0 < d < a - b, from a mule of value a to one of
   value b puts both strictly between b and a and lowers the sum of squares.
   */
  lemma TransferNarrows(a: int, b: int, d: int)
    requires 0 < d < a - b
    ensures b < a - d < a && b < b + d < a
    ensures Square(a - d) + Square(b + d) < Square(a) + Square(b)
  {
    assert Square(a - d) == a * a - 2 * a * d + d * d;
    assert Square(b + d) == b * b + 2 * b * d + d * d;
    assert (a - b - d) * d > 0 by {
      assert a - b - d > 0;
    }
  }

  /** The transfer an accepted two-mule difference implies: |D - 2d| < D gives 0 < d < D. */
  lemma AcceptedTransfer(diff: int, d: int)
    requires Abs(diff - 2 * d) < diff
    ensures 0 < d < diff
  {
  }

  lemma RichestIsMax(ms: seq<Mule>)
    requires |ms| > 0
    ensures ms[Richest(ms)].value == Max(MuleValues(ms))
    ensures ms[Poorest(ms)].value == Min(MuleValues(ms))
  {
    ArgExtremes(MuleValues(ms));
  }

  /** Replacing the richest and poorest mule by the transfer of d strictly lowers the sum of squares. */
  lemma PairSquares(ms: seq<Mule>, r: nat, p: nat, rich: Mule, poor: Mule, d: int)
    requires r < |ms| && p < |ms| && r != p
    requires 0 < d < ms[r].value - ms[p].value
    requires rich.value == ms[r].value - d && poor.value == ms[p].value + d
    ensures SumSquares(ms[r := rich][p := poor]) < SumSquares(ms)
  {
    TransferNarrows(ms[r].value, ms[p].value, d);
    SumSquaresUpdate(ms, r, rich);
    SumSquaresUpdate(ms[r := rich], p, poor);
    assert ms[r := rich][p] == ms[p];
  }

  /**
   The richest and poorest mules get values strictly between the old
   extremes and every other mule is unchanged, so the spread does not grow.
   */
  lemma PairSpread(ms: seq<Mule>, r: nat, p: nat, rich: Mule, poor: Mule, d: int)
    requires |ms| > 0 && r == Richest(ms) && p == Poorest(ms) && r != p
    requires 0 < d < CurrentDiff(ms)
    requires rich.value == ms[r].value - d && poor.value == ms[p].value + d
    ensures var next := ms[r := rich][p := poor];
      && MuleSpread(next) <= MuleSpread(ms)
      && Min(MuleValues(ms)) < next[r].value < Max(MuleValues(ms))
      && Min(MuleValues(ms)) < next[p].value < Max(MuleValues(ms))
  {
    var next := ms[r := rich][p := poor];
    var a, b := ms[r].value, ms[p].value;
    RichestIsMax(ms);
    var vs := MuleValues(next);
    forall k | 0 <= k < |vs|
      ensures b <= vs[k] <= a
    {
      if k != r && k != p {
        assert next[k] == ms[k];
      }
    }
    SpreadWithin(vs, b, a);
  }

  /** Item bookkeeping when two distinct mules are replaced. */
  lemma PairItems(ms: seq<Mule>, r: nat, p: nat, rich: Mule, poor: Mule)
    requires r < |ms| && p < |ms| && r != p
    requires multiset(rich.items) + multiset(poor.items) == multiset(ms[r].items) + multiset(ms[p].items)
    ensures AllItems(ms[r := rich][p := poor]) == AllItems(ms)
  {
    var mid := ms[r := rich];
    var next := mid[p := poor];
    AllItemsUpdate(ms, r, rich);
    AllItemsUpdate(mid, p, poor);
    assert mid[p] == ms[p];
    var a0, a1, a2 := AllItems(ms), AllItems(mid), AllItems(next);
    var mr, mp, nr, np := multiset(ms[r].items), multiset(ms[p].items), multiset(rich.items), multiset(poor.items);
    assert a1 + mr == a0 + nr;
    assert a2 + mp == a1 + np;
    assert nr + np == mr + mp;
    forall x
      ensures a2[x] == a0[x]
    {
      assert (a1 + mr)[x] == (a0 + nr)[x];
      assert (a2 + mp)[x] == (a1 + np)[x];
      assert (nr + np)[x] == (mr + mp)[x];
    }
    assert a2 == a0;
  }

  /**
   What an accepted pass guarantees: same mules and capacities, only the
   richest and poorest mule changed, the same items assigned, totals still
   equal to item sums and within capacity, a net value d moved from the
   richest to the poorest mule (their sum is kept, and both end strictly
   between the old extremes, so 0 < d < the old spread), a spread no larger
   and a strictly smaller sum of squared values.
   */
  predicate Improves(ms: seq<Mule>, next: seq<Mule>)
    requires |ms| > 0
  {
    var r, p := Richest(ms), Poorest(ms);
    && |next| == |ms|
    && Capacities(next) == Capacities(ms)
    && (forall k :: 0 <= k < |ms| && k != r && k != p ==> next[k] == ms[k])
    && AllItems(next) == AllItems(ms)
    && (AllTallied(ms) ==> AllTallied(next))
    && (AllLoadable(ms) ==> AllLoadable(next))
    && next[r].value + next[p].value == ms[r].value + ms[p].value
    && Min(MuleValues(ms)) < next[r].value < Max(MuleValues(ms))
    && Min(MuleValues(ms)) < next[p].value < Max(MuleValues(ms))
    && MuleSpread(next) <= MuleSpread(ms)
    && SumSquares(next) < SumSquares(ms)
  }

  /** Replacing two distinct mules keeps the others, the count and (given equal capacities) the capacities. */
  lemma PairFrame(ms: seq<Mule>, r: nat, p: nat, rich: Mule, poor: Mule)
    requires r < |ms| && p < |ms| && r != p
    requires rich.capacity == ms[r].capacity && poor.capacity == ms[p].capacity
    ensures var next := ms[r := rich][p := poor];
      && |next| == |ms| && Capacities(next) == Capacities(ms)
      && (forall k :: 0 <= k < |ms| && k != r && k != p ==> next[k] == ms[k])
      && next[r] == rich && next[p] == poor
  {
  }

  /** Replacing two mules by ones that are tallied and within capacity keeps those invariants. */
  lemma PairInvariants(ms: seq<Mule>, r: nat, p: nat, rich: Mule, poor: Mule)
    requires r < |ms| && p < |ms| && r != p
    ensures AllTallied(ms) && Tallied(rich) && Tallied(poor) ==> AllTallied(ms[r := rich][p := poor])
    ensures AllLoadable(ms) && Loadable(rich) && Loadable(poor) ==> AllLoadable(ms[r := rich][p := poor])
  {
  }

  /**
   Replacing the richest and poorest mule by a pair that trades value d,
   keeps the pair's items and capacities and keeps each invariant the
   whole sequence had, satisfies Improves.
   */
  lemma PairImproves(ms: seq<Mule>, rich: Mule, poor: Mule, d: int)
    requires |ms| > 0 && Richest(ms) != Poorest(ms)
    requires 0 < d < CurrentDiff(ms)
    requires rich.value == ms[Richest(ms)].value - d && poor.value == ms[Poorest(ms)].value + d
    requires rich.capacity == ms[Richest(ms)].capacity && poor.capacity == ms[Poorest(ms)].capacity
    requires multiset(rich.items) + multiset(poor.items) ==
             multiset(ms[Richest(ms)].items) + multiset(ms[Poorest(ms)].items)
    requires AllTallied(ms) ==> Tallied(rich) && Tallied(poor)
    requires AllLoadable(ms) ==> Loadable(rich) && Loadable(poor)
    ensures Improves(ms, ms[Richest(ms) := rich][Poorest(ms) := poor])
  {
    var r, p := Richest(ms), Poorest(ms);
    PairSquares(ms, r, p, rich, poor, d);
    PairSpread(ms, r, p, rich, poor, d);
    PairFrame(ms, r, p, rich, poor);
    PairItems(ms, r, p, rich, poor);
    PairInvariants(ms, r, p, rich, poor);
  }

  /**
   An accepted move shifts exactly the moved item's value and weight from
   the richest to the poorest mule, that value lies strictly between 0 and
   the current difference, and the result satisfies Improves.
   */
  lemma MoveKeeps(ms: seq<Mule>, i: nat)
    requires |ms| > 0 && FirstMove(ms, i)
    ensures Richest(ms) != Poorest(ms)
    ensures var r, p := Richest(ms), Poorest(ms);
      var t, next := ms[r].items[i], ApplyMove(ms, r, p, i);
      && next[r].value == ms[r].value - t.value && next[r].weight == ms[r].weight - t.weight
      && next[p].value == ms[p].value + t.value && next[p].weight == ms[p].weight + t.weight
      && 0 < t.value < CurrentDiff(ms)
    ensures Improves(ms, ApplyMove(ms, Richest(ms), Poorest(ms), i))
  {
    var r, p := Richest(ms), Poorest(ms);
    ImprovementNeedsSpread(ms);
    var t := ms[r].items[i];
    var rich', poor' := Unload(ms[r], i), Load(ms[p], t);
    assert ApplyMove(ms, r, p, i) == ms[r := rich'][p := poor'];
    var diff := CurrentDiff(ms);
    assert (ms[r].value - t.value) - (ms[p].value + t.value) == diff - 2 * t.value;
    AcceptedTransfer(diff, t.value);
    UnloadKeeps(ms[r], i);
    LoadKeeps(ms[p], t);
    if AllLoadable(ms) {
      assert t in ms[r].items;
    }
    PairImproves(ms, rich', poor', t.value);
  }

  /** Two exchanges of `a` for `b` and back leave the pair's combined items unchanged. */
  lemma ExchangeBoth(mr: multiset<Tagged>, mp: multiset<Tagged>, nr: multiset<Tagged>, np: multiset<Tagged>,
                     a: Tagged, b: Tagged)
    requires nr + multiset{a} == mr + multiset{b}
    requires np + multiset{b} == mp + multiset{a}
    ensures nr + np == mr + mp
  {
    forall x
      ensures (nr + np)[x] == (mr + mp)[x]
    {
      assert (nr + multiset{a})[x] == (mr + multiset{b})[x];
      assert (np + multiset{b})[x] == (mp + multiset{a})[x];
    }
  }

  /**
   An accepted swap shifts exactly d = rich_value - poor_value of value
   (and the weight difference) from the richest to the poorest mule, with
   0 < d < the current difference, and the result satisfies Improves.
   */
  lemma SwapKeeps(ms: seq<Mule>, i: nat, j: nat)
    requires |ms| > 0 && FirstSwap(ms, i, j)
    ensures Richest(ms) != Poorest(ms)
    ensures var r, p := Richest(ms), Poorest(ms);
      var a, b, next := ms[r].items[i], ms[p].items[j], ApplySwap(ms, r, p, i, j);
      && next[r].value == ms[r].value - (a.value - b.value)
      && next[r].weight == ms[r].weight - (a.weight - b.weight)
      && next[p].value == ms[p].value + (a.value - b.value)
      && next[p].weight == ms[p].weight + (a.weight - b.weight)
      && 0 < a.value - b.value < CurrentDiff(ms)
    ensures Improves(ms, ApplySwap(ms, Richest(ms), Poorest(ms), i, j))
  {
    var r, p := Richest(ms), Poorest(ms);
    ImprovementNeedsSpread(ms);
    var a, b := ms[r].items[i], ms[p].items[j];
    var rich', poor' := Exchange(ms[r], i, b), Exchange(ms[p], j, a);
    assert ApplySwap(ms, r, p, i, j) == ms[r := rich'][p := poor'];
    var diff := CurrentDiff(ms);
    var d := a.value - b.value;
    assert (ms[r].value - a.value + b.value) - (ms[p].value - b.value + a.value) == diff - 2 * d;
    AcceptedTransfer(diff, d);
    ExchangeKeeps(ms[r], i, b);
    ExchangeKeeps(ms[p], j, a);
    ExchangeBoth(multiset(ms[r].items), multiset(ms[p].items), multiset(rich'.items), multiset(poor'.items), a, b);
    if AllLoadable(ms) {
      assert a in ms[r].items && b in ms[p].items;
    }
    PairImproves(ms, rich', poor', d);
  }

  /** Every accepted pass, whichever operator it applied, satisfies Improves. */
  lemma StepKeeps(ms: seq<Mule>)
    requires |ms| > 0 && Step(ms).Some?
    ensures Improves(ms, Step(ms).value)
  {
    var r, p, diff := Richest(ms), Poorest(ms), CurrentDiff(ms);
    StepChoice(ms);
    match FindMove(ms[r], ms[p], diff, 0)
    case Some(i) =>
      assert FirstMove(ms, i);
      MoveKeeps(ms, i);
    case None =>
      match FindSwap(ms[r], ms[p], diff, 0, 0)
      case Some((i, j)) =>
        assert FirstSwap(ms, i, j);
        SwapKeeps(ms, i, j);
      case None =>
  }

  /**
   The `while improved` loop. It ends because every accepted pass strictly
   lowers the sum of squared mule values; at exit no move or swap between
   the richest and poorest mule improves, so running it again on its own
   output changes nothing.
   */
  method Refine(ms: seq<Mule>) returns (out: seq<Mule>)
    requires |ms| > 0
    ensures |out| == |ms| && Capacities(out) == Capacities(ms)
    ensures AllItems(out) == AllItems(ms)
    ensures AllTallied(ms) ==> AllTallied(out)
    ensures AllLoadable(ms) ==> AllLoadable(out)
    ensures MuleSpread(out) <= MuleSpread(ms)
    ensures LocalOptimum(out)
    ensures LocalOptimum(ms) ==> out == ms
  {
    out := ms;
    var improved := true;
    while improved
      invariant |out| == |ms| && Capacities(out) == Capacities(ms)
      invariant AllItems(out) == AllItems(ms)
      invariant AllTallied(ms) ==> AllTallied(out)
      invariant AllLoadable(ms) ==> AllLoadable(out)
      invariant MuleSpread(out) <= MuleSpread(ms)
      invariant !improved ==> LocalOptimum(out)
      invariant LocalOptimum(ms) ==> out == ms
      decreases SumSquares(out), if improved then 1 else 0
    {
      improved := false;
      var step := Step(out);
      if step.Some? {
        StepKeeps(out);
        out := step.value;
        improved := true;
      }
    }
  }
}

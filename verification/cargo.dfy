/**
 The input both solvers share: an item is a (value, weight) pair, and a
 problem is a sequence of items plus one capacity per mule.
 */
module Cargo {

  datatype Item = Item(value: int, weight: int)

  function SumValues(items: seq<Item>): int
  {
    if |items| == 0 then 0 else items[0].value + SumValues(items[1..])
  }

  function SumWeights(items: seq<Item>): int
  {
    if |items| == 0 then 0 else items[0].weight + SumWeights(items[1..])
  }

  /** Nothing negative: the only kind of input the program's case generator produces. */
  predicate NonNegative(items: seq<Item>, caps: seq<int>)
  {
    && (forall i :: 0 <= i < |items| ==> items[i].value >= 0 && items[i].weight >= 0)
    && (forall k :: 0 <= k < |caps| ==> caps[k] >= 0)
  }
}

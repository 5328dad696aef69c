/**
 Integer helpers shared by both solvers: absolute value, the maximum and
 minimum of a non-empty sequence, the spread between them, and the first
 index of a maximum / minimum (the index Python's `max`/`min` with a `key`
 return when several elements tie).
 */
module Numbers {

  function Abs(x: int): (r: int)
    ensures r >= 0
    ensures r == x || r == -x
  {
    if x < 0 then -x else x
  }

  /** Largest element of a non-empty sequence. */
  function Max(s: seq<int>): (m: int)
    requires |s| > 0
    ensures forall i :: 0 <= i < |s| ==> s[i] <= m
  {
    if |s| == 1 then s[0]
    else
      var rest := Max(s[1..]);
      assert forall i :: 1 <= i < |s| ==> s[i] == s[1..][i - 1];
      if s[0] >= rest then s[0] else rest
  }

  /** Smallest element of a non-empty sequence. */
  function Min(s: seq<int>): (m: int)
    requires |s| > 0
    ensures forall i :: 0 <= i < |s| ==> m <= s[i]
  {
    if |s| == 1 then s[0]
    else
      var rest := Min(s[1..]);
      assert forall i :: 1 <= i < |s| ==> s[i] == s[1..][i - 1];
      if s[0] <= rest then s[0] else rest
  }

  /** The maximum is one of the elements. */
  lemma {:induction false} MaxAttained(s: seq<int>) returns (i: nat)
    requires |s| > 0
    ensures i < |s| && s[i] == Max(s)
    decreases |s|
  {
    if |s| == 1 {
      i := 0;
    } else {
      var j := MaxAttained(s[1..]);
      i := if s[0] >= Max(s[1..]) then 0 else j + 1;
    }
  }

  /** The minimum is one of the elements. */
  lemma {:induction false} MinAttained(s: seq<int>) returns (i: nat)
    requires |s| > 0
    ensures i < |s| && s[i] == Min(s)
    decreases |s|
  {
    if |s| == 1 {
      i := 0;
    } else {
      var j := MinAttained(s[1..]);
      i := if s[0] <= Min(s[1..]) then 0 else j + 1;
    }
  }

  /** Largest minus smallest element: the objective both solvers minimise. */
  function Spread(s: seq<int>): (d: int)
    requires |s| > 0
    ensures d >= 0
    ensures forall i, j :: 0 <= i < |s| && 0 <= j < |s| ==> s[i] - s[j] <= d
  {
    Max(s) - Min(s)
  }

  /** A sequence whose elements all lie in [lo, hi] has spread at most hi - lo. */
  lemma SpreadWithin(s: seq<int>, lo: int, hi: int)
    requires |s| > 0
    requires forall i :: 0 <= i < |s| ==> lo <= s[i] <= hi
    ensures Spread(s) <= hi - lo
  {
    var i := MaxAttained(s);
    var j := MinAttained(s);
  }

  /**
   Scan for the first index of a maximum, left to right, replacing the
   candidate only on a strictly larger element.
   */
  function ArgMaxFrom(s: seq<int>, i: nat, best: nat): (k: nat)
    requires best < i <= |s|
    requires forall j :: 0 <= j < i ==> s[j] <= s[best]
    requires forall j :: 0 <= j < best ==> s[j] < s[best]
    ensures k < |s|
    ensures forall j :: 0 <= j < |s| ==> s[j] <= s[k]
    ensures forall j :: 0 <= j < k ==> s[j] < s[k]
    decreases |s| - i
  {
    if i == |s| then best
    else ArgMaxFrom(s, i + 1, if s[i] > s[best] then i else best)
  }

  /** First index holding the maximum. */
  function ArgMax(s: seq<int>): (k: nat)
    requires |s| > 0
    ensures k < |s|
    ensures forall j :: 0 <= j < |s| ==> s[j] <= s[k]
    ensures forall j :: 0 <= j < k ==> s[j] < s[k]
  {
    ArgMaxFrom(s, 1, 0)
  }

  /** Scan for the first index of a minimum. */
  function ArgMinFrom(s: seq<int>, i: nat, best: nat): (k: nat)
    requires best < i <= |s|
    requires forall j :: 0 <= j < i ==> s[best] <= s[j]
    requires forall j :: 0 <= j < best ==> s[best] < s[j]
    ensures k < |s|
    ensures forall j :: 0 <= j < |s| ==> s[k] <= s[j]
    ensures forall j :: 0 <= j < k ==> s[k] < s[j]
    decreases |s| - i
  {
    if i == |s| then best
    else ArgMinFrom(s, i + 1, if s[i] < s[best] then i else best)
  }

  /** First index holding the minimum. */
  function ArgMin(s: seq<int>): (k: nat)
    requires |s| > 0
    ensures k < |s|
    ensures forall j :: 0 <= j < |s| ==> s[k] <= s[j]
    ensures forall j :: 0 <= j < k ==> s[k] < s[j]
  {
    ArgMinFrom(s, 1, 0)
  }

  /** The first-index scans agree with the extreme values: Max and Min are attained there. */
  lemma ArgExtremes(s: seq<int>)
    requires |s| > 0
    ensures s[ArgMax(s)] == Max(s)
    ensures s[ArgMin(s)] == Min(s)
  {
    var i := MaxAttained(s);
    var j := MinAttained(s);
  }
}

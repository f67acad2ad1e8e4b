/** Both front ends run six checks in a fixed order and report the first
    that fails. This module states that shape once, over the checks'
    outcomes as booleans. */
module Precedence {
  import opened Wrappers

  /** The first of six checks, taken in `order`, whose outcome in `fails`
      is a failure; None when all pass. */
  function FirstOfSix<E>(order: seq<E>, fails: seq<bool>): Option<E>
    requires |order| == 6 && |fails| == 6
  {
    if fails[0] then Some(order[0])
    else if fails[1] then Some(order[1])
    else if fails[2] then Some(order[2])
    else if fails[3] then Some(order[3])
    else if fails[4] then Some(order[4])
    else if fails[5] then Some(order[5])
    else None
  }

  /** Each check's outcome, in the order they run. */
  function Outcomes<E>(order: seq<E>, fails: E -> bool): (t: seq<bool>)
    ensures |t| == |order|
    ensures forall j :: 0 <= j < |order| ==> t[j] == fails(order[j])
  {
    seq(|order|, j requires 0 <= j < |order| => fails(order[j]))
  }

  ghost predicate Distinct<E>(order: seq<E>) {
    forall i, j :: 0 <= i < j < |order| ==> order[i] != order[j]
  }

  /** With distinct checks, check `k` is reported exactly when it fails and
      every check before it passes. */
  lemma FirstOfSixWins<E>(order: seq<E>, fails: seq<bool>, k: nat)
    requires |order| == 6 && |fails| == 6 && k < 6
    requires Distinct(order)
    ensures FirstOfSix(order, fails) == Some(order[k]) <==>
      fails[k] && forall j :: 0 <= j < k ==> !fails[j]
  {
    if forall j :: 0 <= j < k ==> !fails[j] {
      if k > 0 { assert !fails[0]; }
      if k > 1 { assert !fails[1]; }
      if k > 2 { assert !fails[2]; }
      if k > 3 { assert !fails[3]; }
      if k > 4 { assert !fails[4]; }
    } else {
      var j :| 0 <= j < k && fails[j];
      assert j == 0 || j == 1 || j == 2 || j == 3 || j == 4;
    }
  }
}

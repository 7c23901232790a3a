/** Both core functions run a fixed list of checks in order and return a code
    that names the first one that fails. This module is the reference for that
    pattern: the index of the first failing check. */
module Ladder {

  /** The index of the first false entry of `checks`, or |checks| when all hold. */
  function FirstFailure(checks: seq<bool>): (i: nat)
    ensures i <= |checks|
    ensures forall j :: 0 <= j < i ==> checks[j]
    ensures i < |checks| ==> !checks[i]
  {
    if |checks| == 0 then 0
    else if !checks[0] then 0
    else 1 + FirstFailure(checks[1..])
  }

  /** Every check holds exactly when none fails. */
  lemma AllPassIffNoFailure(checks: seq<bool>)
    ensures (forall j :: 0 <= j < |checks| ==> checks[j]) <==> FirstFailure(checks) == |checks|
  {
  }

  /** The ladder of four checks, unrolled. */
  lemma FirstFailureOfFour(a: bool, b: bool, c: bool, d: bool)
    ensures FirstFailure([a, b, c, d]) == if !a then 0 else if !b then 1 else if !c then 2 else if !d then 3 else 4
  {
    assert [a, b, c, d][1..] == [b, c, d];
    assert [b, c, d][1..] == [c, d];
    assert [c, d][1..] == [d];
    assert [d][1..] == [];
    assert FirstFailure([d]) == if !d then 0 else 1 + FirstFailure([]);
    assert FirstFailure([c, d]) == if !c then 0 else 1 + FirstFailure([d]);
    assert FirstFailure([b, c, d]) == if !b then 0 else 1 + FirstFailure([c, d]);
  }
}

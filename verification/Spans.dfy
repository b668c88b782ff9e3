/** A condition along a sequence of steps: each step begins it, keeps it as it was, or ends it. */
module Spans {

  datatype Effect = Begins | Keeps | Ends

  /** Some earlier step began it, and none since has ended it. */
  ghost predicate Since(effects: seq<Effect>, k: nat)
    requires k <= |effects|
  {
    exists i: nat :: i < k && effects[i].Begins? && forall j :: i < j < k ==> !effects[j].Ends?
  }

  /** What step `i` does to the condition. */
  ghost predicate Follows(holds: seq<bool>, effects: seq<Effect>, i: nat)
    requires i < |effects| < |holds|
  {
    holds[i + 1] <==> effects[i].Begins? || (effects[i].Keeps? && holds[i])
  }

  /** A condition that does not hold at first holds exactly since the last step that began it. */
  lemma {:induction false} SinceExactly(holds: seq<bool>, effects: seq<Effect>, k: nat)
    requires k <= |effects| < |holds| && !holds[0]
    requires forall i :: 0 <= i < |effects| ==> Follows(holds, effects, i)
    ensures holds[k] <==> Since(effects, k)
  {
    if k == 0 {
    } else {
      SinceExactly(holds, effects, k - 1);
      assert Follows(holds, effects, k - 1);
      SinceGrows(effects, k);
    }
  }

  lemma SinceGrows(effects: seq<Effect>, k: nat)
    requires 0 < k <= |effects|
    ensures Since(effects, k) <==> effects[k - 1].Begins? || (effects[k - 1].Keeps? && Since(effects, k - 1))
  {
    if Since(effects, k) {
      var i: nat :| i < k && effects[i].Begins? && forall j :: i < j < k ==> !effects[j].Ends?;
      if i < k - 1 {
        assert !effects[k - 1].Ends?;
        assert forall j :: i < j < k - 1 ==> !effects[j].Ends?;
      }
    }
    if effects[k - 1].Keeps? && Since(effects, k - 1) {
      var i: nat :| i < k - 1 && effects[i].Begins? && forall j :: i < j < k - 1 ==> !effects[j].Ends?;
      assert forall j :: i < j < k ==> !effects[j].Ends?;
    }
  }
}

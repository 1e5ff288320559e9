/** components/Roadmap2.tsx: the same steps as components/Roadmap.tsx (module Roadmap), plus a
    per-step expanded flag keyed by step id, flipped with `Flags.Toggle`. */
module Roadmap2 {
  import opened Roadmap
  import Flags

  /** `defaultExpanded` after the `forEach` over the steps: each id maps to "not completed";
      a later step with the same id overwrites an earlier one. */
  function ExpandedOf(steps: seq<Step>): map<string, bool>
  {
    if |steps| == 0 then map[]
    else ExpandedOf(steps[..|steps| - 1])[steps[|steps| - 1].id := !steps[|steps| - 1].isCompleted]
  }

  /** The `forEach` filling `defaultExpanded`. */
  method DefaultExpanded(steps: seq<Step>) returns (expanded: map<string, bool>)
    ensures expanded == ExpandedOf(steps)
  {
    expanded := map[];
    var i := 0;
    while i < |steps|
      invariant 0 <= i <= |steps|
      invariant expanded == ExpandedOf(steps[..i])
    {
      expanded := expanded[steps[i].id := !steps[i].isCompleted];
      assert steps[..i + 1][..i] == steps[..i];
      i := i + 1;
    }
    assert steps[..i] == steps;
  }

  /** Every step id has a flag and nothing else does. */
  lemma {:induction false} ExpandedKeys(steps: seq<Step>)
    ensures ExpandedOf(steps).Keys == set i | 0 <= i < |steps| :: steps[i].id
  {
    if |steps| > 0 {
      var init := steps[..|steps| - 1];
      ExpandedKeys(init);
      assert forall i :: 0 <= i < |init| ==> init[i] == steps[i];
      assert (set i | 0 <= i < |steps| :: steps[i].id) == (set i | 0 <= i < |init| :: init[i].id) + {steps[|steps| - 1].id};
    }
  }

  /** The flag of an id is "not completed" of the last step with that id, so with distinct ids each
      step starts open iff it is not completed. */
  lemma {:induction false} ExpandedLastWins(steps: seq<Step>, i: nat)
    requires i < |steps|
    requires forall j :: i < j < |steps| ==> steps[j].id != steps[i].id
    ensures steps[i].id in ExpandedOf(steps) && ExpandedOf(steps)[steps[i].id] == !steps[i].isCompleted
  {
    if i < |steps| - 1 {
      var init := steps[..|steps| - 1];
      assert init[i] == steps[i];
      ExpandedLastWins(init, i);
    }
  }
}

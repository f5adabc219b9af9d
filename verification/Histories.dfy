/** Something that happens at one step of a run, told from the steps before it. */
module Histories {
  /** `p` holds of some step and the steps before it. */
  ghost predicate Ever<T>(p: (seq<T>, T) -> bool, steps: seq<T>) {
    && steps != []
    && (p(steps[..|steps| - 1], steps[|steps| - 1]) || Ever(p, steps[..|steps| - 1]))
  }

  lemma {:induction false} EverIsAtSomeStep<T>(p: (seq<T>, T) -> bool, steps: seq<T>)
    ensures Ever(p, steps) <==> exists k | 0 <= k < |steps| :: p(steps[..k], steps[k])
    decreases |steps|
  {
    if steps == [] {
    } else {
      var n := |steps| - 1;
      var front := steps[..n];
      EverIsAtSomeStep(p, front);
      assert forall k | 0 <= k < n :: front[..k] == steps[..k] && front[k] == steps[k];
    }
  }
}

/** Runs of a step system: sequences of states in which each leads to the next. */
module Runs {
  /** The i-th step of a run. */
  ghost predicate IsStep<S(!new), C(!new)>(next: (S, C, S) -> bool, states: seq<S>, steps: seq<C>, i: nat)
    requires i < |steps| && i + 1 < |states|
  {
    next(states[i], steps[i], states[i + 1])
  }

  ghost predicate IsRun<S(!new), C(!new)>(next: (S, C, S) -> bool, states: seq<S>, steps: seq<C>) {
    |states| == |steps| + 1 && forall i | 0 <= i < |steps| :: IsStep(next, states, steps, i)
  }

  /** A run goes on with one more step. */
  lemma ExtendRun<S(!new), C(!new)>(next: (S, C, S) -> bool, states: seq<S>, steps: seq<C>, step: C, after: S)
    requires IsRun(next, states, steps) && next(states[|steps|], step, after)
    ensures IsRun(next, states + [after], steps + [step])
  {
    forall i | 0 <= i < |steps| + 1
      ensures IsStep(next, states + [after], steps + [step], i)
    {
      if i < |steps| {
        assert IsStep(next, states, steps, i);
      }
    }
  }
}

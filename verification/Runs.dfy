/** Runs of a step system: what holds at the start and survives every step holds in every state of every run. */
module Runs {

  /** A finite run: an initial state, and each next state reached from the one before by the step between them. */
  ghost predicate IsRun<S, A>(init: S -> bool, next: (S, A, S) -> bool, states: seq<S>, steps: seq<A>) {
    && |states| == |steps| + 1
    && init(states[0])
    && forall i {:trigger steps[i]} :: 0 <= i < |steps| ==> next(states[i], steps[i], states[i + 1])
  }

  lemma {:induction false} Invariant<S(!new), A(!new)>(
    init: S -> bool, next: (S, A, S) -> bool, inv: S -> bool, states: seq<S>, steps: seq<A>, n: nat)
    requires IsRun(init, next, states, steps) && n < |states|
    requires forall s :: init(s) ==> inv(s)
    requires forall s, a, s' :: inv(s) && next(s, a, s') ==> inv(s')
    ensures inv(states[n])
  {
    if n > 0 {
      Invariant(init, next, inv, states, steps, n - 1);
      assert next(states[n - 1], steps[n - 1], states[n]);
    }
  }

  /** A run followed by one more step is a run. */
  lemma Extend<S, A>(init: S -> bool, next: (S, A, S) -> bool, states: seq<S>, steps: seq<A>, step: A, s': S)
    returns (states': seq<S>, steps': seq<A>)
    requires IsRun(init, next, states, steps) && next(states[|steps|], step, s')
    ensures IsRun(init, next, states', steps')
    ensures states'[|steps'|] == s'
  {
    states', steps' := states + [s'], steps + [step];
    forall i | 0 <= i < |steps'|
      ensures next(states'[i], steps'[i], states'[i + 1])
    {
      if i < |steps| {
        assert next(states[i], steps[i], states[i + 1]);
      }
    }
  }
}

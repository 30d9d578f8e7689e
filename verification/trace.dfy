/**
 * Traces of a step relation: a sequence of states, one input per step and
 * one output per step, each step relating a state to the next one.
 */
module Trace {

  /** `states[k]` steps on input `ins[k]` to `states[k + 1]`, producing `outs[k]`. */
  ghost predicate Chain<S, I, P>(step: (S, I, S, P) -> bool, states: seq<S>, ins: seq<I>, outs: seq<P>)
  {
    && |states| == |ins| + 1 && |outs| == |ins|
    && forall k :: 0 <= k < |ins| ==> step(states[k], ins[k], states[k + 1], outs[k])
  }

  lemma ChainAt<S, I, P>(step: (S, I, S, P) -> bool, states: seq<S>, ins: seq<I>, outs: seq<P>, k: nat)
    requires Chain(step, states, ins, outs) && k < |ins|
    ensures step(states[k], ins[k], states[k + 1], outs[k])
  {
  }

  /** A step on the first input followed by a trace on the others is a trace. */
  lemma ChainCons<S, I, P>(step: (S, I, S, P) -> bool, s: S, ins: seq<I>, p: P, states: seq<S>, outs: seq<P>)
    requires ins != [] && Chain(step, states, ins[1..], outs) && step(s, ins[0], states[0], p)
    ensures Chain(step, [s] + states, ins, [p] + outs)
  {
    var states', outs' := [s] + states, [p] + outs;
    forall k | 0 <= k < |ins|
      ensures step(states'[k], ins[k], states'[k + 1], outs'[k])
    {
      if k > 0 {
        assert states'[k] == states[k - 1] && states'[k + 1] == states[k];
        assert ins[k] == ins[1..][k - 1] && outs'[k] == outs[k - 1];
      }
    }
  }

  /** Each state satisfying `p` is followed by one satisfying `p`. */
  ghost predicate Preserves<S>(p: S -> bool, states: seq<S>)
  {
    forall k :: 0 <= k < |states| - 1 ==> p(states[k]) ==> p(states[k + 1])
  }

  /** A property that holds first and is preserved holds throughout. */
  lemma {:induction false} Preserved<S>(p: S -> bool, states: seq<S>, m: nat)
    requires Preserves(p, states) && m < |states| && p(states[0])
    ensures p(states[m])
  {
    if m > 0 {
      Preserved(p, states, m - 1);
    }
  }
}

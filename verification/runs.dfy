/**
 * A sequence of calls to a stateful operation, written as a fold: each step
 * maps the current state and an input to an output and the next state.
 */
module Runs {
  import opened Seqs

  /** The outputs of successive steps, in order, and the state after the last one. */
  datatype Run<S, E> = Run(outputs: seq<E>, final: S)

  /** Applying `step` to each input in turn, starting from `start`. */
  function Steps<S, A, E>(step: (S, A) -> (E, S), start: S, inputs: seq<A>): (r: Run<S, E>)
    ensures |r.outputs| == |inputs|
  {
    if |inputs| == 0 then Run([], start)
    else
      var before := Steps(step, start, inputs[..|inputs| - 1]);
      var (output, next) := step(before.final, inputs[|inputs| - 1]);
      Run(before.outputs + [output], next)
  }

  /** The `i`-th output is what the step produces from the state the first `i` steps leave. */
  lemma {:induction false} StepsOutput<S, A, E>(step: (S, A) -> (E, S), start: S, inputs: seq<A>, i: nat)
    requires i < |inputs|
    ensures Steps(step, start, inputs).outputs[i] == step(Steps(step, start, inputs[..i]).final, inputs[i]).0
  {
    var n := |inputs|;
    if i < n - 1 {
      StepsOutput(step, start, inputs[..n - 1], i);
      PrefixOfPrefix(inputs, n - 1, i);
    } else {
      assert inputs[..n - 1] == inputs[..i];
    }
  }

  /** No input in `inputs` makes the step set the state. */
  ghost predicate NoneSets<A>(inputs: seq<A>, sets: A -> bool) {
    forall k :: 0 <= k < |inputs| ==> !sets(inputs[k])
  }

  /** `inputs[j]` is the last input that makes the step set the state. */
  ghost predicate LastSetter<A>(inputs: seq<A>, sets: A -> bool, j: int) {
    0 <= j < |inputs| && sets(inputs[j]) && NoneSets(inputs[j + 1..], sets)
  }

  /** The step either sets the state to `target(a)` or keeps it. */
  ghost predicate SetsOrKeeps<S(!new), A(!new), E>(step: (S, A) -> (E, S), sets: A -> bool, target: A -> S) {
    forall s, a :: step(s, a).1 == if sets(a) then target(a) else s
  }

  /** `SetsOrKeeps` at one particular state and input. */
  lemma SetsOrKeepsAt<S(!new), A(!new), E>(step: (S, A) -> (E, S), sets: A -> bool, target: A -> S, s: S, a: A)
    requires SetsOrKeeps(step, sets, target)
    ensures step(s, a).1 == if sets(a) then target(a) else s
  {
  }

  /**
   * For a step that either sets the state to `target(a)` or keeps it, the state
   * after a run is set by the last input that sets it, or is the starting state
   * when no input does.
   */
  lemma {:induction false} StepsFinalLatest<S(!new), A(!new), E>(step: (S, A) -> (E, S), start: S, inputs: seq<A>,
                                                     sets: A -> bool, target: A -> S)
    requires SetsOrKeeps(step, sets, target)
    ensures NoneSets(inputs, sets) ==> Steps(step, start, inputs).final == start
    ensures forall j :: LastSetter(inputs, sets, j) ==> Steps(step, start, inputs).final == target(inputs[j])
  {
    if |inputs| > 0 {
      var n := |inputs|;
      var init := inputs[..n - 1];
      StepsFinalLatest(step, start, init, sets, target);
      var before := Steps(step, start, init);
      assert Steps(step, start, inputs).final == step(before.final, inputs[n - 1]).1;
      SetsOrKeepsAt(step, sets, target, before.final, inputs[n - 1]);
      if NoneSets(inputs, sets) {
        assert NoneSets(init, sets) by {
          forall k | 0 <= k < |init| ensures !sets(init[k]) {
            PrefixOfPrefix(inputs, n - 1, k);
          }
        }
      }
      forall j | LastSetter(inputs, sets, j)
        ensures Steps(step, start, inputs).final == target(inputs[j])
      {
        if j < n - 1 {
          assert inputs[j + 1..][n - 2 - j] == inputs[n - 1];
          assert !sets(inputs[j + 1..][n - 2 - j]);
          assert LastSetter(init, sets, j) by {
            PrefixOfPrefix(inputs, n - 1, j);
            var later := init[j + 1..];
            forall k | 0 <= k < |later| ensures !sets(later[k]) {
              assert later[k] == inputs[j + 1..][k];
            }
          }
          assert init[j] == inputs[j];
        }
      }
    }
  }
}

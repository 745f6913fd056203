/**
 * The cooperative step driver (`$code.loop`, `$code.block`, `$code.next`),
 * modelled as an abstract sequential driver.
 *
 * `loop(step)` calls `step(0)`, `step(1)`, ... one at a time; each step is a
 * `block(body, continuation)` whose body does the step's work and whose
 * continuation answers `next` ("there is another step") or nothing. A body
 * that throws ends the loop with that failure. Suspension between steps is
 * not modelled: a step is one call that returns.
 */
module Scheduler {
  import opened Values

  /** What a step reports once its body has completed. */
  datatype Signal = Next | Done | Failed(error: Value)

  /** One step: what its body did (`effect`) and what its continuation said. */
  datatype Step<+E> = Step(effect: E, signal: Signal)

  /** How a whole loop ends. */
  datatype LoopOutcome = Finished | Aborted(error: Value)

  /** The protocol a step function keeps so that the loop stops within `bound` steps:
      every index below `bound` can be run, and a step asks for a successor only
      when that successor is below `bound` as well. */
  ghost predicate Protocol<E>(step: nat --> Step<E>, bound: nat)
  {
    && 0 < bound
    && forall i: nat :: i < bound ==> step.requires(i) && (step(i).signal.Next? ==> i + 1 < bound)
  }

  /** `$code.loop`: run steps 0, 1, 2, ... while each continuation answers `Next`.
      The trace records the effects of the steps that ran, in the order they ran. */
  method Loop<E>(step: nat --> Step<E>, ghost bound: nat) returns (trace: seq<E>, outcome: LoopOutcome)
    requires Protocol(step, bound)
    ensures 0 < |trace| <= bound
    ensures forall k :: 0 <= k < |trace| ==> trace[k] == step(k).effect
    ensures forall k :: 0 <= k < |trace| - 1 ==> step(k).signal.Next?
    ensures !step(|trace| - 1).signal.Next?
    ensures outcome == match step(|trace| - 1).signal
                       case Failed(e) => Aborted(e)
                       case _ => Finished
  {
    var i: nat := 0;
    trace := [];
    while true
      invariant i < bound
      invariant |trace| == i
      invariant forall k :: 0 <= k < i ==> trace[k] == step(k).effect && step(k).signal.Next?
      decreases bound - i
    {
      var s := step(i);
      trace := trace + [s.effect];
      match s.signal {
        case Next =>
          i := i + 1;
        case Done =>
          outcome := Finished;
          return;
        case Failed(e) =>
          outcome := Aborted(e);
          return;
      }
    }
  }
}

/**
 * The step, wait and timer bookkeeping of the simulator's main loop
 * (`run_sail` in `riscv_sim.cpp`). The model itself is left out: each step
 * is given the model's answer, whether the hart is waiting for an
 * interrupt (WFI). A waiting hart is allowed at most `max_steps_to_wait`
 * further waiting steps before the model is told to leave the wait, the
 * counters of retired instructions move only on steps that were not
 * waiting, and the platform clock ticks every `instructions_per_tick`
 * retired instructions and on every step of a bounded wait.
 */
module RunLoop {

  /** The number of steps in `waits` on which the hart was not waiting. */
  function Retired(waits: seq<bool>): (n: nat)
    ensures n <= |waits|
  {
    if waits == [] then 0 else Retired(waits[..|waits| - 1]) + (if waits[|waits| - 1] then 0 else 1)
  }

  lemma RetiredSnoc(waits: seq<bool>, w: bool)
    ensures Retired(waits + [w]) == Retired(waits) + (if w then 0 else 1)
  {
    assert (waits + [w])[..|waits|] == waits;
  }

  /** A run of nothing but waiting steps retires nothing. */
  lemma {:induction false} RetiredAllWaiting(waits: seq<bool>)
    requires forall i :: 0 <= i < |waits| ==> waits[i]
    ensures Retired(waits) == 0
  {
    if waits != [] {
      RetiredAllWaiting(waits[..|waits| - 1]);
    }
  }

  /** The wait budget after one step. */
  function NextWait(maxWait: nat, remaining: nat, waiting: bool): nat
  {
    if !waiting then 0 else if remaining == 0 then maxWait else remaining - 1
  }

  /** The wait budget after `k` waiting steps in a row. */
  function WaitsAfter(maxWait: nat, remaining: nat, k: nat): nat
  {
    if k == 0 then remaining else NextWait(maxWait, WaitsAfter(maxWait, remaining, k - 1), true)
  }

  class Runner {
    const maxWaitSteps: nat
    const insnsPerTick: nat
    const insnLimit: nat
    var waitStepsRemaining: nat
    var stepNo: nat
    var insnCnt: nat
    var totalInsns: nat
    /** Calls of `tick_clock` so far. */
    var ticks: nat
    /** The waiting answer of the last step. */
    var isWaiting: bool

    /**
     * The wait budget never exceeds its maximum, the step number counts the
     * retired instructions, and between ticks the per-tick counter stays
     * below `instructions_per_tick` once it is positive.
     */
    predicate Valid()
      reads this
    {
      waitStepsRemaining <= maxWaitSteps &&
      stepNo == totalInsns &&
      (insnsPerTick > 0 ==> insnCnt < insnsPerTick)
    }

    constructor(maxWait: nat, perTick: nat, limit: nat)
      ensures Valid()
      ensures maxWaitSteps == maxWait && insnsPerTick == perTick && insnLimit == limit
      ensures waitStepsRemaining == 0 && stepNo == 0 && insnCnt == 0 && totalInsns == 0
      ensures ticks == 0 && !isWaiting
    {
      maxWaitSteps := maxWait;
      insnsPerTick := perTick;
      insnLimit := limit;
      waitStepsRemaining := 0;
      stepNo := 0;
      insnCnt := 0;
      totalInsns := 0;
      ticks := 0;
      isWaiting := false;
    }

    /** The loop goes on while the instruction limit, if any, is not reached (HTIF is left out). */
    predicate Running()
      reads this
    {
      insnLimit == 0 || totalInsns < insnLimit
    }

    /**
     * One pass of the loop body. `exitWait` is what the model is told:
     * leave the wait, because no wait budget remains. `waiting` is the
     * model's answer.
     */
    method Step(waiting: bool) returns (exitWait: bool, ticked: bool)
      requires Valid()
      modifies this
      ensures Valid()
      ensures exitWait <==> old(waitStepsRemaining) == 0
      ensures isWaiting == waiting
      ensures waitStepsRemaining == NextWait(maxWaitSteps, old(waitStepsRemaining), waiting)
      ensures var d := if waiting then 0 else 1;
              stepNo == old(stepNo) + d && totalInsns == old(totalInsns) + d
      ensures var c := old(insnCnt) + (if waiting then 0 else 1);
              if c == insnsPerTick then insnCnt == 0 && ticked
              else insnCnt == c && (ticked <==> waitStepsRemaining > 0)
      ensures ticks == old(ticks) + (if ticked then 1 else 0)
    {
      exitWait := waitStepsRemaining == 0;
      isWaiting := waiting;
      if waiting {
        if waitStepsRemaining == 0 {
          waitStepsRemaining := maxWaitSteps;
        } else {
          waitStepsRemaining := waitStepsRemaining - 1;
        }
      } else {
        waitStepsRemaining := 0;
      }
      if !waiting {
        stepNo := stepNo + 1;
        insnCnt := insnCnt + 1;
        totalInsns := totalInsns + 1;
      }
      if insnCnt == insnsPerTick {
        insnCnt := 0;
        ticks := ticks + 1;
        ticked := true;
      } else if waitStepsRemaining > 0 {
        ticks := ticks + 1;
        ticked := true;
      } else {
        ticked := false;
      }
    }

    /**
     * The loop over a sequence of model answers: it stops when the answers
     * run out or the instruction limit is reached, having consumed `n` of
     * them. Exactly the consumed steps that were not waiting are counted,
     * and a limit is never overshot.
     */
    method Run(waits: seq<bool>) returns (n: nat)
      requires Valid()
      modifies this
      ensures Valid()
      ensures n <= |waits|
      ensures totalInsns == old(totalInsns) + Retired(waits[..n])
      ensures n < |waits| ==> !Running()
      ensures old(totalInsns) <= insnLimit ==> insnLimit == 0 || totalInsns <= insnLimit
    {
      n := 0;
      while n < |waits| && Running()
        invariant Valid()
        invariant n <= |waits|
        invariant totalInsns == old(totalInsns) + Retired(waits[..n])
        invariant old(totalInsns) <= insnLimit ==> insnLimit == 0 || totalInsns <= insnLimit
        decreases |waits| - n
      {
        var exitWait, ticked := Step(waits[n]);
        RetiredSnoc(waits[..n], waits[n]);
        assert waits[..n + 1] == waits[..n] + [waits[n]];
        n := n + 1;
      }
    }
  }

  /**
   * Starting from `remaining`, `k` waiting steps in a row leave `k` fewer
   * steps of budget: a hart that keeps waiting reaches zero, and so is told
   * to leave the wait, after `remaining` steps.
   */
  lemma {:induction false} WaitRunsOut(maxWait: nat, remaining: nat, k: nat)
    requires k <= remaining
    ensures WaitsAfter(maxWait, remaining, k) == remaining - k
  {
    if k > 0 {
      WaitRunsOut(maxWait, remaining, k - 1);
    }
  }

  /** A wait that has used up its budget restarts from the maximum. */
  lemma WaitRestarts(maxWait: nat)
    ensures WaitsAfter(maxWait, 0, 1) == maxWait
    ensures WaitsAfter(maxWait, 0, maxWait + 1) == 0
  {
    WaitRunsOut(maxWait, maxWait, maxWait);
    WaitsAfterShift(maxWait, 0, maxWait);
  }

  lemma {:induction false} WaitsAfterShift(maxWait: nat, remaining: nat, k: nat)
    ensures WaitsAfter(maxWait, remaining, k + 1) == WaitsAfter(maxWait, NextWait(maxWait, remaining, true), k)
  {
    if k > 0 {
      WaitsAfterShift(maxWait, remaining, k - 1);
    }
  }
}

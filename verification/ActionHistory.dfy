/**
 What a run of the action gate does, told by its steps: when an action was accepted, whether it was
 aborted since, how it ended, and which recovery decided about it.
 */
module ActionHistory {
  import opened ActionGate
  import opened Wrappers

  ghost predicate Follows(gates: seq<Gate>, steps: seq<Step>, k: nat)
    requires |gates| == |steps| + 1 && k < |steps|
  {
    gates[k + 1] == Apply(gates[k], steps[k])
  }

  /** `gates` are the states of the gate that the steps lead through. */
  ghost predicate IsTrace(gates: seq<Gate>, steps: seq<Step>)
  {
    && |gates| == |steps| + 1 && gates[0] == INITIAL
    && forall k :: 0 <= k < |steps| ==> Follows(gates, steps, k)
  }

  /** Every run has one trace, and it ends where the run does. */
  lemma {:induction false} TraceOf(steps: seq<Step>) returns (gates: seq<Gate>)
    ensures IsTrace(gates, steps) && gates[|steps|] == Run(INITIAL, steps)
    decreases |steps|
  {
    if steps == [] {
      gates := [INITIAL];
    } else {
      var init := steps[..|steps| - 1];
      var before := TraceOf(init);
      gates := before + [Run(INITIAL, steps)];
      forall k | 0 <= k < |steps|
        ensures Follows(gates, steps, k)
      {
        assert k < |init| ==> Follows(before, init, k);
      }
    }
  }

  lemma {:induction false} ReachableInv(gates: seq<Gate>, steps: seq<Step>, k: nat)
    requires IsTrace(gates, steps) && k <= |steps|
    ensures Inv(gates[k])
  {
    if k > 0 {
      ReachableInv(gates, steps, k - 1);
      assert Follows(gates, steps, k - 1);
      StepKeeps(gates[k - 1], steps[k - 1]);
    }
  }

  /** The action that runs at `k` was accepted at `a` and has run ever since. */
  ghost predicate RunsSince(gates: seq<Gate>, a: nat, k: nat)
    requires k < |gates|
  {
    a < k && !gates[a].active && forall j :: a < j <= k ==> gates[j].active
  }

  /** The action that runs at `k` has been aborted. */
  ghost predicate AbortedSince(gates: seq<Gate>, steps: seq<Step>, k: nat)
    requires k <= |steps| < |gates|
  {
    exists i :: 0 <= i < k && steps[i].Abort? && forall j :: i <= j <= k ==> gates[j].active
  }

  lemma AbortedNext(gates: seq<Gate>, steps: seq<Step>, k: nat)
    requires IsTrace(gates, steps) && k < |steps| && gates[k + 1].active
    ensures AbortedSince(gates, steps, k + 1) <==>
            gates[k].active && (AbortedSince(gates, steps, k) || steps[k].Abort?)
  {
    if AbortedSince(gates, steps, k + 1) {
      var i :| 0 <= i < k + 1 && steps[i].Abort? && forall j :: i <= j <= k + 1 ==> gates[j].active;
      assert gates[k].active;
      if i < k {
        assert AbortedSince(gates, steps, k);
      }
    }
    if gates[k].active && AbortedSince(gates, steps, k) {
      var i :| 0 <= i < k && steps[i].Abort? && forall j :: i <= j <= k ==> gates[j].active;
      assert forall j :: i <= j <= k + 1 ==> gates[j].active;
    }
    if gates[k].active && steps[k].Abort? {
      assert forall j :: k <= j <= k + 1 ==> gates[j].active;
    }
  }

  /** The flag of the gate is that history. */
  lemma {:induction false} AbortIsRemembered(gates: seq<Gate>, steps: seq<Step>, k: nat)
    requires IsTrace(gates, steps) && k <= |steps| && gates[k].active
    ensures gates[k].aborted <==> AbortedSince(gates, steps, k)
  {
    if k > 0 {
      assert Follows(gates, steps, k - 1);
      ReachableInv(gates, steps, k - 1);
      AbortedNext(gates, steps, k - 1);
      if gates[k - 1].active {
        AbortIsRemembered(gates, steps, k - 1);
      }
    }
  }

  // ---------------------------------------------------------------- how actions end

  /** The step is a failure of the start or of the action, in a gate where that can happen. */
  ghost predicate Fails(g: Gate, step: Step)
  {
    match step
    case StartThrows(_) => !g.active && !g.poisoned
    case StartFails(_) => g.phase.Starting? && (g.start.Some? ==> !IsPending(g, g.start))
    case ActionFails(_) => g.phase.Acting? && (g.action.Some? ==> !IsPending(g, g.action))
    case _ => false
  }

  predicate IsInterruption(step: Step)
  {
    match step
    case StartThrows(interruption) => interruption
    case StartFails(interruption) => interruption
    case ActionFails(interruption) => interruption
    case _ => false
  }

  /** An action fails by an interruption, or after it was aborted, or the abort itself wins the race. */
  ghost predicate Interrupts(gates: seq<Gate>, steps: seq<Step>, k: nat)
    requires k < |steps| < |gates|
  {
    var g, step := gates[k], steps[k];
    || (Fails(g, step) && (IsInterruption(step) || (g.active && AbortedSince(gates, steps, k))))
    || (step.AbortWins? && (g.phase.Starting? || g.phase.Acting?) && AbortedSince(gates, steps, k))
  }

  ghost predicate Recovers(g: Gate)
  {
    g.active && (g.phase.Recovering? || g.phase.Resetting? || g.phase.Settling?)
  }

  /** An interruption starts the recovery; it frees nothing and logs nothing. */
  lemma InterruptionRecovers(gates: seq<Gate>, steps: seq<Step>, k: nat)
    requires IsTrace(gates, steps) && k < |steps| && Interrupts(gates, steps, k)
    ensures Recovers(gates[k + 1]) && gates[k + 1].log == gates[k].log
  {
    assert Follows(gates, steps, k);
    ReachableInv(gates, steps, k);
    if gates[k].active {
      AbortIsRemembered(gates, steps, k);
    }
  }

  lemma RecoveryStep(g: Gate, step: Step)
    requires Control(g) && Recovers(g)
    ensures var g' := Apply(g, step);
            || (g'.log == g.log && Recovers(g'))
            || (|g'.log| == |g.log| + 1 && g'.log[..|g.log|] == g.log && g'.log[|g.log|].Interrupted?)
  {
  }

  /** From there on the gate stays busy until settlement ends, and then the entry says so. */
  lemma {:induction false} RecoveryGoesOn(gates: seq<Gate>, steps: seq<Step>, k: nat, n: nat)
    requires IsTrace(gates, steps) && k <= n <= |steps| && Recovers(gates[k])
    ensures var g, g' := gates[k], gates[n];
            if |g'.log| == |g.log| then Recovers(g') && g'.log == g.log
            else |g'.log| > |g.log| && g'.log[|g.log|].Interrupted?
    decreases n
  {
    if n > k {
      RecoveryGoesOn(gates, steps, k, n - 1);
      assert Follows(gates, steps, n - 1);
      ReachableInv(gates, steps, n - 1);
      LogGrows(gates[n - 1], steps[n - 1]);
      if Recovers(gates[n - 1]) {
        RecoveryStep(gates[n - 1], steps[n - 1]);
      }
    }
  }

  lemma LogGrows(g: Gate, step: Step)
    ensures g.log <= Apply(g, step).log && |Apply(g, step).log| <= |g.log| + 1
  {
  }

  /**
   Once an action has failed by an interruption or after an abort, the gate accepts nothing until
   its entry is logged, and that entry says `Interrupted`.
   */
  lemma InterruptionsAreLogged(gates: seq<Gate>, steps: seq<Step>, k: nat, n: nat)
    requires IsTrace(gates, steps) && k < n <= |steps| && Interrupts(gates, steps, k)
    ensures var i, g := |gates[k].log|, gates[n];
            if |g.log| == i then g.active && !Accepts(g) else i < |g.log| && g.log[i].Interrupted?
  {
    InterruptionRecovers(gates, steps, k);
    RecoveryGoesOn(gates, steps, k + 1, n);
  }

  /**
   How an action ends decides its entry: `Undisturbed` exactly if it completes, or fails without an
   interruption and without having been aborted; `Interrupted` exactly if the settlement ends it,
   in time exactly if the promises had settled.
   */
  lemma EndsAreLogged(gates: seq<Gate>, steps: seq<Step>, k: nat)
    requires IsTrace(gates, steps) && k < |steps| && |gates[k + 1].log| > |gates[k].log|
    ensures var g, g', step := gates[k], gates[k + 1], steps[k];
            && |g'.log| == |g.log| + 1 && g'.log[..|g.log|] == g.log && !g'.active
            && (var entry := g'.log[|g.log|];
                && (entry.Undisturbed? <==>
                      || step.ActionDone?
                      || (Fails(g, step) && !IsInterruption(step) && !(g.active && AbortedSince(gates, steps, k))))
                && (entry.Interrupted? <==> step.SettleOk? || step.SettleTimeout?)
                && (entry.Interrupted? ==> Recovers(g) && (entry.settledInTime <==> step.SettleOk?)))
  {
    assert Follows(gates, steps, k);
    ReachableInv(gates, steps, k);
    LogGrows(gates[k], steps[k]);
    if gates[k].active {
      AbortIsRemembered(gates, steps, k);
    }
  }

  /** A completed action, and a failure that nothing interrupted, free the gate at once. */
  lemma OthersAreReleased(gates: seq<Gate>, steps: seq<Step>, k: nat)
    requires IsTrace(gates, steps) && k < |steps| && !Interrupts(gates, steps, k)
    requires var g, step := gates[k], steps[k];
             Fails(g, step) || (step.ActionDone? && g.phase.Acting? && !IsPending(g, g.action))
    ensures var g, g' := gates[k], gates[k + 1];
            Accepts(g') && g'.log == g.log + [Undisturbed] && g'.recoveries == g.recoveries
  {
    assert Follows(gates, steps, k);
    ReachableInv(gates, steps, k);
    if gates[k].active {
      AbortIsRemembered(gates, steps, k);
    }
  }

  // ---------------------------------------------------------------- which recovery decides

  lemma AcceptStep(g: Gate, step: Step)
    requires Control(g) && Apply(g, step).active
    ensures var g' := Apply(g, step);
            g'.log == g.log && (if g.active then g'.begunAt == g.begunAt
                                else Accepts(g) && g'.begunAt == |g.recoveries| && !g'.phase.Settling?)
  {
  }

  lemma SettleStep(g: Gate, step: Step)
    requires Apply(g, step).phase.Settling?
    ensures var g' := Apply(g, step);
            g'.phase == g.phase || (!g.phase.Settling? && g'.phase.decidedBy == |g'.recoveries| - 1)
  {
  }

  lemma LogStep(g: Gate, step: Step)
    requires Control(g)
    requires |Apply(g, step).log| > |g.log| && Apply(g, step).log[|g.log|].Interrupted?
    ensures var g' := Apply(g, step);
            && g.phase.Settling? && g.begunAt <= g.phase.decidedBy < |g.recoveries| && g'.recoveries == g.recoveries
            && (!g'.poisoned <==> g'.recoveries[g.phase.decidedBy] && step.SettleOk?)
  {
  }

  /** A running action knows how many recoveries had completed when it was accepted. */
  lemma {:induction false} AcceptedAt(gates: seq<Gate>, steps: seq<Step>, k: nat) returns (a: nat)
    requires IsTrace(gates, steps) && k <= |steps| && gates[k].active
    ensures RunsSince(gates, a, k) && Accepts(gates[a]) && !gates[a + 1].phase.Settling?
    ensures gates[k].begunAt == |gates[a].recoveries| && gates[k].log == gates[a].log
    decreases k
  {
    assert Follows(gates, steps, k - 1);
    ReachableInv(gates, steps, k - 1);
    AcceptStep(gates[k - 1], steps[k - 1]);
    if gates[k - 1].active {
      a := AcceptedAt(gates, steps, k - 1);
    } else {
      a := k - 1;
    }
  }

  /**
   The check for a recovery: a connection that recovered while the action ran is not reset again,
   any other is.
   */
  lemma RecoveryIsReused(gates: seq<Gate>, steps: seq<Step>, k: nat, a: nat)
    requires IsTrace(gates, steps) && k < |steps| && steps[k].CheckRecovery?
    requires gates[k].phase.Recovering? && RunsSince(gates, a, k)
    ensures var g, g' := gates[k], gates[k + 1];
            && g'.recoveries == g.recoveries
            && if |g.recoveries| > |gates[a].recoveries| then g'.phase == Settling(|g.recoveries| - 1)
               else g'.phase == Resetting
  {
    assert Follows(gates, steps, k);
    ReachableInv(gates, steps, k);
    ghost var b := AcceptedAt(gates, steps, k);
    assert a <= b && b <= a;
  }

  /** Settlement ends with the promises: a session whose recovery succeeded accepts again. */
  lemma SettlementEnds(gates: seq<Gate>, steps: seq<Step>, k: nat)
    requires IsTrace(gates, steps) && k < |steps| && steps[k].SettleOk? && gates[k].phase.Settling?
    requires forall p :: 0 <= p < |gates[k].pending| ==> !gates[k].pending[p]
    ensures var g, g' := gates[k], gates[k + 1];
            && |g'.log| == |g.log| + 1 && g'.recoveries == g.recoveries
            && g.phase.decidedBy < |g.recoveries| && (Accepts(g') <==> g.recoveries[g.phase.decidedBy])
  {
    assert Follows(gates, steps, k);
    ReachableInv(gates, steps, k);
  }

  /** The recovery that decides is the latest one at the moment the settlement begins. */
  lemma {:induction false} DecidedAt(gates: seq<Gate>, steps: seq<Step>, k: nat) returns (s: nat)
    requires IsTrace(gates, steps) && k <= |steps| && gates[k].phase.Settling?
    ensures 0 < s <= k && gates[k].phase.decidedBy == |gates[s].recoveries| - 1
    ensures forall j :: s <= j <= k ==> gates[j].phase == gates[k].phase
    ensures !gates[s - 1].phase.Settling?
    decreases k
  {
    assert Follows(gates, steps, k - 1);
    SettleStep(gates[k - 1], steps[k - 1]);
    if gates[k - 1].phase.Settling? {
      s := DecidedAt(gates, steps, k - 1);
    } else {
      s := k;
    }
  }

  /**
   An interrupted action, by its history: accepted at `a`, it ran until its entry was logged at
   `n`. At `s` its settlement began, by the verdict of the latest recovery, which had completed
   since `a`; and the session is usable afterwards exactly if that recovery had succeeded and the
   promises settled in time.
   */
  lemma InterruptedHistory(gates: seq<Gate>, steps: seq<Step>, n: nat) returns (a: nat, s: nat)
    requires IsTrace(gates, steps) && 0 < n <= |steps| && |gates[n].log| > |gates[n - 1].log|
    requires gates[n].log[|gates[n - 1].log|].Interrupted?
    ensures a < s < n && RunsSince(gates, a, n - 1) && Accepts(gates[a])
    ensures !gates[s - 1].phase.Settling? && forall j :: s <= j < n ==> gates[j].phase.Settling?
    ensures var decider := |gates[s].recoveries| - 1;
            && |gates[a].recoveries| <= decider < |gates[n].recoveries|
            && (!gates[n].poisoned <==> gates[n].recoveries[decider] && steps[n - 1].SettleOk?)
  {
    assert Follows(gates, steps, n - 1);
    ReachableInv(gates, steps, n - 1);
    LogStep(gates[n - 1], steps[n - 1]);
    a := AcceptedAt(gates, steps, n - 1);
    s := DecidedAt(gates, steps, n - 1);
    ReachableInv(gates, steps, a);
    assert !gates[a].phase.Settling?;
  }

  // ---------------------------------------------------------------- actions that nothing disturbs

  lemma Completes(g: Gate)
    requires Accepts(g)
    ensures var p := |g.pending|;
            var g1 := Apply(g, Execute(false, true));
            var g2 := Apply(g1, Settle(p));
            var g3 := Apply(g2, StartDone);
            var g4 := Apply(g3, Settle(p + 1));
            var g5 := Apply(g4, ActionDone);
            && Accepts(g5) && g5.log == g.log + [Undisturbed] && g5.recoveries == g.recoveries
            && |g5.pending| == p + 2 && !g5.pending[p] && !g5.pending[p + 1]
  {
  }

  /**
   After every run that leaves the gate open, an action whose promises settle completes: the gate
   accepts again, nothing was recovered, and the entry says so.
   */
  lemma OrdinaryActionCompletes(steps: seq<Step>)
    requires Accepts(Run(INITIAL, steps))
    ensures var g := Run(INITIAL, steps);
            var p := |g.pending|;
            var g' := Run(INITIAL, steps + [Execute(false, true)] + [Settle(p)] + [StartDone] + [Settle(p + 1)] +
                                   [ActionDone]);
            && Accepts(g') && g'.log == g.log + [Undisturbed] && g'.recoveries == g.recoveries
            && |g'.pending| == p + 2 && !g'.pending[p] && !g'.pending[p + 1]
  {
    var g := Run(INITIAL, steps);
    var p := |g.pending|;
    RunAppend(INITIAL, steps, Execute(false, true));
    RunAppend(INITIAL, steps + [Execute(false, true)], Settle(p));
    RunAppend(INITIAL, steps + [Execute(false, true)] + [Settle(p)], StartDone);
    RunAppend(INITIAL, steps + [Execute(false, true)] + [Settle(p)] + [StartDone], Settle(p + 1));
    RunAppend(INITIAL, steps + [Execute(false, true)] + [Settle(p)] + [StartDone] + [Settle(p + 1)], ActionDone);
    Completes(g);
  }
}

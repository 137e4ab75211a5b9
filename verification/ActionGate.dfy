/**
 The action gate of a session: one action at a time, recovery of the connection after an
 interruption, and poisoning when recovery or settlement fails. Every suspension point of
 `execute` is a step, and promises may settle, deadlines fire and background recoveries
 complete between any two steps.
 */
module ActionGate {
  import opened Wrappers

  /** Where the running `execute` call is suspended. */
  datatype Phase =
    | Idle
    | Starting
    | Acting
    | Recovering
    | Resetting
    | Settling(decidedBy: nat)

  /**
   One finished `execute` call. For an interrupted one, `decidedBy` is the position in the
   recovery log of the recovery whose result the session went by.
   */
  datatype Finished =
    | Undisturbed
    | Interrupted(begunAt: nat, endedAt: nat, decidedBy: nat, settledInTime: bool, poisonedAfter: bool)

  /**
   `pending` records every promise ever created. `recoveries` logs the results of completed
   connection recoveries; its length is the helper's recovery generation and its last entry
   the helper's `lastInterruptionRecoverySucceeded`.
   */
  datatype Gate = Gate(
    active: bool,
    poisoned: bool,
    phase: Phase,
    aborted: bool,
    begunAt: nat,
    start: Option<nat>,
    action: Option<nat>,
    pending: seq<bool>,
    recoveries: seq<bool>,
    log: seq<Finished>)

  const INITIAL := Gate(false, false, Idle, false, 0, None, None, [], [], [])

  datatype Step =
    | Execute(cancelled: bool, deadlineFits: bool)
    | StartThrows(interruption: bool)
    | Abort
    | Settle(promise: nat)
    | StartDone
    | StartFails(interruption: bool)
    | ActionDone
    | ActionFails(interruption: bool)
    | AbortWins
    | HelperRecovery(succeeded: bool)
    | CheckRecovery
    | ResetDone(succeeded: bool)
    | SettleOk
    | SettleTimeout

  // ---------------------------------------------------------------- transitions

  predicate IsPending(g: Gate, p: Option<nat>)
  {
    p.Some? && p.value < |g.pending| && g.pending[p.value]
  }

  predicate Accepts(g: Gate)
  {
    !g.active && !g.poisoned
  }

  function Release(g: Gate, outcome: Finished): Gate
  {
    g.(active := false, phase := Idle, start := None, action := None, log := g.log + [outcome])
  }

  /** The catch clause: only an interruption makes recovery necessary. */
  function Caught(g: Gate, interruption: bool): Gate
  {
    if g.aborted || interruption then g.(phase := Recovering) else Release(g, Undisturbed)
  }

  function EndInterrupted(g: Gate, decidedBy: nat, settled: bool): Gate
    requires decidedBy < |g.recoveries|
  {
    var poisoned := !g.recoveries[decidedBy] || !settled;
    Release(g.(poisoned := poisoned), Interrupted(g.begunAt, |g.recoveries|, decidedBy, settled, poisoned))
  }

  /** One step; a step that is not possible in `g` changes nothing. */
  function Apply(g: Gate, step: Step): Gate
  {
    match step
    case Execute(cancelled, deadlineFits) =>
      if !Accepts(g) || cancelled || !deadlineFits then g
      else
        g.(active := true, phase := Starting, aborted := false, begunAt := |g.recoveries|,
           start := Some(|g.pending|), action := None, pending := g.pending + [true])
    case StartThrows(interruption) =>
      if !Accepts(g) then g
      else
        Caught(g.(active := true, phase := Starting, aborted := false, begunAt := |g.recoveries|,
                  start := None, action := None), interruption)
    case Abort => if g.active then g.(aborted := true) else g
    case Settle(p) => if p < |g.pending| then g.(pending := g.pending[p := false]) else g
    case StartDone =>
      if g.phase.Starting? && !IsPending(g, g.start)
      then g.(phase := Acting, action := Some(|g.pending|), pending := g.pending + [true])
      else g
    case StartFails(interruption) =>
      if g.phase.Starting? && !IsPending(g, g.start) then Caught(g, interruption) else g
    case ActionDone =>
      if g.phase.Acting? && !IsPending(g, g.action) then Release(g, Undisturbed) else g
    case ActionFails(interruption) =>
      if g.phase.Acting? && !IsPending(g, g.action) then Caught(g, interruption) else g
    case AbortWins =>
      if (g.phase.Starting? || g.phase.Acting?) && g.aborted then Caught(g, true) else g
    case HelperRecovery(succeeded) => g.(recoveries := g.recoveries + [succeeded])
    case CheckRecovery =>
      if !g.phase.Recovering? then g
      else if |g.recoveries| != g.begunAt && g.recoveries != [] then
        g.(phase := Settling(|g.recoveries| - 1))
      else g.(phase := Resetting)
    case ResetDone(succeeded) =>
      if !g.phase.Resetting? then g
      else g.(recoveries := g.recoveries + [succeeded], phase := Settling(|g.recoveries|))
    case SettleOk =>
      if g.phase.Settling? && g.phase.decidedBy < |g.recoveries| && !IsPending(g, g.start) && !IsPending(g, g.action)
      then EndInterrupted(g, g.phase.decidedBy, true)
      else g
    case SettleTimeout =>
      if g.phase.Settling? && g.phase.decidedBy < |g.recoveries|
      then EndInterrupted(g, g.phase.decidedBy, false)
      else g
  }

  function Run(g: Gate, steps: seq<Step>): Gate
    decreases |steps|
  {
    if steps == [] then g else Apply(Run(g, steps[..|steps| - 1]), steps[|steps| - 1])
  }

  // ---------------------------------------------------------------- invariant

  /** The verdict on an interrupted action: a recovery during it, and settlement, decide. */
  ghost predicate VerdictOk(recoveries: seq<bool>, f: Finished)
  {
    f.Interrupted? ==>
      && f.begunAt <= f.decidedBy < f.endedAt <= |recoveries|
      && (f.poisonedAfter <==> !(recoveries[f.decidedBy] && f.settledInTime))
  }

  ghost predicate Control(g: Gate)
  {
    && (g.active <==> !g.phase.Idle?)
    && (g.poisoned ==> !g.active)
    && g.begunAt <= |g.recoveries|
    && (g.phase.Settling? ==> g.begunAt <= g.phase.decidedBy < |g.recoveries|)
  }

  ghost predicate Promises(g: Gate)
  {
    && (g.start.Some? ==> g.start.value < |g.pending|) && (g.action.Some? ==> g.action.value < |g.pending|)
    && (g.phase.Idle? ==> g.start.None? && g.action.None?)
    && (g.phase.Starting? ==> g.action.None?)
    && (g.phase.Acting? ==> g.action.Some?)
    // a started action means its start promise has settled
    && (g.action.Some? ==> !IsPending(g, g.start))
    // unless poisoned, only promises of the running action are pending
    && (!g.poisoned ==> forall p :: 0 <= p < |g.pending| && g.pending[p] ==> g.start == Some(p) || g.action == Some(p))
  }

  predicate Poisoning(f: Finished)
  {
    f.Interrupted? && f.poisonedAfter
  }

  /** The session is poisoned exactly when its last action, and only that one, left it so. */
  ghost predicate Verdicts(g: Gate)
  {
    && (forall i :: 0 <= i < |g.log| ==> VerdictOk(g.recoveries, g.log[i]))
    && (g.poisoned <==> g.log != [] && Poisoning(g.log[|g.log| - 1]))
    && (forall i :: 0 <= i < |g.log| - 1 ==> !Poisoning(g.log[i]))
  }

  ghost predicate Inv(g: Gate)
  {
    Control(g) && Promises(g) && Verdicts(g)
  }

  lemma ControlKept(g: Gate, step: Step)
    requires Control(g)
    ensures Control(Apply(g, step))
  {
  }

  lemma PromisesKept(g: Gate, step: Step)
    requires Control(g) && Promises(g)
    ensures Promises(Apply(g, step))
  {
  }

  lemma ReleaseKeepsVerdicts(g: Gate, poisoned: bool, f: Finished)
    requires Verdicts(g) && !g.poisoned && VerdictOk(g.recoveries, f)
    requires poisoned <==> Poisoning(f)
    ensures Verdicts(Release(g.(poisoned := poisoned), f))
  {
  }

  lemma RecoveryKeepsVerdicts(g: Gate, succeeded: bool)
    requires Verdicts(g)
    ensures Verdicts(g.(recoveries := g.recoveries + [succeeded]))
  {
    forall i | 0 <= i < |g.log|
      ensures VerdictOk(g.recoveries + [succeeded], g.log[i])
    {
      assert VerdictOk(g.recoveries, g.log[i]);
    }
  }

  lemma CaughtKeepsVerdicts(g: Gate, interruption: bool)
    requires Verdicts(g) && !g.poisoned
    ensures Verdicts(Caught(g, interruption))
  {
    ReleaseKeepsVerdicts(g, false, Undisturbed);
  }

  lemma EndKeepsVerdicts(g: Gate, decidedBy: nat, settled: bool)
    requires Verdicts(g) && !g.poisoned && g.begunAt <= decidedBy < |g.recoveries|
    ensures Verdicts(EndInterrupted(g, decidedBy, settled))
  {
    var poisoned := !g.recoveries[decidedBy] || !settled;
    ReleaseKeepsVerdicts(g, poisoned, Interrupted(g.begunAt, |g.recoveries|, decidedBy, settled, poisoned));
  }

  lemma VerdictsKept(g: Gate, step: Step)
    requires Control(g) && Verdicts(g)
    ensures Verdicts(Apply(g, step))
  {
    match step
    case StartThrows(interruption) =>
      if Accepts(g) {
        CaughtKeepsVerdicts(g.(active := true, phase := Starting, aborted := false, begunAt := |g.recoveries|,
                               start := None, action := None), interruption);
      }
    case StartFails(interruption) =>
      if g.active {
        CaughtKeepsVerdicts(g, interruption);
      }
    case ActionFails(interruption) =>
      if g.active {
        CaughtKeepsVerdicts(g, interruption);
      }
    case AbortWins =>
      if g.active {
        CaughtKeepsVerdicts(g, true);
      }
    case ActionDone =>
      if g.active {
        ReleaseKeepsVerdicts(g, false, Undisturbed);
      }
    case HelperRecovery(succeeded) => RecoveryKeepsVerdicts(g, succeeded);
    case ResetDone(succeeded) => RecoveryKeepsVerdicts(g, succeeded);
    case SettleOk =>
      if g.phase.Settling? {
        EndKeepsVerdicts(g, g.phase.decidedBy, true);
      }
    case SettleTimeout =>
      if g.phase.Settling? {
        EndKeepsVerdicts(g, g.phase.decidedBy, false);
      }
    case Execute(_, _) =>
    case Abort =>
    case Settle(_) =>
    case StartDone =>
    case CheckRecovery =>
  }

  lemma StepKeeps(g: Gate, step: Step)
    requires Inv(g)
    ensures Inv(Apply(g, step))
  {
    ControlKept(g, step);
    PromisesKept(g, step);
    VerdictsKept(g, step);
  }

  lemma {:induction false} RunKeeps(steps: seq<Step>)
    ensures Inv(Run(INITIAL, steps))
    decreases |steps|
  {
    if steps != [] {
      RunKeeps(steps[..|steps| - 1]);
      StepKeeps(Run(INITIAL, steps[..|steps| - 1]), steps[|steps| - 1]);
    }
  }

  // ---------------------------------------------------------------- main results

  /** Whenever a new action is accepted, no start or action promise of any earlier one is pending. */
  lemma AcceptedMeansQuiet(steps: seq<Step>)
    ensures var g := Run(INITIAL, steps);
            Accepts(g) ==> forall p :: 0 <= p < |g.pending| ==> !g.pending[p]
  {
    RunKeeps(steps);
  }

  /** At every moment the pending promises of an unpoisoned session belong to the one running action. */
  lemma OneActionAtATime(steps: seq<Step>, p: nat, q: nat)
    requires var g := Run(INITIAL, steps);
             !g.poisoned && p < |g.pending| && q < |g.pending| && g.pending[p] && g.pending[q]
    ensures var g := Run(INITIAL, steps); g.active && p == q
  {
    RunKeeps(steps);
  }

  /** Poison is absorbing: no later step clears it, starts an action or creates a promise. */
  lemma {:induction false} PoisonIsAbsorbing(before: seq<Step>, later: seq<Step>)
    requires Run(INITIAL, before).poisoned
    ensures var g, g' := Run(INITIAL, before), Run(INITIAL, before + later);
            g'.poisoned && !g'.active && |g'.pending| == |g.pending| && g'.log == g.log
    decreases |later|
  {
    if later == [] {
      assert before + later == before;
      RunKeeps(before);
    } else {
      var init := later[..|later| - 1];
      PoisonIsAbsorbing(before, init);
      assert (before + later)[..|before + later| - 1] == before + init;
      RunKeeps(before + init);
    }
  }

  lemma LogVerdict(g: Gate, i: nat)
    requires Inv(g) && i < |g.log| && g.log[i].Interrupted?
    ensures var f := g.log[i];
            && f.begunAt <= f.decidedBy < f.endedAt <= |g.recoveries|
            && (!f.poisonedAfter <==> g.recoveries[f.decidedBy] && f.settledInTime)
            && (f.poisonedAfter ==> i == |g.log| - 1 && g.poisoned)
  {
    assert VerdictOk(g.recoveries, g.log[i]);
  }

  /**
   Every interrupted action was judged by a connection recovery that completed while it ran;
   it left the session usable exactly when that recovery succeeded and its promises settled
   in time.
   */
  lemma InterruptionVerdict(steps: seq<Step>, i: nat)
    requires i < |Run(INITIAL, steps).log| && Run(INITIAL, steps).log[i].Interrupted?
    ensures var g := Run(INITIAL, steps);
            var f := g.log[i];
            && f.begunAt <= f.decidedBy < f.endedAt <= |g.recoveries|
            && (!f.poisonedAfter <==> g.recoveries[f.decidedBy] && f.settledInTime)
            && (f.poisonedAfter ==> i == |g.log| - 1 && g.poisoned)
  {
    RunKeeps(steps);
    LogVerdict(Run(INITIAL, steps), i);
  }

  /** The requests that `execute` refuses: while an action runs, once poisoned, or on their own account. */
  predicate Refused(g: Gate, step: Step)
  {
    step.Execute? && (g.active || g.poisoned || step.cancelled || !step.deadlineFits)
  }

  lemma {:induction false} RunConcat(g: Gate, a: seq<Step>, b: seq<Step>)
    ensures Run(g, a + b) == Run(Run(g, a), b)
    decreases |b|
  {
    if b == [] {
      assert a + b == a;
    } else {
      RunConcat(g, a, b[..|b| - 1]);
      assert (a + b)[..|a + b| - 1] == a + b[..|b| - 1];
    }
  }

  /** A refused request leaves no trace: the rest of any run goes as if it had not been made. */
  lemma RefusalsLeaveNoTrace(before: seq<Step>, request: Step, later: seq<Step>)
    requires Refused(Run(INITIAL, before), request)
    ensures Run(INITIAL, before + [request] + later) == Run(INITIAL, before + later)
  {
    RunAppend(INITIAL, before, request);
    RunConcat(INITIAL, before + [request], later);
    RunConcat(INITIAL, before, later);
  }

  lemma RunAppend(g: Gate, steps: seq<Step>, step: Step)
    ensures Run(g, steps + [step]) == Apply(Run(g, steps), step)
  {
    assert (steps + [step])[..|steps|] == steps;
  }

  /** The deadline fires and wins the race; the recovery check then picks or starts a recovery. */
  lemma AbortReachesRecovery(g: Gate)
    requires Inv(g) && g.active
    ensures var g' := Apply(Apply(Apply(g, Abort), AbortWins), CheckRecovery);
            Inv(g') && (g'.phase.Resetting? || g'.phase.Settling?)
  {
    var g1 := Apply(g, Abort);
    StepKeeps(g, Abort);
    var g2 := Apply(g1, AbortWins);
    StepKeeps(g1, AbortWins);
    assert g2.phase.Recovering? || g2.phase.Resetting? || g2.phase.Settling?;
    StepKeeps(g2, CheckRecovery);
  }

  lemma RecoveryReachesRelease(g: Gate, resetSucceeds: bool)
    requires Inv(g) && (g.phase.Resetting? || g.phase.Settling?)
    ensures !Apply(Apply(g, ResetDone(resetSucceeds)), SettleTimeout).active
  {
    StepKeeps(g, ResetDone(resetSucceeds));
  }

  /**
   The gate never stays shut because a promise hangs: from every reachable state with a running
   action the deadline, the connection reset and the settlement timeout alone release it.
   */
  lemma GateIsReleased(steps: seq<Step>, resetSucceeds: bool)
    requires Run(INITIAL, steps).active
    ensures !Run(INITIAL, steps + [Abort] + [AbortWins] + [CheckRecovery] + [ResetDone(resetSucceeds)] +
                 [SettleTimeout]).active
  {
    RunKeeps(steps);
    RunAppend(INITIAL, steps, Abort);
    RunAppend(INITIAL, steps + [Abort], AbortWins);
    RunAppend(INITIAL, steps + [Abort] + [AbortWins], CheckRecovery);
    RunAppend(INITIAL, steps + [Abort] + [AbortWins] + [CheckRecovery], ResetDone(resetSucceeds));
    RunAppend(INITIAL, steps + [Abort] + [AbortWins] + [CheckRecovery] + [ResetDone(resetSucceeds)], SettleTimeout);
    AbortReachesRecovery(Run(INITIAL, steps));
    RecoveryReachesRelease(Run(INITIAL, steps + [Abort] + [AbortWins] + [CheckRecovery]), resetSucceeds);
  }
}

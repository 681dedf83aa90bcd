/** What holds over every run of stop triggers, crashes and teardown events, in any order. */
module ShutdownRuns {
  import opened Common
  import opened Shutdown

  predicate Run(c: Config, states: seq<State>, events: seq<Event>) {
    && |states| == |events| + 1
    && states[0] == INITIAL
    && forall k {:trigger events[k]} :: 0 <= k < |events| ==> states[k + 1] == Next(c, states[k], events[k])
  }

  /** `Date.now()` does not go back between events. Only the drain theorem needs this. */
  predicate ClockForward(events: seq<Event>) {
    forall j, k :: 0 <= j < k < |events| ==> events[j].now <= events[k].now
  }

  /** The reserve and the margin fit between the end of the phase and the forced exit. */
  predicate TeardownFits(s: State) {
    s.budgetSet ==> s.phaseDeadline + POST_DRAIN_RESERVE_MS + SHUTDOWN_SAFETY_MARGIN_MS <= s.failsafeFireAt
  }

  predicate Inv(c: Config, s: State) {
    && (!s.isShuttingDown ==> s.shutdownExitCode == 0 && !s.budgetSet && s.wait == NoWait && s.drain == NoDrain)
    && (!s.budgetSet ==> s.wait == NoWait && s.drain == NoDrain)
    && s.crashExitCode <= 1
    && TeardownFits(s)
  }

  lemma StepKeepsInv(c: Config, s: State, e: Event)
    requires Legal(c) && Inv(c, s)
    ensures Inv(c, Next(c, s, e))
  {
  }

  /** In every reachable state, for every legal setting, the teardown reserve fits before the forced exit. */
  lemma {:induction false} BudgetHolds(c: Config, states: seq<State>, events: seq<Event>, j: nat)
    requires Legal(c) && Run(c, states, events) && j < |states|
    ensures Inv(c, states[j])
  {
    if j > 0 {
      var last := events[j - 1];
      BudgetHolds(c, states, events, j - 1);
      StepKeepsInv(c, states[j - 1], last);
    }
  }

  /** The same, from the environment settings as the operator wrote them. */
  lemma BudgetHoldsForEnvironment(forced: Option<string>, drain: Option<string>, parse: string -> JsNumber,
                                  states: seq<State>, events: seq<Event>, j: nat)
    requires Run(Configured(forced, drain, parse), states, events) && j < |states|
    ensures TeardownFits(states[j])
  {
    BudgetHolds(Configured(forced, drain, parse), states, events, j);
  }

  /** Once armed, the failsafe only moves earlier, as does the phase deadline; the exit code never drops. */
  lemma {:induction false} OnlyTightens(c: Config, states: seq<State>, events: seq<Event>, i: nat, j: nat)
    requires Legal(c) && Run(c, states, events) && i <= j < |states|
    ensures states[i].shutdownExitCode <= states[j].shutdownExitCode
    ensures FinalExitCode(states[i]) <= FinalExitCode(states[j])
    ensures states[i].isShuttingDown ==> states[j].isShuttingDown && states[j].failsafeFireAt <= states[i].failsafeFireAt
    ensures states[i].budgetSet ==> states[j].budgetSet && states[j].phaseDeadline <= states[i].phaseDeadline
  {
    if i < j {
      var last := events[j - 1];
      BudgetHolds(c, states, events, j - 1);
      OnlyTightens(c, states, events, i, j - 1);
    }
  }

  /** A crash handler that has run makes every later exit non-zero, even before its shutdown call. */
  lemma CrashMakesExitNonZero(c: Config, states: seq<State>, events: seq<Event>, k: nat, j: nat)
    requires Legal(c) && Run(c, states, events) && k < |events| && k < j < |states|
    requires events[k].CrashSeen? || (events[k].Stop? && events[k].exitCode > 0)
    ensures FinalExitCode(states[j]) >= 1
  {
    OnlyTightens(c, states, events, k + 1, j);
  }

  // ---- The failsafe and the deadline, exactly ------------------------------------------------------

  /** The first stop call of the run. */
  predicate FirstStop(events: seq<Event>, k: int) {
    0 <= k < |events| && events[k].Stop? && forall i :: 0 <= i < k ==> !events[i].Stop?
  }

  predicate CrashCall(e: Event) { e.Stop? && e.exitCode > 0 }

  /** The first stop call before `j` with a positive exit code, if there is one. */
  predicate FirstCrashCall(events: seq<Event>, m: Option<int>, j: int)
    requires j <= |events|
  {
    if m.None? then forall i :: 0 <= i < j ==> !CrashCall(events[i])
    else 0 <= m.value < j && CrashCall(events[m.value]) && forall i :: 0 <= i < m.value ==> !CrashCall(events[i])
  }

  lemma {:induction false} NoStopYet(c: Config, states: seq<State>, events: seq<Event>, j: nat)
    requires Run(c, states, events) && j < |states| && forall i :: 0 <= i < j ==> !events[i].Stop?
    ensures !states[j].isShuttingDown && states[j].shutdownExitCode == 0 && !states[j].budgetSet
  {
    if j > 0 {
      var last := events[j - 1];
      NoStopYet(c, states, events, j - 1);
    }
  }

  /** The exit code stays 0 until a stop call brings a positive one. */
  lemma {:induction false} CleanSoFar(c: Config, states: seq<State>, events: seq<Event>, j: nat)
    requires Run(c, states, events) && j < |states|
    ensures states[j].shutdownExitCode == 0 <==> forall i :: 0 <= i < j ==> !CrashCall(events[i])
  {
    if j > 0 {
      var last := events[j - 1];
      CleanSoFar(c, states, events, j - 1);
    }
  }

  /** When the failsafe fires: the forced exit after the first stop call, or 44 s after the first crash call if that is sooner. */
  function FiresAt(c: Config, events: seq<Event>, k: int, m: Option<int>): real
    requires 0 <= k < |events| && (m.Some? ==> 0 <= m.value < |events|)
  {
    var forced := events[k].now + c.forcedExitMs;
    if m.Some? && events[m.value].now + 44_000.0 < forced then events[m.value].now + 44_000.0 else forced
  }

  /**
   In every later state of every run: the stop began at its first call, and the failsafe fires exactly at the
   forced exit counted from there, or 44 s after the first crash call if that is sooner.
   */
  lemma {:induction false} FailsafeExact(c: Config, states: seq<State>, events: seq<Event>, k: nat, m: Option<int>, j: nat)
    requires Run(c, states, events) && FirstStop(events, k) && k < j < |states| && FirstCrashCall(events, m, j)
    ensures states[j].isShuttingDown && states[j].shutdownT0 == events[k].now
    ensures states[j].failsafeFireAt == FiresAt(c, events, k, m)
    decreases j
  {
    var last := events[j - 1];
    CleanSoFar(c, states, events, j - 1);
    if j == k + 1 {
      NoStopYet(c, states, events, k);
    } else {
      FailsafeExact(c, states, events, k, if m == Some(j - 1) then None else m, j - 1);
    }
  }

  /** A clean stop: never later than the forced exit, and exactly then while no crash call has come. */
  lemma CleanStopBound(c: Config, states: seq<State>, events: seq<Event>, k: nat, m: Option<int>, j: nat)
    requires Run(c, states, events) && FirstStop(events, k) && k < j < |states| && FirstCrashCall(events, m, j)
    ensures states[j].failsafeFireAt <= states[j].shutdownT0 + c.forcedExitMs
    ensures m.None? ==> states[j].failsafeFireAt == states[j].shutdownT0 + c.forcedExitMs
  {
    FailsafeExact(c, states, events, k, m, j);
  }

  /** Where the phase ends: reserve and margin before the forced exit, or grace and drain after the first crash call. */
  function PhaseEndsAt(c: Config, events: seq<Event>, k: int, m: Option<int>): real
    requires 0 <= k < |events| && (m.Some? ==> 0 <= m.value < |events|)
  {
    var full := events[k].now + c.forcedExitMs - 19_000.0;
    if m.Some? && events[m.value].now + 10_000.0 + c.notifyDrainMs < full
    then events[m.value].now + 10_000.0 + c.notifyDrainMs else full
  }

  lemma {:induction false} PhaseExact(c: Config, states: seq<State>, events: seq<Event>, k: nat, m: Option<int>, j: nat)
    requires Legal(c) && Run(c, states, events) && FirstStop(events, k) && events[k].setup.Reaches?
    requires k < j < |states| && FirstCrashCall(events, m, j)
    ensures states[j].budgetSet && states[j].isShuttingDown && states[j].phaseDeadline == PhaseEndsAt(c, events, k, m)
    decreases j
  {
    var last := events[j - 1];
    CleanSoFar(c, states, events, j - 1);
    if j == k + 1 {
      NoStopYet(c, states, events, k);
    } else {
      PhaseExact(c, states, events, k, if m == Some(j - 1) then None else m, j - 1);
    }
  }

  /**
   A drain gets its whole time where the phase has room for it, what is left of the phase where it has not,
   and none once the phase is over. A second one does not start.
   */
  lemma DrainTime(c: Config, s: State, now: real)
    requires s.budgetSet && 0.0 <= c.notifyDrainMs
    ensures var d := Next(c, s, HttpClosed(now)).drain;
            && (s.drain.Draining? ==> d == s.drain)
            && (s.drain.NoDrain? ==>
                  && d.Draining? && d.startedAt == now
                  && (now + c.notifyDrainMs <= s.phaseDeadline ==> d.endsAt == now + c.notifyDrainMs)
                  && (now <= s.phaseDeadline < now + c.notifyDrainMs ==> d.endsAt == s.phaseDeadline)
                  && (s.phaseDeadline < now ==> d.endsAt == now))
  {
  }

  /** Is the wait for requests over with this step: the last one finished, or there was none to wait for? */
  predicate EndsWait(s: State, e: Event) {
    || (e.RequestsOver? && s.wait.Waiting?)
    || (e.Stop? && !s.isShuttingDown && e.setup.Reaches? && e.setup.activeRequests == 0)
  }

  /** A wait that is over stays over. */
  lemma {:induction false} WaitStaysOver(c: Config, states: seq<State>, events: seq<Event>, k: nat, j: nat)
    requires Legal(c) && Run(c, states, events) && k < |events| && k < j < |states| && EndsWait(states[k], events[k])
    ensures states[j].wait == WaitOver && states[j].isShuttingDown
  {
    var last := events[j - 1];
    BudgetHolds(c, states, events, k);
    if k + 1 < j {
      WaitStaysOver(c, states, events, k, j - 1);
    }
  }

  // ---- Crashes --------------------------------------------------------------------------------

  /** Everything a crash at `at` bounds; requests are cut by ten seconds after `waitBase`. */
  predicate CrashBounded(c: Config, s: State, at: real, waitBase: real) {
    && s.isShuttingDown && s.shutdownExitCode > 0
    && s.failsafeFireAt <= at + 44_000.0
    && (s.budgetSet ==> s.phaseDeadline <= at + CRASH_REQUEST_GRACE_MS + c.notifyDrainMs)
    && (s.wait.Waiting? ==> s.wait.startedAt + s.wait.graceMs <= waitBase + CRASH_REQUEST_GRACE_MS)
  }

  /** When a first crash call starts its wait: at once if it lands during a stop, else where the new stop gets to. */
  function WaitBase(s: State, e: Event): real
    requires e.Stop?
  {
    if !s.isShuttingDown && e.setup.Reaches? then e.setup.waitFrom else e.now
  }

  /** From the first crash call on, fresh or during a stop, in every later state. */
  lemma {:induction false} CrashBoundsHold(c: Config, states: seq<State>, events: seq<Event>, k: nat, j: nat)
    requires Legal(c) && Run(c, states, events) && k < |events| && k < j < |states|
    requires events[k].Stop? && events[k].exitCode > 0 && states[k].shutdownExitCode == 0
    ensures CrashBounded(c, states[j], events[k].now, WaitBase(states[k], events[k]))
  {
    var last := events[j - 1];
    if j == k + 1 {
      BudgetHolds(c, states, events, k);
      FirstCrash(c, states[k], last);
    } else {
      CrashBoundsHold(c, states, events, k, j - 1);
    }
  }

  lemma FirstCrash(c: Config, s: State, e: Event)
    requires Legal(c) && Inv(c, s) && e.Stop? && e.exitCode > 0 && s.shutdownExitCode == 0
    ensures CrashBounded(c, Next(c, s, e), e.now, WaitBase(s, e))
  {
  }

  // ---- Drain ----------------------------------------------------------------------------------

  /** The drain's own end, however far the phase deadline has moved meanwhile. */
  predicate DrainInPhase(c: Config, s: State, from: real, end: real) {
    && s.budgetSet && s.drain == Draining(from, end)
    && from <= end <= from + c.notifyDrainMs
    && end <= s.phaseDeadline
  }

  /**
   A drain begun before the phase deadline ends by the deadline of every later moment, even when a crash
   pulls the deadline in while it runs, so reserve and margin still fit before the forced exit.
   */
  lemma {:induction false} DrainEndsInPhase(c: Config, states: seq<State>, events: seq<Event>, k: nat, j: nat)
    requires Legal(c) && Run(c, states, events) && ClockForward(events) && k < |events| && k < j < |states|
    requires events[k].HttpClosed? && states[k].budgetSet && states[k].drain.NoDrain?
    requires events[k].now <= states[k].phaseDeadline
    ensures states[j].drain.Draining?
    ensures DrainInPhase(c, states[j], events[k].now, states[j].drain.endsAt)
    ensures states[j].drain.endsAt + POST_DRAIN_RESERVE_MS + SHUTDOWN_SAFETY_MARGIN_MS <= states[j].failsafeFireAt
  {
    var last := events[j - 1];
    BudgetHolds(c, states, events, j);
    if j > k + 1 {
      DrainEndsInPhase(c, states, events, k, j - 1);
      assert events[k].now <= last.now;
    }
  }

  // ---- Request grace --------------------------------------------------------------------------

  /** How long after the trigger the wait may start and still end within the phase. */
  function GraceSlack(c: Config, exitCode: nat, pendingTasks: nat): real {
    var phase := c.forcedExitMs - POST_DRAIN_RESERVE_MS - SHUTDOWN_SAFETY_MARGIN_MS;
    var reserved := if pendingTasks > 0 then c.notifyDrainMs else 0.0;
    if exitCode == 0 then MaxR(phase - SHUTDOWN_REQUEST_WAIT_CAP_MS, reserved)
    else MinR(c.notifyDrainMs, MaxR(phase - CRASH_REQUEST_GRACE_MS, reserved))
  }

  /**
   The grace is counted from where the wait starts, the phase from the trigger: the cut falls within the
   phase exactly when the steps between the two took no longer than the slack, and is otherwise late by
   no more than those steps took.
   */
  lemma GraceEndsInPhaseExact(c: Config, s: State, now: real, exitCode: nat, pendingTasks: nat, waitFrom: real, active: nat)
    requires Legal(c) && Inv(c, s) && !s.isShuttingDown && active > 0
    ensures var after := Next(c, s, Stop(now, exitCode, Reaches(pendingTasks, waitFrom, active)));
            && after.wait.Waiting?
            && var cut := after.wait.startedAt + after.wait.graceMs;
            && (cut <= after.phaseDeadline <==> waitFrom - now <= GraceSlack(c, exitCode, pendingTasks))
            && cut + POST_DRAIN_RESERVE_MS + SHUTDOWN_SAFETY_MARGIN_MS <= after.failsafeFireAt + (waitFrom - now)
  {
  }
}

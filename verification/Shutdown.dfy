/**
 The stop of one server process: the clamped budgets, the failsafe timer, the phase deadline shared by
 request grace and drain, and the shortening when a crash arrives. Times are milliseconds; the
 configured ones may be fractional.
 */
module Shutdown {
  import opened Common

  const SHUTDOWN_REQUEST_WAIT_CAP_MS: real := 1_800_000.0
  const NOTIFY_DRAIN_MS_DEFAULT: real := 15_000.0
  const NOTIFY_DRAIN_MS_CLAMP_MAX: real := 15_000.0
  const POST_DRAIN_RESERVE_MS: real := 13_000.0
  const SHUTDOWN_SAFETY_MARGIN_MS: real := 6_000.0
  const FORCED_EXIT_MS_DEFAULT: real := 1_834_000.0
  const FORCED_EXIT_MS_MIN: real := 35_000.0
  const MIN_REQUEST_GRACE_MS: real := 500.0
  const CRASH_REQUEST_GRACE_MS: real := 10_000.0

  function MinR(a: real, b: real): real { if a <= b then a else b }

  function MaxR(a: real, b: real): real { if a >= b then a else b }

  // ---- Configuration --------------------------------------------------------------------------

  datatype JsNumber = NotFinite | Finite(x: real)

  /** Clamp of an environment number; anything not finite takes the default. */
  function Clamped(n: JsNumber, low: real, high: real, fallback: real): real {
    match n
    case NotFinite => fallback
    case Finite(x) => MinR(MaxR(x, low), high)
  }

  /** `parse` is JavaScript's `Number(text)`. An empty setting counts as unset here. */
  function ForcedExitMs(raw: Option<string>, parse: string -> JsNumber): real {
    if raw.None? || raw.value == "" then FORCED_EXIT_MS_DEFAULT
    else Clamped(parse(raw.value), FORCED_EXIT_MS_MIN, FORCED_EXIT_MS_DEFAULT, FORCED_EXIT_MS_DEFAULT)
  }

  /** Here an empty setting is parsed like any other text. */
  function NotifyDrainMs(raw: Option<string>, parse: string -> JsNumber): real {
    if raw.None? then NOTIFY_DRAIN_MS_DEFAULT
    else Clamped(parse(raw.value), 0.0, NOTIFY_DRAIN_MS_CLAMP_MAX, NOTIFY_DRAIN_MS_DEFAULT)
  }

  datatype Config = Config(forcedExitMs: real, notifyDrainMs: real)

  predicate Legal(c: Config) {
    && FORCED_EXIT_MS_MIN <= c.forcedExitMs <= FORCED_EXIT_MS_DEFAULT
    && 0.0 <= c.notifyDrainMs <= NOTIFY_DRAIN_MS_CLAMP_MAX
  }

  predicate InRange(n: JsNumber, low: real, high: real) { n.Finite? && low <= n.x <= high }

  /** The configuration of a process, from its two environment settings; a legal setting is taken as it is. */
  function Configured(forced: Option<string>, drain: Option<string>, parse: string -> JsNumber): (c: Config)
    ensures Legal(c)
    ensures forced.Some? && forced.value != "" && InRange(parse(forced.value), FORCED_EXIT_MS_MIN, FORCED_EXIT_MS_DEFAULT)
            ==> c.forcedExitMs == parse(forced.value).x
    ensures drain.Some? && InRange(parse(drain.value), 0.0, NOTIFY_DRAIN_MS_CLAMP_MAX)
            ==> c.notifyDrainMs == parse(drain.value).x
  {
    Config(ForcedExitMs(forced, parse), NotifyDrainMs(drain, parse))
  }

  // ---- Budget ---------------------------------------------------------------------------------

  datatype Budget = Budget(phaseBudgetMs: real, requestGraceMs: real, drainReservedMs: real)

  function ComputeShutdownBudget(c: Config, pendingTasks: nat): (b: Budget)
    ensures Legal(c) ==> b.phaseBudgetMs + POST_DRAIN_RESERVE_MS + SHUTDOWN_SAFETY_MARGIN_MS == c.forcedExitMs
    ensures Legal(c) ==> MIN_REQUEST_GRACE_MS < b.requestGraceMs <= SHUTDOWN_REQUEST_WAIT_CAP_MS
    ensures Legal(c) ==> b.requestGraceMs + b.drainReservedMs <= b.phaseBudgetMs
    ensures c.forcedExitMs == FORCED_EXIT_MS_DEFAULT && Legal(c) ==> b.requestGraceMs == SHUTDOWN_REQUEST_WAIT_CAP_MS
  {
    var phase := MaxR(0.0, c.forcedExitMs - POST_DRAIN_RESERVE_MS - SHUTDOWN_SAFETY_MARGIN_MS);
    var reserved := if pendingTasks > 0 then c.notifyDrainMs else 0.0;
    Budget(phase, MinR(SHUTDOWN_REQUEST_WAIT_CAP_MS, MaxR(MIN_REQUEST_GRACE_MS, phase - reserved)), reserved)
  }

  function CrashFailsafeMs(): real {
    CRASH_REQUEST_GRACE_MS + NOTIFY_DRAIN_MS_CLAMP_MAX + POST_DRAIN_RESERVE_MS + SHUTDOWN_SAFETY_MARGIN_MS
  }

  function RemainingDrainMs(phaseDeadline: real, now: real, notifyDrainMs: real): real {
    MaxR(0.0, MinR(notifyDrainMs, phaseDeadline - now))
  }

  // ---- State ----------------------------------------------------------------------------------

  /** The wait for requests in progress: not begun, cut at `startedAt + graceMs`, or over. */
  datatype Wait = NoWait | Waiting(startedAt: real, graceMs: real) | WaitOver

  datatype Drain = NoDrain | Draining(startedAt: real, endsAt: real)

  datatype State = State(
    isShuttingDown: bool, shutdownExitCode: nat, crashExitCode: nat, shutdownT0: real,
    budgetSet: bool, phaseDeadline: real, failsafeFireAt: real, wait: Wait, drain: Drain)

  const INITIAL := State(false, 0, 0, 0.0, false, 0.0, 0.0, NoWait, NoDrain)

  /**
   How the rest of the first call goes after the failsafe is armed: it may die on a thrown error before
   the budget is set, or reach the wait at `waitFrom`.
   */
  datatype Setup = Dies | Reaches(pendingTasks: nat, waitFrom: real, activeRequests: nat)

  datatype Event =
    | Stop(now: real, exitCode: nat, setup: Setup)   // gracefulShutdown
    | CrashSeen(now: real)                           // a crash handler, before its awaited email
    | RequestsOver(now: real)                        // the last request finished, or the cut
    | HttpClosed(now: real)                          // the drain begins

  function ShortenTo(w: Wait, now: real, ms: real): Wait {
    if !w.Waiting? then w
    else
      var remaining := MaxR(0.0, w.startedAt + w.graceMs - now);
      Waiting(w.startedAt, now - w.startedAt + MaxR(0.0, MinR(remaining, ms)))
  }

  /** Shortened, a wait is cut within `ms` from now, or when it would have been anyway, or at once if that is past. */
  lemma ShortenExact(w: Wait, now: real, ms: real)
    requires w.Waiting? && ms >= 0.0
    ensures var was, s := w.startedAt + w.graceMs, ShortenTo(w, now, ms);
            && s.Waiting? && s.startedAt == w.startedAt
            && var cut := s.startedAt + s.graceMs;
            && (was <= now ==> cut == now)
            && (now <= was <= now + ms ==> cut == was)
            && (now + ms <= was ==> cut == now + ms)
    ensures ShortenTo(NoWait, now, ms) == NoWait && ShortenTo(WaitOver, now, ms) == WaitOver
  {
  }

  function ShortenForCrash(c: Config, s: State, now: real): State {
    var crashFireAt := now + CrashFailsafeMs();
    s.(wait := ShortenTo(s.wait, now, CRASH_REQUEST_GRACE_MS),
       phaseDeadline := MinR(s.phaseDeadline, now + CRASH_REQUEST_GRACE_MS + c.notifyDrainMs),
       failsafeFireAt := MinR(s.failsafeFireAt, crashFireAt))
  }

  function FirstArmMs(c: Config, exitCode: nat): real {
    if exitCode > 0 then MinR(c.forcedExitMs, CrashFailsafeMs()) else c.forcedExitMs
  }

  function FirstPhaseDeadline(c: Config, now: real, exitCode: nat, pendingTasks: nat): real {
    var full := now + ComputeShutdownBudget(c, pendingTasks).phaseBudgetMs;
    if exitCode > 0 then MinR(full, now + CRASH_REQUEST_GRACE_MS + c.notifyDrainMs) else full
  }

  function FirstGraceMs(c: Config, exitCode: nat, pendingTasks: nat): real {
    var full := ComputeShutdownBudget(c, pendingTasks).requestGraceMs;
    if exitCode > 0 then MinR(full, CRASH_REQUEST_GRACE_MS) else full
  }

  function BeginStop(c: Config, s: State, now: real, exitCode: nat, setup: Setup): State {
    var armed := s.(isShuttingDown := true, shutdownT0 := now, failsafeFireAt := now + FirstArmMs(c, exitCode));
    match setup
    case Dies => armed
    case Reaches(pendingTasks, waitFrom, activeRequests) =>
      armed.(budgetSet := true, phaseDeadline := FirstPhaseDeadline(c, now, exitCode, pendingTasks),
             wait := if activeRequests == 0 then WaitOver
                     else Waiting(waitFrom, FirstGraceMs(c, exitCode, pendingTasks)))
  }

  function OnStop(c: Config, s: State, now: real, exitCode: nat, setup: Setup): State {
    var raised := s.(shutdownExitCode := Max(s.shutdownExitCode, exitCode));
    if !s.isShuttingDown then BeginStop(c, raised, now, exitCode, setup)
    else if exitCode > 0 && s.shutdownExitCode == 0 then ShortenForCrash(c, raised, now)
    else raised
  }

  function Next(c: Config, s: State, e: Event): State {
    match e
    case Stop(now, exitCode, setup) => OnStop(c, s, now, exitCode, setup)
    case CrashSeen(_) => s.(crashExitCode := 1)
    case RequestsOver(_) => if s.wait.Waiting? then s.(wait := WaitOver) else s
    case HttpClosed(now) =>
      if s.budgetSet && s.drain.NoDrain?
      then s.(drain := Draining(now, now + RemainingDrainMs(s.phaseDeadline, now, c.notifyDrainMs)))
      else s
  }

  function FinalExitCode(s: State): nat { Max(s.shutdownExitCode, s.crashExitCode) }

  // ---- The handlers as the server has them ------------------------------------------------------

  class StopHandlers {
    const config: Config
    var isShuttingDown: bool
    var shutdownExitCode: nat
    var crashExitCode: nat
    var shutdownT0: real
    var budgetSet: bool
    var phaseDeadline: real
    var failsafeTimer: bool
    var failsafeFireAt: real
    var teardown: Wait
    var drain: Drain

    ghost predicate Valid() reads this { isShuttingDown == failsafeTimer }

    ghost function View(): State reads this {
      State(isShuttingDown, shutdownExitCode, crashExitCode, shutdownT0, budgetSet, phaseDeadline, failsafeFireAt,
            teardown, drain)
    }

    constructor (config: Config)
      ensures this.config == config && Valid() && View() == INITIAL
    {
      this.config := config;
      isShuttingDown, failsafeTimer, budgetSet := false, false, false;
      shutdownExitCode, crashExitCode := 0, 0;
      shutdownT0, phaseDeadline, failsafeFireAt := 0.0, 0.0, 0.0;
      teardown, drain := NoWait, NoDrain;
    }

    method ArmFailsafe(ms: real)
      modifies this`failsafeTimer, this`failsafeFireAt
      ensures failsafeTimer && failsafeFireAt == shutdownT0 + ms
    {
      failsafeFireAt := shutdownT0 + ms;
      failsafeTimer := true;
    }

    method CrashShortens(now: real)
      requires Valid() && isShuttingDown
      modifies this`teardown, this`phaseDeadline, this`failsafeTimer, this`failsafeFireAt
      ensures Valid() && View() == ShortenForCrash(config, old(View()), now)
    {
      teardown := ShortenTo(teardown, now, CRASH_REQUEST_GRACE_MS);
      phaseDeadline := MinR(phaseDeadline, now + CRASH_REQUEST_GRACE_MS + config.notifyDrainMs);
      var crashFireAt := now + CrashFailsafeMs();
      if failsafeTimer && crashFireAt < failsafeFireAt {
        ArmFailsafe(crashFireAt - shutdownT0);
      }
    }

    method GracefulShutdown(now: real, exitCode: nat, setup: Setup)
      requires Valid()
      modifies this
      ensures Valid() && View() == OnStop(config, old(View()), now, exitCode, setup)
    {
      var previousExitCode := shutdownExitCode;
      shutdownExitCode := Max(shutdownExitCode, exitCode);
      if isShuttingDown {
        if exitCode > 0 && previousExitCode == 0 {
          CrashShortens(now);
        }
        return;
      }
      isShuttingDown := true;
      shutdownT0 := now;
      ArmFailsafe(if exitCode > 0 then MinR(config.forcedExitMs, CrashFailsafeMs()) else config.forcedExitMs);
      if setup.Dies? {
        return;
      }
      var budget := ComputeShutdownBudget(config, setup.pendingTasks);
      budgetSet := true;
      phaseDeadline := shutdownT0 + budget.phaseBudgetMs;
      if exitCode > 0 {
        phaseDeadline := MinR(phaseDeadline, shutdownT0 + CRASH_REQUEST_GRACE_MS + config.notifyDrainMs);
      }
      var requestGraceMs := if exitCode == 0 then budget.requestGraceMs
                            else MinR(budget.requestGraceMs, CRASH_REQUEST_GRACE_MS);
      teardown := if setup.activeRequests == 0 then WaitOver else Waiting(setup.waitFrom, requestGraceMs);
    }

    method OnCrash(now: real)
      modifies this`crashExitCode
      ensures View() == Next(config, old(View()), CrashSeen(now))
    {
      crashExitCode := 1;
    }

    method OnRequestsOver(now: real)
      modifies this`teardown
      ensures View() == Next(config, old(View()), RequestsOver(now))
    {
      if teardown.Waiting? {
        teardown := WaitOver;
      }
    }

    method OnHttpClosed(now: real)
      modifies this`drain
      ensures View() == Next(config, old(View()), HttpClosed(now))
    {
      if budgetSet && drain.NoDrain? {
        drain := Draining(now, now + RemainingDrainMs(phaseDeadline, now, config.notifyDrainMs));
      }
    }
  }
}

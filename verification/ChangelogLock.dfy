/**
 The cross-process lock of the changelog store. Any number of processes run operations as
 interleaved atomic steps on one lockfile and one store file, with a common clock; a waiter may
 steal a lockfile it judges stale, and unlocked readers may write a migrated store back.

 `Timing` bounds how long a process holds the lock and how much time passes between a waiter's
 stat of the lockfile and its staleness verdict. `ExclusionExact` says which bounds are enough.
 */
module ChangelogLock {
  import opened Common
  import opened ChangelogStore

  const LOCK_STALE_MS := 10_000
  const LOCK_TIMEOUT_MS := 5_000

  datatype Timing = Timing(hold: nat, gap: nat)

  datatype Phase =
    | Idle
    | Opening(op: Op, deadline: int)
    | Blocked(op: Op, deadline: int)
    | Judging(op: Op, deadline: int, seen: int, statAt: int)
    | Stealing(op: Op, deadline: int)
    | Entered(op: Op, since: int)
    | Loaded(op: Op, since: int, snapshot: seq<Entry>)
    | Closing(since: int)
    | Reading(found: Option<seq<Entry>>)

  /** The lockfile at its path; `owner` is the process that created this file. */
  datatype Lock = Lock(owner: nat, mtime: int)

  /** `log` lists the finished operations in commit order, each with whether it found its entry. */
  datatype Sys = Sys(
    now: int, lock: Option<Lock>, file: Option<seq<Entry>>, procs: map<nat, Phase>, log: seq<(Op, bool)>)

  /** A store file that does not exist yet reads as no entries. */
  function EntriesOf(file: Option<seq<Entry>>): seq<Entry> { if file.Some? then file.value else [] }

  /** Does reading the file write it: to create it, or to migrate an entry? */
  predicate ReadWrites(file: Option<seq<Entry>>) {
    file.None? || exists i :: 0 <= i < |file.value| && NeedsMigration(file.value[i])
  }

  datatype Step =
    | Tick(ms: nat)
    | Begin(p: nat, op: Op)
    | Open(p: nat)
    | StampLock(p: nat)
    | Stat(p: nat)
    | Judge(p: nat)
    | Steal(p: nat)
    | Read(p: nat)
    | Commit(p: nat)
    | Release(p: nat)
    | Peek(p: nat)
    | WriteBack(p: nat)

  function PhaseOf(s: Sys, p: nat): Phase { if p in s.procs then s.procs[p] else Idle }

  predicate InCs(ph: Phase) { ph.Entered? || ph.Loaded? || ph.Closing? }

  predicate HasOp(ph: Phase) { !ph.Idle? && !ph.Closing? && !ph.Reading? }

  function With(s: Sys, p: nat, ph: Phase): Sys { s.(procs := s.procs[p := ph]) }

  /** The verdict on a lockfile seen with modification time `seen`: steal, give up, or try again. */
  function Verdict(now: int, op: Op, deadline: int, seen: int): Phase {
    if now - seen > LOCK_STALE_MS then Stealing(op, deadline)
    else if now >= deadline then Idle
    else Opening(op, deadline)
  }

  /** The program counter of the process allows the step. */
  predicate CanStep(s: Sys, step: Step) {
    match step
    case Tick(_) => true
    case Begin(p, op) => PhaseOf(s, p).Idle? && WellFormed(op)
    case Open(p) => PhaseOf(s, p).Opening?
    case StampLock(p) => PhaseOf(s, p).Entered?
    case Stat(p) => PhaseOf(s, p).Blocked?
    case Judge(p) => PhaseOf(s, p).Judging?
    case Steal(p) => PhaseOf(s, p).Stealing?
    case Read(p) => PhaseOf(s, p).Entered? && !PhaseOf(s, p).op.Reset?
    case Commit(p) => PhaseOf(s, p).Loaded? || (PhaseOf(s, p).Entered? && PhaseOf(s, p).op.Reset?)
    case Release(p) => PhaseOf(s, p).Closing?
    case Peek(p) => PhaseOf(s, p).Idle?
    case WriteBack(p) => PhaseOf(s, p).Reading?
  }

  /** The clock may not run past the time a holder or a judging waiter is given. */
  ghost predicate Enabled(t: Timing, s: Sys, step: Step) {
    && CanStep(s, step)
    && (step.Tick? ==> forall p :: p in s.procs ==>
          (InCs(s.procs[p]) ==> s.now + step.ms <= s.procs[p].since + t.hold)
          && (s.procs[p].Judging? ==> s.now + step.ms <= s.procs[p].statAt + t.gap))
  }

  function Apply(s: Sys, step: Step): Sys
    requires CanStep(s, step)
  {
    match step
    case Tick(ms) => s.(now := s.now + ms)
    case Begin(p, op) => With(s, p, Opening(op, s.now + LOCK_TIMEOUT_MS))
    case Open(p) =>
      var ph := s.procs[p];
      if s.lock.None? then With(s, p, Entered(ph.op, s.now)).(lock := Some(Lock(p, s.now)))
      else With(s, p, Blocked(ph.op, ph.deadline))
    case StampLock(p) =>
      // The descriptor writes to the file this process created, which may no longer be at the path.
      if s.lock.Some? && s.lock.value.owner == p then s.(lock := Some(Lock(p, s.now))) else s
    case Stat(p) =>
      var ph := s.procs[p];
      With(s, p, if s.lock.None? then Opening(ph.op, ph.deadline)
                 else Judging(ph.op, ph.deadline, s.lock.value.mtime, s.now))
    case Judge(p) =>
      var ph := s.procs[p];
      With(s, p, Verdict(s.now, ph.op, ph.deadline, ph.seen))
    case Steal(p) => With(s, p, Opening(s.procs[p].op, s.procs[p].deadline)).(lock := None)
    case Read(p) =>
      var ph := s.procs[p];
      var entries := MigrateAll(EntriesOf(s.file));
      With(s, p, Loaded(ph.op, ph.since, entries)).(file := Some(entries))
    case Commit(p) =>
      var ph := s.procs[p];
      // A reset writes its entries without reading the store.
      var result := ApplyOp(ph.op, if ph.Loaded? then ph.snapshot else EntriesOf(s.file));
      With(s, p, Closing(ph.since)).(file := if result.Some? then result else s.file, log := s.log + [(ph.op, result.Some?)])
    case Release(p) => With(s, p, Idle).(lock := None)
    case Peek(p) => With(s, p, Reading(s.file))
    case WriteBack(p) =>
      var found := s.procs[p].found;
      With(s, p, Idle).(file := if ReadWrites(found) then Some(MigrateAll(EntriesOf(found))) else s.file)
  }

  ghost predicate Leads(t: Timing, a: Sys, step: Step, b: Sys) {
    Enabled(t, a, step) && b == Apply(a, step)
  }

  /** Steps that lead from state to state, wherever they begin. */
  ghost predicate Trace(t: Timing, states: seq<Sys>, steps: seq<Step>) {
    && |states| == |steps| + 1
    && forall k {:trigger steps[k]} :: 0 <= k < |steps| ==> Leads(t, states[k], steps[k], states[k + 1])
  }

  /** A run from a store file, or none, without a lockfile. */
  ghost predicate Run(t: Timing, init: Option<seq<Entry>>, states: seq<Sys>, steps: seq<Step>) {
    Trace(t, states, steps) && states[0] == Sys(0, None, init, map[], [])
  }

  /** The entries after running the logged operations one after the other. */
  function Replay(init: seq<Entry>, log: seq<(Op, bool)>): seq<Entry> {
    if |log| == 0 then init
    else
      var before := Replay(init, log[..|log| - 1]);
      var result := ApplyOp(log[|log| - 1].0, before);
      if result.Some? then result.value else before
  }

  /** Each logged outcome is the one the operation has at its place in that sequence. */
  ghost predicate OutcomesReplay(init: seq<Entry>, log: seq<(Op, bool)>) {
    forall k :: 0 <= k < |log| ==> log[k].1 == ApplyOp(log[k].0, Replay(init, log[..k])).Some?
  }

  // ---- What a step may touch ----------------------------------------------------------------

  /**
   The lockfile is made by an open that finds none, dated by the process that made it and by no other, and
   goes with a release or a steal; no other step touches it.
   */
  lemma LockSteps(s: Sys, step: Step)
    requires CanStep(s, step)
    ensures var lock := Apply(s, step).lock;
            match step
            case Open(p) => lock == if s.lock.None? then Some(Lock(p, s.now)) else s.lock
            case StampLock(p) => lock == if s.lock.Some? && s.lock.value.owner == p then Some(Lock(p, s.now)) else s.lock
            case Steal(_) => lock.None?
            case Release(_) => lock.None?
            case _ => lock == s.lock
  {
  }

  /** The store file is written by a read under the lock, a commit that found its entry, and an unlocked migration. */
  lemma FileSteps(s: Sys, step: Step)
    requires CanStep(s, step) && Apply(s, step).file != s.file
    ensures step.Read? || step.Commit? || step.WriteBack?
    ensures step.Read? ==> s.procs[step.p].Entered? && Apply(s, step).file == Some(MigrateAll(EntriesOf(s.file)))
    ensures step.Commit? ==> Apply(s, step).log == s.log + [(s.procs[step.p].op, true)]
    ensures step.WriteBack? ==> ReadWrites(s.procs[step.p].found)
  {
  }

  /** A verdict: steal what was seen older than ten seconds, else give up once the deadline has come, else try again. */
  lemma VerdictExact(s: Sys, p: nat)
    requires CanStep(s, Judge(p))
    ensures var was, next := s.procs[p], PhaseOf(Apply(s, Judge(p)), p);
            && (next.Stealing? <==> was.seen + 10_000 < s.now)
            && (next.Idle? <==> s.now <= was.seen + 10_000 && was.deadline <= s.now)
            && (next == Opening(was.op, was.deadline) <==> s.now <= was.seen + 10_000 && s.now < was.deadline)
  {
  }

  /** The process has been waiting since a begin five seconds before the deadline. */
  ghost predicate BegunFor(states: seq<Sys>, steps: seq<Step>, j: int, p: nat, deadline: int)
    requires |states| == |steps| + 1 && j <= |steps|
  {
    exists k :: 0 <= k < j && steps[k].Begin? && steps[k].p == p && deadline == states[k].now + 5_000
  }

  predicate IsWaiting(ph: Phase) { ph.Opening? || ph.Blocked? || ph.Judging? || ph.Stealing? }

  /** A deadline is set by a begin, five seconds ahead, and kept while the process waits. */
  predicate KeepsDeadline(s: Sys, step: Step, after: Sys, p: nat) {
    IsWaiting(PhaseOf(after, p)) ==>
      || (IsWaiting(PhaseOf(s, p)) && PhaseOf(after, p).deadline == PhaseOf(s, p).deadline)
      || (step.Begin? && step.p == p && PhaseOf(after, p).deadline == s.now + 5_000)
  }

  lemma StepKeepsDeadline(s: Sys, step: Step, p: nat)
    requires CanStep(s, step)
    ensures KeepsDeadline(s, step, Apply(s, step), p)
  {
  }

  ghost predicate DeadlinesAlong(states: seq<Sys>, steps: seq<Step>, p: nat) {
    && |states| == |steps| + 1 && !IsWaiting(PhaseOf(states[0], p))
    && forall k {:trigger steps[k]} :: 0 <= k < |steps| ==> KeepsDeadline(states[k], steps[k], states[k + 1], p)
  }

  lemma RunKeepsDeadlines(t: Timing, init: Option<seq<Entry>>, states: seq<Sys>, steps: seq<Step>, p: nat)
    requires Run(t, init, states, steps)
    ensures DeadlinesAlong(states, steps, p)
  {
    forall k | 0 <= k < |steps|
      ensures KeepsDeadline(states[k], steps[k], states[k + 1], p)
    {
      assert Leads(t, states[k], steps[k], states[k + 1]);
      StepKeepsDeadline(states[k], steps[k], p);
    }
  }

  lemma {:induction false} DeadlineFromBegin(states: seq<Sys>, steps: seq<Step>, j: nat, p: nat)
    requires DeadlinesAlong(states, steps, p) && j <= |steps| && IsWaiting(PhaseOf(states[j], p))
    ensures BegunFor(states, steps, j, p, PhaseOf(states[j], p).deadline)
  {
    if j > 0 {
      var last := steps[j - 1];
      if IsWaiting(PhaseOf(states[j - 1], p)) && PhaseOf(states[j - 1], p).deadline == PhaseOf(states[j], p).deadline {
        DeadlineFromBegin(states, steps, j - 1, p);
      }
    }
  }

  /** A waiter gives up no sooner than five seconds after it began, and only on a lockfile it saw fresh. */
  lemma GivesUpLate(t: Timing, init: Option<seq<Entry>>, states: seq<Sys>, steps: seq<Step>, j: nat, p: nat)
    requires Run(t, init, states, steps) && j < |steps| && steps[j] == Judge(p) && PhaseOf(states[j + 1], p).Idle?
    ensures states[j].now <= states[j].procs[p].seen + 10_000
    ensures exists k :: 0 <= k < j && steps[k].Begin? && steps[k].p == p && states[k].now + 5_000 <= states[j].now
  {
    assert Leads(t, states[j], steps[j], states[j + 1]);
    VerdictExact(states[j], p);
    RunKeepsDeadlines(t, init, states, steps, p);
    DeadlineFromBegin(states, steps, j, p);
    var k :| 0 <= k < j && steps[k].Begin? && steps[k].p == p && states[j].procs[p].deadline == states[k].now + 5_000;
  }

  // ---- Invariant -------------------------------------------------------------------------

  /** The lockfile is there exactly while its creator is in the critical section, and it is young. */
  ghost predicate LockHeld(s: Sys) {
    && (s.lock.Some? ==> InCs(PhaseOf(s, s.lock.value.owner))
                         && PhaseOf(s, s.lock.value.owner).since <= s.lock.value.mtime <= s.now)
    && forall p :: p in s.procs && InCs(s.procs[p]) ==> s.lock.Some? && s.lock.value.owner == p
  }

  ghost predicate Timed(t: Timing, s: Sys) {
    forall p :: p in s.procs ==>
      && (InCs(s.procs[p]) ==> s.procs[p].since <= s.now <= s.procs[p].since + t.hold)
      && (s.procs[p].Judging? ==> s.procs[p].statAt <= s.procs[p].seen + t.hold && s.now <= s.procs[p].statAt + t.gap)
      && !s.procs[p].Stealing?
  }

  /** The file exists and is steady, and whoever is inside has loaded it as it is. */
  ghost predicate Contents(s: Sys) {
    && s.file.Some? && Steady(s.file.value)
    && forall p :: p in s.procs ==>
         && (s.procs[p].Loaded? ==> Some(s.procs[p].snapshot) == s.file)
         && (s.procs[p].Reading? ==> !ReadWrites(s.procs[p].found))
         && (HasOp(s.procs[p]) ==> WellFormed(s.procs[p].op))
  }

  ghost predicate Logged(init: seq<Entry>, s: Sys) {
    EntriesOf(s.file) == Replay(init, s.log) && OutcomesReplay(init, s.log)
  }

  predicate Safe(t: Timing) { t.hold + t.gap <= LOCK_STALE_MS }

  lemma StepKeepsTimed(t: Timing, s: Sys, step: Step)
    requires Safe(t) && LockHeld(s) && Timed(t, s) && Enabled(t, s, step)
    ensures Timed(t, Apply(s, step))
  {
    if step.Judge? {
      var ph := s.procs[step.p];
      assert !Verdict(s.now, ph.op, ph.deadline, ph.seen).Stealing?;
    }
  }

  lemma StepKeepsLock(t: Timing, s: Sys, step: Step)
    requires LockHeld(s) && Timed(t, s) && Enabled(t, s, step)
    ensures LockHeld(Apply(s, step))
  {
  }

  lemma SteadyStays(entries: seq<Entry>)
    requires Steady(entries)
    ensures MigrateAll(entries) == entries && !ReadWrites(Some(entries))
  {
    forall i | 0 <= i < |entries|
      ensures !NeedsMigration(entries[i])
    {
      assert SteadyAt(entries, i);
    }
  }

  /** The committing process is alone inside, so no other snapshot goes out of date. */
  lemma CommitKeepsContents(s: Sys, p: nat)
    requires LockHeld(s) && Contents(s) && CanStep(s, Commit(p))
    ensures Contents(Apply(s, Commit(p)))
  {
    var ph := s.procs[p];
    if ApplyOp(ph.op, s.file.value).Some? {
      ApplyOpSteady(ph.op, s.file.value);
    }
  }

  lemma StepKeepsContents(s: Sys, step: Step)
    requires LockHeld(s) && Contents(s) && CanStep(s, step)
    ensures Contents(Apply(s, step))
    ensures !step.Commit? ==> Apply(s, step).file == s.file && Apply(s, step).log == s.log
  {
    SteadyStays(s.file.value);
    if step.Commit? {
      CommitKeepsContents(s, step.p);
    }
  }

  lemma CommitReplays(init: seq<Entry>, s: Sys, p: nat)
    requires PhaseOf(s, p).Loaded? ==> Some(s.procs[p].snapshot) == s.file
    requires Logged(init, s)
    requires CanStep(s, Commit(p))
    ensures Logged(init, Apply(s, Commit(p)))
  {
    var log := s.log + [(s.procs[p].op, ApplyOp(s.procs[p].op, EntriesOf(s.file)).Some?)];
    assert log[..|s.log|] == s.log;
    forall k | 0 <= k < |log|
      ensures log[k].1 == ApplyOp(log[k].0, Replay(init, log[..k])).Some?
    {
      assert log[..k] == s.log[..k];
      assert s.log[..|s.log|] == s.log;
    }
  }

  /** The lock alone: who is inside and when does not depend on what the store holds. */
  lemma {:induction false} RunKeepsLock(t: Timing, init: Option<seq<Entry>>, states: seq<Sys>, steps: seq<Step>, k: nat)
    requires Safe(t) && Run(t, init, states, steps) && k <= |steps|
    ensures LockHeld(states[k]) && Timed(t, states[k])
  {
    if k > 0 {
      var last := steps[k - 1];
      RunKeepsLock(t, init, states, steps, k - 1);
      StepKeepsTimed(t, states[k - 1], last);
      StepKeepsLock(t, states[k - 1], last);
    }
  }

  lemma StepKeepsStore(init: seq<Entry>, s: Sys, step: Step)
    requires LockHeld(s) && Contents(s) && Logged(init, s) && CanStep(s, step)
    ensures Contents(Apply(s, step)) && Logged(init, Apply(s, step))
  {
    StepKeepsContents(s, step);
    if step.Commit? {
      CommitReplays(init, s, step.p);
    }
  }

  lemma {:induction false} RunKeepsStore(t: Timing, init: seq<Entry>, states: seq<Sys>, steps: seq<Step>, k: nat)
    requires Safe(t) && Steady(init) && Run(t, Some(init), states, steps) && k <= |steps|
    ensures Contents(states[k]) && Logged(init, states[k])
  {
    if k > 0 {
      var last := steps[k - 1];
      RunKeepsStore(t, init, states, steps, k - 1);
      RunKeepsLock(t, Some(init), states, steps, k - 1);
      StepKeepsStore(init, states[k - 1], last);
    }
  }

  ghost predicate Exclusive(s: Sys) {
    forall p, q :: p in s.procs && q in s.procs && InCs(s.procs[p]) && InCs(s.procs[q]) ==> p == q
  }

  /** At most one process is between acquire and release, nobody steals, and whoever is inside holds the lockfile. */
  lemma MutualExclusion(t: Timing, init: Option<seq<Entry>>, states: seq<Sys>, steps: seq<Step>, k: nat)
    requires Safe(t) && Run(t, init, states, steps) && k <= |steps|
    ensures Exclusive(states[k])
    ensures forall p :: p in states[k].procs ==> !states[k].procs[p].Stealing?
    ensures states[k].lock.Some? <==> exists p :: p in states[k].procs && InCs(states[k].procs[p])
  {
    RunKeepsLock(t, init, states, steps, k);
  }

  /** No lost update: the stored entries are those of the finished operations run one by one in commit order. */
  lemma NoLostUpdate(t: Timing, init: seq<Entry>, states: seq<Sys>, steps: seq<Step>, k: nat)
    requires Safe(t) && Steady(init) && Run(t, Some(init), states, steps) && k <= |steps|
    ensures states[k].file == Some(Replay(init, states[k].log)) && OutcomesReplay(init, states[k].log)
  {
    RunKeepsStore(t, init, states, steps, k);
  }

  // ---- The timing bound is exact ----------------------------------------------------------

  lemma JoinedAt(a: seq<Sys>, sa: seq<Step>, b: seq<Sys>, sb: seq<Step>, k: nat)
    requires |a| == |sa| + 1 && |b| == |sb| + 1 && b[0] == a[|sa|] && k < |sa + sb|
    ensures k < |sa| ==> (sa + sb)[k] == sa[k] && (a + b[1..])[k] == a[k] && (a + b[1..])[k + 1] == a[k + 1]
    ensures k >= |sa| ==> (sa + sb)[k] == sb[k - |sa|] && (a + b[1..])[k] == b[k - |sa|]
                          && (a + b[1..])[k + 1] == b[k + 1 - |sa|]
  {
  }

  lemma LeadsAt(t: Timing, states: seq<Sys>, steps: seq<Step>, k: nat)
    requires Trace(t, states, steps) && k < |steps|
    ensures Leads(t, states[k], steps[k], states[k + 1])
  {
  }

  /** A run goes on with any trace from where it stopped. */
  lemma Joined(t: Timing, a: seq<Sys>, sa: seq<Step>, b: seq<Sys>, sb: seq<Step>, k: nat)
    requires Trace(t, a, sa) && Trace(t, b, sb) && b[0] == a[|sa|] && k < |sa + sb|
    ensures Leads(t, (a + b[1..])[k], (sa + sb)[k], (a + b[1..])[k + 1])
  {
    JoinedAt(a, sa, b, sb, k);
    if k < |sa| {
      LeadsAt(t, a, sa, k);
    } else {
      LeadsAt(t, b, sb, k - |sa|);
    }
  }

  lemma RunOn(t: Timing, init: Option<seq<Entry>>, a: seq<Sys>, sa: seq<Step>, b: seq<Sys>, sb: seq<Step>)
    requires Run(t, init, a, sa) && Trace(t, b, sb) && b[0] == a[|sa|]
    ensures Run(t, init, a + b[1..], sa + sb)
    ensures (a + b[1..])[|sa + sb|] == b[|sb|]
  {
    forall k | 0 <= k < |sa + sb|
      ensures Leads(t, (a + b[1..])[k], (sa + sb)[k], (a + b[1..])[k + 1])
    {
      Joined(t, a, sa, b, sb, k);
    }
  }

  const DUE := LOCK_TIMEOUT_MS

  /** Process 1 stats the file of process 0 at the last moment and gives its verdict after process 2 got in. */
  function StealingSteps(t: Timing, op: Op): seq<Step> {
    [Begin(0, op), Open(0), Begin(1, op), Open(1), Tick(t.hold), Stat(1),
     Read(0), Commit(0), Release(0), Tick(t.gap), Begin(2, op), Open(2), Judge(1), Steal(1), Open(1)]
  }

  function StealingStates(t: Timing, init: seq<Entry>, e: Entry): seq<Sys> {
    var h, g, op := t.hold, t.hold + t.gap, Create(e);
    var file, after := Some(init), Some(init + [e]);
    var locked, judging, log := Some(Lock(0, 0)), Judging(op, DUE, 0, t.hold), [(op, true)];
    [Sys(0, None, file, map[], []),
     Sys(0, None, file, map[0 := Opening(op, DUE)], []),
     Sys(0, locked, file, map[0 := Entered(op, 0)], []),
     Sys(0, locked, file, map[0 := Entered(op, 0), 1 := Opening(op, DUE)], []),
     Sys(0, locked, file, map[0 := Entered(op, 0), 1 := Blocked(op, DUE)], []),
     Sys(h, locked, file, map[0 := Entered(op, 0), 1 := Blocked(op, DUE)], []),
     Sys(h, locked, file, map[0 := Entered(op, 0), 1 := judging], []),
     Sys(h, locked, file, map[0 := Loaded(op, 0, init), 1 := judging], []),
     Sys(h, locked, after, map[0 := Closing(0), 1 := judging], log),
     Sys(h, None, after, map[0 := Idle, 1 := judging], log),
     Sys(g, None, after, map[0 := Idle, 1 := judging], log),
     Sys(g, None, after, map[0 := Idle, 1 := judging, 2 := Opening(op, g + DUE)], log),
     Sys(g, Some(Lock(2, g)), after, map[0 := Idle, 1 := judging, 2 := Entered(op, g)], log),
     Sys(g, Some(Lock(2, g)), after, map[0 := Idle, 1 := Stealing(op, DUE), 2 := Entered(op, g)], log),
     Sys(g, None, after, map[0 := Idle, 1 := Opening(op, DUE), 2 := Entered(op, g)], log),
     Sys(g, Some(Lock(1, g)), after, map[0 := Idle, 1 := Entered(op, g), 2 := Entered(op, g)], log)]
  }

  lemma StealingLeadsEarly(t: Timing, init: seq<Entry>, e: Entry, k: nat)
    requires Steady(init) && Settled(e) && k < 8
    ensures Leads(t, StealingStates(t, init, e)[k], StealingSteps(t, Create(e))[k], StealingStates(t, init, e)[k + 1])
  {
    SteadyStays(init);
    var a, step, b := StealingStates(t, init, e)[k], StealingSteps(t, Create(e))[k], StealingStates(t, init, e)[k + 1];
    assert Apply(a, step).procs == b.procs;
  }

  lemma StealingLeadsMiddle(t: Timing, init: seq<Entry>, e: Entry, k: nat)
    requires Settled(e) && 8 <= k < 12
    ensures Leads(t, StealingStates(t, init, e)[k], StealingSteps(t, Create(e))[k], StealingStates(t, init, e)[k + 1])
  {
    var a, step, b := StealingStates(t, init, e)[k], StealingSteps(t, Create(e))[k], StealingStates(t, init, e)[k + 1];
    assert Apply(a, step).procs == b.procs;
  }

  lemma StealingLeadsLate(t: Timing, init: seq<Entry>, e: Entry, k: nat)
    requires !Safe(t) && 12 <= k < 15
    ensures Leads(t, StealingStates(t, init, e)[k], StealingSteps(t, Create(e))[k], StealingStates(t, init, e)[k + 1])
  {
    var a, step, b := StealingStates(t, init, e)[k], StealingSteps(t, Create(e))[k], StealingStates(t, init, e)[k + 1];
    assert Apply(a, step).procs == b.procs;
  }

  /** Beyond the bound, two processes get inside, whatever steady store they share. */
  lemma StealingRun(t: Timing, init: seq<Entry>, e: Entry)
    requires !Safe(t) && Steady(init) && Settled(e)
    ensures Run(t, Some(init), StealingStates(t, init, e), StealingSteps(t, Create(e)))
    ensures !Exclusive(StealingStates(t, init, e)[15])
  {
    forall k | 0 <= k < |StealingSteps(t, Create(e))|
      ensures Leads(t, StealingStates(t, init, e)[k], StealingSteps(t, Create(e))[k], StealingStates(t, init, e)[k + 1])
    {
      if k < 8 {
        StealingLeadsEarly(t, init, e, k);
      } else if k < 12 {
        StealingLeadsMiddle(t, init, e, k);
      } else {
        StealingLeadsLate(t, init, e, k);
      }
    }
    var last := StealingStates(t, init, e)[15];
    assert InCs(last.procs[1]) && InCs(last.procs[2]);
  }

  ghost predicate ExclusionAlways(t: Timing) {
    forall init, states, steps, k :: Run(t, init, states, steps) && 0 <= k <= |steps| ==> Exclusive(states[k])
  }

  /** A current-schema entry, for the runs that create one. */
  const NEW_ENTRY := Entry("", "", "", "", None, None, Some([]), "", [], [], "", "")

  /**
   Mutual exclusion holds in every run exactly when the longest hold and the longest stat-to-verdict
   gap together stay within the staleness limit.
   */
  lemma ExclusionExact(t: Timing)
    ensures ExclusionAlways(t) <==> Safe(t)
  {
    if Safe(t) {
      forall init, states, steps, k | Run(t, init, states, steps) && 0 <= k <= |steps|
        ensures Exclusive(states[k])
      {
        MutualExclusion(t, init, states, steps, k);
      }
    } else {
      StealingRun(t, [], NEW_ENTRY);
      assert !Exclusive(StealingStates(t, [], NEW_ENTRY)[|StealingSteps(t, Create(NEW_ENTRY))|]);
    }
  }

  // ---- No lost update is exact ----------------------------------------------------------------

  /** Both processes inside read before either writes. */
  const OVERWRITING_STEPS := [Read(1), Read(2), Commit(2), Commit(1)]

  function OverwritingStates(t: Timing, init: seq<Entry>, e: Entry): seq<Sys> {
    var g, op, lock := t.hold + t.gap, Create(e), Some(Lock(1, t.hold + t.gap));
    var seen, done := init + [e], (op, true);
    [Sys(g, lock, Some(seen), map[0 := Idle, 1 := Entered(op, g), 2 := Entered(op, g)], [done]),
     Sys(g, lock, Some(seen), map[0 := Idle, 1 := Loaded(op, g, seen), 2 := Entered(op, g)], [done]),
     Sys(g, lock, Some(seen), map[0 := Idle, 1 := Loaded(op, g, seen), 2 := Loaded(op, g, seen)], [done]),
     Sys(g, lock, Some(seen + [e]), map[0 := Idle, 1 := Loaded(op, g, seen), 2 := Closing(g)], [done, done]),
     Sys(g, lock, Some(seen + [e]), map[0 := Idle, 1 := Closing(g), 2 := Closing(g)], [done, done, done])]
  }

  lemma OverwritingLeads(t: Timing, init: seq<Entry>, e: Entry, k: nat)
    requires Steady(init) && Settled(e) && k < 4
    ensures Leads(t, OverwritingStates(t, init, e)[k], OVERWRITING_STEPS[k], OverwritingStates(t, init, e)[k + 1])
  {
    AppendSteady(init, e);
    SteadyStays(init + [e]);
    var a, step, b := OverwritingStates(t, init, e)[k], OVERWRITING_STEPS[k], OverwritingStates(t, init, e)[k + 1];
    assert Apply(a, step).procs == b.procs;
  }

  /** The run stores fewer entries than its finished operations call for. */
  ghost predicate LosesEntry(init: Option<seq<Entry>>, s: Sys) {
    |EntriesOf(s.file)| < |Replay(EntriesOf(init), s.log)|
  }

  /** Beyond the timing bound one of three creates is overwritten. */
  lemma OverwritingRun(t: Timing, init: seq<Entry>, e: Entry) returns (states: seq<Sys>, steps: seq<Step>)
    requires !Safe(t) && Steady(init) && Settled(e)
    ensures Run(t, Some(init), states, steps) && LosesEntry(Some(init), states[|steps|])
  {
    StealingRun(t, init, e);
    forall k | 0 <= k < |OVERWRITING_STEPS|
      ensures Leads(t, OverwritingStates(t, init, e)[k], OVERWRITING_STEPS[k], OverwritingStates(t, init, e)[k + 1])
    {
      OverwritingLeads(t, init, e, k);
    }
    var a, b := StealingStates(t, init, e), OverwritingStates(t, init, e);
    RunOn(t, Some(init), a, StealingSteps(t, Create(e)), b, OVERWRITING_STEPS);
    states, steps := a + b[1..], StealingSteps(t, Create(e)) + OVERWRITING_STEPS;
    var done := (Create(e), true);
    ReplayOne(init, [], done);
    ReplayOne(init, [done], done);
    ReplayOne(init, [done, done], done);
  }

  lemma ReplayOne(init: seq<Entry>, log: seq<(Op, bool)>, last: (Op, bool))
    ensures Replay(init, log + [last]) == var before := Replay(init, log);
                                          var result := ApplyOp(last.0, before);
                                          if result.Some? then result.value else before
    ensures [] + [last] == [last]
    ensures |log| == 1 ==> log + [last] == [log[0], last]
    ensures |log| == 2 ==> log + [last] == [log[0], log[1], last]
  {
    assert (log + [last])[..|log|] == log;
  }

  /** Process 1 read the store without the lock before process 0 created an entry, and writes back after. */
  function MigratingSteps(e: Entry): seq<Step> {
    [Peek(1), Begin(0, Create(e)), Open(0), Read(0), Commit(0), Release(0), WriteBack(1)]
  }

  function MigratingStates(file: Option<seq<Entry>>, e: Entry, procs: map<nat, Phase>, log: seq<(Op, bool)>): seq<Sys> {
    var op, locked, seen := Create(e), Some(Lock(0, 0)), MigrateAll(EntriesOf(file));
    var peeked, after := procs[1 := Reading(file)], log + [(op, true)];
    [Sys(0, None, file, procs, log),
     Sys(0, None, file, peeked, log),
     Sys(0, None, file, peeked[0 := Opening(op, DUE)], log),
     Sys(0, locked, file, peeked[0 := Entered(op, 0)], log),
     Sys(0, locked, Some(seen), peeked[0 := Loaded(op, 0, seen)], log),
     Sys(0, locked, Some(seen + [e]), peeked[0 := Closing(0)], after),
     Sys(0, None, Some(seen + [e]), peeked[0 := Idle], after),
     Sys(0, None, Some(seen), peeked[0 := Idle][1 := Idle], after)]
  }

  lemma MigratingLeads(t: Timing, file: Option<seq<Entry>>, e: Entry, procs: map<nat, Phase>, log: seq<(Op, bool)>, k: nat)
    requires Settled(e) && ReadWrites(file) && k < 7
    requires procs == map[] || procs == map[0 := Idle]
    ensures Leads(t, MigratingStates(file, e, procs, log)[k], MigratingSteps(e)[k], MigratingStates(file, e, procs, log)[k + 1])
  {
    var a, step := MigratingStates(file, e, procs, log)[k], MigratingSteps(e)[k];
    assert Apply(a, step).procs == MigratingStates(file, e, procs, log)[k + 1].procs;
  }

  lemma MigratingTrace(t: Timing, file: Option<seq<Entry>>, e: Entry, procs: map<nat, Phase>, log: seq<(Op, bool)>)
    requires Settled(e) && ReadWrites(file) && (procs == map[] || procs == map[0 := Idle])
    ensures Trace(t, MigratingStates(file, e, procs, log), MigratingSteps(e))
  {
    forall k | 0 <= k < |MigratingSteps(e)|
      ensures Leads(t, MigratingStates(file, e, procs, log)[k], MigratingSteps(e)[k], MigratingStates(file, e, procs, log)[k + 1])
    {
      MigratingLeads(t, file, e, procs, log, k);
    }
  }

  /** A finished update that turns an entry back into one that needs migration. */
  function RevivingSteps(op: Op): seq<Step> {
    [Begin(0, op), Open(0), Read(0), Commit(0), Release(0)]
  }

  function RevivingStates(init: seq<Entry>, op: Op, revived: seq<Entry>): seq<Sys> {
    var locked, log := Some(Lock(0, 0)), [(op, true)];
    [Sys(0, None, Some(init), map[], []),
     Sys(0, None, Some(init), map[0 := Opening(op, DUE)], []),
     Sys(0, locked, Some(init), map[0 := Entered(op, 0)], []),
     Sys(0, locked, Some(init), map[0 := Loaded(op, 0, init)], []),
     Sys(0, locked, Some(revived), map[0 := Closing(0)], log),
     Sys(0, None, Some(revived), map[0 := Idle], log)]
  }

  lemma RevivingEnters(t: Timing, init: seq<Entry>, op: Op, revived: seq<Entry>, k: nat)
    requires op.Update? && MigrateAll(init) == init && k < 3
    ensures Leads(t, RevivingStates(init, op, revived)[k], RevivingSteps(op)[k], RevivingStates(init, op, revived)[k + 1])
  {
    var a, step := RevivingStates(init, op, revived)[k], RevivingSteps(op)[k];
    assert Apply(a, step).procs == RevivingStates(init, op, revived)[k + 1].procs;
  }

  lemma RevivingLeaves(t: Timing, init: seq<Entry>, op: Op, revived: seq<Entry>, k: nat)
    requires ApplyOp(op, init) == Some(revived) && 3 <= k < 5
    ensures Leads(t, RevivingStates(init, op, revived)[k], RevivingSteps(op)[k], RevivingStates(init, op, revived)[k + 1])
  {
    var a, step := RevivingStates(init, op, revived)[k], RevivingSteps(op)[k];
    assert Apply(a, step).procs == RevivingStates(init, op, revived)[k + 1].procs;
  }

  lemma RevivingRun(t: Timing, init: seq<Entry>, op: Op, revived: seq<Entry>)
    requires op.Update? && ApplyOp(op, init) == Some(revived) && MigrateAll(init) == init
    ensures Run(t, Some(init), RevivingStates(init, op, revived), RevivingSteps(op))
  {
    forall k | 0 <= k < |RevivingSteps(op)|
      ensures Leads(t, RevivingStates(init, op, revived)[k], RevivingSteps(op)[k], RevivingStates(init, op, revived)[k + 1])
    {
      if k < 3 {
        RevivingEnters(t, init, op, revived, k);
      } else {
        RevivingLeaves(t, init, op, revived, k);
      }
    }
  }

  predicate SteadyFile(file: Option<seq<Entry>>) { file.Some? && Steady(file.value) }

  /**
   A reader creates or migrates the store without the lock. From any start that is not steady, whatever the
   timing, a run reports a created entry that is then gone: at once if a read of the store writes it, or
   after one update that clears a message above a leftover summary.
   */
  lemma UnlockedMigrationLoses(t: Timing, init: Option<seq<Entry>>, e: Entry) returns (states: seq<Sys>, steps: seq<Step>)
    requires !SteadyFile(init) && Settled(e)
    ensures Run(t, init, states, steps) && |states[|steps|].log| > 0
    ensures states[|steps|].log[|states[|steps|].log| - 1] == (Create(e), true)
    ensures LosesEntry(init, states[|steps|])
  {
    var done := (Create(e), true);
    if ReadWrites(init) {
      states, steps := MigratingStates(init, e, map[], []), MigratingSteps(e);
      MigratingTrace(t, init, e, map[], []);
      ReplayOne(EntriesOf(init), [], done);
    } else {
      var entries := init.value;
      var at := UnsteadyRevives(entries, "");
      var op, revived := Update(entries[at].id, CLEAR_MESSAGE, ""), entries[at := Patched(entries[at], CLEAR_MESSAGE, "")];
      assert MigrateAll(entries) == entries;
      RevivingRun(t, entries, op, revived);
      assert NeedsMigration(revived[at]);
      MigratingTrace(t, Some(revived), e, map[0 := Idle], [(op, true)]);
      var a, b := RevivingStates(entries, op, revived), MigratingStates(Some(revived), e, map[0 := Idle], [(op, true)]);
      RunOn(t, init, a, RevivingSteps(op), b, MigratingSteps(e));
      states, steps := a + b[1..], RevivingSteps(op) + MigratingSteps(e);
      ReplayOne(entries, [], (op, true));
      ReplayOne(entries, [(op, true)], done);
    }
  }

  ghost predicate NeverLoses(t: Timing, init: Option<seq<Entry>>) {
    forall states: seq<Sys>, steps, k :: Run(t, init, states, steps) && 0 <= k <= |steps| ==>
      EntriesOf(states[k].file) == Replay(EntriesOf(init), states[k].log)
  }

  ghost predicate NeverLosesEntry(t: Timing, init: Option<seq<Entry>>) {
    forall states: seq<Sys>, steps, k :: Run(t, init, states, steps) && 0 <= k <= |steps| ==> !LosesEntry(init, states[k])
  }

  /**
   From a given start no run loses an update exactly when the timing bound holds and the store file exists
   and is steady. Otherwise a run stores even fewer entries than its finished operations call for.
   */
  lemma NoLostUpdateExact(t: Timing, init: Option<seq<Entry>>)
    ensures NeverLoses(t, init) <==> Safe(t) && SteadyFile(init)
    ensures NeverLosesEntry(t, init) <==> Safe(t) && SteadyFile(init)
  {
    if Safe(t) && SteadyFile(init) {
      forall states: seq<Sys>, steps, k | Run(t, init, states, steps) && 0 <= k <= |steps|
        ensures EntriesOf(states[k].file) == Replay(EntriesOf(init), states[k].log)
      {
        NoLostUpdate(t, init.value, states, steps, k);
      }
    } else if SteadyFile(init) {
      var states, steps := OverwritingRun(t, init.value, NEW_ENTRY);
      assert LosesEntry(init, states[|steps|]);
    } else {
      var states, steps := UnlockedMigrationLoses(t, init, NEW_ENTRY);
      assert LosesEntry(init, states[|steps|]);
    }
  }
}

/**
 Whole runs of the session ledger: any interleaving of logins, rotations, revocations and
 purges, each one an atomic table transaction, starting from an empty table.

 What a caller supplies is part of `Enabled`: token ids and new families are random, so they are
 fresh, and a successor continues the family and the user of the token it replaces. Rotations
 run with `allowAbsent` false, except in `AbsentBranchRevives`.
 */
module LedgerRuns {
  import opened Common
  import opened SessionLedger

  datatype Step =
    | Login(rec: Record)
    | Rotate(presented: string, next: Record, now: int)
    | RevokeFamily(family: string, reason: string, now: int)
    | RevokeUser(user: string, reason: string, now: int)
    | Purge(cutoff: int, limit: int, kept: seq<Row>)

  /** The table, and every hash and family that was ever recorded in it. */
  datatype State = State(rows: seq<Row>, issued: set<string>, families: set<string>)

  const EMPTY := State([], {}, {})

  function OutcomeOf(s: State, step: Step): Outcome
    requires step.Rotate?
  {
    RotateSql(s.rows, step.presented, step.next, step.now, false).1
  }

  function Apply(s: State, step: Step): State {
    match step
    case Login(rec) =>
      if HasHash(s.rows, rec.hash) then s
      else State(s.rows + [NewRow(rec)], s.issued + {rec.hash}, s.families + {rec.family})
    case Rotate(presented, next, now) =>
      var (rows, outcome) := RotateSql(s.rows, presented, next, now, false);
      State(rows, if outcome == Ok then s.issued + {next.hash} else s.issued, s.families)
    case RevokeFamily(family, reason, now) => s.(rows := RevokeFamilyRows(s.rows, family, reason, now))
    case RevokeUser(user, reason, now) => s.(rows := RevokeUserRows(s.rows, user, reason, now))
    case Purge(_, _, kept) => s.(rows := kept)
  }

  ghost predicate Enabled(s: State, step: Step) {
    match step
    case Login(rec) => rec.hash !in s.issued && rec.family !in s.families
    case Rotate(presented, next, _) =>
      && next.hash !in s.issued
      && forall r :: r in s.rows && r.hash == presented ==> next.family == r.family && next.user == r.user
    case Purge(cutoff, limit, kept) => Purged(s.rows, kept, cutoff, PurgeQuota(s.rows, cutoff, limit))
    case _ => true
  }

  /** `states` are the tables a run passes through: one more than the steps it takes. */
  ghost predicate Run(states: seq<State>, steps: seq<Step>) {
    && |states| == |steps| + 1 && states[0] == EMPTY
    && forall k {:trigger steps[k]} :: 0 <= k < |steps| ==>
         Enabled(states[k], steps[k]) && states[k + 1] == Apply(states[k], steps[k])
  }

  // ---- The invariant -------------------------------------------------------------------

  ghost predicate Pairs(rows: seq<Row>) {
    forall i :: 0 <= i < |rows| ==>
      (rows[i].used.Some? <==> rows[i].replacedBy.Some?) && (rows[i].revokedAt.Some? <==> rows[i].reason.Some?)
  }

  ghost predicate OneUnusedPerFamily(rows: seq<Row>) {
    forall i, j :: 0 <= i < j < |rows| && rows[i].family == rows[j].family ==>
      (rows[i].used.Some? || rows[j].used.Some?) && rows[i].user == rows[j].user
  }

  ghost predicate LinksForward(rows: seq<Row>) {
    forall i, j :: 0 <= i < |rows| && 0 <= j < |rows| && rows[i].replacedBy == Some(rows[j].hash) ==>
      i < j && rows[i].family == rows[j].family
  }

  ghost predicate LinksInjective(rows: seq<Row>) {
    forall i, j :: 0 <= i < j < |rows| && rows[i].replacedBy.Some? ==> rows[i].replacedBy != rows[j].replacedBy
  }

  ghost predicate Recorded(s: State) {
    forall i :: 0 <= i < |s.rows| ==>
      && s.rows[i].hash in s.issued && s.rows[i].family in s.families
      && (s.rows[i].replacedBy.Some? ==> s.rows[i].replacedBy.value in s.issued)
  }

  ghost predicate Inv(s: State) {
    Unique(s.rows) && Pairs(s.rows) && OneUnusedPerFamily(s.rows) && LinksForward(s.rows)
    && LinksInjective(s.rows) && Recorded(s)
  }

  /** What a winning rotation does: the live row is used and points at the appended successor. */
  lemma RotateOkExactly(rows: seq<Row>, presented: string, next: Record, now: int)
    requires Unique(rows)
    ensures var (after, outcome) := RotateSql(rows, presented, next, now, false);
            && (outcome == Ok <==> Wins(rows, presented) && !HasHash(rows, next.hash))
            && (outcome == Absent <==> !HasHash(rows, presented))
            && (outcome == Revoked <==> exists i :: 0 <= i < |rows| && rows[i].hash == presented && rows[i].revokedAt.Some?)
            && (outcome != Ok ==> after == rows)
            && (outcome == Ok ==>
                  && |after| == |rows| + 1 && after[|rows|] == NewRow(next)
                  && forall i :: 0 <= i < |rows| ==>
                       after[i] == if rows[i].hash == presented then Consumed(rows[i], now, next.hash) else rows[i])
  {
    var f := Find(rows, presented);
    if f.Some? {
      assert rows[f.value].hash == presented;
      assert forall i :: 0 <= i < |rows| && rows[i].hash == presented ==> i == f.value;
    }
  }

  lemma AppendKeeps(s: State, row: Row, families: set<string>)
    requires Inv(s)
    requires row.used.None? && row.replacedBy.None? && (row.revokedAt.Some? <==> row.reason.Some?)
    requires row.family in families && s.families <= families
    requires forall i :: 0 <= i < |s.rows| ==> s.rows[i].hash != row.hash
    requires forall i :: 0 <= i < |s.rows| && s.rows[i].family == row.family ==>
               s.rows[i].used.Some? && s.rows[i].user == row.user
    requires forall i :: 0 <= i < |s.rows| && s.rows[i].replacedBy == Some(row.hash) ==> s.rows[i].family == row.family
    ensures Inv(State(s.rows + [row], s.issued + {row.hash}, families))
  {
  }

  lemma ConsumeKeeps(s: State, i: nat, now: int, successor: string)
    requires Inv(s) && i < |s.rows| && Live(s.rows[i]) && successor !in s.issued
    ensures Inv(State(s.rows[i := Consumed(s.rows[i], now, successor)], s.issued + {successor}, s.families))
  {
  }

  /** The same from the position of the live row. */
  lemma RotateWinsAt(rows: seq<Row>, i: nat, next: Record, now: int)
    requires Unique(rows) && i < |rows| && Live(rows[i]) && !HasHash(rows, next.hash)
    ensures RotateSql(rows, rows[i].hash, next, now, false)
            == (rows[i := Consumed(rows[i], now, next.hash)] + [NewRow(next)], Ok)
  {
    assert Wins(rows, rows[i].hash);
    assert Consume(rows, rows[i].hash, now, next.hash) == rows[i := Consumed(rows[i], now, next.hash)];
  }

  lemma RotateKeeps(s: State, presented: string, next: Record, now: int)
    requires Inv(s) && Enabled(s, Rotate(presented, next, now))
    ensures Inv(Apply(s, Rotate(presented, next, now)))
  {
    if Wins(s.rows, presented) {
      var i :| 0 <= i < |s.rows| && s.rows[i].hash == presented && Live(s.rows[i]);
      assert s.rows[i] in s.rows;
      RotateWinsAt(s.rows, i, next, now);
      var mid := State(s.rows[i := Consumed(s.rows[i], now, next.hash)], s.issued + {next.hash}, s.families);
      ConsumeKeeps(s, i, now, next.hash);
      SuccessorFits(s, i, next, now);
      AppendKeeps(mid, NewRow(next), s.families);
      assert Apply(s, Rotate(presented, next, now)) == State(mid.rows + [NewRow(next)], mid.issued + {next.hash}, s.families);
    }
  }

  lemma SuccessorFits(s: State, i: nat, next: Record, now: int)
    requires Recorded(s) && OneUnusedPerFamily(s.rows) && i < |s.rows| && Live(s.rows[i])
    requires next.hash !in s.issued && next.family == s.rows[i].family && next.user == s.rows[i].user
    ensures var rows := s.rows[i := Consumed(s.rows[i], now, next.hash)];
            && (forall k :: 0 <= k < |rows| ==> rows[k].hash != next.hash)
            && (forall k :: 0 <= k < |rows| && rows[k].family == next.family ==> rows[k].used.Some? && rows[k].user == next.user)
            && (forall k :: 0 <= k < |rows| && rows[k].replacedBy == Some(next.hash) ==> rows[k].family == next.family)
  {
  }

  /** Revocation only fills the empty revocation pair of some rows. */
  ghost predicate OnlyStamps(rows: seq<Row>, after: seq<Row>) {
    && |after| == |rows|
    && forall i :: 0 <= i < |rows| ==>
         after[i] == rows[i] || (rows[i].revokedAt.None? && exists reason, now :: after[i] == Stamp(rows[i], reason, now))
  }

  lemma RevokeKeeps(s: State, after: seq<Row>)
    requires Inv(s) && OnlyStamps(s.rows, after)
    ensures Inv(s.(rows := after))
  {
    assert forall i :: 0 <= i < |after| ==>
        after[i].(revokedAt := None, reason := None) == s.rows[i].(revokedAt := None, reason := None);
    assert forall i :: 0 <= i < |after| ==>
        after[i].hash == s.rows[i].hash && after[i].family == s.rows[i].family && after[i].user == s.rows[i].user
        && after[i].used == s.rows[i].used && after[i].replacedBy == s.rows[i].replacedBy;
  }

  lemma PurgeKeeps(s: State, cutoff: int, limit: int, kept: seq<Row>)
    requires Inv(s) && Enabled(s, Purge(cutoff, limit, kept))
    ensures Inv(s.(rows := kept))
  {
    var at := PurgedEmbeds(s.rows, kept, cutoff, PurgeQuota(s.rows, cutoff, limit));
    assert forall i, j :: 0 <= i < |kept| && 0 <= j < |kept| && at[i] < at[j] ==> i < j;
  }

  lemma StepKeepsInv(s: State, step: Step)
    requires Inv(s) && Enabled(s, step)
    ensures Inv(Apply(s, step))
  {
    match step
    case Login(rec) =>
      AppendKeeps(s, NewRow(rec), s.families + {rec.family});
    case Rotate(presented, next, now) =>
      RotateKeeps(s, presented, next, now);
    case RevokeFamily(family, reason, now) =>
      RevokeKeeps(s, RevokeFamilyRows(s.rows, family, reason, now));
    case RevokeUser(user, reason, now) =>
      RevokeKeeps(s, RevokeUserRows(s.rows, user, reason, now));
    case Purge(cutoff, limit, kept) =>
      PurgeKeeps(s, cutoff, limit, kept);
  }

  /** In every state of every run: unique hashes, paired columns, one unused row per family, forward injective links. */
  lemma {:induction false} RunKeepsInv(states: seq<State>, steps: seq<Step>, k: nat)
    requires Run(states, steps) && k <= |steps|
    ensures Inv(states[k])
  {
    if k > 0 {
      RunKeepsInv(states, steps, k - 1);
      StepKeepsInv(states[k - 1], steps[k - 1]);
    }
  }

  ghost predicate IsChain(rows: seq<Row>, chain: seq<nat>) {
    && (forall a :: 0 <= a < |chain| ==> chain[a] < |rows|)
    && forall a :: 0 <= a < |chain| - 1 ==> rows[chain[a]].replacedBy == Some(rows[chain[a + 1]].hash)
  }

  /** Following REPLACED_BY links never comes back to a token already met. */
  lemma {:induction false} LinksAcyclic(states: seq<State>, steps: seq<Step>, k: nat, chain: seq<nat>)
    requires Run(states, steps) && k <= |steps| && |chain| >= 2
    requires IsChain(states[k].rows, chain)
    ensures var rows := states[k].rows;
            chain[0] < chain[|chain| - 1] && rows[chain[0]].hash != rows[chain[|chain| - 1]].hash
  {
    RunKeepsInv(states, steps, k);
    var rows := states[k].rows;
    assert rows[chain[0]].replacedBy == Some(rows[chain[0 + 1]].hash);
    if |chain| > 2 {
      var rest := chain[1..];
      forall a | 0 <= a < |rest| - 1
        ensures rows[rest[a]].replacedBy == Some(rows[rest[a + 1]].hash)
      {
        assert rest[a] == chain[a + 1] && rest[a + 1] == chain[(a + 1) + 1];
      }
      LinksAcyclic(states, steps, k, chain[1..]);
    }
  }

  // ---- History is final ------------------------------------------------------------------

  /** Row `b` is row `a` later on: what was recorded about use and revocation never changes. */
  predicate Keeps(a: Row, b: Row) {
    && b.hash == a.hash && b.family == a.family && b.user == a.user && b.expiresAt == a.expiresAt
    && (a.used.Some? ==> b.used == a.used && b.replacedBy == a.replacedBy)
    && (a.revokedAt.Some? ==> b.revokedAt == a.revokedAt && b.reason == a.reason)
  }

  ghost predicate Descends(s: State, r: Row) {
    exists i :: 0 <= i < |s.rows| && Keeps(s.rows[i], r)
  }

  lemma StepDescends(s: State, step: Step, r: Row)
    requires Inv(s) && Enabled(s, step)
    requires r in Apply(s, step).rows && r.hash in s.issued
    ensures Descends(s, r)
  {
    var rows := Apply(s, step).rows;
    var k :| 0 <= k < |rows| && rows[k] == r;
    if step.Purge? {
      var at := PurgedEmbeds(s.rows, step.kept, step.cutoff, PurgeQuota(s.rows, step.cutoff, step.limit));
      assert Keeps(s.rows[at[k]], r);
    } else if step.Rotate? {
      RotateOkExactly(s.rows, step.presented, step.next, step.now);
      assert k < |s.rows|;
      if s.rows[k].hash == step.presented && rows[k] != s.rows[k] {
        var w :| 0 <= w < |s.rows| && s.rows[w].hash == step.presented && Live(s.rows[w]);
        assert w == k;
      }
      assert Keeps(s.rows[k], r);
    } else {
      assert k < |s.rows|;
      assert Keeps(s.rows[k], r);
    }
  }

  lemma RunStepDescends(states: seq<State>, steps: seq<Step>, k: nat, r: Row)
    requires Run(states, steps) && k < |steps|
    requires r in states[k + 1].rows && r.hash in states[k].issued
    ensures Descends(states[k], r)
  {
    RunKeepsInv(states, steps, k);
    StepDescends(states[k], steps[k], r);
  }

  lemma {:induction false} RowDescends(states: seq<State>, steps: seq<Step>, i: nat, j: nat, r: Row)
    requires Run(states, steps) && i <= j <= |steps|
    requires r in states[j].rows && r.hash in states[i].issued
    ensures Descends(states[i], r)
  {
    if i == j {
      var k :| 0 <= k < |states[j].rows| && states[j].rows[k] == r;
      assert Keeps(states[i].rows[k], r);
    } else {
      IssuedGrows(states, steps, i, j - 1);
      RunStepDescends(states, steps, j - 1, r);
      var s := states[j - 1];
      var m :| 0 <= m < |s.rows| && Keeps(s.rows[m], r);
      RowDescends(states, steps, i, j - 1, s.rows[m]);
      DescendsThrough(states[i], s.rows[m], r);
    }
  }

  lemma DescendsThrough(s: State, mid: Row, r: Row)
    requires Descends(s, mid) && Keeps(mid, r)
    ensures Descends(s, r)
  {
    var a :| 0 <= a < |s.rows| && Keeps(s.rows[a], mid);
    assert Keeps(s.rows[a], r);
  }

  lemma {:induction false} IssuedGrows(states: seq<State>, steps: seq<Step>, i: nat, j: nat)
    requires Run(states, steps) && i <= j <= |steps|
    ensures states[i].issued <= states[j].issued && states[i].families <= states[j].families
  {
    if i < j {
      var last := steps[j - 1];
      IssuedGrows(states, steps, i, j - 1);
    }
  }

  /** No row becomes unused or unrevoked, and the first use and revocation stamps stay as they were. */
  lemma HistoryIsFinal(states: seq<State>, steps: seq<Step>, i: nat, j: nat, earlier: Row, later: Row)
    requires Run(states, steps) && i <= j <= |steps|
    requires earlier in states[i].rows && later in states[j].rows && earlier.hash == later.hash
    ensures Keeps(earlier, later)
  {
    RunKeepsInv(states, steps, i);
    RowDescends(states, steps, i, j, later);
    var a :| 0 <= a < |states[i].rows| && states[i].rows[a] == earlier;
    var b :| 0 <= b < |states[i].rows| && Keeps(states[i].rows[b], later);
    assert a == b;
  }

  lemma OkMarksUsed(s: State, step: Step)
    requires Inv(s) && step.Rotate? && OutcomeOf(s, step) == Ok
    ensures exists r :: r in Apply(s, step).rows && r.hash == step.presented && r.used.Some?
  {
    RotateOkExactly(s.rows, step.presented, step.next, step.now);
    var w :| 0 <= w < |s.rows| && s.rows[w].hash == step.presented && Live(s.rows[w]);
    assert Apply(s, step).rows[w] in Apply(s, step).rows;
  }

  lemma OkNeedsLive(s: State, step: Step)
    requires Inv(s) && step.Rotate? && OutcomeOf(s, step) == Ok
    ensures exists r :: r in s.rows && r.hash == step.presented && Live(r)
  {
    var w :| 0 <= w < |s.rows| && s.rows[w].hash == step.presented && Live(s.rows[w]);
    assert s.rows[w] in s.rows;
  }

  /** A winning rotation finds its row live and leaves it used. */
  lemma RunOk(states: seq<State>, steps: seq<Step>, k: nat) returns (live: Row, spent: Row)
    requires Run(states, steps) && k < |steps| && steps[k].Rotate? && OutcomeOf(states[k], steps[k]) == Ok
    ensures live in states[k].rows && live.hash == steps[k].presented && Live(live)
    ensures spent in states[k + 1].rows && spent.hash == steps[k].presented && spent.used.Some?
  {
    RunKeepsInv(states, steps, k);
    OkMarksUsed(states[k], steps[k]);
    OkNeedsLive(states[k], steps[k]);
    live :| live in states[k].rows && live.hash == steps[k].presented && Live(live);
    spent :| spent in states[k + 1].rows && spent.hash == steps[k].presented && spent.used.Some?;
  }

  /** A hash seen used can no longer win. */
  lemma SpentStays(states: seq<State>, steps: seq<Step>, i: nat, j: nat, spent: Row, live: Row)
    requires Run(states, steps) && i <= j <= |steps|
    requires spent in states[i].rows && live in states[j].rows && spent.hash == live.hash && spent.used.Some?
    ensures !Live(live)
  {
    HistoryIsFinal(states, steps, i, j, spent, live);
  }

  /** One token hash gets at most one "ok" rotation in the whole run. */
  lemma SingleUse(states: seq<State>, steps: seq<Step>, i: nat, j: nat)
    requires Run(states, steps) && i < j < |steps| && steps[i].Rotate? && steps[j].Rotate?
    requires steps[i].presented == steps[j].presented
    requires OutcomeOf(states[i], steps[i]) == Ok
    ensures OutcomeOf(states[j], steps[j]) != Ok
  {
    if OutcomeOf(states[j], steps[j]) == Ok {
      var _, spent := RunOk(states, steps, i);
      var live, _ := RunOk(states, steps, j);
      SpentStays(states, steps, i + 1, j, spent, live);
    }
  }

  /** What presenting a hash answers when all its rows, of which there is at most one, are used. */
  lemma SpentOutcomes(rows: seq<Row>, presented: string, next: Record, now: int)
    requires Unique(rows) && forall r :: r in rows && r.hash == presented ==> r.used.Some?
    ensures var outcome := RotateSql(rows, presented, next, now, false).1;
            && (outcome == Reused <==> exists r :: r in rows && r.hash == presented && r.revokedAt.None?)
            && (outcome == Revoked <==> exists r :: r in rows && r.hash == presented && r.revokedAt.Some?)
            && (outcome == Absent <==> forall r :: r in rows ==> r.hash != presented)
  {
    RotateOutcomes(rows, presented, next, now, false, RotateSql(rows, presented, next, now, false));
    assert forall i :: 0 <= i < |rows| ==> rows[i] in rows;
  }

  /** A hash that has won is used in every later table. */
  lemma WonIsUsed(states: seq<State>, steps: seq<Step>, i: nat, j: nat, r: Row)
    requires Run(states, steps) && i < j <= |steps| && steps[i].Rotate? && OutcomeOf(states[i], steps[i]) == Ok
    requires r in states[j].rows && r.hash == steps[i].presented
    ensures r.used.Some?
  {
    var _, spent := RunOk(states, steps, i);
    HistoryIsFinal(states, steps, i + 1, j, spent, r);
  }

  /**
   After a winning rotation of a hash, presenting it again is answered by reuse as long as its row is there
   and not revoked, and by that alone: revocation and purge each have their own answer.
   */
  lemma ReuseDetected(states: seq<State>, steps: seq<Step>, i: nat, j: nat)
    requires Run(states, steps) && i < j < |steps| && steps[i].Rotate? && steps[j].Rotate?
    requires steps[i].presented == steps[j].presented && OutcomeOf(states[i], steps[i]) == Ok
    ensures OutcomeOf(states[j], steps[j]) == Reused <==>
            exists r :: r in states[j].rows && r.hash == steps[j].presented && r.revokedAt.None?
    ensures OutcomeOf(states[j], steps[j]) == Revoked <==>
            exists r :: r in states[j].rows && r.hash == steps[j].presented && r.revokedAt.Some?
    ensures OutcomeOf(states[j], steps[j]) == Absent <==>
            forall r :: r in states[j].rows ==> r.hash != steps[j].presented
  {
    RunKeepsInv(states, steps, j);
    forall r | r in states[j].rows && r.hash == steps[j].presented
      ensures r.used.Some?
    {
      WonIsUsed(states, steps, i, j, r);
    }
    SpentOutcomes(states[j].rows, steps[j].presented, steps[j].next, steps[j].now);
  }

  // ---- Revocation is final ----------------------------------------------------------------

  ghost predicate Ended(s: State, family: string) {
    && family in s.families
    && forall i :: 0 <= i < |s.rows| && s.rows[i].family == family ==> s.rows[i].revokedAt.Some?
  }

  lemma StepKeepsEnded(s: State, step: Step, family: string)
    requires Inv(s) && Enabled(s, step) && Ended(s, family)
    ensures Ended(Apply(s, step), family)
    ensures step.Rotate? && step.next.family == family ==> OutcomeOf(s, step) != Ok
  {
    match step
    case Rotate(presented, next, now) =>
      RotateOkExactly(s.rows, presented, next, now);
      if OutcomeOf(s, step) == Ok {
        var w :| 0 <= w < |s.rows| && s.rows[w].hash == presented && Live(s.rows[w]);
        assert s.rows[w] in s.rows;
        assert next.family == s.rows[w].family != family;
      }
    case Purge(cutoff, limit, kept) =>
      var at := PurgedEmbeds(s.rows, kept, cutoff, PurgeQuota(s.rows, cutoff, limit));
    case _ =>
  }

  lemma RunStepEnded(states: seq<State>, steps: seq<Step>, k: nat, family: string)
    requires Run(states, steps) && k < |steps| && Ended(states[k], family)
    ensures Ended(states[k + 1], family)
    ensures steps[k].Rotate? && steps[k].next.family == family ==> OutcomeOf(states[k], steps[k]) != Ok
  {
    RunKeepsInv(states, steps, k);
    StepKeepsEnded(states[k], steps[k], family);
  }

  lemma {:induction false} EndedForever(states: seq<State>, steps: seq<Step>, i: nat, j: nat, family: string)
    requires Run(states, steps) && i <= j <= |steps| && Ended(states[i], family)
    ensures Ended(states[j], family)
  {
    if i < j {
      EndedForever(states, steps, i, j - 1, family);
      RunStepEnded(states, steps, j - 1, family);
    }
  }

  /** Does the step end the sessions of `family`: by name, or through a row of the revoked user? */
  ghost predicate Ends(s: State, step: Step, family: string) {
    match step
    case RevokeFamily(f, _, _) => f == family && family in s.families
    case RevokeUser(u, _, _) => exists r :: r in s.rows && r.user == u && r.family == family
    case _ => false
  }

  lemma EndsEnds(s: State, step: Step, family: string)
    requires Inv(s) && Ends(s, step, family)
    ensures Ended(Apply(s, step), family)
  {
  }

  /** Once a revocation covers a family, every row of it stays revoked and no later rotation in it answers "ok". */
  lemma RevocationFinal(states: seq<State>, steps: seq<Step>, i: nat, j: nat, family: string)
    requires Run(states, steps) && i < j <= |steps| && Ends(states[i], steps[i], family)
    ensures Ended(states[j], family)
    ensures j < |steps| && steps[j].Rotate? && steps[j].next.family == family ==> OutcomeOf(states[j], steps[j]) != Ok
  {
    RunKeepsInv(states, steps, i);
    EndsEnds(states[i], steps[i], family);
    EndedForever(states, steps, i + 1, j, family);
    if j < |steps| {
      RunStepEnded(states, steps, j, family);
    }
  }

  /**
   With `allowAbsent`, a rotation in an ended family is refused exactly when the presented hash
   still has a row; a vouched token without a row is accepted, whatever was revoked.
   */
  lemma AbsentBranchRevives(s: State, presented: string, next: Record, now: int, allowAbsent: bool)
    requires Inv(s) && Ended(s, next.family) && Enabled(s, Rotate(presented, next, now))
    ensures RotateSql(s.rows, presented, next, now, allowAbsent).1 == Ok <==> allowAbsent && !HasHash(s.rows, presented)
  {
    assert forall i :: 0 <= i < |s.rows| && s.rows[i].hash == presented ==> s.rows[i] in s.rows;
  }
}

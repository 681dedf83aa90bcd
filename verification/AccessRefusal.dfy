/**
 What the runs of `AccessRuns` promise: when a live access token is refused, for which configurations, and
 what a boot takes away until a reload has succeeded.
 */
module AccessRefusal {
  import opened Common
  import opened SessionLedger
  import opened AccessRevocation
  import opened AccessRuns
  import LedgerRuns

  /** Does the step revoke `family` in the ledger? */
  ghost predicate EndsFamily(c: Config, w: World, step: Step, family: string) {
    LedgerStep(c, w, step).Some? && LedgerRuns.Ends(w.ledger, LedgerStep(c, w, step).value, family)
  }

  /** Does the step end `family` on this process? */
  predicate EndsHere(w: World, step: Step, family: string) {
    step == EndHere(family) || (step.EndUserHere? && family in KnownOf(w.p, step.user))
  }

  /** The process lives on from the step at `k` to the state at `j`. */
  ghost predicate NoBoot(steps: seq<Step>, k: int, j: int)
    requires 0 <= k && j <= |steps|
  {
    forall m :: k < m < j ==> steps[m] != Boot
  }

  /**
   The process has been told of the family since its boot: by ending it itself, by the ledger's answer to a
   revocation of its user, or by a reload that read the ledger after the family was ended there.
   */
  ghost predicate ToldSinceBoot(worlds: seq<World>, steps: seq<Step>, j: int, family: string)
    requires |worlds| == |steps| + 1 && j <= |steps|
  {
    exists k :: 0 <= k < j && family in InformedBy(worlds[k], steps[k]) && NoBoot(steps, k, j)
  }

  lemma ToldStep(worlds: seq<World>, steps: seq<Step>, j: nat, family: string)
    requires |worlds| == |steps| + 1 && 0 < j <= |steps|
    ensures ToldSinceBoot(worlds, steps, j, family) <==>
            family in InformedBy(worlds[j - 1], steps[j - 1])
            || (steps[j - 1] != Boot && ToldSinceBoot(worlds, steps, j - 1, family))
  {
    var last := steps[j - 1];
    if last == Boot {
      assert forall k :: 0 <= k < j - 1 ==> !NoBoot(steps, k, j);
    } else if family in InformedBy(worlds[j - 1], last) {
      assert NoBoot(steps, j - 1, j);
    } else {
      assert forall k :: 0 <= k < j - 1 ==> (NoBoot(steps, k, j) <==> NoBoot(steps, k, j - 1));
    }
  }

  /** What the process has been told grows step by step until a boot. */
  ghost predicate TellsAlong(worlds: seq<World>, steps: seq<Step>) {
    && |worlds| == |steps| + 1 && worlds[0].p.informed == {}
    && forall k {:trigger steps[k]} :: 0 <= k < |steps| ==>
         worlds[k + 1].p.informed == (if steps[k] == Boot then {} else worlds[k].p.informed) + InformedBy(worlds[k], steps[k])
  }

  lemma InformedStep(c: Config, w: World, step: Step)
    ensures Apply(c, w, step).p.informed == (if step == Boot then {} else w.p.informed) + InformedBy(w, step)
  {
  }

  lemma RunTells(c: Config, worlds: seq<World>, steps: seq<Step>)
    requires Run(c, worlds, steps)
    ensures TellsAlong(worlds, steps)
  {
    forall k | 0 <= k < |steps|
      ensures worlds[k + 1].p.informed
              == (if steps[k] == Boot then {} else worlds[k].p.informed) + InformedBy(worlds[k], steps[k])
    {
      InformedStep(c, worlds[k], steps[k]);
    }
  }

  lemma {:induction false} ToldExact(worlds: seq<World>, steps: seq<Step>, j: nat, family: string)
    requires TellsAlong(worlds, steps) && j <= |steps|
    ensures family in worlds[j].p.informed <==> ToldSinceBoot(worlds, steps, j, family)
  {
    if j > 0 {
      ToldExact(worlds, steps, j - 1, family);
      ToldStep(worlds, steps, j, family);
    }
  }

  lemma InformedExact(c: Config, worlds: seq<World>, steps: seq<Step>, j: nat, family: string)
    requires Run(c, worlds, steps) && j <= |steps|
    ensures family in worlds[j].p.informed <==> ToldSinceBoot(worlds, steps, j, family)
  {
    RunTells(c, worlds, steps);
    ToldExact(worlds, steps, j, family);
  }

  ghost predicate EndsAlong(c: Config, worlds: seq<World>, steps: seq<Step>, family: string) {
    && |worlds| == |steps| + 1 && family !in worlds[0].over
    && forall k {:trigger steps[k]} :: 0 <= k < |steps| ==>
         (family in worlds[k + 1].over <==> family in worlds[k].over || EndsFamily(c, worlds[k], steps[k], family))
  }

  lemma OverStep(c: Config, w: World, step: Step, family: string)
    ensures family in Apply(c, w, step).over <==> family in w.over || EndsFamily(c, w, step, family)
  {
  }

  lemma RunEnds(c: Config, worlds: seq<World>, steps: seq<Step>, family: string)
    requires Run(c, worlds, steps)
    ensures EndsAlong(c, worlds, steps, family)
  {
    forall k | 0 <= k < |steps|
      ensures family in worlds[k + 1].over <==> family in worlds[k].over || EndsFamily(c, worlds[k], steps[k], family)
    {
      OverStep(c, worlds[k], steps[k], family);
    }
  }

  lemma {:induction false} EndedBefore(c: Config, worlds: seq<World>, steps: seq<Step>, j: nat, family: string)
    requires EndsAlong(c, worlds, steps, family) && j <= |steps|
    ensures family in worlds[j].over <==> exists i :: 0 <= i < j && EndsFamily(c, worlds[i], steps[i], family)
  {
    if j > 0 {
      var last := steps[j - 1];
      EndedBefore(c, worlds, steps, j - 1, family);
    }
  }

  /** A family is over in a state exactly when an earlier step ended it in the ledger. */
  lemma OverExact(c: Config, worlds: seq<World>, steps: seq<Step>, j: nat, family: string)
    requires Run(c, worlds, steps) && j <= |steps|
    ensures family in worlds[j].over <==> exists i :: 0 <= i < j && EndsFamily(c, worlds[i], steps[i], family)
  {
    RunEnds(c, worlds, steps, family);
    EndedBefore(c, worlds, steps, j, family);
  }

  // ---- What a process knows, and how a user's revocation goes on --------------------------------------

  /** A sign-in, or a refresh presented here, of the family and the user. */
  predicate Shows(step: Step, family: string, user: string) {
    || (step.SignIn? && step.rec.family == family && step.rec.user == user)
    || (step.Present? && step.refresh.next.family == family && step.refresh.next.user == user)
  }

  /** Known families come from what was shown, until a boot. */
  ghost predicate ShownAlong(worlds: seq<World>, steps: seq<Step>, family: string, user: string) {
    && |worlds| == |steps| + 1 && family !in KnownOf(worlds[0].p, user)
    && forall k {:trigger steps[k]} :: 0 <= k < |steps| && family in KnownOf(worlds[k + 1].p, user) ==>
         Shows(steps[k], family, user) || (steps[k] != Boot && family in KnownOf(worlds[k].p, user))
  }

  lemma KnownStep(c: Config, w: World, step: Step, family: string, user: string)
    requires family in KnownOf(Apply(c, w, step).p, user)
    ensures Shows(step, family, user) || (step != Boot && family in KnownOf(w.p, user))
  {
  }

  lemma {:induction false} ShownBefore(worlds: seq<World>, steps: seq<Step>, j: nat, family: string, user: string)
    requires ShownAlong(worlds, steps, family, user) && j <= |steps| && family in KnownOf(worlds[j].p, user)
    ensures exists k :: 0 <= k < j && Shows(steps[k], family, user) && NoBoot(steps, k, j)
  {
    if j > 0 {
      var last := steps[j - 1];
      if Shows(last, family, user) {
        assert NoBoot(steps, j - 1, j);
      } else {
        ShownBefore(worlds, steps, j - 1, family, user);
        var k :| 0 <= k < j - 1 && Shows(steps[k], family, user) && NoBoot(steps, k, j - 1);
        assert NoBoot(steps, k, j);
      }
    }
  }

  /** The families of a user that ending the user here covers were each signed in or presented here since the boot. */
  lemma KnownWasShown(c: Config, worlds: seq<World>, steps: seq<Step>, j: nat, family: string, user: string)
    requires Run(c, worlds, steps) && j <= |steps| && family in KnownOf(worlds[j].p, user)
    ensures exists k :: 0 <= k < j && Shows(steps[k], family, user) && NoBoot(steps, k, j)
  {
    forall k | 0 <= k < |steps| && family in KnownOf(worlds[k + 1].p, user)
      ensures Shows(steps[k], family, user) || (steps[k] != Boot && family in KnownOf(worlds[k].p, user))
    {
      KnownStep(c, worlds[k], steps[k], family, user);
    }
    ShownBefore(worlds, steps, j, family, user);
  }

  /** And the other way: what was shown here last with that user is known as the user's. */
  lemma ShownIsKnown(c: Config, w: World, step: Step, family: string, user: string)
    requires Shows(step, family, user)
    ensures family in KnownOf(Apply(c, w, step).p, user)
  {
  }

  /** A user's revocation proceeds: begun here it may reach the ledger in time, and then be answered with the families named there. */
  lemma UserRevocationProceeds(c: Config, w: World, user: string, reason: string)
    ensures var begun, call := Apply(c, w, EndUserHere(user)), UserCall(user, w.now);
            && Enabled(c, begun, EndUserInLedger(call, reason))
            && var named := NamedFamilies(begun.ledger.rows, user);
            && var done := Apply(c, begun, EndUserInLedger(call, reason));
            && Enabled(c, done, EndUserAnswered(named)) && call !in done.p.calls
            && named <= Apply(c, done, EndUserAnswered(named)).p.informed
            && named !in Apply(c, done, EndUserAnswered(named)).p.answers
  {
  }

  // ---- When a token is refused ---------------------------------------------------------------

  /**
   In a configuration that covers, a live token is refused exactly when the process has been told of its
   family since its boot.
   */
  lemma RefusedExactly(c: Config, worlds: seq<World>, steps: seq<Step>, j: nat, t: Token)
    requires c.Covers() && Run(c, worlds, steps) && j <= |steps|
    requires t in worlds[j].tokens && worlds[j].now < t.expires
    ensures Refused(worlds[j].p.entries, t.family, worlds[j].now) <==> ToldSinceBoot(worlds, steps, j, t.family)
  {
    RunKeepsInv(c, worlds, steps, j);
    InformedExact(c, worlds, steps, j, t.family);
  }

  /** Only the revocation of a user, or of a process that died, is stamped with no veto here. */
  predicate VetoedFirst(step: Step) { !step.EndUserInLedger? && !step.EndElsewhere? }

  lemma EnabledWithoutDelay(c: Config, w: World, step: Step)
    requires VetoedFirst(step) && Enabled(c, w, step)
    ensures Enabled(c.(delay := 0), w, step)
  {
    assert LedgerStep(c, w, step) == LedgerStep(c.(delay := 0), w, step);
  }

  lemma HereWithoutDelay(c: Config, w: World, step: Step)
    ensures Here(c, w, step) == Here(c.(delay := 0), w, step)
  {
    if step.Reload? && w.p.reading.Some? {
      assert Read(c, w.p.reading.value) == Read(c.(delay := 0), w.p.reading.value);
    }
  }

  lemma AppliedWithoutDelay(c: Config, w: World, step: Step)
    ensures Apply(c, w, step) == Apply(c.(delay := 0), w, step)
  {
    HereWithoutDelay(c, w, step);
    assert LedgerStep(c, w, step) == LedgerStep(c.(delay := 0), w, step);
    assert TokensAfter(c, w, step) == TokensAfter(c.(delay := 0), w, step);
  }

  /** Where families are ended one by one, a retention of the lifetime itself is enough, whatever the ledger's delay. */
  lemma SkewNotNeeded(c: Config, worlds: seq<World>, steps: seq<Step>, j: nat, t: Token)
    requires c.(delay := 0).Covers() && Run(c, worlds, steps) && j <= |steps|
    requires forall k :: 0 <= k < |steps| ==> VetoedFirst(steps[k])
    requires t in worlds[j].tokens && worlds[j].now < t.expires
    ensures Refused(worlds[j].p.entries, t.family, worlds[j].now) <==> ToldSinceBoot(worlds, steps, j, t.family)
  {
    forall k | 0 <= k < |steps|
      ensures Enabled(c.(delay := 0), worlds[k], steps[k])
      ensures worlds[k + 1] == Apply(c.(delay := 0), worlds[k], steps[k])
    {
      EnabledWithoutDelay(c, worlds[k], steps[k]);
      AppliedWithoutDelay(c, worlds[k], steps[k]);
    }
    RefusedExactly(c.(delay := 0), worlds, steps, j, t);
  }

  /** The reload at `k` remembers what the query at `q` read. */
  ghost predicate Reloads(steps: seq<Step>, q: int, k: int) {
    && 0 <= q < k < |steps| && steps[q] == Query && steps[k] == Reload
    && forall m :: q < m < k ==> steps[m] !in {Boot, Query, Reload, ReloadFails}
  }

  lemma {:induction false} ReadingStays(c: Config, worlds: seq<World>, steps: seq<Step>, q: nat, k: nat)
    requires Run(c, worlds, steps) && q < k < |steps| && steps[q] == Query
    requires forall m :: q < m < k ==> steps[m] !in {Boot, Query, Reload, ReloadFails}
    ensures worlds[k].p.reading == Some(Reading(worlds[q].ledger.rows, worlds[q].now, worlds[q].over.Keys))
  {
    var last := steps[k - 1];
    if q < k - 1 {
      ReadingStays(c, worlds, steps, q, k - 1);
    }
  }

  lemma ReadingTold(w: World, step: Step, reading: Reading, family: string)
    requires step == Reload && w.p.reading == Some(reading) && family in reading.over
    ensures family in InformedBy(w, step)
  {
  }

  lemma OverFrom(c: Config, worlds: seq<World>, steps: seq<Step>, i: nat, q: nat, family: string)
    requires Run(c, worlds, steps) && i < q <= |steps| && EndsFamily(c, worlds[i], steps[i], family)
    ensures family in worlds[q].over
  {
    RunEnds(c, worlds, steps, family);
    EndedBefore(c, worlds, steps, q, family);
  }

  lemma ReloadTells(c: Config, worlds: seq<World>, steps: seq<Step>, q: nat, k: nat, family: string)
    requires Run(c, worlds, steps) && q < k < |steps|
    requires family in worlds[q].over && Reloads(steps, q, k)
    ensures family in InformedBy(worlds[k], steps[k])
  {
    ReadingStays(c, worlds, steps, q, k);
    var reading := Reading(worlds[q].ledger.rows, worlds[q].now, worlds[q].over.Keys);
    ReadingTold(worlds[k], steps[k], reading, family);
  }

  /**
   Ended in the ledger, read back and remembered after the last boot: from then on a token of the family is
   refused until it expires, whatever else happens in between.
   */
  lemma RefusedUntilExpiry(c: Config, worlds: seq<World>, steps: seq<Step>, i: nat, q: nat, k: nat, j: nat, t: Token)
    requires c.Covers() && Run(c, worlds, steps) && i < q < k < j <= |steps|
    requires EndsFamily(c, worlds[i], steps[i], t.family) && Reloads(steps, q, k) && NoBoot(steps, k, j)
    requires t in worlds[j].tokens && worlds[j].now < t.expires
    ensures Refused(worlds[j].p.entries, t.family, worlds[j].now)
  {
    OverFrom(c, worlds, steps, i, q, t.family);
    ReloadTells(c, worlds, steps, q, k, t.family);
    RefusedExactly(c, worlds, steps, j, t);
  }

  /**
   Ending a family on this process refuses its tokens until they expire as long as the process lives, those
   still to come out of refreshes under way included.
   */
  lemma EndHereRefuses(c: Config, worlds: seq<World>, steps: seq<Step>, i: nat, j: nat, t: Token)
    requires c.Covers() && Run(c, worlds, steps) && i < j <= |steps|
    requires EndsHere(worlds[i], steps[i], t.family) && NoBoot(steps, i, j)
    requires t in worlds[j].tokens && worlds[j].now < t.expires
    ensures Refused(worlds[j].p.entries, t.family, worlds[j].now)
  {
    assert t.family in InformedBy(worlds[i], steps[i]);
    RefusedExactly(c, worlds, steps, j, t);
  }

  lemma {:induction false} VetoedHere(c: Config, worlds: seq<World>, steps: seq<Step>, j: nat, family: string)
    requires Run(c, worlds, steps) && j <= |steps| && family in worlds[j].p.vetoed
    ensures exists i :: 0 <= i < j && EndsHere(worlds[i], steps[i], family)
  {
    if j > 0 {
      var last := steps[j - 1];
      if family in worlds[j - 1].p.vetoed {
        VetoedHere(c, worlds, steps, j - 1, family);
      } else {
        assert EndsHere(worlds[j - 1], last, family);
      }
    }
  }

  /** Nothing else is refused: a refused family was ended by an earlier step of the run. */
  lemma OnlyEndedRefused(c: Config, worlds: seq<World>, steps: seq<Step>, j: nat, family: string)
    requires c.Covers() && Run(c, worlds, steps) && j <= |steps|
    requires Refused(worlds[j].p.entries, family, worlds[j].now)
    ensures exists i :: 0 <= i < j && (EndsHere(worlds[i], steps[i], family) || EndsFamily(c, worlds[i], steps[i], family))
  {
    RunKeepsInv(c, worlds, steps, j);
    if family in worlds[j].p.vetoed {
      VetoedHere(c, worlds, steps, j, family);
    } else {
      OverExact(c, worlds, steps, j, family);
    }
  }

  // ---- Runs ------------------------------------------------------------------------------------

  lemma SomeFamilyId() returns (family: string)
    ensures IsFamilyId(family)
  {
    family := seq(36, i => if i in {8, 13, 18, 23} then '-' else '0');
  }

  function RecordAt(c: Config, family: string, hash: string, now: int): Record {
    Record(hash, family, "u", "", now, now + c.refreshTtl)
  }

  function TokenAt(c: Config, family: string, hash: string, now: int): Token {
    Token(family, hash, now, now + c.ttl)
  }

  function FirstRow(c: Config, family: string): Row { NewRow(RecordAt(c, family, "a", 0)) }

  /** One sign-in of user "u" at 0. */
  function SignedIn(c: Config, family: string): World {
    World(LedgerRuns.State([FirstRow(c, family)], {"a"}, {family}), map[], {TokenAt(c, family, "a", 0)}, 0,
          FRESH.(known := map[family := "u"]))
  }

  lemma FirstSignIn(c: Config, family: string)
    requires IsFamilyId(family)
    ensures var step := SignIn(RecordAt(c, family, "a", 0), TokenAt(c, family, "a", 0));
            Enabled(c, START, step) && Apply(c, START, step) == SignedIn(c, family)
  {
    var step := SignIn(RecordAt(c, family, "a", 0), TokenAt(c, family, "a", 0));
    assert [] + [FirstRow(c, family)] == [FirstRow(c, family)];
    assert map[][family := "u"] == map[family := "u"];
    assert Apply(c, START, step).over == map[];
  }

  /** Signed in at 0, ended here and in the ledger at once. */
  function SignedOut(c: Config, family: string): World {
    World(LedgerRuns.State([Stamp(FirstRow(c, family), "", 0)], {"a"}, {family}), map[family := 0],
          {TokenAt(c, family, "a", 0)}, 0,
          FRESH.(known := map[family := "u"], entries := map[family := c.retention], vetoed := map[family := 0],
                 informed := {family}))
  }

  function SignOutSteps(c: Config, family: string): seq<Step> {
    [SignIn(RecordAt(c, family, "a", 0), TokenAt(c, family, "a", 0)), EndHere(family), EndInLedger(family, "", 0)]
  }

  lemma SignOutRun(c: Config, family: string) returns (worlds: seq<World>)
    requires IsFamilyId(family)
    ensures Run(c, worlds, SignOutSteps(c, family)) && worlds[3] == SignedOut(c, family)
    ensures EndsFamily(c, worlds[2], EndInLedger(family, "", 0), family)
  {
    FirstSignIn(c, family);
    var w1 := SignedIn(c, family);
    var w2 := Apply(c, w1, EndHere(family));
    var w3 := Apply(c, w2, EndInLedger(family, "", 0));
    assert w2.p.entries == map[family := c.retention] && w2.p.vetoed == map[family := 0];
    assert w3.over == map[family := 0];
    assert w3.ledger.rows == [Stamp(FirstRow(c, family), "", 0)];
    worlds := [START, w1, w2, w3];
  }

  lemma RunStep(c: Config, worlds: seq<World>, steps: seq<Step>, step: Step) returns (longer: seq<World>)
    requires Run(c, worlds, steps) && Enabled(c, worlds[|steps|], step)
    ensures Run(c, longer, steps + [step]) && longer[..|worlds|] == worlds
    ensures longer[|steps| + 1] == Apply(c, worlds[|steps|], step)
  {
    longer := worlds + [Apply(c, worlds[|steps|], step)];
  }

  /** After a boot the token of an ended family is accepted, as nothing in memory names the family. */
  lemma BootWindowRun(c: Config, family: string) returns (worlds: seq<World>, steps: seq<Step>, t: Token)
    requires IsFamilyId(family) && c.ttl > 0
    ensures steps == SignOutSteps(c, family) + [Boot] && Run(c, worlds, steps)
    ensures EndsFamily(c, worlds[2], steps[2], family) && t.family == family && t == TokenAt(c, family, "a", 0)
    ensures worlds[4] == SignedOut(c, family).(p := FRESH)
    ensures t in worlds[4].tokens && worlds[4].now < t.expires && !Refused(worlds[4].p.entries, family, worlds[4].now)
  {
    t := TokenAt(c, family, "a", 0);
    var prefix := SignOutRun(c, family);
    worlds := RunStep(c, prefix, SignOutSteps(c, family), Boot);
    steps := SignOutSteps(c, family) + [Boot];
    assert prefix[2] == worlds[2];
  }

  /** If the reload fails, it is accepted to the end of its life. */
  lemma FailedReloadRun(c: Config, family: string, rest: nat) returns (worlds: seq<World>, steps: seq<Step>, t: Token)
    requires IsFamilyId(family) && rest < c.ttl
    ensures steps == SignOutSteps(c, family) + [Boot] + [ReloadFails] + [Tick(rest)] && Run(c, worlds, steps)
    ensures EndsFamily(c, worlds[2], steps[2], family) && t.family == family && t.expires == c.ttl
    ensures worlds[6].now == rest
    ensures t in worlds[6].tokens && worlds[6].now < t.expires && !Refused(worlds[6].p.entries, family, worlds[6].now)
  {
    var booted, before, token := BootWindowRun(c, family);
    var failed := RunStep(c, booted, before, ReloadFails);
    worlds := RunStep(c, failed, before + [ReloadFails], Tick(rest));
    steps, t := before + [ReloadFails] + [Tick(rest)], token;
    assert booted[2] == worlds[2];
  }

  // ---- The configuration is exact --------------------------------------------------------------

  ghost predicate AlwaysRefuses(c: Config) {
    forall worlds: seq<World>, steps, j, t: Token ::
      (Run(c, worlds, steps) && 0 <= j <= |steps| && t in worlds[j].tokens && worlds[j].now < t.expires
       && ToldSinceBoot(worlds, steps, j, t.family))
      ==> Refused(worlds[j].p.entries, t.family, worlds[j].now)
  }

  /** A reload gives a family no more than a retention from its only stamp, and nothing if its rows are gone. */
  lemma ReadNoLonger(c: Config, reading: Reading, family: string, at: int, now: int)
    requires forall r :: r in reading.rows ==> r.revokedAt == Some(at)
    requires at + c.retention <= now
    ensures !Refused(Read(c, reading), family, now)
  {
    var since := reading.at - c.retention;
    if family in Read(c, reading) {
      var i :| 0 <= i < |reading.rows| && RevokedSince(reading.rows[i], since) && reading.rows[i].family == family;
      LatestIsMax(reading.rows, family, since);
      assert forall k :: 0 <= k < |reading.rows| ==> reading.rows[k] in reading.rows;
    }
  }

  function Rebooted(c: Config, w: World): World { Apply(c, Apply(c, w, Boot), Query) }

  /** A boot, a query, the reload of what it read, and a wait. */
  function Reloaded(c: Config, w: World, rest: nat): World {
    Apply(c, Apply(c, Rebooted(c, w), Reload), Tick(rest))
  }

  lemma RebootedReads(c: Config, w: World)
    ensures Rebooted(c, w) == w.(p := FRESH.(reading := Some(Reading(w.ledger.rows, w.now, w.over.Keys))))
  {
  }

  lemma ReloadedKnows(c: Config, w: World, rest: nat)
    ensures var reading := Reading(w.ledger.rows, w.now, w.over.Keys);
            Reloaded(c, w, rest) == w.(now := w.now + rest, p := FRESH.(entries := Read(c, reading), informed := reading.over))
  {
    var reading := Reading(w.ledger.rows, w.now, w.over.Keys);
    RebootedReads(c, w);
    assert Merged(map[], Read(c, reading)) == Read(c, reading);
    assert {} + reading.over == reading.over;
  }

  lemma ReloadedForgets(c: Config, w: World, family: string, at: int, rest: nat)
    requires family in w.over && (forall r :: r in w.ledger.rows ==> r.revokedAt == Some(at))
    requires at + c.retention <= w.now + rest
    ensures var w' := Reloaded(c, w, rest);
            && w'.tokens == w.tokens && w'.now == w.now + rest && family in w'.p.informed
            && !Refused(w'.p.entries, family, w'.now)
  {
    ReloadedKnows(c, w, rest);
    ReadNoLonger(c, Reading(w.ledger.rows, w.now, w.over.Keys), family, at, w.now + rest);
  }

  lemma ReloadRun(c: Config, prefix: seq<World>, before: seq<Step>, rest: nat) returns (worlds: seq<World>, steps: seq<Step>)
    requires Run(c, prefix, before)
    ensures Run(c, worlds, steps) && |steps| > 0 && worlds[|steps|] == Reloaded(c, prefix[|before|], rest)
  {
    var w1 := RunStep(c, prefix, before, Boot);
    var w2 := RunStep(c, w1, before + [Boot], Query);
    var w3 := RunStep(c, w2, before + [Boot] + [Query], Reload);
    worlds := RunStep(c, w3, before + [Boot] + [Query] + [Reload], Tick(rest));
    steps := before + [Boot] + [Query] + [Reload] + [Tick(rest)];
  }

  /** A refresh of the session, while a revocation of the user is on its way to the ledger. */
  function LateRefresh(c: Config, family: string): Refreshing {
    Refreshing("a", RecordAt(c, family, "b", c.delay), TokenAt(c, family, "b", c.delay))
  }

  /** The process before the refresh is presented, after that, and after it is committed. */
  function CallUnderWay(c: Config, family: string): World {
    SignedIn(c, family).(now := c.delay, p := FRESH.(calls := {UserCall("u", 0)}))
  }

  function RefreshUnderWay(c: Config, family: string): World {
    CallUnderWay(c, family).(p := FRESH.(calls := {UserCall("u", 0)}, inFlight := {LateRefresh(c, family)},
                                         known := map[family := "u"]))
  }

  function RefreshedRows(c: Config, family: string): seq<Row> {
    [Consumed(FirstRow(c, family), c.delay, "b"), NewRow(LateRefresh(c, family).next)]
  }

  function Refreshed(c: Config, family: string): World {
    World(LedgerRuns.State(RefreshedRows(c, family), {"a", "b"}, {family}), map[],
          {TokenAt(c, family, "a", 0), TokenAt(c, family, "b", c.delay)}, c.delay,
          FRESH.(calls := {UserCall("u", 0)}, known := map[family := "u"]))
  }

  /** The user's session is revoked by a process that does not know it; the ledger call is still under way. */
  lemma SlowCallRun(c: Config, family: string) returns (worlds: seq<World>, steps: seq<Step>)
    requires IsFamilyId(family)
    ensures Run(c, worlds, steps) && |steps| == 4
    ensures worlds[4] == CallUnderWay(c, family)
  {
    FirstSignIn(c, family);
    var w1 := SignedIn(c, family);
    var w2 := Apply(c, w1, Boot);
    var w3 := Apply(c, w2, EndUserHere("u"));
    assert KnownOf(FRESH, "u") == {};
    assert w3.p.entries == map[] && w3.p.vetoed == map[];
    worlds := [START, w1, w2, w3, Apply(c, w3, Tick(c.delay))];
    steps := [SignIn(RecordAt(c, family, "a", 0), TokenAt(c, family, "a", 0)), Boot, EndUserHere("u"), Tick(c.delay)];
  }

  lemma LatePresented(c: Config, family: string)
    requires IsFamilyId(family)
    ensures var (w, step) := (CallUnderWay(c, family), Present(LateRefresh(c, family)));
            Enabled(c, w, step) && Apply(c, w, step) == RefreshUnderWay(c, family)
  {
    var w := CallUnderWay(c, family);
    assert map[][family := "u"] == map[family := "u"];
    assert {} + {LateRefresh(c, family)} == {LateRefresh(c, family)};
  }

  lemma LateRotated(c: Config, family: string)
    ensures var (w, step) := (RefreshUnderWay(c, family), Commit(LateRefresh(c, family)));
            var call := LedgerStep(c, w, step).value;
            && LedgerRuns.Enabled(w.ledger, call) && LedgerRuns.OutcomeOf(w.ledger, call) == Ok
            && LedgerRuns.Apply(w.ledger, call) == Refreshed(c, family).ledger
  {
    var rows := [FirstRow(c, family)];
    LedgerRuns.RotateWinsAt(rows, 0, LateRefresh(c, family).next, c.delay);
    assert rows[0 := Consumed(rows[0], c.delay, "b")] + [NewRow(LateRefresh(c, family).next)] == RefreshedRows(c, family);
  }

  lemma LateCommitted(c: Config, family: string)
    ensures var (w, step) := (RefreshUnderWay(c, family), Commit(LateRefresh(c, family)));
            Enabled(c, w, step) && Apply(c, w, step) == Refreshed(c, family)
  {
    var w, step := RefreshUnderWay(c, family), Commit(LateRefresh(c, family));
    LateRotated(c, family);
    assert Apply(c, w, step).over == map[];
    assert {LateRefresh(c, family)} - {LateRefresh(c, family)} == {};
  }

  lemma LateEnded(c: Config, family: string)
    ensures var (w, step) := (Refreshed(c, family), EndUserInLedger(UserCall("u", 0), ""));
            && Enabled(c, w, step) && family in Apply(c, w, step).over
            && Apply(c, w, step).tokens == w.tokens && Apply(c, w, step).now == c.delay
            && forall r :: r in Apply(c, w, step).ledger.rows ==> r.revokedAt == Some(0)
  {
    var w, step := Refreshed(c, family), EndUserInLedger(UserCall("u", 0), "");
    assert w.ledger.rows[0] in w.ledger.rows;
    assert LedgerRuns.Ends(w.ledger, LedgerStep(c, w, step).value, family);
  }

  lemma LateRefreshSteps(c: Config, family: string) returns (worlds: seq<World>, steps: seq<Step>)
    requires IsFamilyId(family)
    ensures Run(c, worlds, steps) && |steps| == 6 && worlds[6] == Refreshed(c, family)
  {
    var r := LateRefresh(c, family);
    var w4s, s4 := SlowCallRun(c, family);
    LatePresented(c, family);
    var w5s := RunStep(c, w4s, s4, Present(r));
    LateCommitted(c, family);
    worlds := RunStep(c, w5s, s4 + [Present(r)], Commit(r));
    steps := s4 + [Present(r)] + [Commit(r)];
  }

  /** Meanwhile the refresh succeeds; then the call takes effect, with the stamp it set out with. */
  lemma LateRefreshRun(c: Config, family: string) returns (worlds: seq<World>, steps: seq<Step>)
    requires IsFamilyId(family)
    ensures Run(c, worlds, steps) && |steps| == 7 && worlds[7].now == c.delay
    ensures TokenAt(c, family, "b", c.delay) in worlds[7].tokens && family in worlds[7].over
    ensures forall r :: r in worlds[7].ledger.rows ==> r.revokedAt == Some(0)
  {
    var w6s, s6 := LateRefreshSteps(c, family);
    LateEnded(c, family);
    worlds := RunStep(c, w6s, s6, EndUserInLedger(UserCall("u", 0), ""));
    steps := s6 + [EndUserInLedger(UserCall("u", 0), "")];
  }

  /**
   Remembered too briefly: a refresh succeeds between the stamp of a revocation and its commit, and after a
   boot the reload forgets the family, a retention from the stamp, before the new token expires.
   */
  lemma BriefRetentionRun(c: Config, family: string) returns (worlds: seq<World>, steps: seq<Step>, t: Token)
    requires IsFamilyId(family) && c.ttl > 0 && c.retention < c.ttl + c.delay
    ensures Run(c, worlds, steps) && |steps| > 0 && t in worlds[|steps|].tokens && worlds[|steps|].now < t.expires
    ensures ToldSinceBoot(worlds, steps, |steps|, t.family)
    ensures !Refused(worlds[|steps|].p.entries, t.family, worlds[|steps|].now)
  {
    var prefix, before := LateRefreshRun(c, family);
    t := TokenAt(c, family, "b", c.delay);
    worlds, steps := ReloadRun(c, prefix, before, Max(0, c.retention - c.delay));
    ReloadedForgets(c, prefix[|before|], family, 0, Max(0, c.retention - c.delay));
    InformedExact(c, worlds, steps, |steps|, family);
  }

  lemma PurgesOnlyRow(row: Row, cutoff: int)
    requires Expired(row, cutoff)
    ensures Purged([row], [], cutoff, PurgeQuota([row], cutoff, PURGE_BATCH))
  {
    assert [row][1..] == [] && [row][..0] == [];
    assert ExpiredCount([row], cutoff) == 1;
  }

  lemma PurgedRun(c: Config, family: string) returns (worlds: seq<World>, steps: seq<Step>)
    requires IsFamilyId(family)
    ensures Run(c, worlds, steps) && |steps| == 5 && worlds[5].now == c.refreshTtl + c.grace + 1
    ensures TokenAt(c, family, "a", 0) in worlds[5].tokens && family in worlds[5].over && worlds[5].ledger.rows == []
  {
    var wait := c.refreshTtl + c.grace + 1;
    var w3s := SignOutRun(c, family);
    var w4s := RunStep(c, w3s, SignOutSteps(c, family), Tick(wait));
    PurgesOnlyRow(Stamp(FirstRow(c, family), "", 0), wait - c.grace);
    worlds := RunStep(c, w4s, SignOutSteps(c, family) + [Tick(wait)], Purge([]));
    steps := SignOutSteps(c, family) + [Tick(wait)] + [Purge([])];
  }

  /** Rows purged too early: a reload finds nothing that names the family of a token that is still good. */
  lemma EarlyPurgeRun(c: Config, family: string) returns (worlds: seq<World>, steps: seq<Step>, t: Token)
    requires IsFamilyId(family) && c.ttl > c.refreshTtl + c.grace + 1
    ensures Run(c, worlds, steps) && |steps| > 0 && t in worlds[|steps|].tokens && worlds[|steps|].now < t.expires
    ensures ToldSinceBoot(worlds, steps, |steps|, t.family)
    ensures !Refused(worlds[|steps|].p.entries, t.family, worlds[|steps|].now)
  {
    var prefix, before := PurgedRun(c, family);
    t := TokenAt(c, family, "a", 0);
    worlds, steps := ReloadRun(c, prefix, before, 0);
    ReloadedForgets(c, prefix[|before|], family, prefix[5].now - c.retention, 0);
    InformedExact(c, worlds, steps, |steps|, family);
  }

  lemma {:induction false} BornExpired(c: Config, worlds: seq<World>, steps: seq<Step>, k: nat)
    requires c.ttl <= 0 && Run(c, worlds, steps) && k <= |steps|
    ensures forall t :: t in worlds[k].tokens ==> t.expires <= worlds[k].now
    ensures forall r :: r in worlds[k].p.inFlight ==> r.token.expires <= worlds[k].now
  {
    if k > 0 {
      var step := steps[k - 1];
      BornExpired(c, worlds, steps, k - 1);
    }
  }

  /**
   Every live token of a family the process has been told of since its boot is refused, in all runs, exactly
   when the retention covers its lifetime and what a revocation takes from stamp to commit, and the ledger
   keeps its row that long; or when no token lives at all.
   */
  lemma RefusalExact(c: Config)
    ensures AlwaysRefuses(c) <==> c.Covers() || c.ttl <= 0
  {
    var family := SomeFamilyId();
    if c.ttl <= 0 {
      forall worlds: seq<World>, steps, j: nat | Run(c, worlds, steps) && j <= |steps|
        ensures forall t :: t in worlds[j].tokens ==> t.expires <= worlds[j].now
      {
        BornExpired(c, worlds, steps, j);
      }
    } else if c.Covers() {
      forall worlds: seq<World>, steps, j: nat, t: Token | Run(c, worlds, steps) && j <= |steps|
          && t in worlds[j].tokens && worlds[j].now < t.expires && ToldSinceBoot(worlds, steps, j, t.family)
        ensures Refused(worlds[j].p.entries, t.family, worlds[j].now)
      {
        RefusedExactly(c, worlds, steps, j, t);
      }
    } else if c.retention < c.ttl + c.delay {
      var worlds, steps, t := BriefRetentionRun(c, family);
    } else {
      var worlds, steps, t := EarlyPurgeRun(c, family);
    }
  }

  /** Ended in the ledger at some step, so refused ever after, with no word of boots and reloads. */
  ghost predicate RefusesFromTheEnd(c: Config) {
    forall worlds: seq<World>, steps, i, j, t: Token ::
      (Run(c, worlds, steps) && 0 <= i < j <= |steps| && EndsFamily(c, worlds[i], steps[i], t.family)
       && t in worlds[j].tokens && worlds[j].now < t.expires)
      ==> Refused(worlds[j].p.entries, t.family, worlds[j].now)
  }

  /** That holds in no configuration whose tokens live at all. */
  lemma BootWindowExact(c: Config)
    ensures RefusesFromTheEnd(c) <==> c.ttl <= 0
  {
    if c.ttl <= 0 {
      forall worlds: seq<World>, steps, j: nat | Run(c, worlds, steps) && j <= |steps|
        ensures forall t :: t in worlds[j].tokens ==> t.expires <= worlds[j].now
      {
        BornExpired(c, worlds, steps, j);
      }
    } else {
      var family := SomeFamilyId();
      var worlds, steps, t := BootWindowRun(c, family);
      assert EndsFamily(c, worlds[2], steps[2], t.family);
    }
  }
}

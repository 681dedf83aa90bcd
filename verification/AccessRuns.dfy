/**
 Whole runs of one server process and the ledger: sign-ins, refreshes, revocations, ledger purges,
 forgetting of expired entries, and boots that lose everything in memory and reload the ended families
 from the ledger later, or fail to.

 A refresh signs its tokens and asks the in-memory registry first and the ledger afterwards. A revocation is
 recorded in memory first; its REVOKED_AT is stamped when the ledger is called, and the call takes effect
 later. The reload reads the ledger at one moment and is remembered at another. All other steps may come in
 between. In-memory sets stay below their caps, so no live entry is evicted.
 */
module AccessRuns {
  import opened Common
  import opened SessionLedger
  import opened AccessRevocation
  import LedgerRuns

  const PURGE_GRACE_MS := 86_400_000
  const PURGE_BATCH := 500

  /**
   Lifetimes of access and refresh tokens, how long an ended family is remembered, how long after its expiry
   a ledger row may not yet be purged, and how long a revocation may take from its stamp to its commit.
   */
  datatype Config = Config(ttl: int, retention: int, refreshTtl: nat, grace: nat, delay: nat) {
    predicate Covers() { ttl + delay <= retention && ttl <= refreshTtl + grace + 1 }
  }

  /**
   The configuration of a process whose access-token lifetime parses: the clock skew is what a revocation may
   take from its stamp to its commit.
   */
  function Configured(ttl: int, refreshTtl: nat, delay: nat): (c: Config)
    ensures c.Covers() <==>
            delay <= CLOCK_SKEW_MS && ttl + delay <= MAX_TTL_MS && ttl <= refreshTtl + PURGE_GRACE_MS + 1
  {
    Config(ttl, Retention(Some(ttl)), refreshTtl, PURGE_GRACE_MS, delay)
  }

  datatype Token = Token(family: string, hash: string, issued: int, expires: int)

  /** A refresh between its registry check and its ledger transaction. */
  datatype Refreshing = Refreshing(presented: string, next: Record, token: Token)

  /** A revocation of all sessions of a user, on its way to the ledger. */
  datatype UserCall = UserCall(user: string, at: int)

  /** What a reload has read, and which families had been ended in the ledger by then. */
  datatype Reading = Reading(rows: seq<Row>, at: int, over: set<string>)

  /**
   What a process holds in memory: the ended families, since when a family's refreshes are vetoed, the
   families it knows with their users, and what is under way. `informed` are the families it has been told
   of since its boot.
   */
  datatype Process = Process(
    entries: Entries, vetoed: map<string, int>, known: map<string, string>, inFlight: set<Refreshing>,
    calls: set<UserCall>, answers: set<set<string>>, reading: Option<Reading>, informed: set<string>)

  const FRESH := Process(map[], map[], map[], {}, {}, {}, None, {})

  /** `over` has the families ended in the ledger, with the REVOKED_AT stamped then. */
  datatype World = World(ledger: LedgerRuns.State, over: map<string, int>, tokens: set<Token>, now: int, p: Process)

  const START := World(LedgerRuns.EMPTY, map[], {}, 0, FRESH)

  datatype Step =
    | Tick(ms: nat)
    | SignIn(rec: Record, token: Token)
    | Present(refresh: Refreshing)
    | Commit(refresh: Refreshing)
    | EndHere(family: string)
    | EndInLedger(family: string, reason: string, at: int)
    | EndUserHere(user: string)
    | EndUserInLedger(call: UserCall, reason: string)
    | EndUserAnswered(named: set<string>)
    | EndElsewhere(revoke: LedgerRuns.Step)  // the call of a process that died before the answer
    | Forget(families: set<string>)
    | Purge(kept: seq<Row>)
    | Boot
    | Query
    | Reload
    | ReloadFails

  /** The ledger call a step makes, if any. */
  function LedgerStep(c: Config, w: World, step: Step): Option<LedgerRuns.Step> {
    match step
    case SignIn(rec, _) => Some(LedgerRuns.Login(rec))
    case Commit(refresh) => Some(LedgerRuns.Rotate(refresh.presented, refresh.next, refresh.token.issued))
    case EndInLedger(family, reason, at) => Some(LedgerRuns.RevokeFamily(family, reason, at))
    case EndUserInLedger(call, reason) => Some(LedgerRuns.RevokeUser(call.user, reason, call.at))
    case EndElsewhere(revoke) => Some(revoke)
    case Purge(kept) => Some(LedgerRuns.Purge(w.now - c.grace, PURGE_BATCH, kept))
    case _ => None
  }

  /** Families the user revocation names: those with a row it revokes. */
  function NamedFamilies(rows: seq<Row>, user: string): set<string> {
    set r | r in rows && r.user == user && r.revokedAt.None? :: r.family
  }

  /** They are the families of the rows the update changes. */
  lemma NamedAreChanged(rows: seq<Row>, user: string, reason: string, at: int, family: string)
    ensures family in NamedFamilies(rows, user) <==>
            exists i :: 0 <= i < |rows| && rows[i].family == family && RevokeUserRows(rows, user, reason, at)[i] != rows[i]
  {
    if family in NamedFamilies(rows, user) {
      var r :| r in rows && r.user == user && r.revokedAt.None? && r.family == family;
      var i :| 0 <= i < |rows| && rows[i] == r;
      assert RevokeUserRows(rows, user, reason, at)[i] != rows[i];
    }
    if exists i :: 0 <= i < |rows| && rows[i].family == family && RevokeUserRows(rows, user, reason, at)[i] != rows[i] {
      var i :| 0 <= i < |rows| && rows[i].family == family && RevokeUserRows(rows, user, reason, at)[i] != rows[i];
      assert rows[i] in rows;
    }
  }

  /** The families a ledger call ends. */
  function EndedBy(s: LedgerRuns.State, call: LedgerRuns.Step): (ended: set<string>)
    ensures forall f :: f in ended <==> LedgerRuns.Ends(s, call, f)
  {
    match call
    case RevokeFamily(family, _, _) => if family in s.families then {family} else {}
    case RevokeUser(user, _, _) => set r | r in s.rows && r.user == user :: r.family
    case _ => {}
  }

  /** The time a revocation stamps. */
  function StampOf(call: LedgerRuns.Step): int {
    if call.RevokeFamily? || call.RevokeUser? then call.now else 0
  }

  /** The first time stays. */
  function Since(times: map<string, int>, families: set<string>, at: int): map<string, int> {
    map f | f in times.Keys + families :: if f in times then times[f] else at
  }

  function RememberSet(entries: Entries, families: set<string>, until: int): Entries {
    map f | f in entries.Keys + families ::
      if f in families && !(f in entries && until <= entries[f]) then until else entries[f]
  }

  /** Remembering families is remembering each: the later time wins, and the others stay. */
  lemma RememberSetExact(entries: Entries, families: set<string>, until: int, f: string)
    ensures f in RememberSet(entries, families, until) <==> f in entries || f in families
    ensures f in entries && f !in families ==> RememberSet(entries, families, until)[f] == entries[f]
    ensures f in families ==> RememberSet(entries, families, until)[f] == Remember(entries, f, until)[f]
  {
  }

  function KnownOf(p: Process, user: string): set<string> {
    set f | f in p.known && p.known[f] == user
  }

  function Read(c: Config, r: Reading): Entries {
    Loaded(r.rows, r.at - c.retention, c.retention)
  }

  /** The families a step tells the process of. */
  function InformedBy(w: World, step: Step): set<string> {
    match step
    case EndHere(family) => {family}
    case EndUserHere(user) => KnownOf(w.p, user)
    case EndUserAnswered(named) => named
    case Reload => if w.p.reading.Some? then w.p.reading.value.over else {}
    case _ => {}
  }

  /** Access and refresh token are signed together, for a lifetime from their own second, the refresh token last. */
  ghost predicate Mints(c: Config, now: int, rec: Record, token: Token) {
    && token.family == rec.family && token.hash == rec.hash
    && token.issued == now && token.expires <= now + c.ttl
    && token.expires - c.ttl <= rec.expiresAt - c.refreshTtl
  }

  ghost predicate Enabled(c: Config, w: World, step: Step) {
    && (LedgerStep(c, w, step).Some? ==> LedgerRuns.Enabled(w.ledger, LedgerStep(c, w, step).value))
    && match step
       case SignIn(rec, token) => IsFamilyId(rec.family) && Mints(c, w.now, rec, token)
       // The registry refuses a family that was ended here.
       case Present(r) => r.next.family in w.ledger.families - w.p.vetoed.Keys && Mints(c, w.now, r.next, r.token)
       case Commit(r) => r in w.p.inFlight
       case EndHere(family) => family in w.ledger.families
       // Recorded here first; stamped when the ledger is called.
       case EndInLedger(family, _, at) => family in w.p.vetoed && w.p.vetoed[family] <= at <= w.now
       case EndUserInLedger(call, _) => call in w.p.calls && w.now <= call.at + c.delay
       case EndUserAnswered(named) => named in w.p.answers
       case EndElsewhere(revoke) =>
         (revoke.RevokeFamily? || revoke.RevokeUser?) && revoke.now <= w.now <= revoke.now + c.delay
       case Forget(families) => forall f :: f in families && f in w.p.entries ==> w.p.entries[f] <= w.now
       case Reload => w.p.reading.Some?
       case _ => true
  }

  /** What the step leaves in memory, apart from what it tells. */
  function Here(c: Config, w: World, step: Step): Process {
    var p, until := w.p, w.now + c.retention;
    match step
    case SignIn(rec, _) => p.(known := p.known[rec.family := rec.user])
    case Present(r) => p.(inFlight := p.inFlight + {r}, known := p.known[r.next.family := r.next.user])
    case Commit(r) => p.(inFlight := p.inFlight - {r})
    case EndHere(family) =>
      p.(entries := Remember(p.entries, family, until), vetoed := Since(p.vetoed, {family}, w.now))
    case EndUserHere(user) =>
      p.(entries := RememberSet(p.entries, KnownOf(p, user), until),
         vetoed := Since(p.vetoed, KnownOf(p, user), w.now), calls := p.calls + {UserCall(user, w.now)})
    case EndUserInLedger(call, _) =>
      p.(calls := p.calls - {call}, answers := p.answers + {NamedFamilies(w.ledger.rows, call.user)})
    case EndUserAnswered(named) =>
      p.(entries := RememberSet(p.entries, named, until), answers := p.answers - {named})
    case Forget(families) => p.(entries := p.entries - families)
    case Query => p.(reading := Some(Reading(w.ledger.rows, w.now, w.over.Keys)))
    case Reload =>
      if p.reading.Some? then p.(entries := Merged(p.entries, Read(c, p.reading.value)), reading := None) else p
    case ReloadFails => p.(reading := None)
    case Boot => FRESH
    case _ => p
  }

  function TokensAfter(c: Config, w: World, step: Step): set<Token> {
    match step
    case SignIn(_, token) => w.tokens + {token}
    case Commit(r) =>
      if LedgerRuns.OutcomeOf(w.ledger, LedgerStep(c, w, step).value) == Ok then w.tokens + {r.token} else w.tokens
    case _ => w.tokens
  }

  function Apply(c: Config, w: World, step: Step): World {
    var call := LedgerStep(c, w, step);
    var p := Here(c, w, step);
    World(if call.Some? then LedgerRuns.Apply(w.ledger, call.value) else w.ledger,
          if call.Some? then Since(w.over, EndedBy(w.ledger, call.value), StampOf(call.value)) else w.over,
          TokensAfter(c, w, step),
          if step.Tick? then w.now + step.ms else w.now,
          p.(informed := p.informed + InformedBy(w, step)))
  }

  ghost predicate Run(c: Config, worlds: seq<World>, steps: seq<Step>) {
    && |worlds| == |steps| + 1 && worlds[0] == START
    && forall k {:trigger steps[k]} :: 0 <= k < |steps| ==>
         Enabled(c, worlds[k], steps[k]) && worlds[k + 1] == Apply(c, worlds[k], steps[k])
  }

  // ---- Invariant: the ledger and the tokens -------------------------------------------------

  /** The row of the refresh token signed with the access token. */
  ghost predicate Backs(c: Config, r: Row, t: Token) {
    r.hash == t.hash && r.family == t.family && t.expires - c.ttl <= r.expiresAt - c.refreshTtl
  }

  ghost predicate Backed(c: Config, rows: seq<Row>, t: Token) {
    exists r :: r in rows && Backs(c, r, t)
  }

  /** A row is revoked exactly when its family is over, and with one common stamp. */
  ghost predicate Stamped(rows: seq<Row>, over: map<string, int>) {
    forall r :: r in rows ==> r.revokedAt == if r.family in over then Some(over[r.family]) else None
  }

  ghost predicate LedgerSafe(w: World) {
    && LedgerRuns.Inv(w.ledger) && Stamped(w.ledger.rows, w.over) && w.over.Keys <= w.ledger.families
    && forall f :: f in w.ledger.families ==> IsFamilyId(f)
  }

  /** Signed in the past, for a lifetime, and not after the family was vetoed here. */
  ghost predicate Signed(c: Config, w: World, t: Token) {
    && t.issued <= w.now && t.expires <= t.issued + c.ttl && t.family in w.ledger.families
    && (t.family in w.p.vetoed ==> t.issued <= w.p.vetoed[t.family])
  }

  ghost predicate TokensSafe(c: Config, w: World) {
    forall t :: t in w.tokens ==>
      && Signed(c, w, t)
      && (t.family in w.over ==> t.issued <= w.over[t.family] + c.delay)
      && (w.now < t.expires ==> Backed(c, w.ledger.rows, t))
  }

  // ---- Invariant: the process ------------------------------------------------------------------

  ghost predicate InFlightSafe(c: Config, w: World) {
    forall r :: r in w.p.inFlight ==> Signed(c, w, r.token) && Backs(c, NewRow(r.next), r.token)
  }

  /** What the process knows of is real, and what it has been told of is over here or in the ledger. */
  ghost predicate NamesSafe(w: World) {
    KnownSafe(w) && InformedSafe(w)
  }

  ghost predicate KnownSafe(w: World) {
    && w.p.vetoed.Keys <= w.ledger.families && w.p.known.Keys <= w.ledger.families
    && forall named :: named in w.p.answers ==> named <= w.over.Keys
  }

  ghost predicate InformedSafe(w: World) {
    w.p.entries.Keys <= w.p.informed <= w.p.vetoed.Keys + w.over.Keys && w.p.vetoed.Keys <= w.p.informed
  }

  ghost predicate Covered(entries: Entries, t: Token) {
    t.family in entries && t.expires <= entries[t.family]
  }

  /** What was read covers every live token of the families that were over. */
  ghost predicate ReadingSafe(c: Config, w: World) {
    w.p.reading.Some? ==>
      var r := w.p.reading.value;
      && Read(c, r).Keys <= r.over <= w.over.Keys
      && forall t :: t in w.tokens && t.family in r.over && w.now < t.expires ==> Covered(Read(c, r), t)
  }

  ghost predicate EntriesSafe(c: Config, w: World) {
    && (forall t :: t in w.tokens && t.family in w.p.informed && w.now < t.expires ==> Covered(w.p.entries, t))
    && (forall r :: r in w.p.inFlight && r.token.family in w.p.vetoed && w.now < r.token.expires ==>
          Covered(w.p.entries, r.token))
  }

  ghost predicate Inv(c: Config, w: World) {
    LedgerSafe(w) && TokensSafe(c, w) && InFlightSafe(c, w) && NamesSafe(w) && ReadingSafe(c, w) && EntriesSafe(c, w)
  }

  // ---- The ledger keeps its part ------------------------------------------------------------

  predicate SameToken(a: Row, b: Row) { a.hash == b.hash && a.family == b.family && a.expiresAt == b.expiresAt }

  predicate Carried(rows: seq<Row>, after: seq<Row>) {
    |rows| <= |after| && forall i :: 0 <= i < |rows| ==> SameToken(rows[i], after[i])
  }

  lemma BackedCarried(c: Config, rows: seq<Row>, after: seq<Row>, t: Token)
    requires Carried(rows, after) && Backed(c, rows, t)
    ensures Backed(c, after, t)
  {
    var r :| r in rows && Backs(c, r, t);
    var i :| 0 <= i < |rows| && rows[i] == r;
    assert SameToken(rows[i], after[i]) && after[i] in after && Backs(c, after[i], t);
  }

  lemma CallCarries(s: LedgerRuns.State, call: LedgerRuns.Step)
    requires Unique(s.rows) && !call.Purge?
    ensures Carried(s.rows, LedgerRuns.Apply(s, call).rows)
  {
    if call.Rotate? {
      LedgerRuns.RotateOkExactly(s.rows, call.presented, call.next, call.now);
    }
  }

  /** A winning rotation finds its family not over. */
  lemma RotatesLiveFamily(s: LedgerRuns.State, over: map<string, int>, call: LedgerRuns.Step)
    requires LedgerRuns.Inv(s) && Stamped(s.rows, over) && call.Rotate? && LedgerRuns.Enabled(s, call)
    requires LedgerRuns.OutcomeOf(s, call) == Ok
    ensures call.next.family !in over && call.next.family in s.families
    ensures LedgerRuns.Apply(s, call).rows[|s.rows|..] == [NewRow(call.next)]
    ensures forall i :: 0 <= i < |s.rows| ==> LedgerRuns.Apply(s, call).rows[i].revokedAt == s.rows[i].revokedAt
  {
    LedgerRuns.RotateOkExactly(s.rows, call.presented, call.next, call.now);
    var w :| 0 <= w < |s.rows| && s.rows[w].hash == call.presented && Live(s.rows[w]);
    assert s.rows[w] in s.rows;
  }

  /** A family's rows belong to one user, so a revocation stamps all rows of a family or none. */
  lemma SameUser(s: LedgerRuns.State, a: Row, b: Row)
    requires LedgerRuns.OneUnusedPerFamily(s.rows) && a in s.rows && b in s.rows && a.family == b.family
    ensures a.user == b.user
  {
    var i :| 0 <= i < |s.rows| && s.rows[i] == a;
    var j :| 0 <= j < |s.rows| && s.rows[j] == b;
  }

  lemma RevokeStamps(s: LedgerRuns.State, over: map<string, int>, call: LedgerRuns.Step)
    requires LedgerRuns.Inv(s) && Stamped(s.rows, over) && (call.RevokeFamily? || call.RevokeUser?)
    ensures Stamped(LedgerRuns.Apply(s, call).rows, Since(over, EndedBy(s, call), StampOf(call)))
  {
    var after, over' := LedgerRuns.Apply(s, call).rows, Since(over, EndedBy(s, call), StampOf(call));
    forall r | r in after
      ensures r.revokedAt == if r.family in over' then Some(over'[r.family]) else None
    {
      var i :| 0 <= i < |after| && after[i] == r;
      assert s.rows[i] in s.rows;
      if LedgerRuns.Ends(s, call, r.family) && call.RevokeUser? {
        var other :| other in s.rows && other.user == call.user && other.family == r.family;
        SameUser(s, other, s.rows[i]);
      }
    }
  }

  lemma PurgeKeepsRows(s: LedgerRuns.State, call: LedgerRuns.Step, r: Row)
    requires call.Purge? && LedgerRuns.Enabled(s, call)
    ensures r in s.rows && !Expired(r, call.cutoff) ==> r in call.kept
    ensures r in call.kept ==> r in s.rows
  {
    PurgedKeepsUnexpired(s.rows, call.kept, call.cutoff, PurgeQuota(s.rows, call.cutoff, call.limit), r);
  }

  lemma CallStamps(s: LedgerRuns.State, over: map<string, int>, call: LedgerRuns.Step)
    requires LedgerRuns.Inv(s) && Stamped(s.rows, over) && over.Keys <= s.families && LedgerRuns.Enabled(s, call)
    ensures Stamped(LedgerRuns.Apply(s, call).rows, Since(over, EndedBy(s, call), StampOf(call)))
  {
    var after := LedgerRuns.Apply(s, call).rows;
    match call
    case RevokeFamily(_, _, _) => RevokeStamps(s, over, call);
    case RevokeUser(_, _, _) => RevokeStamps(s, over, call);
    case Purge(_, _, kept) =>
      forall r | r in kept
        ensures r in s.rows
      {
        PurgeKeepsRows(s, call, r);
      }
    case Login(rec) =>
      assert forall r :: r in after ==> r in s.rows || r == NewRow(rec);
    case Rotate(_, next, _) =>
      CallCarries(s, call);
      if LedgerRuns.OutcomeOf(s, call) == Ok {
        RotatesLiveFamily(s, over, call);
        forall r | r in after
          ensures r == NewRow(next) || exists b :: b in s.rows && b.family == r.family && b.revokedAt == r.revokedAt
        {
          var i :| 0 <= i < |after| && after[i] == r;
          if i < |s.rows| {
            assert s.rows[i] in s.rows && SameToken(s.rows[i], after[i]);
          } else {
            assert after[|s.rows|..][i - |s.rows|] == after[i];
          }
        }
      } else {
        LedgerRuns.RotateOkExactly(s.rows, call.presented, call.next, call.now);
      }
  }

  lemma EndedAreKnown(s: LedgerRuns.State, call: LedgerRuns.Step)
    requires LedgerRuns.Recorded(s)
    ensures EndedBy(s, call) <= s.families
  {
    forall f | f in EndedBy(s, call) && call.RevokeUser?
      ensures f in s.families
    {
      var r :| r in s.rows && r.user == call.user && r.family == f;
      var i :| 0 <= i < |s.rows| && s.rows[i] == r;
    }
  }

  lemma LedgerKeeps(c: Config, w: World, step: Step)
    requires LedgerSafe(w) && Enabled(c, w, step)
    ensures LedgerSafe(Apply(c, w, step))
  {
    var call := LedgerStep(c, w, step);
    if call.Some? {
      LedgerRuns.StepKeepsInv(w.ledger, call.value);
      CallStamps(w.ledger, w.over, call.value);
      EndedAreKnown(w.ledger, call.value);
    }
  }

  // ---- The tokens keep theirs ---------------------------------------------------------------

  predicate Revokes(step: Step) { step.EndInLedger? || step.EndUserInLedger? || step.EndElsewhere? }

  lemma SignedStays(c: Config, w: World, step: Step, t: Token)
    requires Enabled(c, w, step) && Signed(c, w, t)
    ensures Signed(c, Apply(c, w, step), t)
  {
  }

  /** A token signed so far was signed no later than the stamp of a revocation and its delay. */
  lemma StampIsLate(c: Config, w: World, step: Step, t: Token)
    requires Enabled(c, w, step) && Signed(c, w, t) && Revokes(step)
    requires t.family in w.over ==> t.issued <= w.over[t.family] + c.delay
    ensures var over := Apply(c, w, step).over;
            t.family in over ==> t.issued <= over[t.family] + c.delay
  {
  }

  lemma BackedStays(c: Config, w: World, step: Step, t: Token)
    requires c.Covers() && LedgerSafe(w) && Enabled(c, w, step)
    requires w.now < t.expires && Backed(c, w.ledger.rows, t)
    ensures Backed(c, Apply(c, w, step).ledger.rows, t)
  {
    var call := LedgerStep(c, w, step);
    if step.Purge? {
      var r :| r in w.ledger.rows && Backs(c, r, t);
      PurgeKeepsRows(w.ledger, call.value, r);
    } else if call.Some? {
      CallCarries(w.ledger, call.value);
      BackedCarried(c, w.ledger.rows, LedgerRuns.Apply(w.ledger, call.value).rows, t);
    }
  }

  lemma OldTokenKeeps(c: Config, w: World, step: Step, t: Token)
    requires c.Covers() && LedgerSafe(w) && TokensSafe(c, w) && Enabled(c, w, step) && t in w.tokens
    ensures var w' := Apply(c, w, step);
            && Signed(c, w', t) && (t.family in w'.over ==> t.issued <= w'.over[t.family] + c.delay)
            && (w'.now < t.expires ==> Backed(c, w'.ledger.rows, t))
  {
    SignedStays(c, w, step, t);
    if Revokes(step) {
      StampIsLate(c, w, step, t);
    }
    if w.now < t.expires {
      BackedStays(c, w, step, t);
    }
  }

  /** The token a step mints, if any, is new in a family that is not over. */
  lemma NewToken(c: Config, w: World, step: Step, t: Token)
    requires LedgerSafe(w) && InFlightSafe(c, w) && NamesSafe(w) && Enabled(c, w, step)
    requires t in TokensAfter(c, w, step) && t !in w.tokens
    ensures step.SignIn? || (step.Commit? && t == step.refresh.token)
    ensures step.SignIn? ==> t.family !in w.ledger.families
    ensures t.family !in Apply(c, w, step).over && Signed(c, Apply(c, w, step), t)
    ensures Backed(c, Apply(c, w, step).ledger.rows, t)
  {
    var call := LedgerStep(c, w, step).value;
    var rows, after := w.ledger.rows, LedgerRuns.Apply(w.ledger, call).rows;
    if step.SignIn? {
      NewHash(w.ledger, step.rec.hash);
      assert after == rows + [NewRow(step.rec)];
      assert NewRow(step.rec) in after && Backs(c, NewRow(step.rec), t);
    } else {
      var r := step.refresh;
      RotatesLiveFamily(w.ledger, w.over, call);
      assert NewRow(r.next) in after[|rows|..];
      assert NewRow(r.next) in after && Backs(c, NewRow(r.next), t);
      SignedStays(c, w, step, t);
    }
  }

  lemma NewHash(s: LedgerRuns.State, hash: string)
    requires LedgerRuns.Recorded(s) && hash !in s.issued
    ensures !HasHash(s.rows, hash)
  {
  }

  lemma TokensKeep(c: Config, w: World, step: Step)
    requires c.Covers() && Inv(c, w) && Enabled(c, w, step)
    ensures TokensSafe(c, Apply(c, w, step))
  {
    var w' := Apply(c, w, step);
    forall t | t in w'.tokens
      ensures Signed(c, w', t) && (t.family in w'.over ==> t.issued <= w'.over[t.family] + c.delay)
      ensures w'.now < t.expires ==> Backed(c, w'.ledger.rows, t)
    {
      if t in w.tokens {
        OldTokenKeeps(c, w, step, t);
      } else {
        NewToken(c, w, step, t);
      }
    }
  }

  // ---- The process keeps its part -----------------------------------------------------------

  lemma InFlightKeeps(c: Config, w: World, step: Step)
    requires InFlightSafe(c, w) && Enabled(c, w, step)
    ensures InFlightSafe(c, Apply(c, w, step))
  {
    var w' := Apply(c, w, step);
    forall r | r in w'.p.inFlight
      ensures Signed(c, w', r.token) && Backs(c, NewRow(r.next), r.token)
    {
      if r in w.p.inFlight {
        SignedStays(c, w, step, r.token);
      }
    }
  }

  lemma NamedAreEnded(s: LedgerRuns.State, user: string, reason: string, at: int)
    ensures NamedFamilies(s.rows, user) <= EndedBy(s, LedgerRuns.RevokeUser(user, reason, at))
  {
  }

  lemma KnownKeeps(c: Config, w: World, step: Step)
    requires LedgerSafe(w) && KnownSafe(w) && Enabled(c, w, step)
    ensures KnownSafe(Apply(c, w, step))
  {
    if step.EndUserInLedger? {
      NamedAreEnded(w.ledger, step.call.user, step.reason, step.call.at);
    } else if step.Commit? && LedgerRuns.OutcomeOf(w.ledger, LedgerStep(c, w, step).value) == Ok {
      RotatesLiveFamily(w.ledger, w.over, LedgerStep(c, w, step).value);
    }
  }

  lemma InformedKeeps(c: Config, w: World, step: Step)
    requires KnownSafe(w) && InformedSafe(w) && ReadingSafe(c, w) && Enabled(c, w, step)
    ensures InformedSafe(Apply(c, w, step))
  {
  }

  lemma NamesKeep(c: Config, w: World, step: Step)
    requires LedgerSafe(w) && NamesSafe(w) && ReadingSafe(c, w) && Enabled(c, w, step)
    ensures NamesSafe(Apply(c, w, step))
  {
    KnownKeeps(c, w, step);
    InformedKeeps(c, w, step);
  }

  /** The reload remembers the family of a recently revoked row for a retention from its revocation, at least. */
  lemma LoadedCovers(rows: seq<Row>, r: Row, since: int, retention: int)
    requires r in rows && RevokedSince(r, since) && IsFamilyId(r.family)
    ensures r.family in Loaded(rows, since, retention)
    ensures r.revokedAt.value + retention <= Loaded(rows, since, retention)[r.family]
  {
    var i :| 0 <= i < |rows| && rows[i] == r;
    LatestIsMax(rows, r.family, since);
  }

  /** A live token of a family that is over has a row stamped with the family. */
  lemma StampedRow(c: Config, w: World, t: Token) returns (r: Row)
    requires LedgerSafe(w) && TokensSafe(c, w)
    requires t in w.tokens && t.family in w.over && w.now < t.expires
    ensures r in w.ledger.rows && r.family == t.family && IsFamilyId(r.family)
    ensures r.revokedAt.Some? && t.expires <= r.revokedAt.value + c.delay + c.ttl
  {
    r :| r in w.ledger.rows && Backs(c, r, t);
  }

  lemma RowIsRead(c: Config, reading: Reading, t: Token, r: Row)
    requires c.Covers() && r in reading.rows && r.family == t.family && IsFamilyId(r.family)
    requires r.revokedAt.Some? && reading.at < t.expires <= r.revokedAt.value + c.delay + c.ttl
    ensures Covered(Read(c, reading), t)
  {
    LoadedCovers(reading.rows, r, reading.at - c.retention, c.retention);
  }

  /** So a reload finds the family. */
  lemma ReadCovers(c: Config, w: World, t: Token)
    requires c.Covers() && LedgerSafe(w) && TokensSafe(c, w)
    requires t in w.tokens && t.family in w.over && w.now < t.expires
    ensures Covered(Read(c, Reading(w.ledger.rows, w.now, w.over.Keys)), t)
  {
    var r := StampedRow(c, w, t);
    RowIsRead(c, Reading(w.ledger.rows, w.now, w.over.Keys), t, r);
  }

  lemma ReadsOver(c: Config, w: World)
    requires LedgerSafe(w)
    ensures Read(c, Reading(w.ledger.rows, w.now, w.over.Keys)).Keys <= w.over.Keys
  {
    var rows, since := w.ledger.rows, w.now - c.retention;
    forall f | f in RecentFamilies(rows, since)
      ensures f in w.over
    {
      var i :| 0 <= i < |rows| && RevokedSince(rows[i], since) && rows[i].family == f;
      assert rows[i] in rows;
    }
  }

  lemma QueryKeeps(c: Config, w: World)
    requires c.Covers() && Inv(c, w)
    ensures ReadingSafe(c, Apply(c, w, Query))
  {
    var w' := Apply(c, w, Query);
    ReadsOver(c, w);
    forall t | t in w'.tokens && t.family in w.over && w.now < t.expires
      ensures Covered(Read(c, w'.p.reading.value), t)
    {
      ReadCovers(c, w, t);
    }
  }

  lemma ReadingKeeps(c: Config, w: World, step: Step)
    requires c.Covers() && Inv(c, w) && Enabled(c, w, step)
    ensures ReadingSafe(c, Apply(c, w, step))
  {
    var w' := Apply(c, w, step);
    if step == Query {
      QueryKeeps(c, w);
    } else if w'.p.reading.Some? {
      assert w'.p.reading == w.p.reading;
      forall t | t in w'.tokens && t !in w.tokens
        ensures t.family !in w.over
      {
        NewToken(c, w, step, t);
      }
    }
  }

  /** Remembered from now on, the family is covered for all tokens signed so far. */
  lemma EntriesGrow(c: Config, w: World, step: Step, t: Token)
    requires c.Covers() && ReadingSafe(c, w) && Signed(c, w, t) && w.now < t.expires
    requires !step.Boot? && !step.Forget?
    requires Covered(w.p.entries, t) || (t.family in InformedBy(w, step) && (step.Reload? ==> t in w.tokens))
    ensures Covered(Here(c, w, step).entries, t)
  {
  }

  lemma TokenStaysCovered(c: Config, w: World, step: Step, t: Token)
    requires c.Covers() && Inv(c, w) && Enabled(c, w, step) && t in TokensAfter(c, w, step)
    requires t.family in Apply(c, w, step).p.informed && Apply(c, w, step).now < t.expires
    ensures Covered(Apply(c, w, step).p.entries, t)
  {
    if t !in w.tokens {
      NewToken(c, w, step, t);
    } else if !step.Boot? && !step.Forget? {
      EntriesGrow(c, w, step, t);
    }
  }

  lemma EntriesKeep(c: Config, w: World, step: Step)
    requires c.Covers() && Inv(c, w) && Enabled(c, w, step)
    ensures EntriesSafe(c, Apply(c, w, step))
  {
    var w' := Apply(c, w, step);
    forall t | t in w'.tokens && t.family in w'.p.informed && w'.now < t.expires
      ensures Covered(w'.p.entries, t)
    {
      TokenStaysCovered(c, w, step, t);
    }
    forall r | r in w'.p.inFlight && r.token.family in w'.p.vetoed && w'.now < r.token.expires
      ensures Covered(w'.p.entries, r.token)
    {
      if !step.Boot? && !step.Forget? && r in w.p.inFlight {
        EntriesGrow(c, w, step, r.token);
      }
    }
  }

  lemma StepKeepsInv(c: Config, w: World, step: Step)
    requires c.Covers() && Inv(c, w) && Enabled(c, w, step)
    ensures Inv(c, Apply(c, w, step))
  {
    LedgerKeeps(c, w, step);
    TokensKeep(c, w, step);
    InFlightKeeps(c, w, step);
    NamesKeep(c, w, step);
    ReadingKeeps(c, w, step);
    EntriesKeep(c, w, step);
  }

  lemma {:induction false} RunKeepsInv(c: Config, worlds: seq<World>, steps: seq<Step>, k: nat)
    requires c.Covers() && Run(c, worlds, steps) && k <= |steps|
    ensures Inv(c, worlds[k])
  {
    if k > 0 {
      RunKeepsInv(c, worlds, steps, k - 1);
      StepKeepsInv(c, worlds[k - 1], steps[k - 1]);
    }
  }
}

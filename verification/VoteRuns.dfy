/** What holds over every run of request, vote and cancel handlers executed one at a time. */
module VoteRuns {
  import opened Common
  import opened BackupVotes

  /** `admins` is the set of active SUPER_ADMINs when the handler runs. */
  datatype Event =
    | OnRequest(admin: int, archive: string, admins: set<int>)
    | OnVote(admin: int, archive: string, admins: set<int>)
    | OnCancel(archive: string)
    | OnRetention(archive: string)   // the archive store drops an old archive by itself
    | OnNewArchive(made: Archive)

  function Handle(s: State, e: Event): (State, Reply) {
    match e
    case OnRequest(admin, archive, admins) => Request(s, admin, archive, |admins|)
    case OnVote(admin, archive, admins) => CastAndDecide(s, admin, archive, |admins|)
    case OnCancel(archive) => Cancel(s, archive)
    case OnRetention(archive) => (s.(archives := WithoutArchive(s.archives, archive)), Cancelled)
    case OnNewArchive(made) => (s.(archives := s.archives + [made]), Cancelled)
  }

  predicate Run(states: seq<State>, events: seq<Event>) {
    && |states| == |events| + 1
    && states[0].votes == []
    && forall k {:trigger events[k]} :: 0 <= k < |events| ==> states[k + 1] == Handle(states[k], events[k]).0
  }

  /** No admin has two votes on one archive. */
  predicate OneVoteEach(votes: seq<Vote>) {
    forall i, j :: 0 <= i < j < |votes| ==> votes[i].archive != votes[j].archive || votes[i].votedBy != votes[j].votedBy
  }

  /** The first vote on an archive is the requester's own, and every vote names that requester. */
  predicate RequesterFirst(votes: seq<Vote>, archive: string) {
    var mine := VotesFor(votes, archive);
    forall i :: 0 <= i < |mine| ==> mine[i].requestedBy == mine[0].votedBy
  }

  ghost predicate Inv(s: State) {
    OneVoteEach(s.votes) && forall archive: string :: RequesterFirst(s.votes, archive)
  }

  // ---- What the steps do to the votes -------------------------------------------------------------

  lemma {:induction false} KeptVotes(p: Vote -> bool, votes: seq<Vote>)
    requires OneVoteEach(votes)
    ensures OneVoteEach(Filter(p, votes))
    ensures forall v :: v in Filter(p, votes) <==> v in votes && p(v)
  {
    if |votes| > 0 {
      var front, last := votes[..|votes| - 1], votes[|votes| - 1];
      assert votes == front + [last];
      KeptVotes(p, front);
      forall v | v in Filter(p, front)
        ensures v.archive != last.archive || v.votedBy != last.votedBy
      {
        var i :| 0 <= i < |front| && front[i] == v;
        assert votes[i] == v;
      }
    }
  }

  lemma {:induction false} OtherArchiveKept(votes: seq<Vote>, archive: string, other: string)
    ensures VotesFor(WithoutVotes(votes, archive), other) == if other == archive then [] else VotesFor(votes, other)
  {
    if |votes| > 0 {
      OtherArchiveKept(votes[..|votes| - 1], archive, other);
      var kept := WithoutVotes(votes[..|votes| - 1], archive);
      if votes[|votes| - 1].archive != archive {
        assert (kept + [votes[|votes| - 1]])[..|kept|] == kept;
      }
    }
  }

  lemma {:induction false} VotesForMembers(votes: seq<Vote>, archive: string)
    ensures forall v :: v in VotesFor(votes, archive) <==> v in votes && v.archive == archive
  {
    forall v
      ensures v in VotesFor(votes, archive) <==> v in votes && v.archive == archive
    {
      FilterMultiset((x: Vote) => x.archive == archive, votes, v);
    }
  }

  lemma VotesForAppend(votes: seq<Vote>, v: Vote, archive: string)
    ensures VotesFor(votes + [v], archive) == VotesFor(votes, archive) + if v.archive == archive then [v] else []
  {
    assert (votes + [v])[..|votes|] == votes;
  }

  lemma AppendKeepsUnique(votes: seq<Vote>, v: Vote)
    requires OneVoteEach(votes) && !HasVoted(votes, v.archive, v.votedBy)
    ensures OneVoteEach(votes + [v])
  {
  }

  /** Who a new vote on the archive must name: its own caster if it opens the request. */
  function RequesterOf(votes: seq<Vote>, archive: string, votedBy: int): int {
    if VotesFor(votes, archive) == [] then votedBy else VotesFor(votes, archive)[0].requestedBy
  }

  lemma AppendKeepsRequester(votes: seq<Vote>, v: Vote, archive: string)
    requires RequesterFirst(votes, archive)
    requires v.archive == archive ==> v.requestedBy == RequesterOf(votes, archive, v.votedBy)
    ensures RequesterFirst(votes + [v], archive)
  {
    VotesForAppend(votes, v, archive);
  }

  lemma CastKeepsInv(s: State, archive: string, votedBy: int)
    requires Inv(s)
    ensures Inv(CastVote(s, archive, votedBy, RequesterOf(s.votes, archive, votedBy)))
  {
    if !HasVoted(s.votes, archive, votedBy) {
      var v := Vote(s.nextId, archive, RequesterOf(s.votes, archive, votedBy), votedBy);
      AppendKeepsUnique(s.votes, v);
      forall other: string
        ensures RequesterFirst(s.votes + [v], other)
      {
        AppendKeepsRequester(s.votes, v, other);
      }
    }
  }

  lemma ClearKeepsInv(s: State, archive: string)
    requires Inv(s)
    ensures Inv(s.(votes := WithoutVotes(s.votes, archive)))
  {
    KeptVotes((v: Vote) => v.archive != archive, s.votes);
    forall other: string
      ensures RequesterFirst(WithoutVotes(s.votes, archive), other)
    {
      assert RequesterFirst(s.votes, other);
      OtherArchiveKept(s.votes, archive, other);
    }
  }

  lemma DecideKeepsInv(s: State, archive: string, votesCast: nat, active: nat)
    requires Inv(s)
    ensures Inv(Decide(s, archive, votesCast, active).0)
  {
    ClearKeepsInv(s, archive);
  }

  lemma HandleKeepsInv(s: State, e: Event)
    requires Inv(s)
    ensures Inv(Handle(s, e).0)
  {
    match e
    case OnRequest(admin, archive, admins) =>
      CastKeepsInv(s, archive, admin);
      DecideKeepsInv(CastVote(s, archive, admin, RequesterOf(s.votes, archive, admin)), archive, 1, |admins|);
    case OnVote(admin, archive, admins) =>
      var cast := CastVote(s, archive, admin, RequesterOf(s.votes, archive, admin));
      CastKeepsInv(s, archive, admin);
      DecideKeepsInv(cast, archive, |VotesFor(cast.votes, archive)|, |admins|);
    case OnCancel(archive) => ClearKeepsInv(s, archive);
    case _ =>
  }

  /** In every reachable state no admin is counted twice, and each request's votes name its own requester. */
  lemma {:induction false} RunKeepsInv(states: seq<State>, events: seq<Event>, j: nat)
    requires Run(states, events) && j < |states|
    ensures Inv(states[j])
  {
    if j > 0 {
      var last := events[j - 1];
      RunKeepsInv(states, events, j - 1);
      HandleKeepsInv(states[j - 1], last);
    }
  }

  // ---- Counting -------------------------------------------------------------------------------

  lemma VotersAppend(votes: seq<Vote>, v: Vote, archive: string)
    ensures Voters(votes + [v], archive) == Voters(votes, archive) + if v.archive == archive then {v.votedBy} else {}
  {
    var all := votes + [v];
    assert forall x :: x in all <==> x in votes || x == v;
  }

  lemma {:induction false} CountIsDistinct(votes: seq<Vote>, archive: string)
    requires OneVoteEach(votes)
    ensures |VotesFor(votes, archive)| == |Voters(votes, archive)|
  {
    if |votes| > 0 {
      var front, last := votes[..|votes| - 1], votes[|votes| - 1];
      assert votes == front + [last];
      CountIsDistinct(front, archive);
      VotersAppend(front, last, archive);
      if last.archive == archive {
        assert last.votedBy !in Voters(front, archive);
      }
    }
  }

  /** The handler's caller, when the event is one that votes. */
  predicate Votes(e: Event) { e.OnRequest? || e.OnVote? }

  /** Everyone counted by the handler: the votes so far and the caller's own. */
  function Counted(s: State, e: Event): set<int>
    requires Votes(e)
  {
    Voters(s.votes, e.archive) + {e.admin}
  }

  lemma CastCount(s: State, archive: string, admin: int, requestedBy: int)
    requires Inv(s) && OneVoteEach(CastVote(s, archive, admin, requestedBy).votes)
    ensures |VotesFor(CastVote(s, archive, admin, requestedBy).votes, archive)| == |Voters(s.votes, archive) + {admin}|
  {
    var after := CastVote(s, archive, admin, requestedBy).votes;
    CountIsDistinct(after, archive);
    if HasVoted(s.votes, archive, admin) {
      var i :| 0 <= i < |s.votes| && s.votes[i].archive == archive && s.votes[i].votedBy == admin;
      assert s.votes[i] in s.votes;
    }
    assert Voters(after, archive) == Voters(s.votes, archive) + {admin};
  }

  /** May this caller's handler get as far as the threshold? */
  predicate Admitted(s: State, e: Event)
    requires Votes(e)
  {
    && Exists(s.archives, e.archive)
    && (e.OnRequest? <==> VotesFor(s.votes, e.archive) == [])
    && !HasVoted(s.votes, e.archive, e.admin)
  }

  /**
   A handler deletes exactly when it is admitted, nothing depends on the archive, and twice the distinct
   voters exceed the number of active SUPER_ADMINs it read. Deleting removes the archive and its votes
   and nothing else.
   */
  lemma DeleteExact(s: State, e: Event)
    requires Inv(s) && Votes(e)
    ensures Handle(s, e).1.Deleted? <==>
            Admitted(s, e) && !HasDependents(s.archives, e.archive) && 2 * |Counted(s, e)| > |e.admins|
    ensures Handle(s, e).1.Deleted? ==>
              && Handle(s, e).1.votesCast == |Counted(s, e)|
              && Handle(s, e).0.archives == WithoutArchive(s.archives, e.archive)
              && forall other :: VotesFor(Handle(s, e).0.votes, other)
                                 == if other == e.archive then [] else VotesFor(s.votes, other)
  {
    VotesForMembers(s.votes, e.archive);
    if Admitted(s, e) {
      var requestedBy := RequesterOf(s.votes, e.archive, e.admin);
      CastKeepsInv(s, e.archive, e.admin);
      CastCount(s, e.archive, e.admin, requestedBy);
      var cast := CastVote(s, e.archive, e.admin, requestedBy);
      VotesForAppend(s.votes, cast.votes[|s.votes|], e.archive);
      forall other
        ensures VotesFor(WithoutVotes(cast.votes, e.archive), other)
                == if other == e.archive then [] else VotesFor(s.votes, other)
      {
        OtherArchiveKept(cast.votes, e.archive, other);
        VotesForAppend(s.votes, cast.votes[|s.votes|], other);
      }
    }
  }

  /** An archive is still there after a step, unless retention dropped it or a handler deleted it. */
  lemma ArchiveStays(s: State, e: Event, i: nat)
    requires i < |s.archives|
    requires e != OnRetention(s.archives[i].id)
    requires !(Votes(e) && e.archive == s.archives[i].id && Handle(s, e).1.Deleted?)
    ensures Exists(Handle(s, e).0.archives, s.archives[i].id)
  {
    if e.OnNewArchive? {
      assert Handle(s, e).0.archives[i] == s.archives[i];
    } else if e.archive != s.archives[i].id {
      StillThere(s.archives, e.archive, i);
    }
  }

  /** Archives leave by retention or by a handler that met the quorum; no other step removes one. */
  lemma OnlyDeletionRemoves(states: seq<State>, events: seq<Event>, k: nat, archive: string)
    requires Run(states, events) && k < |events|
    requires Exists(states[k].archives, archive) && !Exists(states[k + 1].archives, archive)
    ensures events[k] == OnRetention(archive) ||
            (Votes(events[k]) && events[k].archive == archive && Admitted(states[k], events[k])
             && !HasDependents(states[k].archives, archive) && 2 * |Counted(states[k], events[k])| > |events[k].admins|)
  {
    var e := events[k];
    RunKeepsInv(states, events, k);
    var i :| 0 <= i < |states[k].archives| && states[k].archives[i].id == archive;
    if e != OnRetention(archive) {
      if Votes(e) {
        DeleteExact(states[k], e);
      }
      if !(Votes(e) && e.archive == archive && Handle(states[k], e).1.Deleted?) {
        ArchiveStays(states[k], e, i);
      }
    }
  }

  lemma {:induction false} StillThere(archives: seq<Archive>, id: string, i: nat)
    requires i < |archives| && archives[i].id != id
    ensures Exists(WithoutArchive(archives, id), archives[i].id)
  {
    FilterMultiset((a: Archive) => a.id != id, archives, archives[i]);
    var kept := WithoutArchive(archives, id);
    var j :| 0 <= j < |kept| && kept[j] == archives[i];
  }

  // ---- Every vote was cast --------------------------------------------------------------------

  /** The admin's own handler ran for the archive at step `k`, and nothing has cleared the request since. */
  predicate CastAt(states: seq<State>, events: seq<Event>, k: int, j: int, archive: string, admin: int)
    requires |states| == |events| + 1 && 0 <= k < j < |states|
  {
    && Votes(events[k]) && events[k].archive == archive && events[k].admin == admin
    && forall i :: k < i <= j ==> VotesFor(states[i].votes, archive) != []
  }

  predicate WasCast(states: seq<State>, events: seq<Event>, j: int, archive: string, admin: int)
    requires |states| == |events| + 1 && j < |states|
  {
    exists k :: 0 <= k < j && CastAt(states, events, k, j, archive, admin)
  }

  lemma ClearAddsNone(votes: seq<Vote>, archive: string, v: Vote)
    ensures v in WithoutVotes(votes, archive) ==> v in votes
  {
    FilterMultiset((x: Vote) => x.archive != archive, votes, v);
  }

  lemma DecideAddsNone(s: State, archive: string, votesCast: nat, active: nat, v: Vote)
    ensures v in Decide(s, archive, votesCast, active).0.votes ==> v in s.votes
  {
    ClearAddsNone(s.votes, archive, v);
  }

  lemma CastAddsOne(s: State, archive: string, admin: int, requestedBy: int, v: Vote)
    requires v in CastVote(s, archive, admin, requestedBy).votes
    ensures v in s.votes || (v.archive == archive && v.votedBy == admin)
  {
  }

  lemma NewVoteIsCallers(s: State, e: Event, v: Vote)
    requires v in Handle(s, e).0.votes && v !in s.votes
    ensures Votes(e) && e.archive == v.archive && e.admin == v.votedBy
  {
    match e
    case OnRequest(admin, archive, admins) =>
      if Exists(s.archives, archive) && VotesFor(s.votes, archive) == [] {
        var cast := CastVote(s, archive, admin, admin);
        DecideAddsNone(cast, archive, 1, |admins|, v);
        CastAddsOne(s, archive, admin, admin, v);
      }
    case OnVote(admin, archive, admins) =>
      if Exists(s.archives, archive) && VotesFor(s.votes, archive) != [] && !HasVoted(s.votes, archive, admin) {
        var requestedBy := VotesFor(s.votes, archive)[0].requestedBy;
        var cast := CastVote(s, archive, admin, requestedBy);
        DecideAddsNone(cast, archive, |VotesFor(cast.votes, archive)|, |admins|, v);
        CastAddsOne(s, archive, admin, requestedBy, v);
      }
    case OnCancel(archive) => ClearAddsNone(s.votes, archive, v);
    case _ =>
  }

  /** No vote appears without its admin having called: every counted voter cast it since the request was opened. */
  lemma {:induction false} VotersHaveCast(states: seq<State>, events: seq<Event>, j: nat, archive: string, admin: int)
    requires Run(states, events) && j < |states| && admin in Voters(states[j].votes, archive)
    ensures WasCast(states, events, j, archive, admin)
  {
    if j > 0 {
      var last := events[j - 1];
      VotesForMembers(states[j].votes, archive);
      assert VotesFor(states[j].votes, archive) != [];
      if admin in Voters(states[j - 1].votes, archive) {
        VotersHaveCast(states, events, j - 1, archive, admin);
        var k :| 0 <= k < j - 1 && CastAt(states, events, k, j - 1, archive, admin);
        assert CastAt(states, events, k, j, archive, admin);
      } else {
        var v :| v in states[j].votes && v.archive == archive && v.votedBy == admin;
        NewVoteIsCallers(states[j - 1], last, v);
        assert CastAt(states, events, j - 1, j, archive, admin);
      }
    }
  }

  // ---- The documented majority ------------------------------------------------------------------

  /** A strict majority of those who are active SUPER_ADMINs now. */
  predicate StrictMajority(voters: set<int>, active: set<int>) { 2 * |voters * active| > |active| }

  lemma FreshAdmins(taken: set<int>, n: nat) returns (newcomers: set<int>)
    ensures |newcomers| == n && newcomers !! taken
  {
    newcomers := {};
    while |newcomers| < n
      invariant |newcomers| <= n && newcomers !! taken
    {
      var a := NotIn(taken + newcomers);
      newcomers := newcomers + {a};
    }
  }

  lemma {:induction false} NotIn(taken: set<int>) returns (a: int)
    ensures a !in taken
  {
    a := 0;
    var below: set<int> := {};
    while a in taken
      invariant below <= taken && 0 <= a
      invariant forall x :: x in below <==> 0 <= x < a
      decreases taken - below
    {
      below := below + {a};
      a := a + 1;
    }
  }

  /** An active set below twice the voters in which exactly `stale` of them are missing, and no majority of it voted. */
  lemma MinorityActive(voters: set<int>, stale: set<int>) returns (active: set<int>)
    requires stale <= voters && stale != {}
    ensures voters - active == stale && 2 * |voters| > |active| && !StrictMajority(voters, active)
  {
    var current := voters - stale;
    assert voters == current + stale;
    assert |stale| > 0;
    var others := FreshAdmins(voters, 2 * |voters| - 1 - |current|);
    active := current + others;
    assert voters * active == current;
  }

  /**
   The count behind a deletion is of votes, not of voters who are still active. Whatever the active set,
   a deletion has the documented majority, for all active sets that make the given voters stale, exactly
   when no voter is stale.
   */
  lemma MajorityExact(voters: set<int>, stale: set<int>)
    requires stale <= voters
    ensures (forall active :: voters - active == stale && 2 * |voters| > |active| ==> StrictMajority(voters, active))
            <==> stale == {}
  {
    if stale == {} {
      forall active | voters - active == stale && 2 * |voters| > |active|
        ensures StrictMajority(voters, active)
      {
        assert forall v :: v in voters && v !in active ==> v in voters - active;
        assert voters * active == voters;
      }
    } else {
      var active := MinorityActive(voters, stale);
      assert voters - active == stale;
    }
  }

  /** The same call, reading another set of active SUPER_ADMINs. */
  function Reading(e: Event, admins: set<int>): Event
    requires Votes(e)
  {
    e.(admins := admins)
  }

  /** The run goes on with this call, which deletes the archive. */
  predicate DeletesNext(states: seq<State>, events: seq<Event>, e: Event)
    requires |states| > 0
  {
    var (next, reply) := Handle(states[|states| - 1], e);
    Run(states + [next], events + [e]) && reply.Deleted?
  }

  lemma ReadingDeletes(states: seq<State>, events: seq<Event>, e: Event, admins: set<int>)
    requires Run(states, events) && Votes(e)
    ensures var s := states[|states| - 1];
            DeletesNext(states, events, Reading(e, admins)) <==>
            Admitted(s, e) && !HasDependents(s.archives, e.archive) && 2 * |Counted(s, e)| > |admins|
  {
    var s := states[|states| - 1];
    RunKeepsInv(states, events, |states| - 1);
    DeleteExact(s, Reading(e, admins));
    assert Counted(s, Reading(e, admins)) == Counted(s, e);
  }

  /**
   The documented majority over runs. A run has come to the call of an active SUPER_ADMIN that gets as far as
   the threshold, and `stale` of the voters it will count have lost the role since. Every way the run can go on
   with this call deleting the archive has a strict majority of those active behind it exactly when no voter
   is stale.
   */
  lemma DeletionMajorityExact(states: seq<State>, events: seq<Event>, e: Event, stale: set<int>)
    requires Run(states, events) && Votes(e) && Admitted(states[|states| - 1], e)
    requires !HasDependents(states[|states| - 1].archives, e.archive)
    requires stale <= Counted(states[|states| - 1], e) - {e.admin}
    ensures (forall admins :: e.admin in admins && Counted(states[|states| - 1], e) - admins == stale
                              && DeletesNext(states, events, Reading(e, admins))
                              ==> StrictMajority(Counted(states[|states| - 1], e), admins))
            <==> stale == {}
  {
    var voters := Counted(states[|states| - 1], e);
    if stale == {} {
      forall admins | voters - admins == stale && DeletesNext(states, events, Reading(e, admins))
        ensures StrictMajority(voters, admins)
      {
        ReadingDeletes(states, events, e, admins);
        MajorityExact(voters, stale);
      }
    } else {
      var admins := MinorityActive(voters, stale);
      assert e.admin in voters - stale;
      ReadingDeletes(states, events, e, admins);
    }
  }

  /** With every counted voter still active, a deletion is backed by a strict majority of active SUPER_ADMINs. */
  lemma DeletionByMajority(s: State, e: Event)
    requires Inv(s) && Votes(e) && Handle(s, e).1.Deleted? && Counted(s, e) <= e.admins
    ensures StrictMajority(Counted(s, e), e.admins)
  {
    DeleteExact(s, e);
    assert Counted(s, e) * e.admins == Counted(s, e);
  }

  lemma FirstRequest(archive: string, admin: int, admins: set<int>)
    requires |admins| >= 2
    ensures var s0 := State([Archive(archive, {})], [], 1);
            var s1 := s0.(votes := [Vote(1, archive, admin, admin)], nextId := 2);
            Handle(s0, OnRequest(admin, archive, admins)).0 == s1 && Inv(s1) && Exists(s1.archives, archive)
  {
    var s0 := State([Archive(archive, {})], [], 1);
    assert s0.archives[0].id == archive;
    assert [] + [Vote(1, archive, admin, admin)] == [Vote(1, archive, admin, admin)];
    HandleKeepsInv(s0, OnRequest(admin, archive, admins));
  }

  lemma OneVote(v: Vote)
    ensures VotesFor([v], v.archive) == [v] && Voters([v], v.archive) == {v.votedBy}
  {
    VotesForAppend([], v, v.archive);
    assert [] + [v] == [v];
    assert v in [v];
  }

  lemma QuorumDeletes(s: State, e: Event)
    requires Inv(s) && Votes(e) && Admitted(s, e) && !HasDependents(s.archives, e.archive)
    requires 2 * |Counted(s, e)| > |e.admins|
    ensures Handle(s, e).1.Deleted?
  {
    DeleteExact(s, e);
  }

  lemma SecondVoteAdmitted(archive: string, first: int, second: int, other: int)
    requires first != second
    ensures var s1 := State([Archive(archive, {})], [Vote(1, archive, first, first)], 2);
            var e := OnVote(second, archive, {second, other});
            Admitted(s1, e) && !HasDependents(s1.archives, archive) && Counted(s1, e) == {first, second}
  {
    var s1 := State([Archive(archive, {})], [Vote(1, archive, first, first)], 2);
    OneVote(s1.votes[0]);
    assert s1.archives[0].id == archive;
  }

  /** One pending vote, by an admin who has lost the role since, and one more by one of the two who remain. */
  lemma SecondVoteDeletes(archive: string, first: int, second: int, other: int)
    requires first != second && second != other && first != other
    ensures var s1 := State([Archive(archive, {})], [Vote(1, archive, first, first)], 2);
            var e := OnVote(second, archive, {second, other});
            Inv(s1) ==> Handle(s1, e).1.Deleted? && Counted(s1, e) == {first, second}
  {
    var s1 := State([Archive(archive, {})], [Vote(1, archive, first, first)], 2);
    SecondVoteAdmitted(archive, first, second, other);
    if Inv(s1) {
      QuorumDeletes(s1, OnVote(second, archive, {second, other}));
    }
  }

  /**
   Three active SUPER_ADMINs; the requester loses the role; one of the remaining two votes. The archive goes
   with one vote out of two active SUPER_ADMINs.
   */
  lemma DemotedVoterCounts(archive: string) returns (states: seq<State>, events: seq<Event>)
    ensures Run(states, events) && events == [OnRequest(1, archive, {1, 2, 3}), OnVote(2, archive, {2, 3})]
    ensures Handle(states[1], events[1]).1.Deleted?
    ensures !StrictMajority(Counted(states[1], events[1]), {2, 3})
  {
    events := [OnRequest(1, archive, {1, 2, 3}), OnVote(2, archive, {2, 3})];
    var s0 := State([Archive(archive, {})], [], 1);
    var s1 := Handle(s0, events[0]).0;
    states := [s0, s1, Handle(s1, events[1]).0];
    FirstRequest(archive, 1, {1, 2, 3});
    SecondVoteDeletes(archive, 1, 2, 3);
    assert {1, 2} * {2, 3} == {2};
  }
}

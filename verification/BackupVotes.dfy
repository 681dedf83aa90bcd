/**
 Deleting a backup archive by majority: the pending votes, the three handlers, and the archive store's
 refusal to delete what another archive depends on.
 */
module BackupVotes {
  import opened Common

  datatype Vote = Vote(id: nat, archive: string, requestedBy: int, votedBy: int)

  /** An archive and the archives it takes unchanged tables from. */
  datatype Archive = Archive(id: string, sources: set<string>)

  function VotesFor(votes: seq<Vote>, archive: string): seq<Vote> {
    Filter((v: Vote) => v.archive == archive, votes)
  }

  function Voters(votes: seq<Vote>, archive: string): set<int> {
    set v | v in votes && v.archive == archive :: v.votedBy
  }

  predicate HasVoted(votes: seq<Vote>, archive: string, admin: int) {
    exists i :: 0 <= i < |votes| && votes[i].archive == archive && votes[i].votedBy == admin
  }

  predicate Exists(archives: seq<Archive>, id: string) {
    exists i :: 0 <= i < |archives| && archives[i].id == id
  }

  /** Some other archive takes tables from this one. */
  predicate HasDependents(archives: seq<Archive>, id: string) {
    exists i :: 0 <= i < |archives| && archives[i].id != id && id in archives[i].sources
  }

  function WithoutArchive(archives: seq<Archive>, id: string): seq<Archive> {
    Filter((a: Archive) => a.id != id, archives)
  }

  function WithoutVotes(votes: seq<Vote>, archive: string): seq<Vote> {
    Filter((v: Vote) => v.archive != archive, votes)
  }

  function VotesNeeded(activeSuperAdmins: nat): nat { activeSuperAdmins / 2 + 1 }

  datatype State = State(archives: seq<Archive>, votes: seq<Vote>, nextId: nat)

  datatype Reply =
    | NotFound | AlreadyRequested | NoRequest | AlreadyVoted | RefusedDependents
    | Pending(votesCast: nat, votesNeeded: nat) | Deleted(votesCast: nat, votesNeeded: nat) | Cancelled

  function CastVote(s: State, archive: string, votedBy: int, requestedBy: int): State {
    if HasVoted(s.votes, archive, votedBy) then s
    else s.(votes := s.votes + [Vote(s.nextId, archive, requestedBy, votedBy)], nextId := s.nextId + 1)
  }

  /** Threshold met: the archive goes, unless others depend on it, and its votes with it. */
  function Decide(s: State, archive: string, votesCast: nat, active: nat): (State, Reply) {
    if votesCast < VotesNeeded(active) then (s, Pending(votesCast, VotesNeeded(active)))
    else if !Exists(s.archives, archive) then (s, NotFound)
    else if HasDependents(s.archives, archive) then (s, RefusedDependents)
    else (s.(archives := WithoutArchive(s.archives, archive), votes := WithoutVotes(s.votes, archive)),
          Deleted(votesCast, VotesNeeded(active)))
  }

  function Request(s: State, admin: int, archive: string, active: nat): (State, Reply) {
    if !Exists(s.archives, archive) then (s, NotFound)
    else if VotesFor(s.votes, archive) != [] then (s, AlreadyRequested)
    else Decide(CastVote(s, archive, admin, admin), archive, 1, active)
  }

  function CastAndDecide(s: State, admin: int, archive: string, active: nat): (State, Reply) {
    if !Exists(s.archives, archive) then (s, NotFound)
    else if VotesFor(s.votes, archive) == [] then (s, NoRequest)
    else if HasVoted(s.votes, archive, admin) then (s, AlreadyVoted)
    else
      var cast := CastVote(s, archive, admin, VotesFor(s.votes, archive)[0].requestedBy);
      Decide(cast, archive, |VotesFor(cast.votes, archive)|, active)
  }

  function Cancel(s: State, archive: string): (State, Reply) {
    if !Exists(s.archives, archive) then (s, NotFound)
    else if VotesFor(s.votes, archive) == [] then (s, NoRequest)
    else (s.(votes := WithoutVotes(s.votes, archive)), Cancelled)
  }

  // ---- What the handlers answer, from the archives and votes alone ---------------------------------

  /** The least number of votes that is more than half. */
  ghost predicate IsQuorum(needed: nat, active: nat) { 2 * needed > active && (needed > 0 ==> 2 * (needed - 1) <= active) }

  ghost predicate Known(s: State, archive: string) { exists i :: 0 <= i < |s.archives| && s.archives[i].id == archive }

  ghost predicate Requested(s: State, archive: string) { exists i :: 0 <= i < |s.votes| && s.votes[i].archive == archive }

  ghost predicate HasVote(s: State, archive: string, admin: int) {
    exists i :: 0 <= i < |s.votes| && s.votes[i].archive == archive && s.votes[i].votedBy == admin
  }

  ghost predicate NeededByOthers(s: State, archive: string) {
    exists i :: 0 <= i < |s.archives| && s.archives[i].id != archive && archive in s.archives[i].sources
  }

  /** The votes on the archive are gone and every other vote is there as before. */
  ghost predicate VotesGone(before: State, after: State, archive: string) {
    && !Requested(after, archive)
    && forall v: Vote :: v.archive != archive ==> multiset(after.votes)[v] == multiset(before.votes)[v]
  }

  ghost predicate ArchiveGone(before: State, after: State, archive: string) {
    && !Known(after, archive)
    && forall a: Archive :: a.id != archive ==> multiset(after.archives)[a] == multiset(before.archives)[a]
  }

  lemma VotesForRequested(s: State, archive: string)
    ensures VotesFor(s.votes, archive) != [] <==> Requested(s, archive)
  {
    var mine := VotesFor(s.votes, archive);
    if mine != [] {
      FilterMultiset((v: Vote) => v.archive == archive, s.votes, mine[0]);
      assert mine[0] in mine;
      var i :| 0 <= i < |s.votes| && s.votes[i] == mine[0];
    }
    if Requested(s, archive) {
      var i :| 0 <= i < |s.votes| && s.votes[i].archive == archive;
      FilterMultiset((v: Vote) => v.archive == archive, s.votes, s.votes[i]);
    }
  }

  lemma WithoutVotesGone(s: State, archive: string)
    ensures VotesGone(s, s.(votes := WithoutVotes(s.votes, archive)), archive)
  {
    var kept := WithoutVotes(s.votes, archive);
    forall v: Vote
      ensures multiset(kept)[v] == if v.archive != archive then multiset(s.votes)[v] else 0
    {
      FilterMultiset((x: Vote) => x.archive != archive, s.votes, v);
    }
    assert forall i :: 0 <= i < |kept| ==> kept[i] in multiset(kept);
  }

  lemma WithoutArchiveGone(s: State, archive: string)
    ensures ArchiveGone(s, s.(archives := WithoutArchive(s.archives, archive)), archive)
  {
    var kept := WithoutArchive(s.archives, archive);
    forall a: Archive
      ensures multiset(kept)[a] == if a.id != archive then multiset(s.archives)[a] else 0
    {
      FilterMultiset((x: Archive) => x.id != archive, s.archives, a);
    }
    assert forall i :: 0 <= i < |kept| ==> kept[i] in multiset(kept);
  }

  /** The outcome of a count of `votesCast`, once the vote is in; the archive may have gone meanwhile. */
  ghost predicate Decided(cast: State, archive: string, votesCast: nat, active: nat, after: State, r: Reply) {
    if 2 * votesCast <= active then
      after == cast && r.Pending? && r.votesCast == votesCast && IsQuorum(r.votesNeeded, active)
    else if !Known(cast, archive) then after == cast && r == NotFound
    else if NeededByOthers(cast, archive) then after == cast && r == RefusedDependents
    else
      && r.Deleted? && r.votesCast == votesCast && IsQuorum(r.votesNeeded, active) && after.nextId == cast.nextId
      && VotesGone(cast, after, archive) && ArchiveGone(cast, after, archive)
  }

  lemma DecideExact(s: State, archive: string, votesCast: nat, active: nat)
    ensures Decided(s, archive, votesCast, active, Decide(s, archive, votesCast, active).0, Decide(s, archive, votesCast, active).1)
  {
    WithoutVotesGone(s, archive);
    WithoutArchiveGone(s, archive);
  }

  /** One vote more, with the next id. */
  predicate Adds(s: State, archive: string, requestedBy: int, votedBy: int, cast: State) {
    cast == State(s.archives, s.votes + [Vote(s.nextId, archive, requestedBy, votedBy)], s.nextId + 1)
  }

  lemma RequestExact(s: State, admin: int, archive: string, active: nat) returns (cast: State)
    ensures var (after, r) := Request(s, admin, archive, active);
            if !Known(s, archive) then after == s && r == NotFound
            else if Requested(s, archive) then after == s && r == AlreadyRequested
            else Adds(s, archive, admin, admin, cast) && Decided(cast, archive, 1, active, after, r)
  {
    VotesForRequested(s, archive);
    cast := CastVote(s, archive, admin, admin);
    if Known(s, archive) {
      DecideExact(cast, archive, 1, active);
    }
  }

  /** A vote repeats the requester named by the request's first vote and counts the votes with its own. */
  lemma VoteExact(s: State, admin: int, archive: string, active: nat) returns (cast: State)
    ensures var (after, r) := CastAndDecide(s, admin, archive, active);
            if !Known(s, archive) then after == s && r == NotFound
            else if !Requested(s, archive) then after == s && r == NoRequest
            else if HasVote(s, archive, admin) then after == s && r == AlreadyVoted
            else
              && VotesFor(s.votes, archive) != []
              && Adds(s, archive, VotesFor(s.votes, archive)[0].requestedBy, admin, cast)
              && Decided(cast, archive, |VotesFor(s.votes, archive)| + 1, active, after, r)
  {
    VotesForRequested(s, archive);
    cast := s;
    if Known(s, archive) && Requested(s, archive) && !HasVote(s, archive, admin) {
      cast := CastVote(s, archive, admin, VotesFor(s.votes, archive)[0].requestedBy);
      assert cast.votes[..|s.votes|] == s.votes;
      DecideExact(cast, archive, |VotesFor(cast.votes, archive)|, active);
    }
  }

  lemma CancelExact(s: State, archive: string)
    ensures var (after, r) := Cancel(s, archive);
            if !Known(s, archive) then after == s && r == NotFound
            else if !Requested(s, archive) then after == s && r == NoRequest
            else r == Cancelled && after.archives == s.archives && after.nextId == s.nextId && VotesGone(s, after, archive)
  {
    VotesForRequested(s, archive);
    WithoutVotesGone(s, archive);
  }

  // ---- As the model and the controller have it ----------------------------------------------------

  lemma ClearStep(votes: seq<Vote>, archive: string, i: nat)
    requires i < |votes|
    ensures WithoutVotes(votes[..i + 1], archive)
            == WithoutVotes(votes[..i], archive) + if votes[i].archive == archive then [] else [votes[i]]
    ensures |VotesFor(votes[..i + 1], archive)|
            == |VotesFor(votes[..i], archive)| + if votes[i].archive == archive then 1 else 0
  {
    FilterStep((v: Vote) => v.archive != archive, votes, i);
    FilterStep((v: Vote) => v.archive == archive, votes, i);
  }

  lemma RemoveAt(front: seq<Vote>, x: Vote, back: seq<Vote>)
    ensures (front + [x] + back)[..|front|] + (front + [x] + back)[|front| + 1..] == front + back
  {
  }

  /** One archive's pending votes as the listing shows them. */
  datatype PendingVotes = PendingVotes(archive: string, requestedBy: int, votedBy: seq<int>)

  function VotedBy(votes: seq<Vote>): seq<int> {
    seq(|votes|, i requires 0 <= i < |votes| => votes[i].votedBy)
  }

  class VoteStore {
    var archives: seq<Archive>
    var votes: seq<Vote>
    var nextId: nat

    ghost function View(): State reads this { State(archives, votes, nextId) }

    constructor (archives: seq<Archive>)
      ensures View() == State(archives, [], 1)
    {
      this.archives, votes, nextId := archives, [], 1;
    }

    method Cast(archive: string, votedBy: int, requestedBy: int) returns (inserted: bool)
      modifies this`votes, this`nextId
      ensures View() == CastVote(old(View()), archive, votedBy, requestedBy)
      ensures inserted <==> !HasVoted(old(votes), archive, votedBy)
    {
      if exists i :: 0 <= i < |votes| && votes[i].archive == archive && votes[i].votedBy == votedBy {
        return false;
      }
      votes := votes + [Vote(nextId, archive, requestedBy, votedBy)];
      nextId := nextId + 1;
      inserted := true;
    }

    /** Splices the archive's votes out from the back. */
    method CancelRequest(archive: string) returns (deletedCount: nat)
      modifies this`votes
      ensures votes == WithoutVotes(old(votes), archive)
      ensures deletedCount == |VotesFor(old(votes), archive)|
    {
      ghost var before := votes;
      deletedCount := 0;
      ghost var kept: seq<Vote> := [];
      var i := |votes|;
      assert before[..i] == before;
      while i > 0
        invariant 0 <= i <= |before| && votes == before[..i] + kept
        invariant WithoutVotes(before, archive) == WithoutVotes(before[..i], archive) + kept
        invariant |VotesFor(before, archive)| == |VotesFor(before[..i], archive)| + deletedCount
      {
        i := i - 1;
        ClearStep(before, archive, i);
        assert before[..i + 1] == before[..i] + [before[i]];
        if votes[i].archive == archive {
          RemoveAt(before[..i], before[i], kept);
          votes := votes[..i] + votes[i + 1..];
          deletedCount := deletedCount + 1;
        } else {
          kept := [before[i]] + kept;
        }
      }
    }

    /** `active` is the number of active SUPER_ADMINs this handler reads. */
    method DecideDelete(archive: string, votesCast: nat, active: nat) returns (r: Reply)
      modifies this
      ensures (View(), r) == Decide(old(View()), archive, votesCast, active)
    {
      var votesNeeded := VotesNeeded(active);
      if votesCast < votesNeeded {
        return Pending(votesCast, votesNeeded);
      }
      if !Exists(archives, archive) {
        return NotFound;
      }
      if HasDependents(archives, archive) {
        return RefusedDependents;
      }
      archives := WithoutArchive(archives, archive);
      var _ := CancelRequest(archive);
      r := Deleted(votesCast, votesNeeded);
    }

    method RequestDelete(admin: int, archive: string, active: nat) returns (r: Reply)
      modifies this
      ensures (View(), r) == Request(old(View()), admin, archive, active)
    {
      if !Exists(archives, archive) {
        return NotFound;
      }
      if VotesFor(votes, archive) != [] {
        return AlreadyRequested;
      }
      var _ := Cast(archive, admin, admin);
      r := DecideDelete(archive, 1, active);
    }

    method VoteDelete(admin: int, archive: string, active: nat) returns (r: Reply)
      modifies this
      ensures (View(), r) == CastAndDecide(old(View()), admin, archive, active)
    {
      if !Exists(archives, archive) {
        return NotFound;
      }
      var existing := VotesFor(votes, archive);
      if existing == [] {
        return NoRequest;
      }
      var inserted := Cast(archive, admin, existing[0].requestedBy);
      if !inserted {
        return AlreadyVoted;
      }
      r := DecideDelete(archive, |VotesFor(votes, archive)|, active);
    }

    method CancelDelete(archive: string) returns (r: Reply)
      modifies this`votes
      ensures (View(), r) == Cancel(old(View()), archive)
    {
      if !Exists(archives, archive) {
        return NotFound;
      }
      if VotesFor(votes, archive) == [] {
        return NoRequest;
      }
      var _ := CancelRequest(archive);
      r := Cancelled;
    }
  }

  // ---- The listing ----------------------------------------------------------------------------

  /** The groups cover the votes: one per archive, holding that archive's votes in order. */
  predicate GroupsVotes(groups: seq<PendingVotes>, votes: seq<Vote>) {
    && (forall i, j :: 0 <= i < j < |groups| ==> groups[i].archive != groups[j].archive)
    && (forall i :: 0 <= i < |groups| ==> GroupExact(groups[i], votes))
    && (forall k :: 0 <= k < |votes| ==> Listed(groups, votes[k].archive))
  }

  predicate Listed(groups: seq<PendingVotes>, archive: string) {
    exists i :: 0 <= i < |groups| && groups[i].archive == archive
  }

  predicate GroupExact(g: PendingVotes, votes: seq<Vote>) {
    var mine := VotesFor(votes, g.archive);
    mine != [] && g.requestedBy == mine[0].requestedBy && g.votedBy == VotedBy(mine)
  }

  lemma GroupExtends(g: PendingVotes, votes: seq<Vote>, i: nat)
    requires i < |votes| && GroupExact(g, votes[..i])
    ensures votes[i].archive != g.archive ==> GroupExact(g, votes[..i + 1])
    ensures votes[i].archive == g.archive ==> GroupExact(g.(votedBy := g.votedBy + [votes[i].votedBy]), votes[..i + 1])
  {
    FilterStep((v: Vote) => v.archive == g.archive, votes, i);
  }

  lemma {:induction false} NoVotes(votes: seq<Vote>, archive: string)
    requires forall k :: 0 <= k < |votes| ==> votes[k].archive != archive
    ensures VotesFor(votes, archive) == []
  {
    if |votes| > 0 {
      NoVotes(votes[..|votes| - 1], archive);
    }
  }

  method FindAllPendingVotes(votes: seq<Vote>) returns (groups: seq<PendingVotes>)
    ensures GroupsVotes(groups, votes)
  {
    groups := [];
    for i := 0 to |votes|
      invariant GroupsVotes(groups, votes[..i])
    {
      groups := AddToGroups(groups, votes, i);
    }
    assert votes[..|votes|] == votes;
  }

  lemma ListedStill(given: seq<PendingVotes>, groups: seq<PendingVotes>, votes: seq<Vote>, i: nat, now: seq<Vote>)
    requires i < |votes| && now == votes[..i + 1] && GroupsVotes(given, votes[..i]) && Listed(groups, votes[i].archive)
    requires |given| <= |groups| && forall g :: 0 <= g < |given| ==> groups[g].archive == given[g].archive
    ensures forall k :: 0 <= k < |now| ==> Listed(groups, now[k].archive)
  {
    forall k | 0 <= k < i
      ensures Listed(groups, votes[k].archive)
    {
      assert Listed(given, votes[..i][k].archive);
    }
  }

  /** A vote joins its archive's group, or opens one. */
  method AddToGroups(given: seq<PendingVotes>, votes: seq<Vote>, i: nat) returns (groups: seq<PendingVotes>)
    requires i < |votes| && GroupsVotes(given, votes[..i])
    ensures GroupsVotes(groups, votes[..i + 1])
  {
    var v := votes[i];
    forall g | 0 <= g < |given|
      ensures v.archive != given[g].archive ==> GroupExact(given[g], votes[..i + 1])
      ensures v.archive == given[g].archive ==> GroupExact(given[g].(votedBy := given[g].votedBy + [v.votedBy]), votes[..i + 1])
    {
      GroupExtends(given[g], votes, i);
    }
    if !Listed(given, v.archive) {
      NewGroup(given, votes, i);
      groups := given + [PendingVotes(v.archive, v.requestedBy, [v.votedBy])];
      assert groups[|given|].archive == v.archive;
    } else {
      var g :| 0 <= g < |given| && given[g].archive == v.archive;
      groups := given[g := given[g].(votedBy := given[g].votedBy + [v.votedBy])];
      assert groups[g].archive == v.archive;
    }
    ListedStill(given, groups, votes, i, votes[..i + 1]);
  }

  lemma NewGroup(given: seq<PendingVotes>, votes: seq<Vote>, i: nat)
    requires i < |votes| && GroupsVotes(given, votes[..i]) && !Listed(given, votes[i].archive)
    ensures GroupExact(PendingVotes(votes[i].archive, votes[i].requestedBy, [votes[i].votedBy]), votes[..i + 1])
  {
    forall k | 0 <= k < i
      ensures votes[..i][k].archive != votes[i].archive
    {
      assert Listed(given, votes[..i][k].archive);
    }
    NoVotes(votes[..i], votes[i].archive);
    FilterStep((x: Vote) => x.archive == votes[i].archive, votes, i);
  }
}

/**
 The refresh-token ledger: one row per issued refresh token, consumed once by a
 rotation and revoked by family or by user.

 `RotateSql`, `RevokeFamilyRows` and `RevokeUserRows` say what the SQL statements do to the
 table; `LedgerStore` is the in-memory form with the same methods. The whole-run theorems
 are about any interleaving of atomic ledger calls, starting from an empty table.
 */
module SessionLedger {
  import opened Common

  datatype Row = Row(
    hash: string, family: string, user: string, roleSource: string, issuedAt: int, expiresAt: int,
    used: Option<int>, replacedBy: Option<string>, revokedAt: Option<int>, reason: Option<string>)

  datatype Record = Record(
    hash: string, family: string, user: string, roleSource: string, issuedAt: int, expiresAt: int)

  /** `Conflict` is the rejected duplicate hash (the statement throws). */
  datatype Outcome = Ok | Reused | Revoked | Absent | Conflict

  function NewRow(rec: Record): Row {
    Row(rec.hash, rec.family, rec.user, rec.roleSource, rec.issuedAt, rec.expiresAt, None, None, None, None)
  }

  predicate Live(r: Row) { r.used.None? && r.revokedAt.None? }

  predicate HasHash(rows: seq<Row>, h: string) {
    exists i :: 0 <= i < |rows| && rows[i].hash == h
  }

  predicate Unique(rows: seq<Row>) {
    forall i, j :: 0 <= i < j < |rows| ==> rows[i].hash != rows[j].hash
  }

  function Find(rows: seq<Row>, h: string): (r: Option<nat>)
    ensures r.Some? ==> r.value < |rows| && rows[r.value].hash == h
    ensures r.None? <==> !HasHash(rows, h)
  {
    if |rows| == 0 then None
    else if rows[0].hash == h then Some(0)
    else
      var t := Find(rows[1..], h);
      assert forall i :: 1 <= i < |rows| ==> rows[i] == rows[1..][i - 1];
      if t.Some? then Some(t.value + 1) else None
  }

  // ---- What the SQL statements do -------------------------------------------------

  predicate Wins(rows: seq<Row>, h: string) {
    exists i :: 0 <= i < |rows| && rows[i].hash == h && Live(rows[i])
  }

  function Consumed(r: Row, now: int, successor: string): Row {
    r.(used := Some(now), replacedBy := Some(successor))
  }

  function Consume(rows: seq<Row>, h: string, now: int, successor: string): seq<Row> {
    seq(|rows|, i requires 0 <= i < |rows| =>
      if rows[i].hash == h && Live(rows[i]) then Consumed(rows[i], now, successor) else rows[i])
  }

  /** One transaction: the conditional update decides the winner, a non-winner never inserts. */
  function RotateSql(rows: seq<Row>, presented: string, next: Record, now: int, allowAbsent: bool): (seq<Row>, Outcome) {
    if Wins(rows, presented) then
      if HasHash(rows, next.hash) then (rows, Conflict)
      else (Consume(rows, presented, now, next.hash) + [NewRow(next)], Ok)
    else match Find(rows, presented)
      case None =>
        if !allowAbsent then (rows, Absent)
        else if HasHash(rows, next.hash) then (rows, Conflict)
        else (rows + [NewRow(next)], Ok)
      case Some(i) => (rows, if rows[i].revokedAt.Some? then Revoked else Reused)
  }

  function Stamp(r: Row, reason: string, now: int): Row {
    if r.revokedAt.None? then r.(revokedAt := Some(now), reason := Some(reason)) else r
  }

  function RevokeFamilyRows(rows: seq<Row>, family: string, reason: string, now: int): seq<Row> {
    seq(|rows|, i requires 0 <= i < |rows| =>
      if rows[i].family == family then Stamp(rows[i], reason, now) else rows[i])
  }

  function RevokeUserRows(rows: seq<Row>, user: string, reason: string, now: int): seq<Row> {
    seq(|rows|, i requires 0 <= i < |rows| =>
      if rows[i].user == user then Stamp(rows[i], reason, now) else rows[i])
  }

  predicate Expired(r: Row, cutoff: int) { r.expiresAt < cutoff }

  /** `after` is `before` without exactly `n` expired rows, the rest in order (ROWNUM leaves the choice open). */
  predicate Purged(before: seq<Row>, after: seq<Row>, cutoff: int, n: nat) {
    if |before| == 0 then |after| == 0 && n == 0
    else
      || (Expired(before[0], cutoff) && n > 0 && Purged(before[1..], after, cutoff, n - 1))
      || (|after| > 0 && after[0] == before[0] && Purged(before[1..], after[1..], cutoff, n))
  }

  function ExpiredCount(rows: seq<Row>, cutoff: int): (n: nat)
    ensures n <= |rows|
  {
    if |rows| == 0 then 0 else (if Expired(rows[0], cutoff) then 1 else 0) + ExpiredCount(rows[1..], cutoff)
  }

  function PurgeQuota(rows: seq<Row>, cutoff: int, limit: int): nat {
    Min(Max(0, limit), ExpiredCount(rows, cutoff))
  }

  // ---- Latest revocation per family ------------------------------------------------

  predicate RevokedSince(r: Row, since: int) { r.revokedAt.Some? && since <= r.revokedAt.value }

  /** MAX(REVOKED_AT) of a family among the rows revoked at or after `since`. */
  function Latest(rows: seq<Row>, family: string, since: int): Option<int> {
    if |rows| == 0 then None
    else
      var before := Latest(rows[..|rows| - 1], family, since);
      var r := rows[|rows| - 1];
      if r.family == family && RevokedSince(r, since) && (before.None? || r.revokedAt.value > before.value)
      then r.revokedAt else before
  }

  /** How many rows a purge removes: all expired ones, or as many as the limit allows, and never any with no limit left. */
  lemma PurgeQuotaExact(rows: seq<Row>, cutoff: int, limit: int)
    ensures var expired := Positions((r: Row) => r.expiresAt < cutoff, rows);
            && (limit <= 0 ==> PurgeQuota(rows, cutoff, limit) == 0)
            && (0 <= limit <= |expired| ==> PurgeQuota(rows, cutoff, limit) == limit)
            && (|expired| <= limit ==> PurgeQuota(rows, cutoff, limit) == |expired|)
  {
    ExpiredPositions(rows, cutoff);
  }

  lemma {:induction false} ExpiredPositions(rows: seq<Row>, cutoff: int)
    ensures ExpiredCount(rows, cutoff) == |Positions((r: Row) => r.expiresAt < cutoff, rows)|
  {
    var p := (r: Row) => r.expiresAt < cutoff;
    ExpiredIsCount(rows, cutoff);
    CountIfSize(p, rows);
  }

  lemma {:induction false} ExpiredIsCount(rows: seq<Row>, cutoff: int)
    ensures ExpiredCount(rows, cutoff) == CountIf((r: Row) => r.expiresAt < cutoff, rows)
  {
    if |rows| > 0 {
      var p := (r: Row) => r.expiresAt < cutoff;
      ExpiredIsCount(rows[1..], cutoff);
      assert rows == rows[..1] + rows[1..];
      CountIfConcat(p, rows[..1], rows[1..]);
      assert CountIf(p, rows[..1]) == if p(rows[0]) then 1 else 0 by {
        assert rows[..1][..0] == [];
      }
    }
  }

  lemma {:induction false} PurgedSize(before: seq<Row>, after: seq<Row>, cutoff: int, n: nat)
    requires Purged(before, after, cutoff, n)
    ensures |after| + n == |before|
  {
    if |before| > 0 {
      if Expired(before[0], cutoff) && n > 0 && Purged(before[1..], after, cutoff, n - 1) {
        PurgedSize(before[1..], after, cutoff, n - 1);
      } else {
        PurgedSize(before[1..], after[1..], cutoff, n);
      }
    }
  }

  /** The latest revocation of a family at or after `since`: there is one exactly if some row has one, and it is the maximum. */
  lemma LatestExact(rows: seq<Row>, family: string, since: int)
    ensures Latest(rows, family, since).None? <==>
            forall i :: 0 <= i < |rows| && rows[i].family == family && rows[i].revokedAt.Some? ==> rows[i].revokedAt.value < since
    ensures Latest(rows, family, since).Some? ==>
              && (forall i :: 0 <= i < |rows| && rows[i].family == family && rows[i].revokedAt.Some? ==>
                    rows[i].revokedAt.value <= Latest(rows, family, since).value)
              && since <= Latest(rows, family, since).value
              && exists i :: 0 <= i < |rows| && rows[i].family == family && rows[i].revokedAt == Latest(rows, family, since)
  {
    LatestIsMax(rows, family, since);
    if Latest(rows, family, since).Some? {
      assert forall i :: 0 <= i < |rows| && rows[i].family == family && rows[i].revokedAt.Some? ==>
          RevokedSince(rows[i], since) || rows[i].revokedAt.value < since;
    } else {
      assert forall i :: 0 <= i < |rows| && rows[i].family == family ==> !RevokedSince(rows[i], since);
    }
  }

  lemma {:induction false} LatestIsMax(rows: seq<Row>, family: string, since: int)
    ensures Latest(rows, family, since).Some? <==>
            exists i :: 0 <= i < |rows| && rows[i].family == family && RevokedSince(rows[i], since)
    ensures forall i :: 0 <= i < |rows| && rows[i].family == family && RevokedSince(rows[i], since) ==>
              rows[i].revokedAt.value <= Latest(rows, family, since).value
    ensures Latest(rows, family, since).Some? ==>
              exists i :: 0 <= i < |rows| && rows[i].family == family && RevokedSince(rows[i], since)
                          && rows[i].revokedAt == Latest(rows, family, since)
  {
    if |rows| > 0 {
      var front := rows[..|rows| - 1];
      LatestIsMax(front, family, since);
      assert forall i :: 0 <= i < |front| ==> front[i] == rows[i];
      if exists i :: 0 <= i < |front| && front[i].family == family && RevokedSince(front[i], since)
                     && front[i].revokedAt == Latest(front, family, since) {
        var i :| 0 <= i < |front| && front[i].family == family && RevokedSince(front[i], since)
                 && front[i].revokedAt == Latest(front, family, since);
        assert rows[i].revokedAt == Latest(front, family, since);
      }
    }
  }

  function RecentFamilies(rows: seq<Row>, since: int): set<string> {
    set i | 0 <= i < |rows| && RevokedSince(rows[i], since) :: rows[i].family
  }

  // ---- The in-memory ledger ----------------------------------------------------------

  /** What the in-memory rotate leaves behind: it consumes the row before it tries the insert. */
  function RotateInMemory(rows: seq<Row>, presented: string, next: Record, now: int, allowAbsent: bool): (seq<Row>, Outcome) {
    match Find(rows, presented)
    case Some(i) =>
      if Live(rows[i]) then
        var consumed := rows[i := Consumed(rows[i], now, next.hash)];
        if HasHash(consumed, next.hash) then (consumed, Conflict) else (consumed + [NewRow(next)], Ok)
      else (rows, if rows[i].revokedAt.Some? then Revoked else Reused)
    case None =>
      if !allowAbsent then (rows, Absent)
      else if HasHash(rows, next.hash) then (rows, Conflict)
      else (rows + [NewRow(next)], Ok)
  }

  /**
   The in-memory rotate and the SQL transaction agree on rows and outcome exactly when no
   winning rotation brings a hash that is already in the ledger: there the transaction rolls
   back, but the in-memory row stays consumed.
   */
  lemma InMemoryRefinesSql(rows: seq<Row>, presented: string, next: Record, now: int, allowAbsent: bool)
    requires Unique(rows)
    ensures RotateInMemory(rows, presented, next, now, allowAbsent) == RotateSql(rows, presented, next, now, allowAbsent)
            <==> !(Wins(rows, presented) && HasHash(rows, next.hash))
  {
    match Find(rows, presented) {
      case None => assert !Wins(rows, presented);
      case Some(i) =>
        assert Wins(rows, presented) <==> Live(rows[i]);
        if Live(rows[i]) {
          var consumed := rows[i := Consumed(rows[i], now, next.hash)];
          assert consumed == Consume(rows, presented, now, next.hash);
          assert forall k :: 0 <= k < |rows| ==> consumed[k].hash == rows[k].hash;
          assert HasHash(consumed, next.hash) <==> HasHash(rows, next.hash) by {
            if HasHash(rows, next.hash) {
              var k :| 0 <= k < |rows| && rows[k].hash == next.hash;
              assert consumed[k].hash == next.hash;
            }
          }
          assert consumed[i] != rows[i];
        }
    }
  }

  predicate RotateForm(form: (seq<Row>, Outcome), rows: seq<Row>, presented: string, next: Record, now: int, allowAbsent: bool) {
    || form == RotateSql(rows, presented, next, now, allowAbsent)
    || form == RotateInMemory(rows, presented, next, now, allowAbsent)
  }

  /** A row of the hash that can still be used. */
  ghost predicate Usable(rows: seq<Row>, h: string) {
    exists i :: 0 <= i < |rows| && rows[i].hash == h && rows[i].used.None? && rows[i].revokedAt.None?
  }

  ghost predicate InUse(rows: seq<Row>, h: string) {
    exists i :: 0 <= i < |rows| && rows[i].hash == h
  }

  /**
   What either form answers, from the rows alone. A revoked token is told so; a used one that is not revoked is
   reuse; an unknown one is absent unless it is vouched for; and where an insert is due, a successor hash
   already in the table is a conflict.
   */
  lemma RotateOutcomes(rows: seq<Row>, presented: string, next: Record, now: int, allowAbsent: bool,
                       form: (seq<Row>, Outcome))
    requires Unique(rows) && RotateForm(form, rows, presented, next, now, allowAbsent)
    ensures form.1 == Revoked <==> exists i :: 0 <= i < |rows| && rows[i].hash == presented && rows[i].revokedAt.Some?
    ensures form.1 == Reused <==>
            exists i :: 0 <= i < |rows| && rows[i].hash == presented && rows[i].revokedAt.None? && rows[i].used.Some?
    ensures form.1 == Absent <==> !InUse(rows, presented) && !allowAbsent
    ensures form.1 == Conflict <==>
            (Usable(rows, presented) || (!InUse(rows, presented) && allowAbsent)) && InUse(rows, next.hash)
    ensures form.1 == Ok <==>
            (Usable(rows, presented) || (!InUse(rows, presented) && allowAbsent)) && !InUse(rows, next.hash)
  {
    var f := Find(rows, presented);
    if f.Some? {
      assert rows[f.value].hash == presented;
      assert forall i :: 0 <= i < |rows| && rows[i].hash == presented ==> i == f.value;
      assert HasHash(rows[f.value := Consumed(rows[f.value], now, next.hash)], next.hash) <==> HasHash(rows, next.hash) by {
        var consumed := rows[f.value := Consumed(rows[f.value], now, next.hash)];
        assert forall k :: 0 <= k < |rows| ==> consumed[k].hash == rows[k].hash;
      }
    }
  }

  /** The successor's row holds what was recorded, and nothing has happened to it. */
  predicate FreshRow(r: Row, rec: Record) {
    && r.hash == rec.hash && r.family == rec.family && r.user == rec.user && r.roleSource == rec.roleSource
    && r.issuedAt == rec.issuedAt && r.expiresAt == rec.expiresAt
    && r.used.None? && r.replacedBy.None? && r.revokedAt.None? && r.reason.None?
  }

  /** The columns of two rows that neither a use nor a revocation writes. */
  predicate SameIssue(a: Row, b: Row) {
    && a.hash == b.hash && a.family == b.family && a.user == b.user && a.roleSource == b.roleSource
    && a.issuedAt == b.issuedAt && a.expiresAt == b.expiresAt
  }

  /** What a successful rotation writes, column by column, in either form. */
  lemma RotateColumns(rows: seq<Row>, presented: string, next: Record, now: int, allowAbsent: bool,
                      form: (seq<Row>, Outcome), i: nat)
    requires Unique(rows) && RotateForm(form, rows, presented, next, now, allowAbsent) && form.1 == Ok && i < |rows|
    ensures |form.0| == |rows| + 1 && FreshRow(form.0[|rows|], next)
    ensures SameIssue(rows[i], form.0[i])
            && form.0[i].revokedAt == rows[i].revokedAt && form.0[i].reason == rows[i].reason
    ensures if rows[i].hash == presented then form.0[i].used == Some(now) && form.0[i].replacedBy == Some(next.hash)
            else form.0[i].used == rows[i].used && form.0[i].replacedBy == rows[i].replacedBy
  {
    var f := Find(rows, presented);
    if f.Some? {
      assert forall k :: 0 <= k < |rows| && rows[k].hash == presented ==> k == f.value;
    }
  }

  /** What a revocation writes, column by column: time and reason of the rows it names that have none yet. */
  lemma RevokeColumns(rows: seq<Row>, name: string, reason: string, now: int, i: nat)
    requires i < |rows|
    ensures var byFamily, byUser := RevokeFamilyRows(rows, name, reason, now), RevokeUserRows(rows, name, reason, now);
            && |byFamily| == |byUser| == |rows|
            && SameIssue(rows[i], byFamily[i]) && SameIssue(rows[i], byUser[i])
            && byFamily[i].used == byUser[i].used == rows[i].used
            && byFamily[i].replacedBy == byUser[i].replacedBy == rows[i].replacedBy
            && (byFamily[i].revokedAt, byFamily[i].reason)
               == (if rows[i].family == name && rows[i].revokedAt.None? then (Some(now), Some(reason))
                   else (rows[i].revokedAt, rows[i].reason))
            && (byUser[i].revokedAt, byUser[i].reason)
               == (if rows[i].user == name && rows[i].revokedAt.None? then (Some(now), Some(reason))
                   else (rows[i].revokedAt, rows[i].reason))
  {
  }

  class LedgerStore {
    var rows: seq<Row>

    constructor ()
      ensures rows == []
    {
      rows := [];
    }

    /** Rejects a duplicate hash, as the unique constraint does. */
    method Insert(rec: Record) returns (inserted: bool)
      modifies this
      ensures inserted <==> !HasHash(old(rows), rec.hash)
      ensures rows == if inserted then old(rows) + [NewRow(rec)] else old(rows)
    {
      inserted := !HasHash(rows, rec.hash);
      if inserted {
        rows := rows + [NewRow(rec)];
      }
    }

    method Rotate(presented: string, next: Record, now: int, allowAbsent: bool) returns (outcome: Outcome)
      modifies this
      ensures (rows, outcome) == RotateInMemory(old(rows), presented, next, now, allowAbsent)
      ensures Unique(old(rows)) && !(Wins(old(rows), presented) && HasHash(old(rows), next.hash)) ==>
                (rows, outcome) == RotateSql(old(rows), presented, next, now, allowAbsent)
    {
      ghost var before := rows;
      var at := Find(rows, presented);
      if at.Some? && Live(rows[at.value]) {
        rows := rows[at.value := Consumed(rows[at.value], now, next.hash)];
        var inserted := Insert(next);
        outcome := if inserted then Ok else Conflict;
      } else if at.None? {
        if !allowAbsent {
          outcome := Absent;
        } else {
          var inserted := Insert(next);
          outcome := if inserted then Ok else Conflict;
        }
      } else {
        outcome := if rows[at.value].revokedAt.Some? then Revoked else Reused;
      }
      if Unique(before) {
        InMemoryRefinesSql(before, presented, next, now, allowAbsent);
      }
    }

    method RevokeFamily(family: string, reason: string, now: int) returns (n: nat)
      modifies this
      ensures rows == RevokeFamilyRows(old(rows), family, reason, now)
      ensures n == CountIf((r: Row) => r.family == family && r.revokedAt.None?, old(rows))
    {
      n := 0;
      ghost var before := rows;
      ghost var hit := (r: Row) => r.family == family && r.revokedAt.None?;
      for i := 0 to |rows|
        invariant |rows| == |before|
        invariant forall k :: 0 <= k < i ==> rows[k] == RevokeFamilyRows(before, family, reason, now)[k]
        invariant forall k :: i <= k < |rows| ==> rows[k] == before[k]
        invariant n == CountIf(hit, before[..i])
      {
        CountIfStep(hit, before, i);
        if rows[i].family == family && rows[i].revokedAt.None? {
          rows := rows[i := rows[i].(revokedAt := Some(now), reason := Some(reason))];
          n := n + 1;
        }
      }
      assert before[..|before|] == before;
    }

    method RevokeUser(user: string, reason: string, now: int) returns (families: set<string>)
      modifies this
      ensures rows == RevokeUserRows(old(rows), user, reason, now)
      ensures families == set r | r in old(rows) && r.user == user && r.revokedAt.None? :: r.family
    {
      families := {};
      ghost var before := rows;
      for i := 0 to |rows|
        invariant |rows| == |before|
        invariant forall k :: 0 <= k < i ==> rows[k] == RevokeUserRows(before, user, reason, now)[k]
        invariant forall k :: i <= k < |rows| ==> rows[k] == before[k]
        invariant families == set r | r in before[..i] && r.user == user && r.revokedAt.None? :: r.family
      {
        assert before[..i + 1] == before[..i] + [before[i]];
        if rows[i].user == user && rows[i].revokedAt.None? {
          families := families + {rows[i].family};
          rows := rows[i := rows[i].(revokedAt := Some(now), reason := Some(reason))];
        }
      }
      assert before[..|before|] == before;
    }

    /** One pass that keeps, per family in order of first appearance, the latest recent revocation. */
    method LatestByFamily(since: int) returns (order: seq<string>, latest: map<string, int>)
      ensures forall a, b :: 0 <= a < b < |order| ==> order[a] != order[b]
      ensures forall f :: f in order <==> f in latest
      ensures latest.Keys == RecentFamilies(rows, since)
      ensures forall f :: f in latest ==> Latest(rows, f, since) == Some(latest[f])
    {
      order, latest := [], map[];
      for i := 0 to |rows|
        invariant forall f :: f in order <==> f in latest
        invariant forall a, b :: 0 <= a < b < |order| ==> order[a] != order[b]
        invariant latest.Keys == RecentFamilies(rows[..i], since)
        invariant forall f :: Latest(rows[..i], f, since) == if f in latest then Some(latest[f]) else None
      {
        var r := rows[i];
        RecentFamiliesStep(rows, since, i);
        forall f {
          LatestStep(rows, f, since, i);
        }
        if RevokedSince(r, since) {
          if r.family !in latest {
            order := order + [r.family];
          }
          if r.family !in latest || r.revokedAt.value > latest[r.family] {
            latest := latest[r.family := r.revokedAt.value];
          }
        }
      }
      assert rows[..|rows|] == rows;
    }

    /** Families revoked at or after `since`, each with its latest revocation time. */
    method FindRevokedSince(since: int, limit: int) returns (found: seq<(string, int)>)
      ensures forall a, b :: 0 <= a < b < |found| ==> found[a].0 != found[b].0
      ensures forall a :: 0 <= a < |found| ==> Latest(rows, found[a].0, since) == Some(found[a].1)
      ensures |found| == Min(Max(0, limit), |RecentFamilies(rows, since)|)
      ensures |RecentFamilies(rows, since)| <= limit ==>
                forall f :: f in RecentFamilies(rows, since) ==> exists a :: 0 <= a < |found| && found[a].0 == f
    {
      var order, latest := LatestByFamily(since);
      DistinctSize(order, latest.Keys);
      var size := Min(Max(0, limit), |order|);
      found := seq(size, a requires 0 <= a < size => assert order[a] in order; (order[a], latest[order[a]]));
      forall f | f in latest && |order| <= limit
        ensures exists a :: 0 <= a < |found| && found[a].0 == f
      {
        var a :| 0 <= a < |order| && order[a] == f;
        assert found[a].0 == f;
      }
    }

    /** Walks the ledger backwards and splices out expired rows until `limit` are gone. */
    method PurgeExpired(cutoff: int, limit: int) returns (n: nat)
      modifies this
      ensures n == PurgeQuota(old(rows), cutoff, limit)
      ensures Purged(old(rows), rows, cutoff, n)
    {
      var max := Max(0, limit);
      n := 0;
      ghost var before := rows;
      ghost var tail: seq<Row> := [];
      var i := |rows| - 1;
      while i >= 0 && n < max
        invariant -1 <= i < |before|
        invariant rows == before[..i + 1] + tail
        invariant Purged(before[i + 1..], tail, cutoff, n)
        invariant n == ExpiredCount(before[i + 1..], cutoff) && n <= max
        decreases i
      {
        PurgedStep(before, i, tail, cutoff, n);
        SpliceAt(before, i, tail);
        if rows[i].expiresAt < cutoff {
          rows := rows[..i] + rows[i + 1..];
          n := n + 1;
        } else {
          tail := [before[i]] + tail;
        }
        i := i - 1;
      }
      PurgedDone(before, i + 1, tail, cutoff, n, max);
    }
  }

  lemma LatestStep(rows: seq<Row>, family: string, since: int, i: nat)
    requires i < |rows|
    ensures var before := Latest(rows[..i], family, since);
            Latest(rows[..i + 1], family, since) ==
            if rows[i].family == family && RevokedSince(rows[i], since)
               && (before.None? || rows[i].revokedAt.value > before.value)
            then rows[i].revokedAt else before
  {
    assert rows[..i + 1][..i] == rows[..i];
  }

  /** The rows up to and including `i`, and what has been kept behind them. */
  lemma SpliceAt(before: seq<Row>, i: nat, tail: seq<Row>)
    requires i < |before|
    ensures var rows := before[..i + 1] + tail;
            && rows[i] == before[i]
            && rows[..i] + rows[i + 1..] == before[..i] + tail
            && rows == before[..i] + ([before[i]] + tail)
  {
  }

  lemma PurgedDone(before: seq<Row>, i: nat, tail: seq<Row>, cutoff: int, n: nat, max: nat)
    requires i <= |before| && Purged(before[i..], tail, cutoff, n)
    requires n == ExpiredCount(before[i..], cutoff) && n <= max && (i == 0 || n == max)
    ensures Purged(before, before[..i] + tail, cutoff, n)
    ensures n == Min(max, ExpiredCount(before, cutoff))
  {
    assert before == before[..i] + before[i..];
    PurgedKeepFront(before[..i], before[i..], tail, cutoff, n);
    ExpiredCountConcat(before[..i], before[i..], cutoff);
  }

  lemma PurgedStep(before: seq<Row>, i: nat, tail: seq<Row>, cutoff: int, n: nat)
    requires i < |before|
    requires Purged(before[i + 1..], tail, cutoff, n)
    ensures Expired(before[i], cutoff) ==> Purged(before[i..], tail, cutoff, n + 1)
    ensures Purged(before[i..], [before[i]] + tail, cutoff, n)
    ensures ExpiredCount(before[i..], cutoff) ==
            ExpiredCount(before[i + 1..], cutoff) + if Expired(before[i], cutoff) then 1 else 0
  {
    var b := before[i..];
    assert b[0] == before[i] && b[1..] == before[i + 1..];
    var kept := [before[i]] + tail;
    assert kept[1..] == tail;
  }

  lemma RecentFamiliesStep(rows: seq<Row>, since: int, i: nat)
    requires i < |rows|
    ensures RecentFamilies(rows[..i + 1], since) ==
            RecentFamilies(rows[..i], since) + if RevokedSince(rows[i], since) then {rows[i].family} else {}
  {
    var a, b := RecentFamilies(rows[..i + 1], since), RecentFamilies(rows[..i], since);
    forall f | f in b
      ensures f in a
    {
      var k :| 0 <= k < i && RevokedSince(rows[..i][k], since) && rows[..i][k].family == f;
      assert rows[..i + 1][k] == rows[k];
    }
    if RevokedSince(rows[i], since) {
      assert rows[..i + 1][i] == rows[i];
    }
    forall f | f in a
      ensures f in b || (RevokedSince(rows[i], since) && f == rows[i].family)
    {
      var k :| 0 <= k < i + 1 && RevokedSince(rows[..i + 1][k], since) && rows[..i + 1][k].family == f;
      if k < i {
        assert rows[..i][k] == rows[k];
      }
    }
  }

  lemma {:induction false} DistinctSize(s: seq<string>, t: set<string>)
    requires forall a, b :: 0 <= a < b < |s| ==> s[a] != s[b]
    requires forall x :: x in s <==> x in t
    ensures |s| == |t|
  {
    if |s| == 0 {
      assert t == {};
    } else {
      var last := s[|s| - 1];
      assert forall x :: x in s[..|s| - 1] <==> x in t - {last};
      DistinctSize(s[..|s| - 1], t - {last});
    }
  }

  lemma {:induction false} PurgedKeepFront(front: seq<Row>, before: seq<Row>, after: seq<Row>, cutoff: int, n: nat)
    requires Purged(before, after, cutoff, n)
    ensures Purged(front + before, front + after, cutoff, n)
  {
    if |front| == 0 {
      assert front + before == before && front + after == after;
    } else {
      PurgedKeepFront(front[1..], before, after, cutoff, n);
      assert (front + before)[1..] == front[1..] + before;
      assert (front + after)[1..] == front[1..] + after;
    }
  }

  lemma {:induction false} ExpiredCountConcat(a: seq<Row>, b: seq<Row>, cutoff: int)
    ensures ExpiredCount(a + b, cutoff) == ExpiredCount(a, cutoff) + ExpiredCount(b, cutoff)
  {
    if |a| == 0 {
      assert a + b == b;
    } else {
      assert (a + b)[1..] == a[1..] + b;
      ExpiredCountConcat(a[1..], b, cutoff);
    }
  }

  /** The kept rows sit in the old table at increasing positions. */
  lemma {:induction false} PurgedEmbeds(before: seq<Row>, after: seq<Row>, cutoff: int, n: nat) returns (at: seq<nat>)
    requires Purged(before, after, cutoff, n)
    ensures |at| == |after| && |before| == |after| + n
    ensures forall k :: 0 <= k < |at| ==> at[k] < |before| && before[at[k]] == after[k]
    ensures forall k, l :: 0 <= k < l < |at| ==> at[k] < at[l]
  {
    if |before| == 0 {
      at := [];
    } else if Expired(before[0], cutoff) && n > 0 && Purged(before[1..], after, cutoff, n - 1) {
      var rest := PurgedEmbeds(before[1..], after, cutoff, n - 1);
      at := Shifted(rest);
    } else {
      var rest := PurgedEmbeds(before[1..], after[1..], cutoff, n);
      at := EmbedsBehind(before, after, rest);
    }
  }

  /** A kept first row in front of the places of the rest. */
  lemma EmbedsBehind(before: seq<Row>, after: seq<Row>, rest: seq<nat>) returns (at: seq<nat>)
    requires |before| > 0 && |after| == |rest| + 1 && after[0] == before[0]
    requires forall k :: 0 <= k < |rest| ==> rest[k] < |before[1..]| && before[1..][rest[k]] == after[1..][k]
    requires forall k, l :: 0 <= k < l < |rest| ==> rest[k] < rest[l]
    ensures |at| == |after| && forall k :: 0 <= k < |at| ==> at[k] < |before| && before[at[k]] == after[k]
    ensures forall k, l :: 0 <= k < l < |at| ==> at[k] < at[l]
  {
    at := [0] + Shifted(rest);
    forall k | 1 <= k < |at|
      ensures at[k] == rest[k - 1] + 1 && before[at[k]] == after[k]
    {
      assert before[1..][rest[k - 1]] == after[1..][k - 1];
    }
  }

  function Shifted(at: seq<nat>): (r: seq<nat>)
    ensures |r| == |at| && forall k :: 0 <= k < |r| ==> r[k] == at[k] + 1
  {
    seq(|at|, k requires 0 <= k < |at| => at[k] + 1)
  }

  /** Every unexpired row is kept, and nothing is added. */
  lemma {:induction false} PurgedKeepsUnexpired(before: seq<Row>, after: seq<Row>, cutoff: int, n: nat, r: Row)
    requires Purged(before, after, cutoff, n)
    ensures r in before && !Expired(r, cutoff) ==> r in after
    ensures r in after ==> r in before
  {
    if |before| > 0 {
      assert before == [before[0]] + before[1..];
      if Expired(before[0], cutoff) && n > 0 && Purged(before[1..], after, cutoff, n - 1) {
        PurgedKeepsUnexpired(before[1..], after, cutoff, n - 1, r);
      } else {
        assert after == [after[0]] + after[1..];
        PurgedKeepsUnexpired(before[1..], after[1..], cutoff, n, r);
      }
    }
  }
}

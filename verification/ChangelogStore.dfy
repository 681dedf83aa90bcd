/**
 The changelog store: what create, update, delete and reset do to the stored entries, and the
 migration of legacy entries on every read.
 */
module ChangelogStore {
  import opened Common

  datatype Entry = Entry(
    id: string, displayDate: string, version: string, title: string,
    message: Option<string>, summary: Option<string>, whatChanged: Option<seq<string>>,
    kind: string, authors: seq<string>, coAuthors: seq<string>, createdAt: string, updatedAt: string)

  /** A partial update: absent fields stay as they are. */
  datatype Patch = Patch(
    displayDate: Option<string>, version: Option<string>, title: Option<string>, message: Option<string>,
    whatChanged: Option<seq<string>>, kind: Option<string>, authors: Option<seq<string>>, coAuthors: Option<seq<string>>)

  datatype Op =
    | Create(entry: Entry)
    | Update(id: string, patch: Patch, now: string)
    | Delete(id: string)
    | Reset(entries: seq<Entry>)

  predicate Truthy(s: Option<string>) { s.Some? && s.value != "" }

  // ---- Migration ------------------------------------------------------------------------

  predicate NeedsMigration(e: Entry) {
    (!Truthy(e.message) && Truthy(e.summary)) || e.whatChanged.None?
  }

  function Migrate(e: Entry): Entry {
    if !Truthy(e.message) && Truthy(e.summary) then e.(message := e.summary, summary := None, whatChanged := Some([]))
    else if e.whatChanged.None? then e.(whatChanged := Some([]))
    else e
  }

  /** Migration is idempotent, and it changes an entry exactly when the entry needs it. */
  lemma MigrateOnce(e: Entry)
    ensures !NeedsMigration(Migrate(e))
    ensures Migrate(e) == e <==> !NeedsMigration(e)
    ensures Migrate(Migrate(e)) == Migrate(e)
  {
  }

  /**
   What migration keeps: every field but the three of the legacy form, a message that says anything, and
   otherwise the summary as the message. The list of changes is never missing afterwards; an old list goes
   with an old summary that became the message.
   */
  lemma MigrateKeepsText(e: Entry)
    ensures var m := Migrate(e);
            && m.(message := e.message, summary := e.summary, whatChanged := e.whatChanged) == e
            && (e.message.Some? && e.message.value != "" ==> m.message == e.message && m.summary == e.summary)
            && (!(e.message.Some? && e.message.value != "") && e.summary.Some? && e.summary.value != "" ==>
                  m.message == e.summary && m.summary.None? && m.whatChanged == Some([]))
            && (!(e.message.Some? && e.message.value != "") && !(e.summary.Some? && e.summary.value != "") ==>
                  m.message == e.message && m.summary == e.summary)
            && (m.whatChanged == e.whatChanged || m.whatChanged == Some([]))
            && (m.message == e.message && e.whatChanged.Some? ==> m.whatChanged == e.whatChanged)
  {
  }

  function MigrateAll(entries: seq<Entry>): seq<Entry> {
    seq(|entries|, i requires 0 <= i < |entries| => Migrate(entries[i]))
  }

  /** No trace of the legacy schema: no later update can make the entry legacy again. */
  predicate Settled(e: Entry) { e.whatChanged.Some? && !Truthy(e.summary) }

  predicate AllSettled(entries: seq<Entry>) { forall i :: 0 <= i < |entries| ==> Settled(entries[i]) }

  // ---- Operations -------------------------------------------------------------------------

  function Or<T>(update: Option<T>, current: T): T { if update.Some? then update.value else current }

  function Patched(e: Entry, p: Patch, now: string): Entry {
    e.(displayDate := Or(p.displayDate, e.displayDate), version := Or(p.version, e.version),
       title := Or(p.title, e.title), message := if p.message.Some? then p.message else e.message,
       whatChanged := if p.whatChanged.Some? then p.whatChanged else e.whatChanged,
       kind := Or(p.kind, e.kind), authors := Or(p.authors, e.authors), coAuthors := Or(p.coAuthors, e.coAuthors),
       updatedAt := now)
  }

  function IndexOf(entries: seq<Entry>, id: string): (r: Option<nat>)
    ensures r.Some? ==> r.value < |entries| && entries[r.value].id == id
                        && forall i :: 0 <= i < r.value ==> entries[i].id != id
    ensures r.None? <==> forall i :: 0 <= i < |entries| ==> entries[i].id != id
  {
    if |entries| == 0 then None
    else if entries[0].id == id then Some(0)
    else
      var t := IndexOf(entries[1..], id);
      assert forall i :: 1 <= i < |entries| ==> entries[i] == entries[1..][i - 1];
      if t.None? then None else Some(t.value + 1)
  }

  /** The new entries, or None where the operation throws "entry not found". */
  function ApplyOp(op: Op, entries: seq<Entry>): Option<seq<Entry>> {
    match op
    case Create(entry) => Some(entries + [entry])
    case Update(id, patch, now) =>
      var at := IndexOf(entries, id);
      if at.None? then None else Some(entries[at.value := Patched(entries[at.value], patch, now)])
    case Delete(id) =>
      var kept := Filter((e: Entry) => e.id != id, entries);
      if |kept| == |entries| then None else Some(kept)
    case Reset(seeded) => Some(seeded)
  }

  /** One field after an update: the given value, or else the old one. */
  predicate Updates<T(==)>(given: Option<T>, was: T, becomes: T) {
    becomes == if given.Some? then given.value else was
  }

  /** An update fails on an unknown id; else it writes the given fields and the time of the first entry of that id. */
  lemma UpdateExact(entries: seq<Entry>, id: string, p: Patch, now: string, i: nat)
    requires i < |entries|
    ensures ApplyOp(Update(id, p, now), entries).None? <==> forall k :: 0 <= k < |entries| ==> entries[k].id != id
    ensures ApplyOp(Update(id, p, now), entries).Some? ==>
              var after := ApplyOp(Update(id, p, now), entries).value;
              && |after| == |entries|
              && (!(entries[i].id == id && FirstOfId(entries, i)) ==> after[i] == entries[i])
              && (entries[i].id == id && FirstOfId(entries, i) ==>
                    && after[i].id == id && after[i].createdAt == entries[i].createdAt && after[i].summary == entries[i].summary
                    && after[i].updatedAt == now
                    && Updates(p.displayDate, entries[i].displayDate, after[i].displayDate)
                    && Updates(p.version, entries[i].version, after[i].version)
                    && Updates(p.title, entries[i].title, after[i].title)
                    && after[i].message == (if p.message.Some? then p.message else entries[i].message)
                    && after[i].whatChanged == (if p.whatChanged.Some? then p.whatChanged else entries[i].whatChanged)
                    && Updates(p.kind, entries[i].kind, after[i].kind)
                    && Updates(p.authors, entries[i].authors, after[i].authors)
                    && Updates(p.coAuthors, entries[i].coAuthors, after[i].coAuthors))
  {
  }

  /** Create adds the entry last and reset replaces the store, neither ever fails. */
  lemma CreateAndReset(entries: seq<Entry>, e: Entry, seeded: seq<Entry>)
    ensures var after := ApplyOp(Create(e), entries);
            after.Some? && |after.value| == |entries| + 1 && after.value[|entries|] == e && after.value[..|entries|] == entries
    ensures ApplyOp(Reset(seeded), entries) == Some(seeded)
  {
  }

  /** An operation as the application builds it: new and seeded entries follow the current schema. */
  predicate WellFormed(op: Op) {
    match op
    case Create(entry) => Settled(entry)
    case Reset(entries) => AllSettled(entries)
    case _ => true
  }

  lemma {:induction false} FilterSettled(p: Entry -> bool, entries: seq<Entry>)
    requires AllSettled(entries)
    ensures AllSettled(Filter(p, entries))
  {
    if |entries| > 0 {
      FilterSettled(p, entries[..|entries| - 1]);
    }
  }

  lemma ApplyOpSettled(op: Op, entries: seq<Entry>)
    requires AllSettled(entries) && WellFormed(op) && ApplyOp(op, entries).Some?
    ensures AllSettled(ApplyOp(op, entries).value)
  {
    if op.Delete? {
      FilterSettled((e: Entry) => e.id != op.id, entries);
    }
  }

  /** An update reaches the first entry of an id, and no other. */
  predicate FirstOfId(entries: seq<Entry>, i: int)
    requires 0 <= i < |entries|
  {
    forall k :: 0 <= k < i ==> entries[k].id != entries[i].id
  }

  /** No entry needs migration, and none that an update can reach keeps a summary to fall back on. */
  predicate Steady(entries: seq<Entry>) {
    forall i :: 0 <= i < |entries| ==> SteadyAt(entries, i)
  }

  predicate SteadyAt(entries: seq<Entry>, i: int)
    requires 0 <= i < |entries|
  {
    !NeedsMigration(entries[i]) && (FirstOfId(entries, i) ==> !Truthy(entries[i].summary))
  }

  lemma SettledIsSteady(entries: seq<Entry>)
    requires AllSettled(entries)
    ensures Steady(entries)
  {
  }

  lemma FirstInFront(front: seq<Entry>, back: seq<Entry>, i: nat)
    requires i < |front|
    ensures FirstOfId(front + back, i) <==> FirstOfId(front, i)
  {
    assert forall k :: 0 <= k < |front| ==> (front + back)[k] == front[k];
  }

  lemma SteadyFront(front: seq<Entry>, back: seq<Entry>)
    requires Steady(front + back)
    ensures Steady(front)
  {
    forall i | 0 <= i < |front|
      ensures SteadyAt(front, i)
    {
      FirstInFront(front, back, i);
      assert SteadyAt(front + back, i);
    }
  }

  /** One more entry: it may keep a summary only behind another entry of its id. */
  lemma AppendSteady(entries: seq<Entry>, e: Entry)
    requires Steady(entries) && !NeedsMigration(e)
    requires Truthy(e.summary) ==> exists k :: 0 <= k < |entries| && entries[k].id == e.id
    ensures Steady(entries + [e])
  {
    var all := entries + [e];
    forall i | 0 <= i < |all|
      ensures SteadyAt(all, i)
    {
      if i < |entries| {
        assert SteadyAt(entries, i);
        FirstInFront(entries, [e], i);
      } else if Truthy(e.summary) {
        var k :| 0 <= k < |entries| && entries[k].id == e.id;
        assert all[k].id == all[i].id;
      }
    }
  }

  lemma LastSteady(front: seq<Entry>, last: Entry)
    requires Steady(front + [last])
    ensures !NeedsMigration(last)
    ensures Truthy(last.summary) ==> exists k :: 0 <= k < |front| && front[k].id == last.id
  {
    var all := front + [last];
    assert all[|front|] == last && SteadyAt(all, |front|);
    if !FirstOfId(all, |front|) {
      var k :| 0 <= k < |front| && all[k].id == last.id;
      assert front[k].id == last.id;
    }
  }

  lemma StillInFront(id: string, front: seq<Entry>, other: string)
    requires other != id && exists k :: 0 <= k < |front| && front[k].id == other
    ensures var kept := Filter((e: Entry) => e.id != id, front);
            exists k :: 0 <= k < |kept| && kept[k].id == other
  {
    var k :| 0 <= k < |front| && front[k].id == other;
    FilterMultiset((e: Entry) => e.id != id, front, front[k]);
    var kept := Filter((e: Entry) => e.id != id, front);
    var m :| 0 <= m < |kept| && kept[m] == front[k];
    assert kept[m].id == other;
  }

  /** A delete takes every entry of its id, so what stays behind another entry of its own id still does. */
  lemma {:induction false} FilterSteady(id: string, entries: seq<Entry>)
    requires Steady(entries)
    ensures Steady(Filter((e: Entry) => e.id != id, entries))
  {
    if |entries| > 0 {
      var front, last := entries[..|entries| - 1], entries[|entries| - 1];
      assert entries == front + [last];
      SteadyFront(front, [last]);
      FilterSteady(id, front);
      LastSteady(front, last);
      var kept := Filter((e: Entry) => e.id != id, front);
      if last.id == id {
        assert Filter((e: Entry) => e.id != id, entries) == kept;
      } else {
        if Truthy(last.summary) {
          StillInFront(id, front, last.id);
        }
        AppendSteady(kept, last);
        assert Filter((e: Entry) => e.id != id, entries) == kept + [last];
      }
    }
  }

  lemma UpdateSteady(entries: seq<Entry>, at: nat, p: Patch, now: string)
    requires Steady(entries) && at < |entries| && FirstOfId(entries, at)
    ensures Steady(entries[at := Patched(entries[at], p, now)])
  {
    var after := entries[at := Patched(entries[at], p, now)];
    forall i | 0 <= i < |after|
      ensures SteadyAt(after, i)
    {
      assert SteadyAt(entries, i);
      assert forall k :: 0 <= k < |entries| ==> after[k].id == entries[k].id;
    }
  }

  /** A steady store stays steady under every operation. */
  lemma ApplyOpSteady(op: Op, entries: seq<Entry>)
    requires Steady(entries) && WellFormed(op) && ApplyOp(op, entries).Some?
    ensures Steady(ApplyOp(op, entries).value)
  {
    match op
    case Create(entry) => AppendSteady(entries, entry);
    case Update(id, patch, now) => UpdateSteady(entries, IndexOf(entries, id).value, patch, now);
    case Delete(id) => FilterSteady(id, entries);
    case Reset(seeded) => SettledIsSteady(seeded);
  }

  const CLEAR_MESSAGE := Patch(None, None, None, Some(""), None, None, None, None)

  /** An unsteady store needs migration, or does after one update that clears a message. */
  lemma UnsteadyRevives(entries: seq<Entry>, now: string) returns (at: nat)
    requires !Steady(entries) && forall i :: 0 <= i < |entries| ==> !NeedsMigration(entries[i])
    ensures at < |entries| && IndexOf(entries, entries[at].id) == Some(at)
    ensures NeedsMigration(Patched(entries[at], CLEAR_MESSAGE, now))
  {
    at :| 0 <= at < |entries| && !SteadyAt(entries, at);
  }

  /** A delete fails exactly when the id is unknown; otherwise it removes that id and nothing else. */
  lemma DeleteExact(id: string, entries: seq<Entry>, e: Entry)
    ensures ApplyOp(Delete(id), entries).None? <==> forall i :: 0 <= i < |entries| ==> entries[i].id != id
    ensures ApplyOp(Delete(id), entries).Some? ==>
              multiset(ApplyOp(Delete(id), entries).value)[e] == if e.id == id then 0 else multiset(entries)[e]
  {
    var p := (x: Entry) => x.id != id;
    FilterMultiset(p, entries, e);
    FilterLength(p, entries);
  }

  lemma {:induction false} FilterLength(p: Entry -> bool, entries: seq<Entry>)
    ensures |Filter(p, entries)| == |entries| <==> forall i :: 0 <= i < |entries| ==> p(entries[i])
  {
    if |entries| > 0 {
      FilterLength(p, entries[..|entries| - 1]);
      assert forall i :: 0 <= i < |entries| - 1 ==> entries[..|entries| - 1][i] == entries[i];
    }
  }

  /** The in-process form: entries read, changed in place and written back. */
  class Store {
    var entries: seq<Entry>

    method ReadStore() returns (wrote: bool)
      modifies this
      ensures entries == MigrateAll(old(entries))
      ensures wrote <==> exists i :: 0 <= i < |old(entries)| && NeedsMigration(old(entries)[i])
    {
      wrote := false;
      ghost var before := entries;
      for i := 0 to |entries|
        invariant |entries| == |before|
        invariant forall k :: 0 <= k < i ==> entries[k] == Migrate(before[k])
        invariant forall k :: i <= k < |entries| ==> entries[k] == before[k]
        invariant wrote <==> exists k :: 0 <= k < i && NeedsMigration(before[k])
      {
        if NeedsMigration(entries[i]) {
          wrote := true;
        }
        entries := entries[i := Migrate(entries[i])];
      }
    }

    method Run(op: Op) returns (found: bool)
      modifies this
      ensures found <==> ApplyOp(op, old(entries)).Some?
      ensures entries == if found then ApplyOp(op, old(entries)).value else old(entries)
    {
      found := true;
      match op {
        case Create(entry) => entries := entries + [entry];
        case Reset(seeded) => entries := seeded;
        case Update(id, patch, now) =>
          var at := IndexOf(entries, id);
          if at.None? {
            found := false;
          } else {
            entries := entries[at.value := Patched(entries[at.value], patch, now)];
          }
        case Delete(id) =>
          var before := |entries|;
          var kept: seq<Entry> := [];
          for i := 0 to |entries|
            invariant entries == old(entries)
            invariant kept == Filter((e: Entry) => e.id != id, entries[..i])
          {
            FilterStep((e: Entry) => e.id != id, entries, i);
            if entries[i].id != id {
              kept := kept + [entries[i]];
            }
          }
          assert entries[..|entries|] == entries;
          if |kept| == before {
            found := false;
          } else {
            entries := kept;
          }
      }
    }
  }
}

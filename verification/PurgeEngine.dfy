/**
 The purge: deletes in tier order inside one transaction, append-only logs cut at a high-water mark.
 A row is a map from column to value; an absent column reads as NULL.
 */
module PurgeEngine {
  import opened Common
  import opened PurgeRegistry

  datatype Val = Null | Num(n: int) | Str(s: string)

  type Row = map<string, Val>
  type Db = map<string, seq<Row>>
  type HighWater = map<string, int>

  function Get(r: Row, column: string): Val { if column in r then r[column] else Null }

  function TableOf(db: Db, table: string): seq<Row> { if table in db then db[table] else [] }

  /** Does the delete of this table hit the row? A high-water mark bounds append-only logs only. */
  predicate Hits(e: Entry, hw: HighWater, r: Row) {
    e.appendOnly && e.table in hw ==> Get(r, e.pk).Num? && Get(r, e.pk).n <= hw[e.table]
  }

  function Remaining(e: Entry, hw: HighWater, rows: seq<Row>): seq<Row> {
    Filter((r: Row) => !Hits(e, hw, r), rows)
  }

  function DeleteFrom(db: Db, e: Entry, hw: HighWater): Db {
    db[e.table := Remaining(e, hw, TableOf(db, e.table))]
  }

  /** The database after the first `k` table deletes. */
  function PurgePrefix(db: Db, order: seq<Entry>, hw: HighWater, k: nat): Db
    requires k <= |order|
  {
    if k == 0 then db else DeleteFrom(PurgePrefix(db, order, hw, k - 1), order[k - 1], hw)
  }

  lemma {:induction false} FilterCount(p: Row -> bool, rows: seq<Row>)
    ensures CountIf(p, rows) + |Filter((r: Row) => !p(r), rows)| == |rows|
  {
    if |rows| > 0 {
      FilterCount(p, rows[..|rows| - 1]);
    }
  }

  /** After `k` deletes a table is cut exactly if its turn has come; every other table is as before. */
  lemma {:induction false} PrefixTable(db: Db, order: seq<Entry>, hw: HighWater, k: nat, table: string)
    requires k <= |order| && UniqueTables(order)
    ensures forall i :: 0 <= i < k && order[i].table == table ==>
              TableOf(PurgePrefix(db, order, hw, k), table) == Remaining(order[i], hw, TableOf(db, table))
    ensures (forall i :: 0 <= i < k ==> order[i].table != table) ==>
              TableOf(PurgePrefix(db, order, hw, k), table) == TableOf(db, table)
  {
    if k > 0 {
      PrefixTable(db, order, hw, k - 1, table);
    }
  }

  // ---- Transaction ----------------------------------------------------------------------------

  function Sum(s: seq<(string, nat)>): nat {
    if |s| == 0 then 0 else Sum(s[..|s| - 1]) + s[|s| - 1].1
  }

  /** What a count and a delete of the table report in the state `db`. */
  function Hit(e: Entry, hw: HighWater, db: Db): nat {
    CountIf((r: Row) => Hits(e, hw, r), TableOf(db, e.table))
  }

  function Report(order: seq<Entry>, hw: HighWater, db: Db): seq<(string, nat)> {
    seq(|order|, i requires 0 <= i < |order| => (order[i].table, Hit(order[i], hw, db)))
  }

  /** When its turn comes, a table still holds what it held before the purge. */
  lemma HitOnPrefix(db: Db, order: seq<Entry>, hw: HighWater, i: nat)
    requires i < |order| && UniqueTables(order)
    ensures Hit(order[i], hw, PurgePrefix(db, order, hw, i)) == Hit(order[i], hw, db)
  {
    PrefixTable(db, order, hw, i, order[i].table);
  }

  lemma ReportStep(order: seq<Entry>, hw: HighWater, db: Db, i: nat)
    requires i < |order|
    ensures Report(order, hw, db)[..i + 1] == Report(order, hw, db)[..i] + [(order[i].table, Hit(order[i], hw, db))]
    ensures Sum(Report(order, hw, db)[..i + 1]) == Sum(Report(order, hw, db)[..i]) + Hit(order[i], hw, db)
  {
    var report := Report(order, hw, db);
    assert report[..i + 1] == report[..i] + [report[i]];
  }

  /** The row's key is a number at or below the mark; NULL never is. */
  predicate AtOrBelow(r: Row, column: string, mark: int) {
    column in r && r[column].Num? && r[column].n <= mark
  }

  function PositionsUpTo(rows: seq<Row>, column: string, mark: int): set<nat> {
    set i: nat | i < |rows| && AtOrBelow(rows[i], column, mark)
  }

  /** A count, and a delete, are of all rows of an ordinary table and of the rows at or below the mark of a log. */
  lemma HitExact(e: Entry, hw: HighWater, db: Db)
    requires e.table in db
    ensures e.appendOnly && e.table in hw ==>
              Hit(e, hw, db) == |PositionsUpTo(db[e.table], e.pk, hw[e.table])|
    ensures !(e.appendOnly && e.table in hw) ==> Hit(e, hw, db) == |db[e.table]|
  {
    var p, rows := (r: Row) => Hits(e, hw, r), db[e.table];
    if e.appendOnly && e.table in hw {
      CountIfSize(p, rows);
      assert Positions(p, rows) == PositionsUpTo(rows, e.pk, hw[e.table]);
    } else {
      CountIfAll(p, rows);
    }
  }

  /** After `i` table steps: the database so far and what has been reported of it. */
  predicate Progress(order: seq<Entry>, hw: HighWater, before: Db, i: nat, tables: Db, perTable: seq<(string, nat)>, total: nat)
    requires i <= |order|
  {
    && tables == PurgePrefix(before, order, hw, i)
    && perTable == Report(order, hw, before)[..i]
    && total == Sum(perTable)
  }

  lemma NextProgress(order: seq<Entry>, hw: HighWater, before: Db, i: nat, tables: Db, perTable: seq<(string, nat)>, total: nat,
                     deleted: nat)
    requires i < |order| && perTable == Report(order, hw, before)[..i] && total == Sum(perTable)
    requires tables == PurgePrefix(before, order, hw, i + 1) && deleted == Hit(order[i], hw, before)
    ensures Progress(order, hw, before, i + 1, tables, perTable + [(order[i].table, deleted)], total + deleted)
  {
    ReportStep(order, hw, before, i);
  }

  class Database {
    var tables: Db

    constructor (tables: Db)
      ensures this.tables == tables
    {
      this.tables := tables;
    }

    /** Counts with the same bound a delete uses; an unregistered name is refused. */
    method CountRows(reg: Registry, names: seq<string>, hw: HighWater) returns (counts: Option<map<string, nat>>)
      requires UniqueTables(reg)
      ensures counts.Some? <==> forall t :: t in names ==> Registered(reg, t)
      ensures counts.Some? ==> forall t :: t in counts.value <==> t in names
      ensures counts.Some? ==> forall e :: e in reg && e.table in names ==> counts.value[e.table] == Hit(e, hw, tables)
      ensures counts.Some? ==> forall e :: e in reg && e.table in names && e.table in tables ==>
                counts.value[e.table] == if e.appendOnly && e.table in hw then |PositionsUpTo(tables[e.table], e.pk, hw[e.table])|
                                         else |tables[e.table]|
    {
      var result: map<string, nat> := map[];
      for i := 0 to |names|
        invariant forall t :: t in result <==> t in names[..i]
        invariant forall t :: t in names[..i] ==> Registered(reg, t)
        invariant forall e :: e in reg && e.table in result ==> result[e.table] == Hit(e, hw, tables)
      {
        assert names[..i + 1] == names[..i] + [names[i]];
        if !Registered(reg, names[i]) {
          assert names[i] in names;
          return None;
        }
        var k :| 0 <= k < |reg| && reg[k].table == names[i];
        result := result[names[i] := Hit(reg[k], hw, tables)];
      }
      assert names[..|names|] == names;
      counts := Some(result);
      forall e | e in reg && e.table in names && e.table in tables {
        HitExact(e, hw, tables);
      }
    }

    method DeleteTable(e: Entry, hw: HighWater) returns (deleted: nat)
      modifies this
      ensures tables == DeleteFrom(old(tables), e, hw)
      ensures deleted == Hit(e, hw, old(tables))
      ensures e.table in old(tables) ==>
                deleted == if e.appendOnly && e.table in hw then |PositionsUpTo(old(tables)[e.table], e.pk, hw[e.table])|
                           else |old(tables)[e.table]|
    {
      if e.table in tables {
        HitExact(e, hw, tables);
      }
      var rows := TableOf(tables, e.table);
      FilterCount((r: Row) => Hits(e, hw, r), rows);
      assert Remaining(e, hw, rows) == Filter((r: Row) => !((x: Row) => Hits(e, hw, x))(r), rows) by {
        FilterAgree((r: Row) => !Hits(e, hw, r), (r: Row) => !((x: Row) => Hits(e, hw, x))(r), rows);
      }
      var kept := Remaining(e, hw, rows);
      tables := tables[e.table := kept];
      deleted := |rows| - |kept|;
    }

    /** The i-th table step: it deletes what the table held before the purge, as counted then. */
    method DeleteNext(order: seq<Entry>, hw: HighWater, ghost before: Db, i: nat) returns (deleted: nat)
      requires UniqueTables(order) && i < |order| && tables == PurgePrefix(before, order, hw, i)
      modifies this
      ensures tables == PurgePrefix(before, order, hw, i + 1)
      ensures deleted == Hit(order[i], hw, before)
    {
      HitOnPrefix(before, order, hw, i);
      deleted := DeleteTable(order[i], hw);
    }

    /** The table steps of the transaction; `failAt` is the step whose statement fails, if any. */
    method DeleteInOrder(order: seq<Entry>, hw: HighWater, failAt: Option<nat>)
      returns (failed: bool, totalDeleted: nat, perTable: seq<(string, nat)>)
      requires UniqueTables(order)
      modifies this
      ensures failed <==> failAt.Some? && failAt.value < |order|
      ensures !failed ==> tables == PurgePrefix(old(tables), order, hw, |order|)
      ensures !failed ==> perTable == Report(order, hw, old(tables))
      ensures totalDeleted == Sum(perTable)
    {
      ghost var before := tables;
      perTable, totalDeleted := [], 0;
      for i := 0 to |order|
        invariant failAt.Some? ==> i <= failAt.value
        invariant Progress(order, hw, before, i, tables, perTable, totalDeleted)
      {
        if failAt == Some(i) {
          return true, totalDeleted, perTable;
        }
        var deleted := DeleteNext(order, hw, before, i);
        NextProgress(order, hw, before, i, tables, perTable, totalDeleted, deleted);
        perTable := perTable + [(order[i].table, deleted)];
        totalDeleted := totalDeleted + deleted;
      }
      assert perTable == Report(order, hw, before);
      failed := false;
    }

    /** One transaction over the whole selection: a failing step rolls everything back and reports nothing. */
    method PurgeTables(reg: Registry, names: set<string>, hw: HighWater, failAt: Option<nat>)
      returns (result: Option<(nat, seq<(string, nat)>)>)
      requires UniqueTables(reg)
      modifies this
      ensures result.None? <==> failAt.Some? && failAt.value < |DeleteOrder(reg, names)|
      ensures result.None? ==> tables == old(tables)
      ensures result.Some? ==>
                && tables == AfterPurge(reg, names, hw, old(tables))
                && result.value.1 == Report(DeleteOrder(reg, names), hw, old(tables))
                && result.value.0 == Sum(result.value.1)
    {
      DeleteOrderCorrect(reg, names);
      var before := tables;
      var failed, totalDeleted, perTable := DeleteInOrder(DeleteOrder(reg, names), hw, failAt);
      if failed {
        tables := before;
        return None;
      }
      result := Some((totalDeleted, perTable));
    }
  }

  function TotalRows(db: Db, order: seq<Entry>): nat {
    if |order| == 0 then 0 else TotalRows(db, order[..|order| - 1]) + |TableOf(db, order[|order| - 1].table)|
  }

  /** What the delete of one table keeps: each row it does not hit, as often as before, and nothing else. */
  lemma RemainingExact(e: Entry, hw: HighWater, rows: seq<Row>, r: Row)
    ensures multiset(Remaining(e, hw, rows))[r] == if Hits(e, hw, r) then 0 else multiset(rows)[r]
    ensures !(e.appendOnly && e.table in hw) ==> Remaining(e, hw, rows) == []
  {
    FilterMultiset((x: Row) => !Hits(e, hw, x), rows, r);
    if !(e.appendOnly && e.table in hw) {
      FilterNone((x: Row) => !Hits(e, hw, x), rows);
    }
  }

  function AfterPurge(reg: Registry, names: set<string>, hw: HighWater, db: Db): Db {
    var order := DeleteOrder(reg, names);
    PurgePrefix(db, order, hw, |order|)
  }

  lemma {:induction false} PrefixHas(db: Db, order: seq<Entry>, hw: HighWater, k: nat, i: nat)
    requires i < k <= |order|
    ensures order[i].table in PurgePrefix(db, order, hw, k)
  {
    if i < k - 1 {
      PrefixHas(db, order, hw, k - 1, i);
    }
  }

  /**
   The purge deletes exactly what the count counted: an ordinary table of the selection ends empty, an
   append-only log keeps exactly the rows that are not at or below its mark, as often as before.
   */
  lemma PurgeOutcome(reg: Registry, names: set<string>, hw: HighWater, db: Db, e: Entry, r: Row)
    requires UniqueTables(reg) && e in reg && e.table in names
    ensures e.table in AfterPurge(reg, names, hw, db)
    ensures e.appendOnly && e.table in hw && e.table in db ==>
              multiset(AfterPurge(reg, names, hw, db)[e.table])[r]
              == if AtOrBelow(r, e.pk, hw[e.table]) then 0 else multiset(db[e.table])[r]
    ensures e.table !in db ==> AfterPurge(reg, names, hw, db)[e.table] == []
    ensures multiset(TableOf(AfterPurge(reg, names, hw, db), e.table))[r]
            == if Hits(e, hw, r) then 0 else multiset(TableOf(db, e.table))[r]
    ensures !(e.appendOnly && e.table in hw) ==> TableOf(AfterPurge(reg, names, hw, db), e.table) == []
  {
    var order := DeleteOrder(reg, names);
    DeleteOrderCorrect(reg, names);
    var i :| 0 <= i < |order| && order[i] == e;
    PrefixTable(db, order, hw, |order|, e.table);
    PrefixHas(db, order, hw, |order|, i);
    RemainingExact(e, hw, TableOf(db, e.table), r);
  }

  /** A table outside the selection, or outside the registry, is untouched. */
  lemma UnselectedUntouched(reg: Registry, names: set<string>, hw: HighWater, db: Db, table: string)
    requires UniqueTables(reg) && !(Registered(reg, table) && table in names)
    ensures TableOf(AfterPurge(reg, names, hw, db), table) == TableOf(db, table)
  {
    var order := DeleteOrder(reg, names);
    DeleteOrderCorrect(reg, names);
    forall i | 0 <= i < |order|
      ensures order[i].table != table
    {
      var e := order[i];
      assert e in order;
      var k :| 0 <= k < |reg| && reg[k] == e;
    }
    PrefixTable(db, order, hw, |order|, table);
  }

  lemma TableLoss(order: seq<Entry>, hw: HighWater, db: Db, i: nat)
    requires UniqueTables(order) && i < |order|
    ensures Hit(order[i], hw, db) + |TableOf(PurgePrefix(db, order, hw, |order|), order[i].table)|
            == |TableOf(db, order[i].table)|
  {
    var e := order[i];
    PrefixTable(db, order, hw, |order|, e.table);
    var p := (r: Row) => Hits(e, hw, r);
    FilterCount(p, TableOf(db, e.table));
    FilterAgree((r: Row) => !p(r), (r: Row) => !Hits(e, hw, r), TableOf(db, e.table));
  }

  /** The reported deletions are the loss in row count over the selected tables. */
  lemma {:induction false} ReportIsLoss(order: seq<Entry>, hw: HighWater, db: Db, k: nat)
    requires UniqueTables(order) && k <= |order|
    ensures Sum(Report(order, hw, db)[..k]) + TotalRows(PurgePrefix(db, order, hw, |order|), order[..k])
            == TotalRows(db, order[..k])
  {
    if k > 0 {
      ReportIsLoss(order, hw, db, k - 1);
      ReportStep(order, hw, db, k - 1);
      TableLoss(order, hw, db, k - 1);
      assert order[..k][..k - 1] == order[..k - 1];
    }
  }
}

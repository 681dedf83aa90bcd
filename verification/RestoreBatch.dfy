/**
 Restoring a backup: archive rows go back into a table batch by batch, with virtual columns and
 identity keys left out, column types restored from the live catalog, and every row of a batch
 brought to one shared key set. The main theorem says exactly which values come back unchanged.
 */
module RestoreBatch {
  import opened Common
  import opened PurgeRegistry
  import opened BackupStream

  /** A JavaScript value handed to the driver. */
  datatype Bind = BNull | BNum(x: real) | BDate(ms: int) | BText(s: string) | BInvalid

  /**
   What JavaScript and the driver do with values. `round` is the double a NUMBER is read as, `decimal` the
   NUMBER a double is stored as: the decimal it prints as, not its exact binary value. The others are
   conversions no backup made by this system needs.
   */
  datatype Env = Env(round: Rounding, decimal: real -> real, asNumber: Json -> Bind, asDate: Json -> Bind, asText: Json -> string,
                     coerce: (Kind, Bind) -> Option<Cell>)

  type BindRow = map<string, Bind>

  predicate Inserted(e: Entry, catalog: Catalog, column: string) {
    column !in e.virtualColumns && !(e.isIdentity && column == e.pk) && column in catalog
  }

  function Convert(e: Entry, env: Env, kind: Kind, column: string, j: Json): Bind {
    if j == JNull then BNull
    else if kind.TimeKind? then
      match j
      case JIso(ms) => BDate(ms)
      case JStamp(us) => BDate(us / 1000)
      case _ => env.asDate(j)
    else if kind.NumberKind? && column !in e.identifierColumns then
      if j.JNum? then BNum(j.x) else env.asNumber(j)
    else
      match j
      case JNum(x) => BNum(x)
      case JText(s) => BText(s)
      case _ => BText(env.asText(j))
  }

  /**
   Identifier digits and texts are bound as archived and never become numbers; a text in any other NUMBER column
   always does, whatever number JavaScript makes of it.
   */
  lemma TextBound(e: Entry, env: Env, kind: Kind, column: string, s: string)
    requires !kind.TimeKind?
    ensures kind.TextKind? || column in e.identifierColumns ==> Convert(e, env, kind, column, JText(s)) == BText(s)
    ensures kind.NumberKind? && column !in e.identifierColumns ==> Convert(e, env, kind, column, JText(s)) == env.asNumber(JText(s))
  {
  }

  function ConvertRow(e: Entry, catalog: Catalog, env: Env, row: JsonRow): BindRow {
    map c | c in row && Inserted(e, catalog, c) :: Convert(e, env, catalog[c], c, row[c])
  }

  function ConvertRows(e: Entry, catalog: Catalog, env: Env, rows: seq<JsonRow>): seq<BindRow> {
    seq(|rows|, i requires 0 <= i < |rows| => ConvertRow(e, catalog, env, rows[i]))
  }

  function AllColumns(rows: seq<BindRow>): set<string> {
    set i, c | 0 <= i < |rows| && c in rows[i] :: c
  }

  /** The row with an explicit null for every column it lacks. */
  function Padded(row: BindRow, columns: set<string>): BindRow {
    map c | c in row.Keys + columns :: if c in row then row[c] else BNull
  }

  /** Brings every row to the same key set, one missing column at a time. */
  method Backfill(given: seq<BindRow>) returns (rows: seq<BindRow>)
    ensures |rows| == |given|
    ensures forall i :: 0 <= i < |rows| ==> rows[i] == Padded(given[i], AllColumns(given))
    ensures forall i :: 0 <= i < |rows| ==> rows[i].Keys == AllColumns(given)
  {
    rows := given;
    var all := AllColumns(given);
    for i := 0 to |given|
      invariant |rows| == |given|
      invariant forall k :: 0 <= k < i ==> rows[k] == Padded(given[k], all)
      invariant forall k :: i <= k < |given| ==> rows[k] == given[k]
    {
      var todo := all;
      var row := given[i];
      while todo != {}
        invariant todo <= all
        invariant forall c :: c in row <==> c in given[i] || c in all - todo
        invariant forall c :: c in row ==> row[c] == if c in given[i] then given[i][c] else BNull
        decreases todo
      {
        var c :| c in todo;
        todo := todo - {c};
        if c !in row {
          row := row[c := BNull];
        }
      }
      assert row == Padded(given[i], all);
      rows := rows[i := row];
    }
  }

  // ---- What Oracle stores ---------------------------------------------------------------------

  /** The empty text is NULL to Oracle. */
  function Store(env: Env, kind: Kind, b: Bind): Option<Cell> {
    match (kind, b)
    case (_, BNull) => Some(CNull)
    case (NumberKind, BNum(x)) => Some(CNum(env.decimal(x)))
    case (NumberKind, BText(s)) =>
      var n := ToNumber(s);
      if n.Some? then Some(CNum(n.value as real)) else env.coerce(kind, b)
    case (TimeKind, BDate(ms)) => Some(CTime(1000 * ms))
    case (TextKind, BText(s)) => Some(if s == "" then CNull else CText(s))
    case _ => env.coerce(kind, b)
  }

  /** NULL goes into any column as NULL, and so does the empty text into a text column; any other text stays. */
  lemma TextStored(env: Env, kind: Kind, s: string)
    ensures Store(env, kind, BNull) == Some(CNull) && Store(env, TextKind, BText("")) == Some(CNull)
    ensures s != "" ==> Store(env, TextKind, BText(s)) == Some(CText(s))
    ensures Store(env, TimeKind, BText(s)) == env.coerce(TimeKind, BText(s))
  {
  }

  predicate Storable(catalog: Catalog, env: Env, row: BindRow) {
    forall c :: c in row && c in catalog ==> Store(env, catalog[c], row[c]).Some?
  }

  /** One inserted row: listed columns as bound, the identity key as generated, any other column its default. */
  function StoredRow(e: Entry, catalog: Catalog, env: Env, defaults: DbRow, columns: set<string>, row: BindRow, id: int)
    : DbRow
  {
    map c | c in catalog && c !in e.virtualColumns ::
      if e.isIdentity && c == e.pk then CNum(id as real)
      else if c in columns then
        var stored := Store(env, catalog[c], if c in row then row[c] else BNull);
        if stored.Some? then stored.value else CNull
      else CellOf(defaults, c)
  }

  predicate StrictlyIncreasing(ids: seq<int>) {
    forall i, j :: 0 <= i < j < |ids| ==> ids[i] < ids[j]
  }

  datatype BatchError = NoCatalog | OracleRejects

  datatype BatchResult = Restored(insertedCount: nat, returning: seq<real>) | BatchFailed(error: BatchError)

  /** The rows a batch adds, in the order given. */
  function BatchRows(e: Entry, catalog: Catalog, env: Env, defaults: DbRow, rows: seq<JsonRow>, ids: seq<int>): seq<DbRow>
    requires |ids| == |rows|
  {
    var converted := ConvertRows(e, catalog, env, rows);
    var all := AllColumns(converted);
    seq(|rows|, i requires 0 <= i < |rows| =>
      StoredRow(e, catalog, env, defaults, all, Padded(converted[i], all), ids[i]))
  }

  /** The driver hands a generated key back as a JavaScript number. */
  function Reported(env: Env, ids: seq<int>): seq<real> {
    seq(|ids|, i requires 0 <= i < |ids| => env.round(ids[i] as real))
  }

  predicate Accepts(e: Entry, catalog: Catalog, env: Env, documents: seq<BindRow>) {
    |documents| > 0 && documents[0] != map[]
    && forall i :: 0 <= i < |documents| ==> Storable(catalog, env, documents[i])
  }

  /** Without documents, without columns, or with one value that its column cannot hold, the insert is refused. */
  lemma AcceptsExact(e: Entry, catalog: Catalog, env: Env, documents: seq<BindRow>)
    ensures !Accepts(e, catalog, env, documents) <==>
            || documents == [] || documents[0].Keys == {}
            || exists i, c :: 0 <= i < |documents| && c in documents[i] && c in catalog
                              && Store(env, catalog[c], documents[i][c]).None?
  {
    if |documents| > 0 && documents[0].Keys == {} {
      assert documents[0] == map[];
    }
  }

  /** The rows of one `insertMany`: the first document names the columns. */
  function InsertedRows(e: Entry, catalog: Catalog, env: Env, defaults: DbRow, documents: seq<BindRow>, ids: seq<int>)
    : seq<DbRow>
    requires |documents| == |ids| > 0
  {
    seq(|ids|, i requires 0 <= i < |ids| =>
      StoredRow(e, catalog, env, defaults, documents[0].Keys, documents[i], ids[i]))
  }

  class Table {
    var rows: seq<DbRow>

    constructor ()
      ensures rows == []
    {
      rows := [];
    }

    /**
     `insertMany` inside the restore transaction: the first document names the insert columns for all of
     them, and a refused row leaves the table to the rollback.
     */
    method InsertMany(e: Entry, catalog: Catalog, env: Env, defaults: DbRow, documents: seq<BindRow>, ids: seq<int>)
      returns (ok: bool)
      requires |documents| == |ids| > 0
      modifies this
      ensures var added := InsertedRows(e, catalog, env, defaults, documents, ids);
              && (ok <==> Accepts(e, catalog, env, documents) && (e.isIdentity || UniqueKeys(old(rows) + added, e.pk)))
              && rows == if ok then old(rows) + added else old(rows)
    {
      var added := InsertedRows(e, catalog, env, defaults, documents, ids);
      ok := Accepts(e, catalog, env, documents) && (e.isIdentity || UniqueKeys(rows + added, e.pk));
      if ok {
        rows := rows + added;
      }
    }

    /**
     `ids` are the values the identity column generates. No rows is a success that touches nothing, even
     with an empty catalog. Generated keys come back as JavaScript numbers, in row order.
     */
    method InsertRestoreBatch(e: Entry, catalog: Catalog, env: Env, defaults: DbRow, batch: seq<JsonRow>, ids: seq<int>)
      returns (r: BatchResult)
      requires |ids| == |batch|
      modifies this
      ensures r.BatchFailed? ==> rows == old(rows)
      ensures batch == [] ==> r == Restored(0, []) && rows == old(rows)
      ensures batch != [] && catalog == map[] ==> r == BatchFailed(NoCatalog)
      ensures batch != [] && catalog != map[] ==>
                var added := BatchRows(e, catalog, env, defaults, batch, ids);
                && (r.Restored? <==> Accepts(e, catalog, env, BatchDocuments(e, catalog, env, batch))
                                     && (e.isIdentity || UniqueKeys(old(rows) + added, e.pk)))
                && (r.Restored? ==> rows == old(rows) + added && r.insertedCount == |batch|)
                && (r.Restored? ==> r.returning == if e.isIdentity then Reported(env, ids) else [])
      ensures r.Restored? && batch != [] ==>
                && (!e.isIdentity ==> r.returning == [])
                && (e.isIdentity ==> |r.returning| == |ids|
                                     && forall i :: 0 <= i < |ids| ==> r.returning[i] == env.round(ids[i] as real))
    {
      if |batch| == 0 {
        return Restored(0, []);
      }
      if catalog == map[] {
        return BatchFailed(NoCatalog);
      }
      var documents := Backfill(ConvertRows(e, catalog, env, batch));
      assert documents == BatchDocuments(e, catalog, env, batch);
      var ok := InsertMany(e, catalog, env, defaults, documents, ids);
      assert BatchRows(e, catalog, env, defaults, batch, ids) == InsertedRows(e, catalog, env, defaults, documents, ids);
      if !ok {
        return BatchFailed(OracleRejects);
      }
      r := Restored(|batch|, if e.isIdentity then Reported(env, ids) else []);
    }

    /** One batch of a restore, as one yes or no. */
    method RestoreChunk(e: Entry, catalog: Catalog, env: Env, defaults: DbRow, batch: seq<JsonRow>, ids: seq<int>)
      returns (ok: bool)
      requires |ids| == |batch| > 0
      modifies this
      ensures var added := BatchRows(e, catalog, env, defaults, batch, ids);
              && (ok <==> BatchAccepted(e, catalog, env, batch) && (e.isIdentity || UniqueKeys(old(rows) + added, e.pk)))
              && (ok ==> rows == old(rows) + added)
    {
      var r := InsertRestoreBatch(e, catalog, env, defaults, batch, ids);
      ok := r.Restored?;
    }

    /**
     The whole table in batches, as the restore service does it: it stops at the first refused batch. It
     goes through exactly when every batch is accepted and the restored natural keys are distinct.
     */
    method RestoreInBatches(e: Entry, catalog: Catalog, env: Env, defaults: DbRow, archive: seq<JsonRow>,
                            ids: seq<int>, batchSize: nat)
      returns (ok: bool)
      requires |ids| == |archive| && batchSize > 0
      modifies this
      ensures var added := ChunkedRows(e, catalog, env, defaults, archive, ids, batchSize);
              && (ok <==> archive == [] || (ChunksAccepted(e, catalog, env, archive, batchSize)
                                            && (e.isIdentity || UniqueKeys(old(rows) + added, e.pk))))
              && (ok ==> rows == old(rows) + added)
    {
      ghost var before, added := rows, [];
      var done := 0;
      while done < |archive|
        invariant 0 <= done <= |archive| && rows == before + added
        invariant Underway(e, catalog, env, defaults, archive, ids, batchSize, done, added)
        invariant done > 0 ==> e.isIdentity || UniqueKeys(rows, e.pk)
      {
        var next := Min(done + batchSize, |archive|);
        ghost var chunk := NextChunk(e, catalog, env, defaults, archive, ids, batchSize, done, next, before, added);
        ok := RestoreChunk(e, catalog, env, defaults, archive[done..next], ids[done..next]);
        if !ok {
          return false;
        }
        added := added + chunk;
        done := next;
      }
      assert added + [] == added;
      ok := true;
    }
  }

  // ---- Batches --------------------------------------------------------------------------------

  predicate BatchAccepted(e: Entry, catalog: Catalog, env: Env, batch: seq<JsonRow>) {
    catalog != map[] && Accepts(e, catalog, env, BatchDocuments(e, catalog, env, batch))
  }

  /** What a restore in batches of `size` rows adds. */
  function ChunkedRows(e: Entry, catalog: Catalog, env: Env, defaults: DbRow, rows: seq<JsonRow>, ids: seq<int>, size: nat)
    : (added: seq<DbRow>)
    requires |ids| == |rows| && size > 0
    ensures |added| == |rows|
    decreases |rows|
  {
    if |rows| == 0 then []
    else
      var n := Min(size, |rows|);
      BatchRows(e, catalog, env, defaults, rows[..n], ids[..n])
      + ChunkedRows(e, catalog, env, defaults, rows[n..], ids[n..], size)
  }

  /** A batch is accepted exactly when there is a catalog and the insert takes its documents. */
  lemma BatchAcceptedExact(e: Entry, catalog: Catalog, env: Env, batch: seq<JsonRow>)
    ensures BatchAccepted(e, catalog, env, batch) <==>
            catalog.Keys != {} && Accepts(e, catalog, env, BatchDocuments(e, catalog, env, batch))
  {
    assert catalog.Keys == {} <==> catalog == map[];
  }

  /** Without a catalog no row is accepted. */
  lemma NoCatalogRefuses(e: Entry, env: Env, rows: seq<JsonRow>, size: nat)
    requires size > 0
    ensures ChunksAccepted(e, map[], env, rows, size) <==> rows == []
  {
  }

  predicate ChunksAccepted(e: Entry, catalog: Catalog, env: Env, rows: seq<JsonRow>, size: nat)
    requires size > 0
    decreases |rows|
  {
    |rows| == 0 ||
    var n := Min(size, |rows|);
    BatchAccepted(e, catalog, env, rows[..n]) && ChunksAccepted(e, catalog, env, rows[n..], size)
  }

  /** `added` is what the batches before `done`, all accepted, contribute. */
  ghost predicate Underway(e: Entry, catalog: Catalog, env: Env, defaults: DbRow, rows: seq<JsonRow>, ids: seq<int>,
                           size: nat, done: nat, added: seq<DbRow>)
    requires |ids| == |rows| && size > 0 && done <= |rows|
  {
    && ChunkedRows(e, catalog, env, defaults, rows, ids, size)
       == added + ChunkedRows(e, catalog, env, defaults, rows[done..], ids[done..], size)
    && ChunksAccepted(e, catalog, env, rows, size) == ChunksAccepted(e, catalog, env, rows[done..], size)
  }

  lemma ChunkAt(e: Entry, catalog: Catalog, env: Env, defaults: DbRow, rows: seq<JsonRow>, ids: seq<int>, size: nat,
                done: nat, next: nat)
    requires |ids| == |rows| && size > 0 && done < |rows| && next == Min(done + size, |rows|)
    ensures ChunkedRows(e, catalog, env, defaults, rows[done..], ids[done..], size)
            == BatchRows(e, catalog, env, defaults, rows[done..next], ids[done..next])
               + ChunkedRows(e, catalog, env, defaults, rows[next..], ids[next..], size)
    ensures ChunksAccepted(e, catalog, env, rows[done..], size)
            <==> BatchAccepted(e, catalog, env, rows[done..next]) && ChunksAccepted(e, catalog, env, rows[next..], size)
  {
    var n := Min(size, |rows[done..]|);
    assert rows[done..][..n] == rows[done..next] && rows[done..][n..] == rows[next..];
    assert ids[done..][..n] == ids[done..next] && ids[done..][n..] == ids[next..];
  }

  lemma Regroup(before: seq<DbRow>, added: seq<DbRow>, chunk: seq<DbRow>, rest: seq<DbRow>, pk: string)
    ensures added + (chunk + rest) == (added + chunk) + rest
    ensures (before + added) + chunk == before + (added + chunk)
    ensures UniqueKeys(before + (added + (chunk + rest)), pk) ==> UniqueKeys((before + added) + chunk, pk)
  {
    var front := (before + added) + chunk;
    assert before + (added + (chunk + rest)) == front + rest;
    KeysOfPrefix(front, rest, pk);
  }

  /** The batch at `done`: if it goes through the restore is further on, if not the whole cannot. */
  lemma NextChunk(e: Entry, catalog: Catalog, env: Env, defaults: DbRow, rows: seq<JsonRow>, ids: seq<int>, size: nat,
                  done: nat, next: nat, before: seq<DbRow>, added: seq<DbRow>)
    returns (chunk: seq<DbRow>)
    requires |ids| == |rows| && size > 0 && done < |rows| && next == Min(done + size, |rows|)
    requires Underway(e, catalog, env, defaults, rows, ids, size, done, added)
    ensures chunk == BatchRows(e, catalog, env, defaults, rows[done..next], ids[done..next])
    ensures (before + added) + chunk == before + (added + chunk)
    ensures BatchAccepted(e, catalog, env, rows[done..next]) ==>
              Underway(e, catalog, env, defaults, rows, ids, size, next, added + chunk)
    ensures ChunksAccepted(e, catalog, env, rows, size) ==> BatchAccepted(e, catalog, env, rows[done..next])
    ensures UniqueKeys(before + ChunkedRows(e, catalog, env, defaults, rows, ids, size), e.pk) ==>
              UniqueKeys((before + added) + chunk, e.pk)
  {
    ChunkAt(e, catalog, env, defaults, rows, ids, size, done, next);
    chunk := BatchRows(e, catalog, env, defaults, rows[done..next], ids[done..next]);
    Regroup(before, added, chunk, ChunkedRows(e, catalog, env, defaults, rows[next..], ids[next..], size), e.pk);
  }

  lemma KeysOfPrefix(front: seq<DbRow>, back: seq<DbRow>, pk: string)
    ensures UniqueKeys(front + back, pk) ==> UniqueKeys(front, pk)
  {
    assert forall i :: 0 <= i < |front| ==> (front + back)[i] == front[i];
  }

  function BatchDocuments(e: Entry, catalog: Catalog, env: Env, batch: seq<JsonRow>): seq<BindRow> {
    var converted := ConvertRows(e, catalog, env, batch);
    seq(|batch|, i requires 0 <= i < |batch| => Padded(converted[i], AllColumns(converted)))
  }

  // ---- Complete rows: every catalog column present, as the paged read delivers them -------------

  predicate Complete(catalog: Catalog, rows: seq<JsonRow>) {
    forall i :: 0 <= i < |rows| ==> rows[i].Keys == catalog.Keys
  }

  function RestoredCell(e: Entry, env: Env, kind: Kind, column: string, j: Json): Cell {
    var stored := Store(env, kind, Convert(e, env, kind, column, j));
    if stored.Some? then stored.value else CNull
  }

  function RestoredRow(e: Entry, catalog: Catalog, env: Env, row: JsonRow, id: int): DbRow
    requires row.Keys == catalog.Keys
  {
    map c | c in catalog && c !in e.virtualColumns ::
      if e.isIdentity && c == e.pk then CNum(id as real) else RestoredCell(e, env, catalog[c], c, row[c])
  }

  function RestoredRows(e: Entry, catalog: Catalog, env: Env, rows: seq<JsonRow>, ids: seq<int>): seq<DbRow>
    requires |ids| == |rows| && Complete(catalog, rows)
  {
    seq(|rows|, i requires 0 <= i < |rows| => RestoredRow(e, catalog, env, rows[i], ids[i]))
  }

  /** Some column is inserted, and Oracle takes every converted value. */
  predicate Restorable(e: Entry, catalog: Catalog, env: Env, rows: seq<JsonRow>) {
    && (exists c :: c in catalog && Inserted(e, catalog, c))
    && forall i, c :: 0 <= i < |rows| && c in rows[i] && Inserted(e, catalog, c) ==>
         Store(env, catalog[c], Convert(e, env, catalog[c], c, rows[i][c])).Some?
  }

  function InsertColumns(e: Entry, catalog: Catalog): set<string> {
    set c | c in catalog && Inserted(e, catalog, c)
  }

  lemma CompleteColumns(e: Entry, catalog: Catalog, env: Env, batch: seq<JsonRow>)
    requires |batch| > 0 && Complete(catalog, batch)
    ensures AllColumns(ConvertRows(e, catalog, env, batch)) == InsertColumns(e, catalog)
    ensures forall i :: 0 <= i < |batch| ==> ConvertRow(e, catalog, env, batch[i]).Keys == InsertColumns(e, catalog)
  {
    var converted := ConvertRows(e, catalog, env, batch);
    forall i | 0 <= i < |batch|
      ensures converted[i].Keys == InsertColumns(e, catalog)
    {
      assert batch[i].Keys == catalog.Keys;
    }
    assert converted[0].Keys == InsertColumns(e, catalog);
  }

  lemma CompleteRow(e: Entry, catalog: Catalog, env: Env, defaults: DbRow, row: JsonRow, id: int)
    requires row.Keys == catalog.Keys
    ensures var document := ConvertRow(e, catalog, env, row);
            && Padded(document, InsertColumns(e, catalog)) == document
            && StoredRow(e, catalog, env, defaults, InsertColumns(e, catalog), document, id)
               == RestoredRow(e, catalog, env, row, id)
  {
    var document := ConvertRow(e, catalog, env, row);
    assert document.Keys == InsertColumns(e, catalog);
  }

  lemma CompleteDocuments(e: Entry, catalog: Catalog, env: Env, batch: seq<JsonRow>)
    requires |batch| > 0 && Complete(catalog, batch)
    ensures BatchDocuments(e, catalog, env, batch) == ConvertRows(e, catalog, env, batch)
  {
    CompleteColumns(e, catalog, env, batch);
    var columns := InsertColumns(e, catalog);
    forall i | 0 <= i < |batch|
      ensures Padded(ConvertRow(e, catalog, env, batch[i]), columns) == ConvertRow(e, catalog, env, batch[i])
    {
      CompleteRow(e, catalog, env, map[], batch[i], 0);
    }
  }

  lemma CompleteBatch(e: Entry, catalog: Catalog, env: Env, defaults: DbRow, batch: seq<JsonRow>, ids: seq<int>)
    requires |ids| == |batch| > 0 && Complete(catalog, batch)
    ensures BatchRows(e, catalog, env, defaults, batch, ids) == RestoredRows(e, catalog, env, batch, ids)
  {
    CompleteColumns(e, catalog, env, batch);
    var added, restored := BatchRows(e, catalog, env, defaults, batch, ids), RestoredRows(e, catalog, env, batch, ids);
    assert |added| == |restored|;
    forall i | 0 <= i < |batch|
      ensures added[i] == restored[i]
    {
      CompleteRow(e, catalog, env, defaults, batch[i], ids[i]);
      assert added[i] == StoredRow(e, catalog, env, defaults, InsertColumns(e, catalog),
                                   ConvertRow(e, catalog, env, batch[i]), ids[i]);
    }
  }

  lemma AcceptsComplete(e: Entry, catalog: Catalog, env: Env, batch: seq<JsonRow>)
    requires |batch| > 0 && Complete(catalog, batch) && Restorable(e, catalog, env, batch)
    ensures catalog != map[] && Accepts(e, catalog, env, ConvertRows(e, catalog, env, batch))
  {
    var documents := ConvertRows(e, catalog, env, batch);
    var c :| c in catalog && Inserted(e, catalog, c);
    assert c in documents[0];
    forall i, c | 0 <= i < |documents| && c in documents[i]
      ensures Store(env, catalog[c], documents[i][c]).Some?
    {
      assert c in batch[i];
    }
  }

  /** For complete rows the batch size does not matter, and a restorable archive is accepted batch by batch. */
  lemma {:induction false} CompleteChunks(e: Entry, catalog: Catalog, env: Env, defaults: DbRow, rows: seq<JsonRow>,
                                          ids: seq<int>, size: nat)
    requires |ids| == |rows| && size > 0 && Complete(catalog, rows)
    ensures ChunkedRows(e, catalog, env, defaults, rows, ids, size) == RestoredRows(e, catalog, env, rows, ids)
    ensures Restorable(e, catalog, env, rows) ==> ChunksAccepted(e, catalog, env, rows, size)
    decreases |rows|
  {
    if |rows| > 0 {
      var n := Min(size, |rows|);
      CompleteBatch(e, catalog, env, defaults, rows[..n], ids[..n]);
      CompleteChunks(e, catalog, env, defaults, rows[n..], ids[n..], size);
      RestoredParts(e, catalog, env, rows, ids, n);
      if Restorable(e, catalog, env, rows) {
        RestorableParts(e, catalog, env, rows, n);
        AcceptsComplete(e, catalog, env, rows[..n]);
        CompleteDocuments(e, catalog, env, rows[..n]);
      }
    }
  }

  lemma RestoredParts(e: Entry, catalog: Catalog, env: Env, rows: seq<JsonRow>, ids: seq<int>, n: nat)
    requires |ids| == |rows| && Complete(catalog, rows) && n <= |rows|
    ensures RestoredRows(e, catalog, env, rows, ids)
            == RestoredRows(e, catalog, env, rows[..n], ids[..n]) + RestoredRows(e, catalog, env, rows[n..], ids[n..])
  {
  }

  lemma RestorableParts(e: Entry, catalog: Catalog, env: Env, rows: seq<JsonRow>, n: nat)
    requires Restorable(e, catalog, env, rows) && n <= |rows|
    ensures Restorable(e, catalog, env, rows[..n]) && Restorable(e, catalog, env, rows[n..])
  {
    assert forall i :: 0 <= i < |rows| - n ==> rows[n..][i] == rows[n + i];
  }

  // ---- Why the rows of a batch share their keys ------------------------------------------------

  /** A column left out of the insert takes its default; one listed takes the row's value, or NULL. */
  lemma ListedOrDefault(e: Entry, catalog: Catalog, env: Env, defaults: DbRow, columns: set<string>, row: BindRow, id: int,
                        c: string)
    requires c in InsertColumns(e, catalog)
    ensures c in StoredRow(e, catalog, env, defaults, columns, row, id)
    ensures c !in columns ==> StoredRow(e, catalog, env, defaults, columns, row, id)[c] == CellOf(defaults, c)
    ensures c in columns && (c !in row || row[c] == BNull) ==>
              StoredRow(e, catalog, env, defaults, columns, row, id)[c] == CNull
  {
  }

  lemma PaddedMissing(rows: seq<BindRow>, i: nat, row: BindRow, c: string)
    requires i < |rows| && c in rows[i] && c !in row
    ensures c in AllColumns(rows) && c in Padded(row, AllColumns(rows)) && Padded(row, AllColumns(rows))[c] == BNull
  {
  }

  /** The documents as they would be after the backfill. */
  function BackfilledRows(e: Entry, catalog: Catalog, env: Env, defaults: DbRow, documents: seq<BindRow>, ids: seq<int>)
    : seq<DbRow>
    requires |documents| == |ids| > 0
  {
    InsertedRows(e, catalog, env, defaults,
                 seq(|documents|, i requires 0 <= i < |documents| => Padded(documents[i], AllColumns(documents))), ids)
  }

  lemma PaddingAddsNulls(e: Entry, catalog: Catalog, env: Env, defaults: DbRow, columns: set<string>, row: BindRow, id: int)
    requires row.Keys <= columns
    ensures StoredRow(e, catalog, env, defaults, columns, row, id)
            == StoredRow(e, catalog, env, defaults, columns, Padded(row, columns), id)
  {
  }

  lemma FirstHasAll(e: Entry, catalog: Catalog, env: Env, defaults: DbRow, documents: seq<BindRow>, ids: seq<int>)
    requires |documents| == |ids| > 0 && documents[0].Keys == AllColumns(documents)
    ensures InsertedRows(e, catalog, env, defaults, documents, ids)
            == BackfilledRows(e, catalog, env, defaults, documents, ids)
  {
    var all := AllColumns(documents);
    assert Padded(documents[0], all) == documents[0];
    forall i | 0 <= i < |documents|
      ensures InsertedRows(e, catalog, env, defaults, documents, ids)[i]
              == BackfilledRows(e, catalog, env, defaults, documents, ids)[i]
    {
      assert documents[i].Keys <= all;
      PaddingAddsNulls(e, catalog, env, defaults, all, documents[i], ids[i]);
    }
  }

  lemma FirstLacks(e: Entry, catalog: Catalog, env: Env, defaults: DbRow, documents: seq<BindRow>, ids: seq<int>,
                   i: nat, c: string)
    requires |documents| == |ids| > 0 && i < |documents| && c in InsertColumns(e, catalog)
    requires c in documents[i] && c !in documents[0]
    ensures var alone := InsertedRows(e, catalog, env, defaults, documents, ids)[0];
            c in alone && alone[c] == CellOf(defaults, c)
    ensures var backfilled := BackfilledRows(e, catalog, env, defaults, documents, ids)[0];
            c in backfilled && backfilled[c] == CNull
  {
    var all := AllColumns(documents);
    var padded := Padded(documents[0], all);
    PaddedMissing(documents, i, documents[0], c);
    ListedOrDefault(e, catalog, env, defaults, documents[0].Keys, documents[0], ids[0], c);
    ListedOrDefault(e, catalog, env, defaults, padded.Keys, padded, ids[0], c);
  }

  /** `insertMany` on its own stores what the backfilled documents would store, whatever the defaults. */
  ghost predicate NoColumnLost(e: Entry, catalog: Catalog, env: Env, documents: seq<BindRow>, ids: seq<int>)
    requires |documents| == |ids| > 0
  {
    forall defaults :: InsertedRows(e, catalog, env, defaults, documents, ids)
                       == BackfilledRows(e, catalog, env, defaults, documents, ids)
  }

  lemma ColumnLost(e: Entry, catalog: Catalog, env: Env, documents: seq<BindRow>, ids: seq<int>, i: nat, c: string)
    requires |documents| == |ids| > 0 && i < |documents| && documents[i].Keys <= InsertColumns(e, catalog)
    requires c in documents[i] && c !in documents[0]
    ensures !NoColumnLost(e, catalog, env, documents, ids)
  {
    var defaults: DbRow := map[c := CNum(0.0)];
    FirstLacks(e, catalog, env, defaults, documents, ids, i, c);
  }

  /**
   No column is lost exactly when the first document has every column any of them has: one it lacks is
   dropped from all rows. The backfill sees to that.
   */
  lemma FirstDocumentExact(e: Entry, catalog: Catalog, env: Env, documents: seq<BindRow>, ids: seq<int>)
    requires |documents| == |ids| > 0
    requires forall i :: 0 <= i < |documents| ==> documents[i].Keys <= InsertColumns(e, catalog)
    ensures NoColumnLost(e, catalog, env, documents, ids) <==> documents[0].Keys == AllColumns(documents)
  {
    var all := AllColumns(documents);
    if documents[0].Keys == all {
      forall defaults
        ensures InsertedRows(e, catalog, env, defaults, documents, ids)
                == BackfilledRows(e, catalog, env, defaults, documents, ids)
      {
        FirstHasAll(e, catalog, env, defaults, documents, ids);
      }
    } else {
      assert documents[0].Keys <= all;
      var c := Outside(all, documents[0].Keys);
      var i :| 0 <= i < |documents| && c in documents[i];
      ColumnLost(e, catalog, env, documents, ids, i, c);
    }
  }

  // ---- When the batch size matters ----------------------------------------------------------------

  /** All rows bring the same columns to the insert. */
  predicate SameColumns(e: Entry, catalog: Catalog, env: Env, rows: seq<JsonRow>) {
    forall i, j :: 0 <= i < |rows| && 0 <= j < |rows| ==>
      ConvertRow(e, catalog, env, rows[i]).Keys == ConvertRow(e, catalog, env, rows[j]).Keys
  }

  /** The row stored on its own columns. */
  function OwnRow(e: Entry, catalog: Catalog, env: Env, defaults: DbRow, row: JsonRow, id: int): DbRow {
    var converted := ConvertRow(e, catalog, env, row);
    StoredRow(e, catalog, env, defaults, converted.Keys, converted, id)
  }

  lemma SameColumnsAre(e: Entry, catalog: Catalog, env: Env, rows: seq<JsonRow>, i: nat)
    requires SameColumns(e, catalog, env, rows) && i < |rows|
    ensures AllColumns(ConvertRows(e, catalog, env, rows)) == ConvertRow(e, catalog, env, rows[i]).Keys
  {
    var converted := ConvertRows(e, catalog, env, rows);
    forall c
      ensures c in AllColumns(converted) <==> c in converted[i]
    {
      if k :| 0 <= k < |converted| && c in converted[k] {
        assert ConvertRow(e, catalog, env, rows[k]).Keys == ConvertRow(e, catalog, env, rows[i]).Keys;
      }
    }
  }

  lemma BatchOfSame(e: Entry, catalog: Catalog, env: Env, defaults: DbRow, rows: seq<JsonRow>, ids: seq<int>, i: nat)
    requires |ids| == |rows| && SameColumns(e, catalog, env, rows) && i < |rows|
    ensures BatchRows(e, catalog, env, defaults, rows, ids)[i] == OwnRow(e, catalog, env, defaults, rows[i], ids[i])
  {
    SameColumnsAre(e, catalog, env, rows, i);
    var converted := ConvertRow(e, catalog, env, rows[i]);
    assert Padded(converted, converted.Keys) == converted;
  }

  lemma FirstChunk(e: Entry, catalog: Catalog, env: Env, defaults: DbRow, rows: seq<JsonRow>, ids: seq<int>, size: nat)
    returns (head: seq<DbRow>, tail: seq<DbRow>)
    requires |ids| == |rows| > 0 && size > 0
    ensures var n := Min(size, |rows|);
            && head == BatchRows(e, catalog, env, defaults, rows[..n], ids[..n]) && |head| == n
            && tail == ChunkedRows(e, catalog, env, defaults, rows[n..], ids[n..], size)
            && ChunkedRows(e, catalog, env, defaults, rows, ids, size) == head + tail
  {
    var n := Min(size, |rows|);
    head := BatchRows(e, catalog, env, defaults, rows[..n], ids[..n]);
    tail := ChunkedRows(e, catalog, env, defaults, rows[n..], ids[n..], size);
  }

  /** No batch mixes rows that bring different columns. */
  predicate Unmixed(e: Entry, catalog: Catalog, env: Env, rows: seq<JsonRow>, size: nat)
    requires size > 0
    decreases |rows|
  {
    |rows| == 0 ||
    var n := Min(size, |rows|);
    SameColumns(e, catalog, env, rows[..n]) && Unmixed(e, catalog, env, rows[n..], size)
  }

  lemma SameColumnsParts(e: Entry, catalog: Catalog, env: Env, rows: seq<JsonRow>, n: nat)
    requires n <= |rows| && SameColumns(e, catalog, env, rows)
    ensures SameColumns(e, catalog, env, rows[..n]) && SameColumns(e, catalog, env, rows[n..])
  {
  }

  lemma {:induction false} SameIsUnmixed(e: Entry, catalog: Catalog, env: Env, rows: seq<JsonRow>, size: nat)
    requires size > 0 && SameColumns(e, catalog, env, rows)
    ensures Unmixed(e, catalog, env, rows, size)
    decreases |rows|
  {
    if |rows| > 0 {
      var n := Min(size, |rows|);
      SameColumnsParts(e, catalog, env, rows, n);
      SameIsUnmixed(e, catalog, env, rows[n..], size);
    }
  }

  lemma {:induction false} OneByOneIsUnmixed(e: Entry, catalog: Catalog, env: Env, rows: seq<JsonRow>)
    ensures Unmixed(e, catalog, env, rows, 1)
    decreases |rows|
  {
    if |rows| > 0 {
      OneByOneIsUnmixed(e, catalog, env, rows[1..]);
    }
  }

  /** Each row as it would be stored alone. */
  function OwnRows(e: Entry, catalog: Catalog, env: Env, defaults: DbRow, rows: seq<JsonRow>, ids: seq<int>): seq<DbRow>
    requires |ids| == |rows|
  {
    seq(|rows|, i requires 0 <= i < |rows| => OwnRow(e, catalog, env, defaults, rows[i], ids[i]))
  }

  lemma OwnRowsSplit(e: Entry, catalog: Catalog, env: Env, defaults: DbRow, rows: seq<JsonRow>, ids: seq<int>, n: nat)
    requires |ids| == |rows| && n <= |rows|
    ensures OwnRows(e, catalog, env, defaults, rows, ids)
            == OwnRows(e, catalog, env, defaults, rows[..n], ids[..n]) + OwnRows(e, catalog, env, defaults, rows[n..], ids[n..])
  {
  }

  lemma BatchIsOwnRows(e: Entry, catalog: Catalog, env: Env, defaults: DbRow, rows: seq<JsonRow>, ids: seq<int>)
    requires |ids| == |rows| && SameColumns(e, catalog, env, rows)
    ensures BatchRows(e, catalog, env, defaults, rows, ids) == OwnRows(e, catalog, env, defaults, rows, ids)
  {
    forall i | 0 <= i < |rows|
      ensures BatchRows(e, catalog, env, defaults, rows, ids)[i] == OwnRows(e, catalog, env, defaults, rows, ids)[i]
    {
      BatchOfSame(e, catalog, env, defaults, rows, ids, i);
    }
  }

  lemma {:induction false} ChunksAreOwnRows(e: Entry, catalog: Catalog, env: Env, defaults: DbRow, rows: seq<JsonRow>,
                                            ids: seq<int>, size: nat)
    requires |ids| == |rows| && size > 0 && Unmixed(e, catalog, env, rows, size)
    ensures ChunkedRows(e, catalog, env, defaults, rows, ids, size) == OwnRows(e, catalog, env, defaults, rows, ids)
    decreases |rows|
  {
    if |rows| > 0 {
      var n := Min(size, |rows|);
      var head, tail := FirstChunk(e, catalog, env, defaults, rows, ids, size);
      BatchIsOwnRows(e, catalog, env, defaults, rows[..n], ids[..n]);
      ChunksAreOwnRows(e, catalog, env, defaults, rows[n..], ids[n..], size);
      OwnRowsSplit(e, catalog, env, defaults, rows, ids, n);
    }
  }

  lemma SameWhateverSize(e: Entry, catalog: Catalog, env: Env, defaults: DbRow, rows: seq<JsonRow>, ids: seq<int>, m: nat, n: nat)
    requires |ids| == |rows| && m > 0 && n > 0 && SameColumns(e, catalog, env, rows)
    ensures ChunkedRows(e, catalog, env, defaults, rows, ids, m) == ChunkedRows(e, catalog, env, defaults, rows, ids, n)
  {
    SameIsUnmixed(e, catalog, env, rows, m);
    SameIsUnmixed(e, catalog, env, rows, n);
    ChunksAreOwnRows(e, catalog, env, defaults, rows, ids, m);
    ChunksAreOwnRows(e, catalog, env, defaults, rows, ids, n);
  }

  lemma OwnBatchDefaults(e: Entry, catalog: Catalog, env: Env, rows: seq<JsonRow>, ids: seq<int>, j: nat, c: string,
                         defaults: DbRow)
    requires |ids| == |rows| && j < |rows| && c in InsertColumns(e, catalog)
    requires c !in ConvertRow(e, catalog, env, rows[j])
    ensures var one := ChunkedRows(e, catalog, env, defaults, rows, ids, 1)[j];
            c in one && one[c] == CellOf(defaults, c)
  {
    OneByOneIsUnmixed(e, catalog, env, rows);
    ChunksAreOwnRows(e, catalog, env, defaults, rows, ids, 1);
    var converted := ConvertRow(e, catalog, env, rows[j]);
    ListedOrDefault(e, catalog, env, defaults, converted.Keys, converted, ids[j], c);
  }

  lemma WholeBatch(e: Entry, catalog: Catalog, env: Env, defaults: DbRow, rows: seq<JsonRow>, ids: seq<int>)
    requires |ids| == |rows| > 0
    ensures ChunkedRows(e, catalog, env, defaults, rows, ids, |rows|) == BatchRows(e, catalog, env, defaults, rows, ids)
  {
    assert rows[..|rows|] == rows && ids[..|rows|] == ids;
    assert BatchRows(e, catalog, env, defaults, rows, ids) + [] == BatchRows(e, catalog, env, defaults, rows, ids);
  }

  lemma SharedBatchNulls(e: Entry, catalog: Catalog, env: Env, rows: seq<JsonRow>, ids: seq<int>, i: nat, j: nat, c: string,
                         defaults: DbRow)
    requires |ids| == |rows| && i < |rows| && j < |rows| && c in InsertColumns(e, catalog)
    requires c in ConvertRow(e, catalog, env, rows[i]) && c !in ConvertRow(e, catalog, env, rows[j])
    ensures var whole := BatchRows(e, catalog, env, defaults, rows, ids)[j];
            c in whole && whole[c] == CNull
  {
    var converted := ConvertRows(e, catalog, env, rows);
    PaddedMissing(converted, i, converted[j], c);
    ListedOrDefault(e, catalog, env, defaults, AllColumns(converted), Padded(converted[j], AllColumns(converted)), ids[j], c);
  }

  /** A column some row lacks and another has: NULL if one batch holds both, its default in a batch of its own. */
  lemma BatchSizeShows(e: Entry, catalog: Catalog, env: Env, rows: seq<JsonRow>, ids: seq<int>, i: nat, j: nat, c: string)
    requires |ids| == |rows| && i < |rows| && j < |rows|
    requires c in ConvertRow(e, catalog, env, rows[i]) && c !in ConvertRow(e, catalog, env, rows[j])
    ensures var defaults := map[c := CNum(0.0)];
            ChunkedRows(e, catalog, env, defaults, rows, ids, 1)[j]
            != ChunkedRows(e, catalog, env, defaults, rows, ids, |rows|)[j]
  {
    var defaults: DbRow := map[c := CNum(0.0)];
    OwnBatchDefaults(e, catalog, env, rows, ids, j, c, defaults);
    SharedBatchNulls(e, catalog, env, rows, ids, i, j, c, defaults);
    WholeBatch(e, catalog, env, defaults, rows, ids);
  }

  /** Batch boundaries leave no trace, whatever the column defaults, exactly when all rows bring the same columns. */
  lemma BatchSizeExact(e: Entry, catalog: Catalog, env: Env, rows: seq<JsonRow>, ids: seq<int>)
    requires |ids| == |rows|
    ensures (forall defaults, m: nat, n: nat :: m > 0 && n > 0 ==>
               ChunkedRows(e, catalog, env, defaults, rows, ids, m) == ChunkedRows(e, catalog, env, defaults, rows, ids, n))
            <==> SameColumns(e, catalog, env, rows)
  {
    if SameColumns(e, catalog, env, rows) {
      forall defaults, m: nat, n: nat | m > 0 && n > 0
        ensures ChunkedRows(e, catalog, env, defaults, rows, ids, m) == ChunkedRows(e, catalog, env, defaults, rows, ids, n)
      {
        SameWhateverSize(e, catalog, env, defaults, rows, ids, m, n);
      }
    } else {
      var i, j, c := DifferingColumn(e, catalog, env, rows);
      BatchSizeShows(e, catalog, env, rows, ids, i, j, c);
    }
  }

  lemma DifferingColumn(e: Entry, catalog: Catalog, env: Env, rows: seq<JsonRow>) returns (i: nat, j: nat, c: string)
    requires !SameColumns(e, catalog, env, rows)
    ensures i < |rows| && j < |rows|
    ensures c in ConvertRow(e, catalog, env, rows[i]) && c !in ConvertRow(e, catalog, env, rows[j])
  {
    var a, b :| 0 <= a < |rows| && 0 <= b < |rows|
                && ConvertRow(e, catalog, env, rows[a]).Keys != ConvertRow(e, catalog, env, rows[b]).Keys;
    var left, right := ConvertRow(e, catalog, env, rows[a]).Keys, ConvertRow(e, catalog, env, rows[b]).Keys;
    if left <= right {
      c := Outside(right, left);
      i, j := b, a;
    } else {
      c := Outside(left, right);
      i, j := a, b;
    }
  }
}

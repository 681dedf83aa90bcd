/**
 Reading a table into a backup: a paged read in primary-key order that hands over one batch of
 archive rows per page, for one table or for many tables of one read-only transaction.
 */
module BackupStream {
  import opened Common
  import opened PurgeRegistry

  /** The column types the code tells apart (`DATE` and `TIMESTAMP*` are treated alike). */
  datatype Kind = NumberKind | TimeKind | TextKind

  type Catalog = map<string, Kind>

  /** A value as Oracle holds it; times in microseconds. */
  datatype Cell = CNull | CNum(x: real) | CTime(us: int) | CText(s: string)

  /** A value as the archive line holds it: a date prints as ISO with milliseconds, a stamp with microseconds. */
  datatype Json = JNull | JNum(x: real) | JIso(ms: int) | JStamp(us: int) | JText(s: string)

  type DbRow = map<string, Cell>
  type JsonRow = map<string, Json>

  /** What JavaScript makes of a NUMBER: the nearest double. */
  type Rounding = real -> real

  function CellOf(r: DbRow, column: string): Cell { if column in r then r[column] else CNull }

  // ---- Exact digits ---------------------------------------------------------------------------

  function DigitsOf(n: nat): (s: string)
    ensures |s| > 0
  {
    (if n < 10 then "" else DigitsOf(n / 10)) + ["0123456789"[n % 10]]
  }

  function DigitValue(c: char): Option<nat> {
    if '0' <= c <= '9' then Some((c as int) - ('0' as int)) else None
  }

  function ParseDigits(s: string): Option<nat> {
    if |s| == 0 then None
    else
      var last := DigitValue(s[|s| - 1]);
      if last.None? then None
      else if |s| == 1 then last
      else
        var front := ParseDigits(s[..|s| - 1]);
        if front.None? then None else Some(10 * front.value + last.value)
  }

  function Signed(negative: bool, digits: string): string { if negative then "-" + digits else digits }

  /** `TO_CHAR` of a whole number, and Oracle's reading of such a text. */
  function ToChar(n: int): string { if n < 0 then Signed(true, DigitsOf(-n)) else Signed(false, DigitsOf(n)) }

  function StripSign(s: string): (bool, string) {
    if |s| > 0 && s[0] == '-' then (true, s[1..]) else (false, s)
  }

  function ToNumber(s: string): Option<int> {
    var (negative, digits) := StripSign(s);
    var n := ParseDigits(digits);
    if n.None? then None
    else
      var v: int := if negative then -(n.value as int) else n.value;
      Some(v)
  }

  lemma DigitParses(d: nat)
    requires d < 10
    ensures DigitValue("0123456789"[d]) == Some(d)
  {
    assert "0123456789"[d] == ['0', '1', '2', '3', '4', '5', '6', '7', '8', '9'][d];
  }

  lemma {:induction false} DigitsParse(n: nat)
    ensures ParseDigits(DigitsOf(n)) == Some(n)
    ensures DigitsOf(n)[0] != '-'
    ensures DigitsOf(n)[0] == '0' <==> n == 0
  {
    var s := DigitsOf(n);
    DigitParses(n % 10);
    if n >= 10 {
      DigitsParse(n / 10);
      assert s[..|s| - 1] == DigitsOf(n / 10);
    } else {
      assert s == ["0123456789"[n % 10]];
    }
  }

  lemma StripSigned(negative: bool, digits: string)
    requires |digits| > 0 && digits[0] != '-'
    ensures StripSign(Signed(negative, digits)) == (negative, digits)
  {
    assert ("-" + digits)[1..] == digits;
  }

  /** An identifier of any length survives as a digit string, with a minus sign exactly if it is negative. */
  lemma IdentifierExact(n: int)
    ensures ToNumber(ToChar(n)) == Some(n)
    ensures ToChar(n)[0] == '-' <==> n < 0
    ensures ToChar(n)[0] == '0' <==> n == 0
  {
    var m: nat := if n < 0 then -n else n;
    DigitsParse(m);
    StripSigned(n < 0, DigitsOf(m));
  }

  // ---- One row --------------------------------------------------------------------------------

  function Fetch(e: Entry, js: Rounding, column: string, c: Cell): Json {
    match c
    case CNull => JNull
    case CText(s) => JText(s)
    case CTime(us) => if column in e.canonicalTimestamps then JStamp(us) else JIso(us / 1000)
    case CNum(x) => if column in e.identifierColumns then JText(ToChar(x.Floor)) else JNum(js(x))
  }

  function FetchRow(e: Entry, catalog: Catalog, js: Rounding, r: DbRow): JsonRow {
    map c | c in catalog :: Fetch(e, js, c, CellOf(r, c))
  }

  function FetchRows(e: Entry, catalog: Catalog, js: Rounding, rows: seq<DbRow>): seq<JsonRow> {
    seq(|rows|, i requires 0 <= i < |rows| => FetchRow(e, catalog, js, rows[i]))
  }

  /**
   What an archive tells apart: texts, whole identifiers and microsecond stamps always, any other time by its
   millisecond, any other number by its double; and nothing passes for NULL.
   */
  lemma ArchiveTellsApart(e: Entry, js: Rounding, column: string, a: Cell, b: Cell)
    requires column in e.identifierColumns ==> (a.CNum? ==> a.x == a.x.Floor as real) && (b.CNum? ==> b.x == b.x.Floor as real)
    ensures a.CText? && b.CText? ==> (Fetch(e, js, column, a) == Fetch(e, js, column, b) <==> a == b)
    ensures a.CTime? && b.CTime? ==>
              (Fetch(e, js, column, a) == Fetch(e, js, column, b) <==>
               if column in e.canonicalTimestamps then a.us == b.us else a.us / 1000 == b.us / 1000)
    ensures a.CNum? && b.CNum? ==>
              (Fetch(e, js, column, a) == Fetch(e, js, column, b) <==>
               if column in e.identifierColumns then a.x == b.x else js(a.x) == js(b.x))
    ensures Fetch(e, js, column, a) == JNull <==> a == CNull
  {
    if a.CNum? {
      IdentifierExact(a.x.Floor);
    }
    if b.CNum? {
      IdentifierExact(b.x.Floor);
    }
  }

  /** A row's archive line has exactly the catalog's columns, each from the row's own value; a missing one is NULL. */
  lemma RowExact(e: Entry, catalog: Catalog, js: Rounding, r: DbRow, c: string)
    ensures c in FetchRow(e, catalog, js, r) <==> c in catalog
    ensures c in catalog && c in r ==> FetchRow(e, catalog, js, r)[c] == Fetch(e, js, c, r[c])
    ensures c in catalog && c !in r ==> FetchRow(e, catalog, js, r)[c] == JNull
  {
  }

  // ---- The query ------------------------------------------------------------------------------

  datatype Where = Everything | AnyEqual(columns: seq<string>, value: Cell)

  /** NULL equals nothing. */
  predicate Matches(w: Where, r: DbRow) {
    w.Everything? || (w.value != CNull && exists c :: c in w.columns && CellOf(r, c) == w.value)
  }

  ghost predicate TotalOrder(less: (Cell, Cell) -> bool) {
    && (forall a, b :: less(a, b) ==> !less(b, a))
    && (forall a, b :: less(a, b) || less(b, a) || a == b)
    && (forall a, b, c :: less(a, b) && less(b, c) ==> less(a, c))
  }

  function InsertByKey(sorted: seq<DbRow>, r: DbRow, pk: string, less: (Cell, Cell) -> bool): seq<DbRow> {
    if |sorted| == 0 || !less(CellOf(r, pk), CellOf(sorted[|sorted| - 1], pk)) then sorted + [r]
    else InsertByKey(sorted[..|sorted| - 1], r, pk, less) + [sorted[|sorted| - 1]]
  }

  /** `ORDER BY` the primary key. */
  function OrderByKey(rows: seq<DbRow>, pk: string, less: (Cell, Cell) -> bool): seq<DbRow> {
    if |rows| == 0 then [] else InsertByKey(OrderByKey(rows[..|rows| - 1], pk, less), rows[|rows| - 1], pk, less)
  }

  function Query(e: Entry, w: Where, rows: seq<DbRow>, less: (Cell, Cell) -> bool): seq<DbRow> {
    OrderByKey(Filter((r: DbRow) => Matches(w, r), rows), e.pk, less)
  }

  predicate UniqueKeys(rows: seq<DbRow>, pk: string) {
    forall i, j :: 0 <= i < j < |rows| ==> CellOf(rows[i], pk) != CellOf(rows[j], pk)
  }

  predicate KeyOrdered(rows: seq<DbRow>, pk: string, less: (Cell, Cell) -> bool) {
    forall i, j :: 0 <= i < j < |rows| ==> less(CellOf(rows[i], pk), CellOf(rows[j], pk))
  }

  lemma {:induction false} InsertRowMembers(sorted: seq<DbRow>, r: DbRow, pk: string, less: (Cell, Cell) -> bool)
    ensures multiset(InsertByKey(sorted, r, pk, less)) == multiset(sorted) + multiset{r}
    ensures forall x :: x in InsertByKey(sorted, r, pk, less) <==> x in sorted || x == r
  {
    if !(|sorted| == 0 || !less(CellOf(r, pk), CellOf(sorted[|sorted| - 1], pk))) {
      var front, last := sorted[..|sorted| - 1], sorted[|sorted| - 1];
      assert sorted == front + [last];
      InsertRowMembers(front, r, pk, less);
    }
  }

  /** Appending above every earlier key keeps the order. */
  lemma AppendRow(sorted: seq<DbRow>, r: DbRow, pk: string, less: (Cell, Cell) -> bool)
    requires KeyOrdered(sorted, pk, less) && forall x :: x in sorted ==> less(CellOf(x, pk), CellOf(r, pk))
    ensures KeyOrdered(sorted + [r], pk, less)
  {
    assert forall i :: 0 <= i < |sorted| ==> sorted[i] in sorted;
  }

  lemma {:induction false} InsertRow(sorted: seq<DbRow>, r: DbRow, pk: string, less: (Cell, Cell) -> bool)
    requires TotalOrder(less) && KeyOrdered(sorted, pk, less)
    requires forall x :: x in sorted ==> CellOf(x, pk) != CellOf(r, pk)
    ensures KeyOrdered(InsertByKey(sorted, r, pk, less), pk, less)
  {
    if |sorted| > 0 {
      var front, last := sorted[..|sorted| - 1], sorted[|sorted| - 1];
      assert forall i :: 0 <= i < |front| ==> less(CellOf(front[i], pk), CellOf(last, pk));
      assert last in sorted;
      if less(CellOf(r, pk), CellOf(last, pk)) {
        InsertRow(front, r, pk, less);
        InsertRowMembers(front, r, pk, less);
        AppendRow(InsertByKey(front, r, pk, less), last, pk, less);
      } else {
        AppendRow(sorted, r, pk, less);
      }
    }
  }

  lemma {:induction false} OrderedRows(rows: seq<DbRow>, pk: string, less: (Cell, Cell) -> bool)
    requires TotalOrder(less) && UniqueKeys(rows, pk)
    ensures KeyOrdered(OrderByKey(rows, pk, less), pk, less)
    ensures multiset(OrderByKey(rows, pk, less)) == multiset(rows)
  {
    if |rows| > 0 {
      var front, last := rows[..|rows| - 1], rows[|rows| - 1];
      assert rows == front + [last];
      OrderedRows(front, pk, less);
      var sorted := OrderByKey(front, pk, less);
      forall x | x in sorted
        ensures CellOf(x, pk) != CellOf(last, pk)
      {
        assert x in multiset(front);
        var i :| 0 <= i < |front| && front[i] == x;
        assert rows[i] == x;
      }
      InsertRow(sorted, last, pk, less);
      InsertRowMembers(sorted, last, pk, less);
    }
  }

  lemma {:induction false} FilterKeepsKeys(p: DbRow -> bool, rows: seq<DbRow>, pk: string)
    requires UniqueKeys(rows, pk)
    ensures UniqueKeys(Filter(p, rows), pk)
    ensures forall r :: r in Filter(p, rows) ==> r in rows
  {
    if |rows| > 0 {
      var front, last := rows[..|rows| - 1], rows[|rows| - 1];
      FilterKeepsKeys(p, front, pk);
      assert rows == front + [last];
      forall r | r in Filter(p, front)
        ensures CellOf(r, pk) != CellOf(last, pk)
      {
        var i :| 0 <= i < |front| && front[i] == r;
        assert rows[i] == r;
      }
    }
  }

  /** The query delivers each matching row once, in strictly increasing key order, and no other row. */
  lemma QueryExact(e: Entry, w: Where, rows: seq<DbRow>, less: (Cell, Cell) -> bool, r: DbRow)
    requires TotalOrder(less) && UniqueKeys(rows, e.pk)
    ensures KeyOrdered(Query(e, w, rows, less), e.pk, less)
    ensures multiset(Query(e, w, rows, less))[r] == if Matches(w, r) then multiset(rows)[r] else 0
    ensures multiset(Query(e, w, rows, less))[r]
            == if w.Everything? || (w.value != CNull && exists c :: c in w.columns && c in r && r[c] == w.value)
               then multiset(rows)[r] else 0
  {
    var p := (x: DbRow) => Matches(w, x);
    FilterKeepsKeys(p, rows, e.pk);
    OrderedRows(Filter(p, rows), e.pk, less);
    FilterMultiset(p, rows, r);
  }

  // ---- The paged read -------------------------------------------------------------------------

  const DEFAULT_PAGE_SIZE: nat := 1000

  /** `None` is anything that is not an integer. */
  function PageSize(given: Option<int>): (n: nat)
    ensures n > 0
    ensures given.Some? && given.value > 0 ==> n == given.value
    ensures !(given.Some? && given.value > 0) ==> n == DEFAULT_PAGE_SIZE
  {
    if given.Some? && given.value > 0 then given.value else DEFAULT_PAGE_SIZE
  }

  /** Every page but the last is full; no page is empty. */
  predicate WellPaged<T>(batches: seq<seq<T>>, pageSize: nat) {
    && (forall i :: 0 <= i < |batches| ==> 0 < |batches[i]| <= pageSize)
    && (forall i :: 0 <= i < |batches| - 1 ==> |batches[i]| == pageSize)
  }

  datatype StreamError = NotRegistered | NoTables | NoFilterColumns | NoColumns | UnknownColumns

  datatype Streamed = Streamed(total: nat) | Refused(error: StreamError)

  /** `OFFSET skip ROWS FETCH NEXT pageSize ROWS ONLY` */
  function Page<T>(rows: seq<T>, skip: nat, pageSize: nat): seq<T> {
    if skip >= |rows| then [] else rows[skip..Min(skip + pageSize, |rows|)]
  }

  /**
   The read body shared by every caller. `batches` are the arguments of the `onBatch` calls, in order.
   */
  method StreamRows(e: Entry, catalog: Catalog, js: Rounding, rows: seq<DbRow>, less: (Cell, Cell) -> bool,
                    w: Where, givenPageSize: Option<int>)
    returns (r: Streamed, batches: seq<seq<JsonRow>>)
    ensures r.Refused? <==> catalog == map[] || (w.AnyEqual? && exists c :: c in w.columns && c !in catalog)
    ensures r.Refused? ==> batches == [] && r.error == if catalog == map[] then NoColumns else UnknownColumns
    ensures r.Streamed? ==>
              var expected := FetchRows(e, catalog, js, Query(e, EffectiveWhere(w), rows, less));
              Flatten(batches) == expected && r.total == |expected|
    ensures WellPaged(batches, PageSize(givenPageSize))
  {
    batches := [];
    var pageSize := PageSize(givenPageSize);
    if catalog == map[] {
      return Refused(NoColumns), [];
    }
    if w.AnyEqual? && exists c :: c in w.columns && c !in catalog {
      return Refused(UnknownColumns), [];
    }
    var result := FetchRows(e, catalog, js, Query(e, EffectiveWhere(w), rows, less));
    var skip, total := 0, 0;
    while true
      invariant 0 <= skip <= |result| && total == skip
      invariant Flatten(batches) == result[..skip]
      invariant forall i :: 0 <= i < |batches| ==> |batches[i]| == pageSize
      decreases |result| - skip
    {
      var page := Page(result, skip, pageSize);
      if |page| == 0 {
        assert result[..skip] == result;
        break;
      }
      batches := batches + [page];
      assert batches[..|batches| - 1] + [page] == batches;
      assert result[..skip] + page == result[..skip + |page|];
      total := total + |page|;
      skip := skip + |page|;
      if |page| < pageSize {
        assert result[..skip] == result;
        break;
      }
    }
    r := Streamed(total);
  }

  /** An empty column list is no filter. */
  function EffectiveWhere(w: Where): Where {
    if w.AnyEqual? && w.columns == [] then Everything else w
  }

  lemma NoColumnsNoFilter(w: Where, r: DbRow)
    ensures w.AnyEqual? && w.columns == [] ==> Matches(EffectiveWhere(w), r)
    ensures !(w.AnyEqual? && w.columns == []) ==> (Matches(EffectiveWhere(w), r) <==> Matches(w, r))
  {
  }

  /** The filtered entry point refuses an empty column list before anything else. */
  method StreamTableFiltered(reg: Registry, table: string, catalog: Catalog, js: Rounding, rows: seq<DbRow>,
                             less: (Cell, Cell) -> bool, columns: seq<string>, value: Cell, pageSize: Option<int>)
    returns (r: Streamed, batches: seq<seq<JsonRow>>)
    requires UniqueTables(reg)
    ensures r.Refused? <==> columns == [] || !Registered(reg, table) || catalog == map[]
                            || exists c :: c in columns && c !in catalog
    ensures r.Refused? ==> batches == [] && r.error == if columns == [] then NoFilterColumns
                                                       else if !Registered(reg, table) then NotRegistered
                                                       else if catalog == map[] then NoColumns else UnknownColumns
    ensures forall e :: r.Streamed? && e in reg && e.table == table ==>
              Flatten(batches) == FetchRows(e, catalog, js, Query(e, AnyEqual(columns, value), rows, less))
    ensures r.Streamed? ==> r.total == |Flatten(batches)|
  {
    if columns == [] {
      return Refused(NoFilterColumns), [];
    }
    if !Registered(reg, table) {
      return Refused(NotRegistered), [];
    }
    var k :| 0 <= k < |reg| && reg[k].table == table;
    r, batches := StreamRows(reg[k], catalog, js, rows, less, AnyEqual(columns, value), pageSize);
  }

  // ---- Many tables in one read-only transaction -------------------------------------------------

  /** One read-consistent state of the schema. */
  datatype Snapshot = Snapshot(catalogs: map<string, Catalog>, tables: map<string, seq<DbRow>>)

  function CatalogOf(s: Snapshot, table: string): Catalog { if table in s.catalogs then s.catalogs[table] else map[] }

  function RowsOf(s: Snapshot, table: string): seq<DbRow> { if table in s.tables then s.tables[table] else [] }

  function EntryOf(reg: Registry, table: string): Entry
    requires Registered(reg, table)
  {
    if reg[|reg| - 1].table == table then reg[|reg| - 1]
    else
      assert Registered(reg[..|reg| - 1], table) by {
        var i :| 0 <= i < |reg| && reg[i].table == table;
        assert reg[..|reg| - 1][i].table == table;
      }
      EntryOf(reg[..|reg| - 1], table)
  }

  lemma {:induction false} EntryOfTable(reg: Registry, table: string)
    requires Registered(reg, table)
    ensures EntryOf(reg, table) in reg && EntryOf(reg, table).table == table
  {
    if reg[|reg| - 1].table != table {
      var i :| 0 <= i < |reg| && reg[i].table == table;
      assert reg[..|reg| - 1][i].table == table;
      EntryOfTable(reg[..|reg| - 1], table);
    }
  }

  function ArchiveOf(reg: Registry, s: Snapshot, js: Rounding, less: (Cell, Cell) -> bool, table: string): seq<JsonRow>
    requires Registered(reg, table)
  {
    var e := EntryOf(reg, table);
    FetchRows(e, CatalogOf(s, table), js, Query(e, Everything, RowsOf(s, table), less))
  }

  /** The archive of a registered table is its own rows, all of them, under its own catalog and settings. */
  lemma ArchiveExact(reg: Registry, s: Snapshot, js: Rounding, less: (Cell, Cell) -> bool, e: Entry)
    requires UniqueTables(reg) && e in reg && e.table in s.tables && e.table in s.catalogs
    ensures Registered(reg, e.table)
    ensures ArchiveOf(reg, s, js, less, e.table)
            == FetchRows(e, s.catalogs[e.table], js, Query(e, Everything, s.tables[e.table], less))
  {
    var i :| 0 <= i < |reg| && reg[i] == e;
    assert reg[i].table == e.table;
    EntryOfTable(reg, e.table);
    var found := EntryOf(reg, e.table);
    var k :| 0 <= k < |reg| && reg[k] == found;
    assert i == k;
  }

  predicate AllRegistered(reg: Registry, names: seq<string>) {
    forall i :: 0 <= i < |names| ==> Registered(reg, names[i])
  }

  method StreamRegistered(reg: Registry, table: string, s: Snapshot, js: Rounding, less: (Cell, Cell) -> bool,
                          pageSize: Option<int>)
    returns (r: Streamed, archive: seq<JsonRow>)
    requires Registered(reg, table)
    ensures r.Refused? <==> CatalogOf(s, table) == map[]
    ensures r.Streamed? ==> archive == ArchiveOf(reg, s, js, less, table) && r.total == |archive|
  {
    var batches;
    r, batches := StreamRows(EntryOf(reg, table), CatalogOf(s, table), js, RowsOf(s, table), less, Everything, pageSize);
    archive := Flatten(batches);
  }

  /** The table's whole archive was handed over, and its total says so. */
  predicate Delivered(reg: Registry, s: Snapshot, js: Rounding, less: (Cell, Cell) -> bool, table: string,
                      archive: seq<JsonRow>, perTable: map<string, nat>)
    requires Registered(reg, table)
  {
    archive == ArchiveOf(reg, s, js, less, table) && table in perTable && perTable[table] == |archive|
  }

  lemma StillDelivered(reg: Registry, s: Snapshot, js: Rounding, less: (Cell, Cell) -> bool, table: string,
                       archive: seq<JsonRow>, perTable: map<string, nat>, other: string, total: nat)
    requires Registered(reg, table) && Delivered(reg, s, js, less, table, archive, perTable)
    requires Registered(reg, other) && total == |ArchiveOf(reg, s, js, less, other)|
    ensures Delivered(reg, s, js, less, table, archive, perTable[other := total])
  {
  }

  predicate AllDelivered(reg: Registry, s: Snapshot, js: Rounding, less: (Cell, Cell) -> bool, names: seq<string>,
                         archives: seq<seq<JsonRow>>, perTable: map<string, nat>)
    requires AllRegistered(reg, names)
  {
    |archives| <= |names|
    && forall i :: 0 <= i < |archives| ==> Delivered(reg, s, js, less, names[i], archives[i], perTable)
  }

  /** A table listed twice reports the same total twice, so no earlier total is disturbed. */
  lemma DeliveredNext(reg: Registry, s: Snapshot, js: Rounding, less: (Cell, Cell) -> bool, names: seq<string>,
                      archives: seq<seq<JsonRow>>, perTable: map<string, nat>, archive: seq<JsonRow>)
    requires AllRegistered(reg, names) && AllDelivered(reg, s, js, less, names, archives, perTable)
    requires |archives| < |names| && archive == ArchiveOf(reg, s, js, less, names[|archives|])
    ensures AllDelivered(reg, s, js, less, names, archives + [archive], perTable[names[|archives|] := |archive|])
  {
    var next, table := perTable[names[|archives|] := |archive|], names[|archives|];
    forall i | 0 <= i < |archives|
      ensures Delivered(reg, s, js, less, names[i], archives[i], next)
    {
      StillDelivered(reg, s, js, less, names[i], archives[i], perTable, table, |archive|);
    }
  }

  /**
   Streams every listed table from one snapshot. A name outside the registry at any position refuses the
   whole call before a row is read. `archives[i]` is what `onBatch` received for the i-th listed table.
   */
  method StreamAllTables(reg: Registry, names: seq<string>, s: Snapshot, js: Rounding, less: (Cell, Cell) -> bool,
                         pageSize: Option<int>)
    returns (error: Option<StreamError>, perTable: map<string, nat>, archives: seq<seq<JsonRow>>)
    ensures names == [] ==> error == Some(NoTables) && archives == []
    ensures names != [] && !AllRegistered(reg, names) ==> error == Some(NotRegistered) && archives == []
    ensures names != [] && AllRegistered(reg, names) ==>
              (error.Some? <==> exists i :: 0 <= i < |names| && CatalogOf(s, names[i]) == map[])
    ensures error.None? ==> AllRegistered(reg, names) && |archives| == |names|
    ensures error.None? ==> AllDelivered(reg, s, js, less, names, archives, perTable)
    ensures forall t :: t in perTable ==> t in names
  {
    perTable, archives, error := map[], [], None;
    if names == [] {
      return Some(NoTables), perTable, archives;
    }
    if !AllRegistered(reg, names) {
      return Some(NotRegistered), perTable, archives;
    }
    for i := 0 to |names|
      invariant |archives| == i && AllDelivered(reg, s, js, less, names, archives, perTable)
      invariant forall t :: t in perTable ==> t in names
      invariant forall k :: 0 <= k < i ==> CatalogOf(s, names[k]) != map[]
    {
      var r, archive := StreamRegistered(reg, names[i], s, js, less, pageSize);
      if r.Refused? {
        return Some(r.error), perTable, archives;
      }
      DeliveredNext(reg, s, js, less, names, archives, perTable, archive);
      archives := archives + [archive];
      perTable := perTable[names[i] := r.total];
    }
  }
}

/**
 Backup followed by restore: which values come back unchanged, and how identity keys are renumbered.
 */
module BackupRoundTrip {
  import opened Common
  import opened PurgeRegistry
  import opened BackupStream
  import opened RestoreBatch

  /** A value its column can hold; identifier columns hold whole numbers and no column the empty text. */
  predicate WellTyped(e: Entry, column: string, kind: Kind, c: Cell) {
    match c
    case CNull => true
    case CNum(x) => kind.NumberKind? && (column in e.identifierColumns ==> x == x.Floor as real)
    case CTime(us) => kind.TimeKind?
    case CText(s) => kind.TextKind? && s != ""
  }

  predicate WellTypedRows(e: Entry, catalog: Catalog, rows: seq<DbRow>) {
    forall i, c :: 0 <= i < |rows| && c in catalog ==> WellTyped(e, c, catalog[c], CellOf(rows[i], c))
  }

  /**
   What survives: whole milliseconds, identifiers, and numbers that are the decimal their nearest double
   prints as.
   */
  predicate Faithful(e: Entry, env: Env, column: string, c: Cell) {
    match c
    case CTime(us) => us % 1000 == 0
    case CNum(x) => column in e.identifierColumns || env.decimal(env.round(x)) == x
    case _ => true
  }

  function Restored(e: Entry, env: Env, column: string, kind: Kind, c: Cell): Option<Cell> {
    Store(env, kind, Convert(e, env, kind, column, Fetch(e, env.round, column, c)))
  }

  /**
   One value through the archive and back. A canonical microsecond stamp goes through a JavaScript date
   on the way in, so it survives under the same condition as any other time.
   */
  lemma CellRoundTrip(e: Entry, env: Env, column: string, kind: Kind, c: Cell)
    requires WellTyped(e, column, kind, c)
    ensures var back := Restored(e, env, column, kind, c);
            back.Some? && (back.value == c <==> Faithful(e, env, column, c))
  {
    match c
    case CNum(x) => IdentifierExact(x.Floor);
    case CTime(us) => assert 1000 * (us / 1000) == us <==> us % 1000 == 0;
    case _ =>
  }

  /** NULL and any text but the empty one fit their columns and come back. */
  lemma NullAndText(e: Entry, env: Env, column: string, kind: Kind, s: string)
    requires s != ""
    ensures WellTyped(e, column, kind, CNull) && Restored(e, env, column, kind, CNull) == Some(CNull)
    ensures WellTyped(e, column, TextKind, CText(s)) && Restored(e, env, column, TextKind, CText(s)) == Some(CText(s))
  {
  }

  const TENTH := 0.1
  const TENTH_DOUBLE := 0.1000000000000000055511151231257827021181583404541015625
  const TWO_TO_60 := 1_152_921_504_606_846_976.0
  const TWO_TO_60_PRINTED := 1_152_921_504_606_847_000.0

  /**
   Being a double is not the test. With the doubles and decimals of JavaScript, 0.1 is no double and comes
   back; two to the power of 60 is one and does not, unless its column is an identifier.
   */
  lemma DoubleIsNotTheTest(e: Entry, env: Env, column: string)
    requires env.round(TENTH) == TENTH_DOUBLE && env.decimal(TENTH_DOUBLE) == TENTH
    requires env.round(TWO_TO_60) == TWO_TO_60 && env.decimal(TWO_TO_60) == TWO_TO_60_PRINTED
    ensures column !in e.identifierColumns ==>
              env.round(TENTH) != TENTH && Restored(e, env, column, NumberKind, CNum(TENTH)) == Some(CNum(TENTH))
    ensures Restored(e, env, column, NumberKind, CNum(TWO_TO_60))
            == Some(CNum(if column in e.identifierColumns then TWO_TO_60 else TWO_TO_60_PRINTED))
  {
    CellRoundTrip(e, env, column, NumberKind, CNum(TWO_TO_60));
  }

  /** A double prints as a decimal that reads back as that double. */
  ghost predicate ReadsBack(env: Env) {
    forall x :: env.round(env.decimal(env.round(x))) == env.round(x)
  }

  function PowerOfTen(n: nat): (p: int)
    ensures p >= 1
  {
    if n == 0 then 1 else 10 * PowerOfTen(n - 1)
  }

  /** `x` is `m` with its decimal point moved by `shift` places, and `m` has at most `n` digits. */
  predicate IsDecimal(x: real, n: nat, m: int, shift: nat) {
    && -PowerOfTen(n) < m < PowerOfTen(n)
    && (x == (m * PowerOfTen(shift)) as real || x * PowerOfTen(shift) as real == m as real)
  }

  ghost predicate SignificantDigits(x: real, n: nat) {
    exists m, shift :: IsDecimal(x, n, m, shift)
  }

  /** What a NUMBER column can hold in size. */
  predicate InNumberRange(x: real) {
    x == 0.0 || (var size := if x < 0.0 then -x else x;
                 1.0 <= size * PowerOfTen(130) as real && size < PowerOfTen(126) as real)
  }

  /** A double prints with no more digits than any decimal that reads as it. */
  ghost predicate PrintsShortest(env: Env) {
    forall x, n :: SignificantDigits(x, n) ==> SignificantDigits(env.decimal(env.round(x)), n)
  }

  /** Doubles tell decimals of 15 significant digits apart. */
  ghost predicate SeparatesFifteenDigits(env: Env) {
    forall x, y :: SignificantDigits(x, 15) && SignificantDigits(y, 15) && InNumberRange(x) && env.round(x) == env.round(y)
                   ==> x == y
  }

  /** With these three facts about doubles, every number of at most 15 significant digits comes back, in any column. */
  lemma FifteenDigitsSurvive(e: Entry, env: Env, column: string, x: real)
    requires ReadsBack(env) && PrintsShortest(env) && SeparatesFifteenDigits(env)
    requires WellTyped(e, column, NumberKind, CNum(x)) && SignificantDigits(x, 15) && InNumberRange(x)
    ensures Faithful(e, env, column, CNum(x)) && Restored(e, env, column, NumberKind, CNum(x)) == Some(CNum(x))
  {
    var back := env.decimal(env.round(x));
    assert SignificantDigits(back, 15) && env.round(back) == env.round(x);
    CellRoundTrip(e, env, column, NumberKind, CNum(x));
  }

  lemma {:induction false} PowersGrow(m: nat, n: nat)
    requires m <= n
    ensures PowerOfTen(m) <= PowerOfTen(n)
  {
    if m < n {
      PowersGrow(m, n - 1);
    }
  }

  lemma {:induction false} PowerSum(m: nat, n: nat)
    ensures PowerOfTen(m + n) == PowerOfTen(m) * PowerOfTen(n)
  {
    if m > 0 {
      PowerSum(m - 1, n);
    }
  }

  lemma SomePowers()
    ensures PowerOfTen(4) == 10_000 && PowerOfTen(15) == 1_000_000_000_000_000
  {
    assert PowerOfTen(1) == 10 && PowerOfTen(2) == 100 && PowerOfTen(3) == 1_000;
    assert PowerOfTen(5) == 100_000;
    PowerSum(5, 5);
    PowerSum(5, 10);
  }

  lemma AmountInRange(m: int)
    requires -1_000_000_000_000_000 < m < 1_000_000_000_000_000
    ensures SignificantDigits(m as real / 10_000.0, 15) && InNumberRange(m as real / 10_000.0)
  {
    var x := m as real / 10_000.0;
    SomePowers();
    assert x * PowerOfTen(4) as real == m as real;
    assert IsDecimal(x, 15, m, 4);
    PowersGrow(4, 130);
    PowersGrow(15, 126);
    if m != 0 {
      var size := if x < 0.0 then -x else x;
      assert size * 10_000.0 >= 1.0;
      assert size * PowerOfTen(130) as real >= size * 10_000.0;
    }
  }

  /** So every amount of up to 15 digits, four of them decimals, comes back. */
  lemma AmountsSurvive(e: Entry, env: Env, column: string, m: int)
    requires ReadsBack(env) && PrintsShortest(env) && SeparatesFifteenDigits(env)
    requires -1_000_000_000_000_000 < m < 1_000_000_000_000_000 && column !in e.identifierColumns
    ensures Restored(e, env, column, NumberKind, CNum(m as real / 10_000.0)) == Some(CNum(m as real / 10_000.0))
  {
    AmountInRange(m);
    FifteenDigitsSurvive(e, env, column, m as real / 10_000.0);
  }

  /**
   One round trip settles a value: what comes back is well typed and comes back unchanged ever after, and a
   backup of it holds what the first backup held, except for the microseconds of a canonical stamp.
   */
  lemma OneTripSettles(e: Entry, env: Env, column: string, kind: Kind, c: Cell)
    requires WellTyped(e, column, kind, c) && ReadsBack(env)
    ensures var back := Restored(e, env, column, kind, c);
            && back.Some? && WellTyped(e, column, kind, back.value)
            && Restored(e, env, column, kind, back.value) == back
            && (!Fetch(e, env.round, column, c).JStamp? ==>
                  Fetch(e, env.round, column, back.value) == Fetch(e, env.round, column, c))
  {
    CellRoundTrip(e, env, column, kind, c);
    if c.CTime? {
      assert (1000 * (c.us / 1000)) / 1000 == c.us / 1000;
    }
    CellRoundTrip(e, env, column, kind, Restored(e, env, column, kind, c).value);
  }

  function Archive(e: Entry, catalog: Catalog, env: Env, rows: seq<DbRow>): (archive: seq<JsonRow>)
    ensures Complete(catalog, archive) && |archive| == |rows|
  {
    FetchRows(e, catalog, env.round, rows)
  }

  lemma ArchiveRestorable(e: Entry, catalog: Catalog, env: Env, rows: seq<DbRow>)
    requires WellTypedRows(e, catalog, rows) && InsertColumns(e, catalog) != {}
    ensures Restorable(e, catalog, env, Archive(e, catalog, env, rows))
  {
    var some :| some in InsertColumns(e, catalog);
    forall i, c | 0 <= i < |rows| && c in catalog && Inserted(e, catalog, c)
      ensures Store(env, catalog[c], Convert(e, env, catalog[c], c, Archive(e, catalog, env, rows)[i][c])).Some?
    {
      CellRoundTrip(e, env, c, catalog[c], CellOf(rows[i], c));
    }
  }

  /**
   Every inserted column of every row comes back in place, unchanged exactly when its value is faithful;
   the identity column takes the generated keys.
   */
  lemma RoundTrip(e: Entry, catalog: Catalog, env: Env, rows: seq<DbRow>, ids: seq<int>, i: nat, c: string)
    requires WellTypedRows(e, catalog, rows) && |ids| == |rows| && i < |rows|
    requires c in catalog && c !in e.virtualColumns
    ensures var restored := RestoredRows(e, catalog, env, Archive(e, catalog, env, rows), ids);
            && |restored| == |rows|
            && c in restored[i]
            && (Inserted(e, catalog, c) ==>
                  (restored[i][c] == CellOf(rows[i], c) <==> Faithful(e, env, c, CellOf(rows[i], c))))
            && (Inserted(e, catalog, c) && c in rows[i] ==>
                  (restored[i][c] == rows[i][c] <==> Faithful(e, env, c, rows[i][c])))
            && (!Inserted(e, catalog, c) ==> restored[i][c] == CNum(ids[i] as real))
  {
    CellRoundTrip(e, env, c, catalog[c], CellOf(rows[i], c));
  }

  /** For an identity table, restoring in key order renumbers the keys by an order-preserving bijection. */
  lemma IdentityBijection(e: Entry, catalog: Catalog, env: Env, table: seq<DbRow>, less: (Cell, Cell) -> bool,
                          ids: seq<int>, i: nat, j: nat)
    requires e.isIdentity && e.pk in catalog && e.pk !in e.virtualColumns
    requires TotalOrder(less) && UniqueKeys(table, e.pk) && WellTypedRows(e, catalog, table)
    requires |ids| == |Query(e, Everything, table, less)| && StrictlyIncreasing(ids) && i < |ids| && j < |ids|
    ensures var source := Query(e, Everything, table, less);
            var restored := RestoredRows(e, catalog, env, Archive(e, catalog, env, source), ids);
            && (less(CellOf(source[i], e.pk), CellOf(source[j], e.pk)) <==> i < j)
            && (CellOf(source[i], e.pk) == CellOf(source[j], e.pk) <==> restored[i][e.pk] == restored[j][e.pk])
            && (restored[i][e.pk].CNum? && restored[j][e.pk].CNum?
                && (restored[i][e.pk].x < restored[j][e.pk].x <==> i < j))
  {
    var source := Query(e, Everything, table, less);
    QueryExact(e, Everything, table, less, map[]);
    assert i < j ==> ids[i] < ids[j];
    assert j < i ==> ids[j] < ids[i];
  }

  lemma {:induction false} OrderedWellTyped(e: Entry, catalog: Catalog, table: seq<DbRow>, less: (Cell, Cell) -> bool)
    requires TotalOrder(less) && UniqueKeys(table, e.pk) && WellTypedRows(e, catalog, table)
    ensures WellTypedRows(e, catalog, Query(e, Everything, table, less))
    ensures |Query(e, Everything, table, less)| == |table|
  {
    var source := Query(e, Everything, table, less);
    EverythingKept(table);
    OrderedRows(table, e.pk, less);
    assert |multiset(source)| == |source| && |multiset(table)| == |table|;
    forall i, c | 0 <= i < |source| && c in catalog
      ensures WellTyped(e, c, catalog[c], CellOf(source[i], c))
    {
      assert source[i] in multiset(table);
      var k :| 0 <= k < |table| && table[k] == source[i];
    }
  }

  lemma {:induction false} EverythingKept(table: seq<DbRow>)
    ensures Filter((r: DbRow) => Matches(Everything, r), table) == table
  {
    if |table| > 0 {
      EverythingKept(table[..|table| - 1]);
    }
  }

  /** A natural key whose values all survive keeps the restored keys distinct. */
  predicate KeySurvives(e: Entry, env: Env, table: seq<DbRow>) {
    forall i :: 0 <= i < |table| ==> Faithful(e, env, e.pk, CellOf(table[i], e.pk))
  }

  lemma NaturalKeysDistinct(e: Entry, catalog: Catalog, env: Env, source: seq<DbRow>, ids: seq<int>)
    requires Inserted(e, catalog, e.pk) && WellTypedRows(e, catalog, source) && |ids| == |source|
    requires UniqueKeys(source, e.pk) && KeySurvives(e, env, source)
    ensures UniqueKeys(RestoredRows(e, catalog, env, Archive(e, catalog, env, source), ids), e.pk)
  {
    var restored := RestoredRows(e, catalog, env, Archive(e, catalog, env, source), ids);
    forall i | 0 <= i < |source|
      ensures CellOf(restored[i], e.pk) == CellOf(source[i], e.pk)
    {
      RoundTrip(e, catalog, env, source, ids, i, e.pk);
    }
  }

  /** Row for row and column for column, back exactly where the value is faithful. */
  ghost predicate ComesBack(e: Entry, catalog: Catalog, env: Env, source: seq<DbRow>, restored: seq<DbRow>) {
    |restored| == |source|
    && forall i, c :: 0 <= i < |source| && Inserted(e, catalog, c) ==>
         c in restored[i] && (restored[i][c] == CellOf(source[i], c) <==> Faithful(e, env, c, CellOf(source[i], c)))
  }

  lemma RestoredComesBack(e: Entry, catalog: Catalog, env: Env, source: seq<DbRow>, ids: seq<int>)
    requires WellTypedRows(e, catalog, source) && |ids| == |source|
    ensures ComesBack(e, catalog, env, source, RestoredRows(e, catalog, env, Archive(e, catalog, env, source), ids))
  {
    var restored := RestoredRows(e, catalog, env, Archive(e, catalog, env, source), ids);
    forall i, c | 0 <= i < |source| && Inserted(e, catalog, c)
      ensures c in restored[i]
              && (restored[i][c] == CellOf(source[i], c) <==> Faithful(e, env, c, CellOf(source[i], c)))
    {
      RoundTrip(e, catalog, env, source, ids, i, c);
    }
  }

  lemma OrderedKeySurvives(e: Entry, env: Env, table: seq<DbRow>, less: (Cell, Cell) -> bool)
    requires TotalOrder(less) && UniqueKeys(table, e.pk) && KeySurvives(e, env, table)
    ensures KeySurvives(e, env, Query(e, Everything, table, less))
  {
    var source := Query(e, Everything, table, less);
    OrderedRows(table, e.pk, less);
    EverythingKept(table);
    forall i | 0 <= i < |source|
      ensures Faithful(e, env, e.pk, CellOf(source[i], e.pk))
    {
      assert source[i] in multiset(table);
      var k :| 0 <= k < |table| && table[k] == source[i];
    }
  }

  lemma OrderedUnique(e: Entry, table: seq<DbRow>, less: (Cell, Cell) -> bool)
    requires TotalOrder(less) && UniqueKeys(table, e.pk)
    ensures UniqueKeys(Query(e, Everything, table, less), e.pk)
  {
    QueryExact(e, Everything, table, less, map[]);
  }

  /** The restored natural keys are distinct when the keys of the table survive. */
  lemma RestoredKeysDistinct(e: Entry, catalog: Catalog, env: Env, table: seq<DbRow>, less: (Cell, Cell) -> bool,
                             ids: seq<int>)
    requires TotalOrder(less) && UniqueKeys(table, e.pk) && WellTypedRows(e, catalog, table)
    requires Inserted(e, catalog, e.pk) && KeySurvives(e, env, table)
    requires |ids| == |Query(e, Everything, table, less)|
    ensures UniqueKeys(RestoredRows(e, catalog, env, Archive(e, catalog, env, Query(e, Everything, table, less)), ids), e.pk)
  {
    OrderedWellTyped(e, catalog, table, less);
    OrderedUnique(e, table, less);
    OrderedKeySurvives(e, env, table, less);
    NaturalKeysDistinct(e, catalog, env, Query(e, Everything, table, less), ids);
  }

  /** The backup half: the pages of the table, put together, are its archive in key order. */
  method BackupTable(e: Entry, catalog: Catalog, env: Env, table: seq<DbRow>, less: (Cell, Cell) -> bool,
                     pageSize: Option<int>)
    returns (archive: seq<JsonRow>)
    requires catalog != map[]
    ensures archive == Archive(e, catalog, env, Query(e, Everything, table, less))
  {
    var _, pages := StreamRows(e, catalog, env.round, table, less, Everything, pageSize);
    archive := Flatten(pages);
  }

  /** The restore half: the archive of well-typed rows goes into an empty table unless natural keys collide. */
  method RestoreTable(e: Entry, catalog: Catalog, env: Env, defaults: DbRow, ghost source: seq<DbRow>,
                      archive: seq<JsonRow>, ids: seq<int>, batchSize: nat)
    returns (ok: bool, restored: seq<DbRow>)
    requires WellTypedRows(e, catalog, source) && InsertColumns(e, catalog) != {}
    requires archive == Archive(e, catalog, env, source) && |ids| == |archive| && batchSize > 0
    ensures e.isIdentity || UniqueKeys(RestoredRows(e, catalog, env, archive, ids), e.pk) ==> ok
    ensures ok ==> ComesBack(e, catalog, env, source, restored)
  {
    ArchiveRestorable(e, catalog, env, source);
    CompleteChunks(e, catalog, env, defaults, archive, ids, batchSize);
    RestoredComesBack(e, catalog, env, source, ids);
    var target := new Table();
    ok := target.RestoreInBatches(e, catalog, env, defaults, archive, ids, batchSize);
    restored := target.rows;
    assert [] + RestoredRows(e, catalog, env, archive, ids) == RestoredRows(e, catalog, env, archive, ids);
  }

  /**
   Stream a table, then restore the archive into an empty table with the same catalog, whatever the page
   and batch sizes: the restore goes through, row for row in key order, and each restored column is the
   source's exactly when its value is faithful.
   */
  method BackupThenRestore(e: Entry, catalog: Catalog, env: Env, defaults: DbRow, table: seq<DbRow>,
                           less: (Cell, Cell) -> bool, ids: seq<int>, pageSize: Option<int>, batchSize: nat)
    returns (ok: bool, restored: seq<DbRow>)
    requires TotalOrder(less) && UniqueKeys(table, e.pk) && WellTypedRows(e, catalog, table)
    requires InsertColumns(e, catalog) != {} && e.pk in catalog && e.pk !in e.virtualColumns
    requires |ids| == |table| && batchSize > 0
    ensures e.isIdentity || KeySurvives(e, env, table) ==> ok
    ensures ok ==> ComesBack(e, catalog, env, Query(e, Everything, table, less), restored)
  {
    OrderedWellTyped(e, catalog, table, less);
    if !e.isIdentity && KeySurvives(e, env, table) {
      RestoredKeysDistinct(e, catalog, env, table, less, ids);
    }
    var archive := BackupTable(e, catalog, env, table, less, pageSize);
    ok, restored := RestoreTable(e, catalog, env, defaults, Query(e, Everything, table, less), archive, ids, batchSize);
  }
}

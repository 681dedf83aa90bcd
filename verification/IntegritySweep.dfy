/**
 The tamper sweep: verify the rows of a slice in batches of descending primary key, remembering the
 last key seen, until the slice is exhausted or the cap is reached, while rows keep being appended.
 */
module IntegritySweep {
  import opened Common

  datatype Value = Number(n: int) | Text(s: string)

  type Row = map<string, Value>

  /** One row: its numeric primary key and everything else. */
  datatype Rec = Rec(key: int, row: Row)

  /** A table is its rows in key order. */
  predicate KeyOrder(rows: seq<Rec>) {
    forall i, j :: 0 <= i < j < |rows| ==> rows[i].key < rows[j].key
  }

  /** `db(n)` is the table at the n-th query: only rows with larger keys arrive in between. */
  ghost predicate AppendOnly(db: nat -> seq<Rec>) {
    forall n: nat :: KeyOrder(db(n)) && db(n) <= db(n + 1)
  }

  /**
   What the filters ask for: conditions on other columns, and possibly one key value, when a filter is
   mapped to the key column itself. `verify` is the signature check.
   */
  datatype Sweeper = Sweeper(scope: Row -> bool, onKey: Option<int>, verify: Row -> bool, batch: nat, cap: nat)

  const DEFAULT_SWEEP_BATCH: nat := 5_000
  const DEFAULT_SWEEP_CAP: nat := 200_000

  /** `None` is a missing or non-numeric option; zero counts as missing too. */
  function BatchSize(given: Option<int>): (size: nat)
    ensures given.Some? && given.value > 0 ==> size == given.value
    ensures given.Some? && given.value < 0 ==> size == 1
    ensures given.None? || given.value == 0 ==> size == 5_000
  {
    Max(1, if given.None? || given.value == 0 then DEFAULT_SWEEP_BATCH else given.value)
  }

  /** A cap below one batch is one batch. */
  function RowCap(given: Option<int>, batch: nat): (cap: nat)
    ensures batch <= cap
    ensures given.Some? && given.value != 0 ==> cap == batch || cap == given.value
    ensures given.Some? && given.value > batch ==> cap == given.value
    ensures given.None? || given.value == 0 ==> cap == batch || cap == 200_000
    ensures (given.None? || given.value == 0) && batch <= 200_000 ==> cap == 200_000
  {
    Max(batch, if given.None? || given.value == 0 then DEFAULT_SWEEP_CAP else given.value)
  }

  predicate Ready(s: Sweeper) { 1 <= s.batch <= s.cap }

  predicate InSlice(s: Sweeper, r: Rec) {
    s.scope(r.row) && (s.onKey.Some? ==> r.key == s.onKey.value)
  }

  /** The match of one query. The cursor condition replaces any condition on the key column. */
  predicate Wanted(s: Sweeper, cursor: Option<int>, r: Rec) {
    if cursor.None? then InSlice(s, r) else s.scope(r.row) && r.key < cursor.value
  }

  function Reverse<T>(s: seq<T>): seq<T> {
    if |s| == 0 then [] else [s[|s| - 1]] + Reverse(s[..|s| - 1])
  }

  function Last<T>(s: seq<T>, n: nat): seq<T> { if n >= |s| then s else s[|s| - n..] }

  /** Highest matching keys first, at most one batch of them. */
  function Fetch(s: Sweeper, rows: seq<Rec>, cursor: Option<int>): seq<Rec> {
    Reverse(Last(Filter((r: Rec) => Wanted(s, cursor, r), rows), s.batch))
  }

  function Failing(s: Sweeper, rows: seq<Rec>): seq<Rec> {
    Filter((r: Rec) => !s.verify(r.row), rows)
  }

  datatype Outcome = Outcome(tampered: seq<Rec>, rowsScanned: nat, truncated: bool)

  /** The sweep from its n-th query on. */
  function SweepFrom(s: Sweeper, db: nat -> seq<Rec>, n: nat, cursor: Option<int>, scanned: nat): Outcome
    requires Ready(s)
    decreases s.cap - scanned
  {
    var rows := Fetch(s, db(n), cursor);
    if |rows| == 0 then Outcome([], scanned, false)
    else if |rows| < s.batch then Outcome(Failing(s, rows), scanned + |rows|, false)
    else if scanned + |rows| >= s.cap then Outcome(Failing(s, rows), scanned + |rows|, true)
    else
      var rest := SweepFrom(s, db, n + 1, Some(rows[|rows| - 1].key), scanned + |rows|);
      Outcome(Failing(s, rows) + rest.tampered, rest.rowsScanned, rest.truncated)
  }

  function Sweep(s: Sweeper, db: nat -> seq<Rec>): Outcome
    requires Ready(s)
  {
    SweepFrom(s, db, 0, None, 0)
  }

  /** The loop. It ends on every table, growing or not, because each full batch counts against the cap. */
  method SweepTampered(scope: Row -> bool, onKey: Option<int>, verify: Row -> bool, db: nat -> seq<Rec>,
                       givenBatch: Option<int>, givenCap: Option<int>)
    returns (o: Outcome)
    ensures var batch := BatchSize(givenBatch);
            o == Sweep(Sweeper(scope, onKey, verify, batch, RowCap(givenCap, batch)), db)
  {
    var batch := BatchSize(givenBatch);
    o := SweepBatches(Sweeper(scope, onKey, verify, batch, RowCap(givenCap, batch)), db);
  }

  datatype Progress = GoOn | Exhausted | CapReached

  /** Query, verify and count one batch. */
  method SweepBatch(s: Sweeper, db: nat -> seq<Rec>, n: nat, cursor: Option<int>, before: seq<Rec>, scannedBefore: nat)
    returns (progress: Progress, tampered: seq<Rec>, scanned: nat, next: Option<int>)
    requires Ready(s)
    ensures var all := Prepended(before, SweepFrom(s, db, n, cursor, scannedBefore));
            && (progress.GoOn? ==> scannedBefore < scanned < s.cap
                                   && all == Prepended(tampered, SweepFrom(s, db, n + 1, next, scanned)))
            && (!progress.GoOn? ==> all == Outcome(tampered, scanned, progress.CapReached?))
  {
    var rows := Fetch(s, db(n), cursor);
    next := cursor;
    SweepStep(s, db, n, cursor, scannedBefore, before, rows);
    if |rows| == 0 {
      return Exhausted, before, scannedBefore, next;
    }
    tampered, scanned := Tally(s, rows, before, scannedBefore);
    next := Some(rows[|rows| - 1].key);
    progress := if |rows| < s.batch then Exhausted else if scanned >= s.cap then CapReached else GoOn;
  }

  method SweepBatches(s: Sweeper, db: nat -> seq<Rec>) returns (o: Outcome)
    requires Ready(s)
    ensures o == Sweep(s, db)
  {
    var tampered: seq<Rec>, rowsScanned: nat, progress := [], 0, GoOn;
    var cursor: Option<int>, n: nat := None, 0;
    assert Prepended([], Sweep(s, db)) == Sweep(s, db);
    while progress.GoOn?
      invariant progress.GoOn? ==> rowsScanned == 0 || rowsScanned < s.cap
      invariant progress.GoOn? ==> Prepended(tampered, SweepFrom(s, db, n, cursor, rowsScanned)) == Sweep(s, db)
      invariant !progress.GoOn? ==> Outcome(tampered, rowsScanned, progress.CapReached?) == Sweep(s, db)
      decreases progress.GoOn?, s.cap - rowsScanned
    {
      progress, tampered, rowsScanned, cursor := SweepBatch(s, db, n, cursor, tampered, rowsScanned);
      n := n + 1;
    }
    o := Outcome(tampered, rowsScanned, progress.CapReached?);
  }

  function Prepended(before: seq<Rec>, o: Outcome): Outcome {
    o.(tampered := before + o.tampered)
  }

  /** A turn that fetched `rows`, given the outcome `rest` of what follows it. */
  function Turn(s: Sweeper, rows: seq<Rec>, scanned: nat, rest: Outcome): Outcome {
    if |rows| == 0 then Outcome([], scanned, false)
    else if |rows| < s.batch then Outcome(Failing(s, rows), scanned + |rows|, false)
    else if scanned + |rows| >= s.cap then Outcome(Failing(s, rows), scanned + |rows|, true)
    else Prepended(Failing(s, rows), rest)
  }

  lemma OneTurn(s: Sweeper, db: nat -> seq<Rec>, n: nat, cursor: Option<int>, scanned: nat, rows: seq<Rec>, rest: Outcome)
    requires Ready(s) && rows == Fetch(s, db(n), cursor)
    requires |rows| >= s.batch && scanned + |rows| < s.cap ==>
               rest == SweepFrom(s, db, n + 1, Some(rows[|rows| - 1].key), scanned + |rows|)
    ensures SweepFrom(s, db, n, cursor, scanned) == Turn(s, rows, scanned, rest)
  {
  }

  lemma PrependTwice(before: seq<Rec>, found: seq<Rec>, rest: Outcome)
    ensures Prepended(before, Prepended(found, rest)) == Prepended(before + found, rest)
  {
    assert before + (found + rest.tampered) == (before + found) + rest.tampered;
  }

  lemma PrependTurn(s: Sweeper, rows: seq<Rec>, scanned: nat, before: seq<Rec>, rest: Outcome)
    ensures Prepended(before, Turn(s, rows, scanned, rest)) ==
            if |rows| == 0 then Outcome(before, scanned, false)
            else if |rows| < s.batch then Outcome(before + Failing(s, rows), scanned + |rows|, false)
            else if scanned + |rows| >= s.cap then Outcome(before + Failing(s, rows), scanned + |rows|, true)
            else Prepended(before + Failing(s, rows), rest)
  {
    assert before + [] == before;
    PrependTwice(before, Failing(s, rows), rest);
  }

  /** One turn of the loop moves a batch's failures from what is to come to what has been found. */
  lemma SweepStep(s: Sweeper, db: nat -> seq<Rec>, n: nat, cursor: Option<int>, scanned: nat, before: seq<Rec>,
                  rows: seq<Rec>)
    requires Ready(s) && rows == Fetch(s, db(n), cursor)
    ensures var all := Prepended(before, SweepFrom(s, db, n, cursor, scanned));
            var found, total := before + Failing(s, rows), scanned + |rows|;
            && (|rows| == 0 ==> all == Outcome(before, scanned, false))
            && (0 < |rows| < s.batch ==> all == Outcome(found, total, false))
            && (|rows| >= s.batch && total >= s.cap ==> all == Outcome(found, total, true))
            && (|rows| >= s.batch && total < s.cap ==>
                  all == Prepended(found, SweepFrom(s, db, n + 1, Some(rows[|rows| - 1].key), total)))
  {
    var rest := Outcome([], 0, false);
    if |rows| >= s.batch && scanned + |rows| < s.cap {
      rest := SweepFrom(s, db, n + 1, Some(rows[|rows| - 1].key), scanned + |rows|);
    }
    OneTurn(s, db, n, cursor, scanned, rows, rest);
    PrependTurn(s, rows, scanned, before, rest);
  }

  /** The verdicts of one batch. */
  method Tally(s: Sweeper, rows: seq<Rec>, before: seq<Rec>, scannedBefore: nat)
    returns (tampered: seq<Rec>, scanned: nat)
    ensures tampered == before + Failing(s, rows) && scanned == scannedBefore + |rows|
  {
    tampered := before;
    for i := 0 to |rows|
      invariant tampered == before + Failing(s, rows[..i])
    {
      FilterStep((r: Rec) => !s.verify(r.row), rows, i);
      if !s.verify(rows[i].row) {
        tampered := tampered + [rows[i]];
      }
    }
    assert rows[..|rows|] == rows;
    scanned := scannedBefore + |rows|;
  }

  // ---- Reversal and filtering -----------------------------------------------------------------

  lemma {:induction false} ReverseConcat<T>(a: seq<T>, b: seq<T>)
    ensures Reverse(a + b) == Reverse(b) + Reverse(a)
  {
    if |b| == 0 {
      assert a + b == a;
    } else {
      assert (a + b)[..|a + b| - 1] == a + b[..|b| - 1];
      ReverseConcat(a, b[..|b| - 1]);
    }
  }

  lemma {:induction false} ReverseEnds<T>(s: seq<T>)
    ensures |Reverse(s)| == |s|
    ensures |s| > 0 ==> Reverse(s)[|s| - 1] == s[0]
  {
    if |s| > 0 {
      ReverseEnds(s[..|s| - 1]);
    }
  }

  lemma {:induction false} FilterReverse<T>(p: T -> bool, s: seq<T>)
    ensures Filter(p, Reverse(s)) == Reverse(Filter(p, s))
  {
    if |s| > 0 {
      var front, last := s[..|s| - 1], s[|s| - 1];
      FilterReverse(p, front);
      FilterConcat(p, [last], Reverse(front));
      assert Filter(p, [last]) == if p(last) then [last] else [] by {
        assert [last][..0] == [];
      }
      if p(last) {
        ReverseConcat(Filter(p, front), [last]);
        assert Reverse([last]) == [last];
      }
    }
  }

  lemma {:induction false} FilterOrdered(p: Rec -> bool, rows: seq<Rec>)
    requires KeyOrder(rows)
    ensures KeyOrder(Filter(p, rows))
    ensures forall r :: r in Filter(p, rows) ==> r in rows && p(r)
  {
    if |rows| > 0 {
      var front, last := rows[..|rows| - 1], rows[|rows| - 1];
      FilterOrdered(p, front);
      forall r | r in Filter(p, front)
        ensures r.key < last.key
      {
        var i :| 0 <= i < |front| && front[i] == r;
        assert rows[i] == r;
      }
    }
  }

  // ---- What a query sees --------------------------------------------------------------------

  function Slice(s: Sweeper, rows: seq<Rec>): seq<Rec> {
    Filter((r: Rec) => InSlice(s, r), rows)
  }

  /** Below the key of its m-th row, an ordered list's filter is its first m rows. */
  lemma {:induction false} FilterBelow(p: Rec -> bool, q: Rec -> bool, rows: seq<Rec>, c: int, m: nat)
    requires KeyOrder(rows) && forall r :: q(r) == (p(r) && r.key < c)
    requires m < |Filter(p, rows)| && Filter(p, rows)[m].key == c
    ensures Filter(q, rows) == Filter(p, rows)[..m]
  {
    var front, last := rows[..|rows| - 1], rows[|rows| - 1];
    FilterOrdered(p, rows);
    if m < |Filter(p, front)| {
      assert Filter(p, front)[m] in rows;
      FilterBelow(p, q, front, c, m);
      FilterOrdered(p, front);
      assert Filter(p, front)[m] in front;
    } else {
      assert last.key == c && m == |Filter(p, front)|;
      FilterAgree(p, q, front);
    }
  }

  lemma {:induction false} Later(db: nat -> seq<Rec>, n: nat)
    requires AppendOnly(db)
    ensures KeyOrder(db(n)) && db(0) <= db(n)
  {
    if n > 0 {
      Later(db, n - 1);
      assert db(n - 1) <= db(n - 1 + 1);
    }
  }

  /** Rows appended since the first query lie above every cursor, so no later query sees them. */
  lemma AppendedUnseen(s: Sweeper, db: nat -> seq<Rec>, n: nat, c: int)
    requires AppendOnly(db) && exists r :: r in db(0) && r.key >= c
    ensures Filter((r: Rec) => Wanted(s, Some(c), r), db(n)) == Filter((r: Rec) => Wanted(s, Some(c), r), db(0))
  {
    Later(db, n);
    var first, added := db(0), db(n)[|db(0)|..];
    assert db(n) == first + added;
    FilterConcat((r: Rec) => Wanted(s, Some(c), r), first, added);
    var r :| r in first && r.key >= c;
    var i :| 0 <= i < |first| && first[i] == r;
    assert db(n)[i] == r;
    forall k | 0 <= k < |added|
      ensures !Wanted(s, Some(c), added[k])
    {
      assert added[k] == db(n)[|first| + k];
    }
    FilterNone((r: Rec) => Wanted(s, Some(c), r), added);
  }

  // ---- Correctness ------------------------------------------------------------------------------

  /**
   Either the whole slice as it stood at the start, or the `rowsScanned` highest rows of it, with the cap
   reached and overshot by less than one batch; the failing rows among them in descending key order.
   */
  ghost predicate Correct(s: Sweeper, slice: seq<Rec>, o: Outcome)
    requires Ready(s)
  {
    && o.rowsScanned <= |slice|
    && o.tampered == Reverse(Failing(s, slice[|slice| - o.rowsScanned..]))
    && (!o.truncated ==> o.rowsScanned == |slice|)
    && (o.truncated ==> s.cap <= o.rowsScanned < s.cap + s.batch)
  }

  /** The rows still to come after `scanned` rows of the slice, and the cursor that says so. */
  ghost predicate At(s: Sweeper, slice: seq<Rec>, cursor: Option<int>, scanned: nat)
    requires Ready(s)
  {
    && scanned <= |slice|
    && (scanned == 0 <==> cursor.None?)
    && (scanned > 0 ==> cursor == Some(slice[|slice| - scanned].key))
  }

  lemma QuerySeesRest(s: Sweeper, db: nat -> seq<Rec>, n: nat, cursor: Option<int>, scanned: nat)
    requires AppendOnly(db) && Ready(s) && s.onKey.None?
    requires At(s, Slice(s, db(0)), cursor, scanned) && (cursor.None? ==> n == 0)
    ensures Filter((r: Rec) => Wanted(s, cursor, r), db(n)) == Slice(s, db(0))[..|Slice(s, db(0))| - scanned]
  {
    var slice := Slice(s, db(0));
    Later(db, 0);
    if cursor.None? {
      FilterAgree((r: Rec) => Wanted(s, cursor, r), (r: Rec) => InSlice(s, r), db(0));
    } else {
      var at := slice[|slice| - scanned];
      FilterOrdered((r: Rec) => InSlice(s, r), db(0));
      assert at in slice && at in db(0);
      AppendedUnseen(s, db, n, cursor.value);
      FilterBelow((r: Rec) => InSlice(s, r), (r: Rec) => Wanted(s, cursor, r), db(0), cursor.value, |slice| - scanned);
    }
  }

  function Found(s: Sweeper, slice: seq<Rec>, from: nat, to: nat): seq<Rec>
    requires from <= to <= |slice|
  {
    Reverse(Failing(s, slice[from..to]))
  }

  /** The top `to - from` rows of a stretch, highest first, and the failing ones among them. */
  lemma StretchReversed(s: Sweeper, slice: seq<Rec>, from: nat, to: nat)
    requires from <= to <= |slice|
    ensures |Reverse(slice[from..to])| == to - from
    ensures Failing(s, Reverse(slice[from..to])) == Found(s, slice, from, to)
    ensures from < to ==> Reverse(slice[from..to])[to - from - 1] == slice[from]
  {
    ReverseEnds(slice[from..to]);
    FilterReverse((r: Rec) => !s.verify(r.row), slice[from..to]);
  }

  lemma LastOfPrefix(slice: seq<Rec>, to: nat, n: nat)
    requires to <= |slice|
    ensures Last(slice[..to], n) == slice[to - Min(n, to)..to]
  {
  }

  /** The batch fetched after `scanned` rows is the next stretch of the slice, from the top down. */
  lemma BatchIsStretch(s: Sweeper, db: nat -> seq<Rec>, slice: seq<Rec>, n: nat, cursor: Option<int>, scanned: nat, next: nat)
    requires AppendOnly(db) && Ready(s) && s.onKey.None? && slice == Slice(s, db(0))
    requires At(s, slice, cursor, scanned) && (cursor.None? ==> n == 0)
    requires next == scanned + Min(s.batch, |slice| - scanned)
    ensures Fetch(s, db(n), cursor) == Reverse(slice[|slice| - next..|slice| - scanned])
  {
    QuerySeesRest(s, db, n, cursor, scanned);
    LastOfPrefix(slice, |slice| - scanned, s.batch);
  }

  /** What a sweep that has already scanned `scanned` rows ends up with. */
  ghost predicate Covers(s: Sweeper, slice: seq<Rec>, scanned: nat, o: Outcome)
    requires Ready(s)
  {
    && scanned <= o.rowsScanned <= |slice|
    && o.tampered == Found(s, slice, |slice| - o.rowsScanned, |slice| - scanned)
    && (!o.truncated ==> o.rowsScanned == |slice|)
    && (o.truncated ==> s.cap <= o.rowsScanned < s.cap + s.batch)
  }

  lemma FoundJoins(s: Sweeper, slice: seq<Rec>, a: nat, b: nat, c: nat)
    requires a <= b <= c <= |slice|
    ensures Found(s, slice, b, c) + Found(s, slice, a, b) == Found(s, slice, a, c)
  {
    assert slice[a..b] + slice[b..c] == slice[a..c];
    FilterConcat((r: Rec) => !s.verify(r.row), slice[a..b], slice[b..c]);
    ReverseConcat(Failing(s, slice[a..b]), Failing(s, slice[b..c]));
  }

  lemma CoversMore(s: Sweeper, slice: seq<Rec>, scanned: nat, next: nat, rest: Outcome)
    requires Ready(s) && scanned <= next <= |slice| && Covers(s, slice, next, rest)
    ensures Covers(s, slice, scanned, Prepended(Found(s, slice, |slice| - next, |slice| - scanned), rest))
  {
    FoundJoins(s, slice, |slice| - rest.rowsScanned, |slice| - next, |slice| - scanned);
  }

  /** The outcome of a turn, given the outcome `rest` of what follows it. */
  function Turned(s: Sweeper, slice: seq<Rec>, scanned: nat, next: nat, rest: Outcome): Outcome
    requires scanned <= next <= |slice|
  {
    var found := Found(s, slice, |slice| - next, |slice| - scanned);
    if next < scanned + s.batch then Outcome(found, next, false)
    else if next >= s.cap then Outcome(found, next, true)
    else Prepended(found, rest)
  }

  lemma TurnByPosition(s: Sweeper, slice: seq<Rec>, scanned: nat, next: nat, rows: seq<Rec>, rest: Outcome)
    requires scanned <= next <= |slice| && |rows| == next - scanned
    requires Failing(s, rows) == Found(s, slice, |slice| - next, |slice| - scanned)
    requires Ready(s)
    ensures Turn(s, rows, scanned, rest) == Turned(s, slice, scanned, next, rest)
  {
    if next == scanned {
      assert slice[|slice| - next..|slice| - scanned] == [];
    }
  }

  /** What a query fetched, once it is known to be a stretch of the slice. */
  predicate IsStretch(s: Sweeper, slice: seq<Rec>, scanned: nat, next: nat, rows: seq<Rec>) {
    && scanned <= next <= |slice| && |rows| == next - scanned
    && (scanned < next ==> rows[|rows| - 1].key == slice[|slice| - next].key)
    && Failing(s, rows) == Found(s, slice, |slice| - next, |slice| - scanned)
  }

  lemma ReversedIsStretch(s: Sweeper, slice: seq<Rec>, scanned: nat, next: nat, rows: seq<Rec>)
    requires scanned <= next <= |slice| && rows == Reverse(slice[|slice| - next..|slice| - scanned])
    ensures IsStretch(s, slice, scanned, next, rows)
  {
    StretchReversed(s, slice, |slice| - next, |slice| - scanned);
  }

  /** What follows a turn that ends at the row with this key, if anything does. */
  ghost predicate Follows(s: Sweeper, db: nat -> seq<Rec>, n: nat, key: int, scanned: nat, rest: Outcome)
    requires Ready(s)
  {
    rest == SweepFrom(s, db, n + 1, Some(key), scanned)
  }

  lemma OneTurnTo(s: Sweeper, db: nat -> seq<Rec>, n: nat, cursor: Option<int>, scanned: nat, next: nat, rows: seq<Rec>,
                  key: int, rest: Outcome)
    requires Ready(s) && rows == Fetch(s, db(n), cursor) && next == scanned + |rows|
    requires |rows| > 0 ==> rows[|rows| - 1].key == key
    requires |rows| >= s.batch && next < s.cap ==> Follows(s, db, n, key, next, rest)
    ensures SweepFrom(s, db, n, cursor, scanned) == Turn(s, rows, scanned, rest)
  {
    OneTurn(s, db, n, cursor, scanned, rows, rest);
  }

  /** One turn of the sweep, told as positions in the slice. */
  lemma Unrolled(s: Sweeper, db: nat -> seq<Rec>, slice: seq<Rec>, n: nat, cursor: Option<int>, scanned: nat, next: nat,
                 rest: Outcome)
    requires AppendOnly(db) && Ready(s) && s.onKey.None? && slice == Slice(s, db(0))
    requires At(s, slice, cursor, scanned) && (cursor.None? ==> n == 0)
    requires next == scanned + Min(s.batch, |slice| - scanned)
    requires next == scanned + s.batch && next < s.cap ==> Follows(s, db, n, slice[|slice| - next].key, next, rest)
    ensures SweepFrom(s, db, n, cursor, scanned) == Turned(s, slice, scanned, next, rest)
  {
    var rows := Fetch(s, db(n), cursor);
    BatchIsStretch(s, db, slice, n, cursor, scanned, next);
    ReversedIsStretch(s, slice, scanned, next, rows);
    OneTurnTo(s, db, n, cursor, scanned, next, rows, if scanned < next then slice[|slice| - next].key else 0, rest);
    TurnByPosition(s, slice, scanned, next, rows, rest);
  }

  lemma TurnCovers(s: Sweeper, slice: seq<Rec>, scanned: nat, next: nat, rest: Outcome)
    requires Ready(s) && scanned <= |slice| && next == scanned + Min(s.batch, |slice| - scanned)
    requires scanned == 0 || scanned < s.cap
    requires next == scanned + s.batch && next < s.cap ==> Covers(s, slice, next, rest)
    ensures Covers(s, slice, scanned, Turned(s, slice, scanned, next, rest))
  {
    if next == scanned + s.batch && next < s.cap {
      CoversMore(s, slice, scanned, next, rest);
    }
  }

  lemma {:induction false} SweepFromCorrect(s: Sweeper, db: nat -> seq<Rec>, slice: seq<Rec>, n: nat,
                                            cursor: Option<int>, scanned: nat)
    requires AppendOnly(db) && Ready(s) && s.onKey.None? && slice == Slice(s, db(0))
    requires At(s, slice, cursor, scanned) && (cursor.None? ==> n == 0) && (scanned == 0 || scanned < s.cap)
    ensures Covers(s, slice, scanned, SweepFrom(s, db, n, cursor, scanned))
    decreases s.cap - scanned
  {
    var next := scanned + Min(s.batch, |slice| - scanned);
    var rest := Outcome([], 0, false);
    if next == scanned + s.batch && next < s.cap {
      var key := slice[|slice| - next].key;
      SweepFromCorrect(s, db, slice, n + 1, Some(key), next);
      rest := SweepFrom(s, db, n + 1, Some(key), next);
    }
    Unrolled(s, db, slice, n, cursor, scanned, next, rest);
    TurnCovers(s, slice, scanned, next, rest);
  }

  /** Without a filter on the key column the sweep is correct on every table, appended to or not. */
  lemma SweepCorrect(s: Sweeper, db: nat -> seq<Rec>)
    requires AppendOnly(db) && Ready(s) && s.onKey.None?
    ensures Correct(s, Slice(s, db(0)), Sweep(s, db))
  {
    var slice, o := Slice(s, db(0)), Sweep(s, db);
    SweepFromCorrect(s, db, slice, 0, None, 0);
    assert slice[|slice| - o.rowsScanned..|slice|] == slice[|slice| - o.rowsScanned..];
  }

  // ---- A filter on the key column -----------------------------------------------------------------

  lemma FirstTwoDiffer(rows: seq<Rec>)
    requires KeyOrder(rows)
    ensures |rows| > 1 ==> rows[0].key != rows[1].key
  {
  }

  lemma KeySliceSmall(s: Sweeper, rows: seq<Rec>)
    requires KeyOrder(rows) && s.onKey.Some?
    ensures |Slice(s, rows)| <= 1
  {
    FilterOrdered((r: Rec) => InSlice(s, r), rows);
    var slice := Slice(s, rows);
    forall i | 0 <= i < |slice|
      ensures slice[i].key == s.onKey.value
    {
      assert slice[i] in slice;
    }
    FirstTwoDiffer(slice);
  }

  lemma OnlyFetch(s: Sweeper, db: nat -> seq<Rec>)
    requires AppendOnly(db) && Ready(s) && s.onKey.Some?
    ensures |Slice(s, db(0))| <= 1 && Fetch(s, db(0), None) == Reverse(Slice(s, db(0)))
  {
    Later(db, 0);
    KeySliceSmall(s, db(0));
    FilterAgree((r: Rec) => Wanted(s, None, r), (r: Rec) => InSlice(s, r), db(0));
  }

  lemma OnlyBatch(s: Sweeper, db: nat -> seq<Rec>, rows: seq<Rec>)
    requires Ready(s) && (s.batch >= 2 || s.cap == 1) && rows == Fetch(s, db(0), None) && |rows| <= 1
    ensures Sweep(s, db) == Outcome(Failing(s, rows), |rows|, |rows| == 1 && s.batch == 1)
  {
  }

  /** One matching row at most: the first, not full, batch ends the sweep. */
  lemma OneRowSweep(s: Sweeper, db: nat -> seq<Rec>)
    requires AppendOnly(db) && Ready(s) && s.onKey.Some? && (s.batch >= 2 || s.cap == 1)
    ensures Correct(s, Slice(s, db(0)), Sweep(s, db))
  {
    var slice := Slice(s, db(0));
    OnlyFetch(s, db);
    ReverseEnds(slice);
    OnlyBatch(s, db, Reverse(slice));
    FilterReverse((r: Rec) => !s.verify(r.row), slice);
    assert slice[|slice| - |slice|..] == slice;
  }

  lemma FilterTwo(p: Rec -> bool, a: Rec, b: Rec)
    ensures Filter(p, [a, b]) == (if p(a) then [a] else []) + (if p(b) then [b] else [])
  {
    assert [a, b][..1] == [a] && [a][..0] == [];
  }

  lemma FetchOfTwo(s: Sweeper, low: Rec, high: Rec, cursor: Option<int>)
    requires s.batch == 1
    ensures Fetch(s, [low, high], cursor)
            == if Wanted(s, cursor, high) then [high] else if Wanted(s, cursor, low) then [low] else []
  {
    FilterTwo((r: Rec) => Wanted(s, cursor, r), low, high);
    assert [high][..0] == [] && Reverse([high]) == [high] + Reverse([]);
    assert [low][..0] == [] && Reverse([low]) == [low] + Reverse([]);
  }

  /** With batches of one row, the second query forgets the key filter and scans the row below. */
  lemma KeyFilterForgotten(s: Sweeper, low: Rec, high: Rec, db: nat -> seq<Rec>)
    requires low.key < high.key && s.onKey == Some(high.key) && s.batch == 1 && s.cap >= 2
    requires s.scope(low.row) && s.scope(high.row) && forall n: nat :: db(n) == [low, high]
    ensures AppendOnly(db) && |Slice(s, db(0))| == 1 && Sweep(s, db).rowsScanned == 2
  {
    FilterTwo((r: Rec) => InSlice(s, r), low, high);
    FetchOfTwo(s, low, high, None);
    FetchOfTwo(s, low, high, Some(high.key));
    FetchOfTwo(s, low, high, Some(low.key));
    var third := SweepFrom(s, db, 2, Some(low.key), 2);
    OneTurn(s, db, 2, Some(low.key), 2, [], third);
    var second := SweepFrom(s, db, 1, Some(high.key), 1);
    OneTurn(s, db, 1, Some(high.key), 1, [low], third);
    OneTurn(s, db, 0, None, 0, [high], second);
  }

  ghost predicate AlwaysCorrect(onKey: Option<int>, batch: nat, cap: nat)
    requires 1 <= batch <= cap
  {
    forall scope, verify, db: nat -> seq<Rec> :: AppendOnly(db) ==>
      var s := Sweeper(scope, onKey, verify, batch, cap);
      Correct(s, Slice(s, db(0)), Sweep(s, db))
  }

  /** The sweep is right on every table exactly when no key filter meets a batch size of one under a larger cap. */
  lemma AlwaysCorrectExact(onKey: Option<int>, batch: nat, cap: nat)
    requires 1 <= batch <= cap
    ensures AlwaysCorrect(onKey, batch, cap) <==> onKey.None? || batch >= 2 || cap == 1
  {
    if onKey.None? || batch >= 2 || cap == 1 {
      forall scope, verify, db: nat -> seq<Rec> | AppendOnly(db)
        ensures var s := Sweeper(scope, onKey, verify, batch, cap);
                Correct(s, Slice(s, db(0)), Sweep(s, db))
      {
        var s := Sweeper(scope, onKey, verify, batch, cap);
        if onKey.None? {
          SweepCorrect(s, db);
        } else {
          OneRowSweep(s, db);
        }
      }
    } else {
      var low, high := Rec(onKey.value - 1, map[]), Rec(onKey.value, map[]);
      var db: nat -> seq<Rec> := _ => [low, high];
      var s := Sweeper(_ => true, onKey, _ => true, batch, cap);
      KeyFilterForgotten(s, low, high, db);
      assert !Correct(s, Slice(s, db(0)), Sweep(s, db));
    }
  }
}

/**
 Referential integrity of a purge. Deleting a parent row that a child row still references makes
 Oracle refuse the statement (ORA-02292), so "every state between two table steps is intact" is the
 promise that no such refusal happens half-way. The registry self-check does not look at tiers; the
 main theorem says exactly which registries keep the promise.
 */
module PurgeIntegrity {
  import opened Common
  import opened PurgeRegistry
  import opened PurgeEngine

  predicate HasParent(db: Db, edge: Edge, v: Val) {
    exists p :: p in TableOf(db, edge.refTable) && Get(p, edge.refColumn) == v
  }

  /** Every non-NULL foreign key of the table finds its parent row. */
  predicate EntryIntact(db: Db, e: Entry) {
    forall r, x :: r in TableOf(db, e.table) && 0 <= x < |e.fkEdges| && Get(r, e.fkEdges[x].column) != Null ==>
      HasParent(db, e.fkEdges[x], Get(r, e.fkEdges[x].column))
  }

  predicate Intact(db: Db, reg: Registry) {
    forall n :: 0 <= n < |reg| ==> EntryIntact(db, reg[n])
  }

  /** Edges lead to other, registered tables. */
  predicate EdgesProper(reg: Registry) {
    && EdgesRegistered(reg)
    && forall n, x :: 0 <= n < |reg| && 0 <= x < |reg[n].fkEdges| ==> reg[n].fkEdges[x].refTable != reg[n].table
  }

  predicate DrawnFrom(order: seq<Entry>, reg: Registry) {
    UniqueTables(order) && forall e :: e in order ==> e in reg
  }

  predicate EmptiedBefore(order: seq<Entry>, e: Entry, j: int) {
    !e.appendOnly && exists i :: 0 <= i < j <= |order| && order[i] == e
  }

  /** Whenever a table's turn comes, every table that references it has already been emptied. */
  predicate ChildrenFirst(reg: Registry, order: seq<Entry>) {
    forall n, x, j ::
      (0 <= n < |reg| && 0 <= x < |reg[n].fkEdges| && 0 <= j < |order| && order[j].table == reg[n].fkEdges[x].refTable)
      ==> EmptiedBefore(order, reg[n], j)
  }

  // ---- Children first keeps every step intact -------------------------------------------------

  lemma SurvivorWasThere(db: Db, order: seq<Entry>, hw: HighWater, k: nat, e: Entry, r: Row)
    requires k <= |order| && UniqueTables(order)
    requires r in TableOf(PurgePrefix(db, order, hw, k), e.table)
    ensures r in TableOf(db, e.table)
    ensures !EmptiedBefore(order, e, k)
  {
    PrefixTable(db, order, hw, k, e.table);
    if i :| 0 <= i < k && order[i].table == e.table {
      RemainingExact(order[i], hw, TableOf(db, e.table), r);
      assert r in multiset(Remaining(order[i], hw, TableOf(db, e.table)));
    }
  }

  lemma EntryStaysIntact(reg: Registry, order: seq<Entry>, db: Db, hw: HighWater, k: nat, n: nat)
    requires DrawnFrom(order, reg) && ChildrenFirst(reg, order) && Intact(db, reg)
    requires k <= |order| && n < |reg|
    ensures EntryIntact(PurgePrefix(db, order, hw, k), reg[n])
  {
    var e, after := reg[n], PurgePrefix(db, order, hw, k);
    forall r, x | r in TableOf(after, e.table) && 0 <= x < |e.fkEdges| && Get(r, e.fkEdges[x].column) != Null
      ensures HasParent(after, e.fkEdges[x], Get(r, e.fkEdges[x].column))
    {
      SurvivorWasThere(db, order, hw, k, e, r);
      assert EntryIntact(db, reg[n]);
      assert HasParent(db, e.fkEdges[x], Get(r, e.fkEdges[x].column));
      PrefixTable(db, order, hw, k, e.fkEdges[x].refTable);
    }
  }

  // ---- Anything else breaks some database -----------------------------------------------------

  function Columns(reg: Registry): set<string> {
    (set e | e in reg :: e.pk)
    + (set e, g | e in reg && g in e.fkEdges :: g.column)
    + (set e, g | e in reg && g in e.fkEdges :: g.refColumn)
  }

  function OneRow(reg: Registry): Row {
    map c | c in Columns(reg) :: Num(1)
  }

  /** Every table holds one row, whose every column is 1: each foreign key finds its parent. */
  function OneRowEach(reg: Registry): Db {
    var tables := set e | e in reg :: e.table;
    map t | t in tables :: [OneRow(reg)]
  }

  lemma OneRowEachIntact(reg: Registry)
    requires EdgesRegistered(reg)
    ensures Intact(OneRowEach(reg), reg)
  {
    var db := OneRowEach(reg);
    forall n, r, x | 0 <= n < |reg| && r in TableOf(db, reg[n].table) && 0 <= x < |reg[n].fkEdges|
      ensures HasParent(db, reg[n].fkEdges[x], Get(r, reg[n].fkEdges[x].column))
    {
      var edge := reg[n].fkEdges[x];
      assert reg[n] in reg && edge in reg[n].fkEdges;
      var m :| 0 <= m < |reg| && reg[m].table == edge.refTable;
      assert reg[m] in reg;
      assert TableOf(db, edge.refTable) == [OneRow(reg)];
      assert OneRow(reg) in TableOf(db, edge.refTable);
    }
  }

  lemma {:induction false} FilterWhole(p: Row -> bool, rows: seq<Row>)
    requires |rows| == 1 && p(rows[0])
    ensures Filter(p, rows) == rows
  {
    assert Filter(p, rows[..0]) == [];
  }

  /** The child's row survives: its log is cut below it, or its table has not been reached. */
  lemma ChildSurvives(reg: Registry, order: seq<Entry>, e: Entry, hw: HighWater, k: nat)
    requires DrawnFrom(order, reg) && UniqueTables(reg) && e in reg && k <= |order|
    requires e.appendOnly ==> e.table in hw && hw[e.table] == 0
    requires !EmptiedBefore(order, e, k)
    ensures TableOf(PurgePrefix(OneRowEach(reg), order, hw, k), e.table) == [OneRow(reg)]
  {
    var db := OneRowEach(reg);
    PrefixTable(db, order, hw, k, e.table);
    if i :| 0 <= i < k && order[i].table == e.table {
      SameEntry(reg, order[i], e);
      assert Get(OneRow(reg), e.pk) == Num(1);
      FilterWhole((x: Row) => !Hits(e, hw, x), TableOf(db, e.table));
    }
  }

  lemma ParentEmptied(db: Db, order: seq<Entry>, hw: HighWater, j: nat)
    requires j < |order| && UniqueTables(order) && order[j].table !in hw
    ensures TableOf(PurgePrefix(db, order, hw, j + 1), order[j].table) == []
  {
    PrefixTable(db, order, hw, j + 1, order[j].table);
    RemainingExact(order[j], hw, TableOf(db, order[j].table), map[]);
  }

  lemma OrphanBreaks(db: Db, e: Entry, x: nat, r: Row)
    requires x < |e.fkEdges| && r in TableOf(db, e.table) && Get(r, e.fkEdges[x].column) != Null
    requires TableOf(db, e.fkEdges[x].refTable) == []
    ensures !EntryIntact(db, e)
  {
    assert !HasParent(db, e.fkEdges[x], Get(r, e.fkEdges[x].column));
  }

  /** The parent's step empties it while the child's row survives. */
  lemma LateChildBreaks(reg: Registry, order: seq<Entry>, n: nat, x: nat, j: nat, hw: HighWater)
    requires DrawnFrom(order, reg) && EdgesProper(reg) && UniqueTables(reg)
    requires n < |reg| && x < |reg[n].fkEdges| && j < |order| && order[j].table == reg[n].fkEdges[x].refTable
    requires !EmptiedBefore(order, reg[n], j)
    requires hw == if reg[n].appendOnly then map[reg[n].table := 0] else map[]
    ensures !Intact(PurgePrefix(OneRowEach(reg), order, hw, j + 1), reg)
  {
    var e := reg[n];
    ChildSurvives(reg, order, e, hw, j + 1);
    ParentEmptied(OneRowEach(reg), order, hw, j);
    assert e in reg && e.fkEdges[x] in e.fkEdges;
    OrphanBreaks(PurgePrefix(OneRowEach(reg), order, hw, j + 1), e, x, OneRow(reg));
  }

  lemma SameEntry(reg: Registry, a: Entry, b: Entry)
    requires UniqueTables(reg) && a in reg && b in reg && a.table == b.table
    ensures a == b
  {
    var i :| 0 <= i < |reg| && reg[i] == a;
    var j :| 0 <= j < |reg| && reg[j] == b;
  }

  ghost predicate StaysIntact(reg: Registry, order: seq<Entry>) {
    forall db, hw: HighWater, k: nat :: Intact(db, reg) && k <= |order| ==> Intact(PurgePrefix(db, order, hw, k), reg)
  }

  /** An order keeps every intact database intact after every step exactly when it visits children first. */
  lemma OrderSafeExact(reg: Registry, order: seq<Entry>)
    requires UniqueTables(reg) && EdgesProper(reg) && DrawnFrom(order, reg)
    ensures StaysIntact(reg, order) <==> ChildrenFirst(reg, order)
  {
    if ChildrenFirst(reg, order) {
      forall db, hw: HighWater, k: nat | Intact(db, reg) && k <= |order|
        ensures Intact(PurgePrefix(db, order, hw, k), reg)
      {
        forall n | 0 <= n < |reg|
          ensures EntryIntact(PurgePrefix(db, order, hw, k), reg[n])
        {
          EntryStaysIntact(reg, order, db, hw, k, n);
        }
      }
    } else {
      var n, x, j :| 0 <= n < |reg| && 0 <= x < |reg[n].fkEdges| && 0 <= j < |order|
                     && order[j].table == reg[n].fkEdges[x].refTable && !EmptiedBefore(order, reg[n], j);
      var hw: HighWater := if reg[n].appendOnly then map[reg[n].table := 0] else map[];
      LateChildBreaks(reg, order, n, x, j, hw);
      OneRowEachIntact(reg);
    }
  }

  // ---- Which registries are safe ---------------------------------------------------------------

  predicate Before(s: seq<Entry>, a: Entry, b: Entry) {
    exists i, j :: 0 <= i < j < |s| && s[i] == a && s[j] == b
  }

  lemma BeforeAppend(s: seq<Entry>, t: seq<Entry>, a: Entry, b: Entry)
    requires Before(s, a, b) || (a in s && b in t)
    ensures Before(s + t, a, b)
  {
    if Before(s, a, b) {
      var i, j :| 0 <= i < j < |s| && s[i] == a && s[j] == b;
      assert (s + t)[i] == a && (s + t)[j] == b;
    } else {
      var i :| 0 <= i < |s| && s[i] == a;
      var j :| 0 <= j < |t| && t[j] == b;
      assert (s + t)[i] == a && (s + t)[|s| + j] == b;
    }
  }

  lemma {:induction false} FilterKeepsBefore(p: Entry -> bool, s: seq<Entry>, a: Entry, b: Entry)
    requires Before(s, a, b) && p(a) && p(b)
    ensures Before(Filter(p, s), a, b)
  {
    var i, j :| 0 <= i < j < |s| && s[i] == a && s[j] == b;
    var front, last := s[..|s| - 1], s[|s| - 1];
    var tail := if p(last) then [last] else [];
    assert Filter(p, s) == Filter(p, front) + tail;
    assert front[i] == a;
    if j < |front| {
      assert front[j] == b;
      FilterKeepsBefore(p, front, a, b);
    } else {
      FilterMultiset(p, front, a);
    }
    BeforeAppend(Filter(p, front), tail, a, b);
  }

  lemma {:induction false} InsertKeepsBefore(sorted: seq<Entry>, e: Entry, tier: Entry -> int, a: Entry, b: Entry)
    requires SortedBy(sorted, tier)
    requires Before(sorted, a, b) || (a in sorted && b == e && tier(a) <= tier(e))
    ensures Before(InsertByTier(sorted, e, tier), a, b)
  {
    if |sorted| == 0 || tier(sorted[|sorted| - 1]) <= tier(e) {
      BeforeAppend(sorted, [e], a, b);
    } else {
      var front, last := sorted[..|sorted| - 1], sorted[|sorted| - 1];
      assert sorted == front + [last];
      if i, j :| 0 <= i < j < |sorted| && sorted[i] == a && sorted[j] == b {
        assert front[i] == a;
        if j < |front| {
          assert front[j] == b;
          InsertKeepsBefore(front, e, tier, a, b);
        } else {
          InsertMembers(front, e, tier);
        }
      } else {
        InsertKeepsBefore(front, e, tier, a, b);
      }
      BeforeAppend(InsertByTier(front, e, tier), [last], a, b);
    }
  }

  lemma {:induction false} SortSorted(s: seq<Entry>, tier: Entry -> int, x: Entry)
    ensures SortedBy(SortByTier(s, tier), tier)
    ensures x in s ==> x in SortByTier(s, tier)
  {
    SortByTierCorrect(s, tier, 0);
    assert x in s <==> x in multiset(s);
    assert x in SortByTier(s, tier) <==> x in multiset(SortByTier(s, tier));
  }

  /** The sort is stable: an earlier entry with no higher tier stays earlier. */
  lemma {:induction false} SortKeepsBefore(s: seq<Entry>, tier: Entry -> int, a: Entry, b: Entry)
    requires Before(s, a, b) && tier(a) <= tier(b)
    ensures Before(SortByTier(s, tier), a, b)
  {
    var i, j :| 0 <= i < j < |s| && s[i] == a && s[j] == b;
    var front := s[..|s| - 1];
    SortSorted(front, tier, a);
    assert front[i] == a;
    if j < |s| - 1 {
      assert front[j] == b;
      SortKeepsBefore(front, tier, a, b);
    }
    InsertKeepsBefore(SortByTier(front, tier), s[|s| - 1], tier, a, b);
  }

  /** Visited earlier: by a lower tier, or within a tier by an earlier place in the registry. */
  predicate Earlier(reg: Registry, n: int, m: int)
    requires 0 <= n < |reg| && 0 <= m < |reg|
  {
    reg[n].deleteTier < reg[m].deleteTier || (reg[n].deleteTier == reg[m].deleteTier && n < m)
  }

  lemma EarlierInOrder(reg: Registry, names: set<string>, n: nat, m: nat, i: nat, j: nat)
    requires UniqueTables(reg) && n < |reg| && m < |reg| && Earlier(reg, n, m)
    requires i < |DeleteOrder(reg, names)| && j < |DeleteOrder(reg, names)|
    requires DeleteOrder(reg, names)[i] == reg[n] && DeleteOrder(reg, names)[j] == reg[m]
    ensures i < j
  {
    var order := DeleteOrder(reg, names);
    DeleteOrderCorrect(reg, names);
    assert order[i] in order && order[j] in order;
    if reg[n].deleteTier == reg[m].deleteTier {
      assert Before(reg, reg[n], reg[m]);
      FilterKeepsBefore((e: Entry) => e.table in names, reg, reg[n], reg[m]);
      SortKeepsBefore(Filter((e: Entry) => e.table in names, reg), (e: Entry) => e.deleteTier, reg[n], reg[m]);
      var a, b :| 0 <= a < b < |order| && order[a] == reg[n] && order[b] == reg[m];
    }
  }

  /** Children come before their parents, and no append-only log references another table. */
  predicate WellTiered(reg: Registry) {
    forall n, x, m ::
      (0 <= n < |reg| && 0 <= x < |reg[n].fkEdges| && 0 <= m < |reg| && reg[m].table == reg[n].fkEdges[x].refTable)
      ==> !reg[n].appendOnly && Earlier(reg, n, m)
  }

  lemma WellTieredVisitsChildrenFirst(reg: Registry, names: set<string>)
    requires UniqueTables(reg) && EdgesProper(reg) && WellTiered(reg) && ChildClosed(reg, names)
    ensures ChildrenFirst(reg, DeleteOrder(reg, names))
  {
    var order := DeleteOrder(reg, names);
    DeleteOrderCorrect(reg, names);
    forall n, x, j | 0 <= n < |reg| && 0 <= x < |reg[n].fkEdges| && 0 <= j < |order|
                     && order[j].table == reg[n].fkEdges[x].refTable
      ensures EmptiedBefore(order, reg[n], j)
    {
      assert order[j] in order;
      var m :| 0 <= m < |reg| && reg[m] == order[j];
      assert ReferencesInto(reg[n], names);
      assert reg[n] in order;
      var i :| 0 <= i < |order| && order[i] == reg[n];
      EarlierInOrder(reg, names, n, m, i, j);
    }
  }

  function AllTables(reg: Registry): set<string> {
    set e | e in reg :: e.table
  }

  /** An edge whose child is not emptied in time, within the order over all tables. */
  lemma BadEdgeComesLate(reg: Registry, n: nat, x: nat, m: nat) returns (j: nat)
    requires UniqueTables(reg) && n < |reg| && x < |reg[n].fkEdges| && m < |reg| && n != m
    requires reg[n].appendOnly || !Earlier(reg, n, m)
    ensures var order := DeleteOrder(reg, AllTables(reg));
            j < |order| && order[j] == reg[m] && !EmptiedBefore(order, reg[n], j)
  {
    var names := AllTables(reg);
    var order := DeleteOrder(reg, names);
    DeleteOrderCorrect(reg, names);
    assert reg[n] in reg && reg[m] in reg;
    assert reg[m] in order;
    j :| 0 <= j < |order| && order[j] == reg[m];
    if !reg[n].appendOnly {
      forall i | 0 <= i < |order| && order[i] == reg[n]
        ensures j < i
      {
        EarlierInOrder(reg, names, m, n, j, i);
      }
    }
  }

  lemma BadTiersVisitParentFirst(reg: Registry)
    requires UniqueTables(reg) && EdgesProper(reg) && !WellTiered(reg)
    ensures ChildClosed(reg, AllTables(reg)) && !ChildrenFirst(reg, DeleteOrder(reg, AllTables(reg)))
  {
    assert forall n :: 0 <= n < |reg| ==> reg[n] in reg;
    var n, x, m :| 0 <= n < |reg| && 0 <= x < |reg[n].fkEdges| && 0 <= m < |reg|
                   && reg[m].table == reg[n].fkEdges[x].refTable && !(!reg[n].appendOnly && Earlier(reg, n, m));
    var j := BadEdgeComesLate(reg, n, x, m);
  }

  ghost predicate PurgeSafe(reg: Registry) {
    forall names :: ChildClosed(reg, names) ==> StaysIntact(reg, DeleteOrder(reg, names))
  }

  /**
   A registry lets no purge of any child-closed selection, over any intact database and any marks, meet
   a dangling reference at any step, exactly when it is well tiered.
   */
  lemma PurgeSafeExact(reg: Registry)
    requires UniqueTables(reg) && EdgesProper(reg)
    ensures PurgeSafe(reg) <==> WellTiered(reg)
  {
    forall names
      ensures DrawnFrom(DeleteOrder(reg, names), reg)
    {
      DeleteOrderCorrect(reg, names);
    }
    if WellTiered(reg) {
      forall names | ChildClosed(reg, names)
        ensures StaysIntact(reg, DeleteOrder(reg, names))
      {
        WellTieredVisitsChildrenFirst(reg, names);
        OrderSafeExact(reg, DeleteOrder(reg, names));
      }
    } else {
      BadTiersVisitParentFirst(reg);
      OrderSafeExact(reg, DeleteOrder(reg, AllTables(reg)));
    }
  }

  /** The self-check does not see tiers: this registry passes it, yet its purge deletes a parent first. */
  lemma SelfCheckMissesTiers(groups: set<string>, never: set<string>)
    requires "T" in groups && "CHILD" !in never && "PARENT" !in never
    ensures var parent := Entry("PARENT", "T", PURGE_POOL, "ID", true, {}, [], 1, 1, false, {"ID"}, {});
            var child := Entry("CHILD", "T", PURGE_POOL, "ID", true, {}, [Edge("PARENT_ID", "PARENT", "ID")], 1, 2, false,
                               {"ID"}, {});
            && UniqueTables([parent, child]) && EdgesProper([parent, child])
            && EntryAllowed(parent, groups, never) && EntryAllowed(child, groups, never)
            && !PurgeSafe([parent, child])
  {
    var parent := Entry("PARENT", "T", PURGE_POOL, "ID", true, {}, [], 1, 1, false, {"ID"}, {});
    var child := Entry("CHILD", "T", PURGE_POOL, "ID", true, {}, [Edge("PARENT_ID", "PARENT", "ID")], 1, 2, false,
                       {"ID"}, {});
    var reg := [parent, child];
    assert reg[1].fkEdges[0].refTable == reg[0].table;
    assert !Earlier(reg, 1, 0);
    PurgeSafeExact(reg);
  }
}

/**
 The purge registry: which tables may be purged, how they reference each other, and in which
 order a purge or a restore visits them.
 */
module PurgeRegistry {
  import opened Common

  const PURGE_POOL := "appDbBulk"

  datatype Edge = Edge(column: string, refTable: string, refColumn: string)

  datatype Entry = Entry(
    table: string, group: string, pool: string, pk: string, isIdentity: bool, virtualColumns: set<string>,
    fkEdges: seq<Edge>, deleteTier: int, restoreTier: int, appendOnly: bool,
    identifierColumns: set<string>, canonicalTimestamps: set<string>)

  type Registry = seq<Entry>

  predicate UniqueTables(reg: Registry) {
    forall i, j :: 0 <= i < j < |reg| ==> reg[i].table != reg[j].table
  }

  predicate Registered(reg: Registry, table: string) {
    exists i :: 0 <= i < |reg| && reg[i].table == table
  }

  predicate EdgesRegistered(reg: Registry) {
    forall i, x :: 0 <= i < |reg| && 0 <= x < |reg[i].fkEdges| ==> Registered(reg, reg[i].fkEdges[x].refTable)
  }

  predicate EntryAllowed(e: Entry, groups: set<string>, never: set<string>) {
    e.pool == PURGE_POOL && e.table !in never && e.group in groups
  }

  /** The load-time self-check: two passes, so that a parent may be declared after its child. */
  method AssertRegistryIntegrity(reg: Registry, groups: set<string>, never: set<string>) returns (ok: bool)
    ensures ok <==> UniqueTables(reg) && EdgesRegistered(reg)
                    && forall i :: 0 <= i < |reg| ==> EntryAllowed(reg[i], groups, never)
  {
    var seen: set<string> := {};
    for i := 0 to |reg|
      invariant forall t :: t in seen <==> exists k :: 0 <= k < i && reg[k].table == t
      invariant forall a, b :: 0 <= a < b < i ==> reg[a].table != reg[b].table
      invariant forall k :: 0 <= k < i ==> EntryAllowed(reg[k], groups, never)
    {
      if reg[i].table in seen || !EntryAllowed(reg[i], groups, never) {
        return false;
      }
      seen := seen + {reg[i].table};
    }
    for i := 0 to |reg|
      invariant forall k, x :: 0 <= k < i && 0 <= x < |reg[k].fkEdges| ==> Registered(reg, reg[k].fkEdges[x].refTable)
    {
      for x := 0 to |reg[i].fkEdges|
        invariant forall y :: 0 <= y < x ==> Registered(reg, reg[i].fkEdges[y].refTable)
      {
        if reg[i].fkEdges[x].refTable !in seen {
          return false;
        }
      }
    }
    ok := true;
  }

  // ---- Order ----------------------------------------------------------------------------------

  /** Stable insertion: after every entry whose tier is not higher. */
  function InsertByTier(sorted: seq<Entry>, e: Entry, tier: Entry -> int): seq<Entry> {
    if |sorted| == 0 || tier(sorted[|sorted| - 1]) <= tier(e) then sorted + [e]
    else InsertByTier(sorted[..|sorted| - 1], e, tier) + [sorted[|sorted| - 1]]
  }

  function SortByTier(s: seq<Entry>, tier: Entry -> int): seq<Entry> {
    if |s| == 0 then [] else InsertByTier(SortByTier(s[..|s| - 1], tier), s[|s| - 1], tier)
  }

  function DeleteOrder(reg: Registry, names: set<string>): seq<Entry> {
    SortByTier(Filter((e: Entry) => e.table in names, reg), (e: Entry) => e.deleteTier)
  }

  predicate SortedBy(s: seq<Entry>, tier: Entry -> int) {
    forall i, j :: 0 <= i < j < |s| ==> tier(s[i]) <= tier(s[j])
  }

  lemma {:induction false} InsertMembers(sorted: seq<Entry>, e: Entry, tier: Entry -> int)
    ensures multiset(InsertByTier(sorted, e, tier)) == multiset(sorted) + multiset{e}
    ensures forall x :: x in InsertByTier(sorted, e, tier) <==> x in sorted || x == e
  {
    if !(|sorted| == 0 || tier(sorted[|sorted| - 1]) <= tier(e)) {
      var front, last := sorted[..|sorted| - 1], sorted[|sorted| - 1];
      assert sorted == front + [last];
      InsertMembers(front, e, tier);
    }
  }

  lemma {:induction false} InsertSorts(sorted: seq<Entry>, e: Entry, tier: Entry -> int)
    requires SortedBy(sorted, tier)
    ensures SortedBy(InsertByTier(sorted, e, tier), tier)
  {
    if !(|sorted| == 0 || tier(sorted[|sorted| - 1]) <= tier(e)) {
      var front, last := sorted[..|sorted| - 1], sorted[|sorted| - 1];
      InsertSorts(front, e, tier);
      InsertMembers(front, e, tier);
      var r := InsertByTier(front, e, tier);
      forall i | 0 <= i < |r|
        ensures tier(r[i]) <= tier(last)
      {
        assert r[i] in r;
      }
    }
  }

  lemma {:induction false} InsertFilter(sorted: seq<Entry>, e: Entry, tier: Entry -> int, p: Entry -> bool)
    ensures !p(e) ==> Filter(p, InsertByTier(sorted, e, tier)) == Filter(p, sorted)
    ensures p(e) && (forall x :: x in sorted && p(x) ==> tier(x) <= tier(e)) ==>
              Filter(p, InsertByTier(sorted, e, tier)) == Filter(p, sorted) + [e]
  {
    if |sorted| == 0 || tier(sorted[|sorted| - 1]) <= tier(e) {
      assert (sorted + [e])[..|sorted|] == sorted;
    } else {
      var front, last := sorted[..|sorted| - 1], sorted[|sorted| - 1];
      InsertFilter(front, e, tier, p);
      var r := InsertByTier(front, e, tier);
      assert (r + [last])[..|r|] == r;
      assert last in sorted && forall x :: x in front ==> x in sorted;
    }
  }

  /** The sort orders by tier, neither loses nor repeats an entry, and keeps registry order within a tier. */
  lemma {:induction false} SortByTierCorrect(s: seq<Entry>, tier: Entry -> int, t: int)
    ensures SortedBy(SortByTier(s, tier), tier)
    ensures multiset(SortByTier(s, tier)) == multiset(s)
    ensures Filter((e: Entry) => tier(e) == t, SortByTier(s, tier)) == Filter((e: Entry) => tier(e) == t, s)
  {
    if |s| > 0 {
      var front, last := s[..|s| - 1], s[|s| - 1];
      assert s == front + [last];
      SortByTierCorrect(front, tier, t);
      InsertSorts(SortByTier(front, tier), last, tier);
      InsertMembers(SortByTier(front, tier), last, tier);
      InsertFilter(SortByTier(front, tier), last, tier, (e: Entry) => tier(e) == t);
    }
  }

  lemma {:induction false} FilterUnique(reg: Registry, p: Entry -> bool)
    requires UniqueTables(reg)
    ensures UniqueTables(Filter(p, reg))
    ensures forall e :: e in Filter(p, reg) <==> e in reg && p(e)
  {
    if |reg| > 0 {
      var front := reg[..|reg| - 1];
      assert reg == front + [reg[|reg| - 1]];
      FilterUnique(front, p);
      forall e | e in Filter(p, front)
        ensures e.table != reg[|reg| - 1].table
      {
        var k :| 0 <= k < |front| && front[k] == e;
        assert reg[k] == e;
      }
    }
  }

  lemma {:induction false} SortUnique(s: seq<Entry>, tier: Entry -> int)
    requires UniqueTables(s)
    ensures UniqueTables(SortByTier(s, tier))
  {
    if |s| > 0 {
      var front, last := s[..|s| - 1], s[|s| - 1];
      SortUnique(front, tier);
      SortByTierCorrect(front, tier, 0);
      forall e | e in SortByTier(front, tier)
        ensures e.table != last.table
      {
        assert e in multiset(front);
        var k :| 0 <= k < |front| && front[k] == e;
        assert s[k] == e;
      }
      InsertUnique(SortByTier(front, tier), last, tier);
    }
  }

  lemma {:induction false} InsertUnique(sorted: seq<Entry>, e: Entry, tier: Entry -> int)
    requires UniqueTables(sorted) && forall x :: x in sorted ==> x.table != e.table
    ensures UniqueTables(InsertByTier(sorted, e, tier))
  {
    if !(|sorted| == 0 || tier(sorted[|sorted| - 1]) <= tier(e)) {
      var front, last := sorted[..|sorted| - 1], sorted[|sorted| - 1];
      assert sorted == front + [last];
      InsertUnique(front, e, tier);
      InsertMembers(front, e, tier);
      assert forall x :: x in front ==> x.table != last.table;
    }
  }

  /** The delete order visits exactly the registered tables of the selection, each once, by tier. */
  lemma DeleteOrderCorrect(reg: Registry, names: set<string>)
    requires UniqueTables(reg)
    ensures UniqueTables(DeleteOrder(reg, names))
    ensures forall e :: e in DeleteOrder(reg, names) <==> e in reg && e.table in names
    ensures forall i, j :: 0 <= i < j < |DeleteOrder(reg, names)| ==>
              DeleteOrder(reg, names)[i].deleteTier <= DeleteOrder(reg, names)[j].deleteTier
  {
    var kept := Filter((e: Entry) => e.table in names, reg);
    var tier := (e: Entry) => e.deleteTier;
    FilterUnique(reg, (e: Entry) => e.table in names);
    SortUnique(kept, tier);
    SortByTierCorrect(kept, tier, 0);
    forall e
      ensures e in DeleteOrder(reg, names) <==> e in kept
    {
      assert e in DeleteOrder(reg, names) <==> e in multiset(DeleteOrder(reg, names));
      assert e in kept <==> e in multiset(kept);
    }
  }

  // ---- Closure -----------------------------------------------------------------------------------

  predicate ReferencesInto(e: Entry, tables: set<string>) {
    exists x :: 0 <= x < |e.fkEdges| && e.fkEdges[x].refTable in tables
  }

  /** Every table that references the set is in the set. */
  predicate ChildClosed(reg: Registry, tables: set<string>) {
    forall i :: 0 <= i < |reg| && ReferencesInto(reg[i], tables) ==> reg[i].table in tables
  }

  /** Adding a table that references the set stays within every closed superset. */
  lemma ChildBelongs(reg: Registry, base: set<string>, tables: set<string>, i: nat)
    requires i < |reg| && ReferencesInto(reg[i], tables)
    requires forall closed :: base <= closed && ChildClosed(reg, closed) ==> tables <= closed
    ensures forall closed :: base <= closed && ChildClosed(reg, closed) ==> tables + {reg[i].table} <= closed
  {
    forall closed | base <= closed && ChildClosed(reg, closed)
      ensures reg[i].table in closed
    {
      var x :| 0 <= x < |reg[i].fkEdges| && reg[i].fkEdges[x].refTable in tables;
      assert ReferencesInto(reg[i], closed);
    }
  }

  /** One round over the registry, adding tables that reference the set so far. */
  method ClosureRound(reg: Registry, base: set<string>, tables: set<string>) returns (next: set<string>)
    requires base <= tables && forall t :: t in tables - base ==> Registered(reg, t)
    requires forall closed :: base <= closed && ChildClosed(reg, closed) ==> tables <= closed
    ensures tables <= next && forall t :: t in next - base ==> Registered(reg, t)
    ensures forall closed :: base <= closed && ChildClosed(reg, closed) ==> next <= closed
    ensures next == tables ==> ChildClosed(reg, tables)
  {
    next := tables;
    for i := 0 to |reg|
      invariant tables <= next
      invariant forall t :: t in next - base ==> Registered(reg, t)
      invariant forall closed :: base <= closed && ChildClosed(reg, closed) ==> next <= closed
      invariant next == tables ==> forall k :: 0 <= k < i && ReferencesInto(reg[k], tables) ==> reg[k].table in tables
    {
      if reg[i].table !in next && ReferencesInto(reg[i], next) {
        ChildBelongs(reg, base, next, i);
        next := next + {reg[i].table};
        assert next != tables;
      }
    }
  }

  /** Least set that contains the selection and every table referencing it, by rounds to a fixpoint. */
  method ComputeChildClosure(reg: Registry, base: set<string>) returns (result: set<string>)
    ensures base <= result && ChildClosed(reg, result)
    ensures forall closed :: base <= closed && ChildClosed(reg, closed) ==> result <= closed
    ensures forall t :: t in result - base ==> Registered(reg, t)
  {
    result := base;
    ghost var all := base + set e | e in reg :: e.table;
    var changed := true;
    while changed
      invariant base <= result <= all
      invariant forall t :: t in result - base ==> Registered(reg, t)
      invariant forall closed :: base <= closed && ChildClosed(reg, closed) ==> result <= closed
      invariant !changed ==> ChildClosed(reg, result)
      decreases all - result, changed
    {
      var next := ClosureRound(reg, base, result);
      forall t | t in next
        ensures t in all
      {
        if t !in base {
          var i :| 0 <= i < |reg| && reg[i].table == t;
          assert reg[i] in reg;
        }
      }
      changed := next != result;
      assert changed ==> all - next < all - result by {
        if changed {
          var t :| t in next && t !in result;
          assert t in all - result && t !in all - next;
        }
      }
      result := next;
    }
  }
}

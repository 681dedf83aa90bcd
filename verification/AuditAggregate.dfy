/**
 Audit statistics two ways: a grouped query reduced to totals (database and demo mode) and a single pass
 over the records (file mode).
 */
module AuditAggregate {
  import opened Common
  import opened AuditFile

  /** The columns the statistics look at; `id` stands for all the others. */
  datatype Record = Record(id: int, category: Option<string>, userId: Option<int>, responseMs: Option<int>)

  const CATEGORIES: set<string> := {"2xx", "3xx", "4xx", "5xx"}

  function CategoryOf(r: Record): string { Trim(if r.category.Some? then r.category.value else "") }

  function ResponseOf(r: Record): int { if r.responseMs.Some? then r.responseMs.value else 0 }

  function TotalResponse(records: seq<Record>): int {
    if |records| == 0 then 0 else TotalResponse(records[..|records| - 1]) + ResponseOf(records[|records| - 1])
  }

  function InCategory(c: string, records: seq<Record>): nat { CountIf((r: Record) => CategoryOf(r) == c, records) }

  datatype Stats = Stats(total: nat, totalRespTime: int, buckets: map<string, nat>)

  /** The statistics of a list of records, by definition. */
  function StatsOf(records: seq<Record>): Stats {
    Stats(|records|, TotalResponse(records), map c | c in CATEGORIES :: InCategory(c, records))
  }

  /** One more record counts once, adds its response time if it has one, and falls in the bucket of its trimmed category. */
  lemma StatsExtend(records: seq<Record>, r: Record)
    ensures var was, now := StatsOf(records), StatsOf(records + [r]);
            && now.total == was.total + 1
            && now.totalRespTime == was.totalRespTime + (match r.responseMs case Some(ms) => ms case None => 0)
            && now.buckets.Keys == was.buckets.Keys == {"2xx", "3xx", "4xx", "5xx"}
            && forall c :: c in was.buckets ==>
                 now.buckets[c] == was.buckets[c] + if r.category.Some? && Trim(r.category.value) == c then 1 else 0
    ensures StatsOf([]) == Stats(0, 0, map["2xx" := 0, "3xx" := 0, "4xx" := 0, "5xx" := 0])
  {
    var all := records + [r];
    assert all[..|records|] == records;
    assert Trim("") == "";
  }

  function EmptyBuckets(): map<string, nat> { map c | c in CATEGORIES :: 0 }

  // ---- Single pass ----------------------------------------------------------------------------

  method SinglePass(records: seq<Record>) returns (stats: Stats)
    ensures stats == StatsOf(records)
  {
    var buckets := EmptyBuckets();
    var totalRespTime := 0;
    for i := 0 to |records|
      invariant buckets.Keys == CATEGORIES
      invariant forall c :: c in CATEGORIES ==> buckets[c] == InCategory(c, records[..i])
      invariant totalRespTime == TotalResponse(records[..i])
    {
      forall c
        ensures InCategory(c, records[..i + 1])
                == InCategory(c, records[..i]) + if CategoryOf(records[i]) == c then 1 else 0
      {
        CountIfStep((r: Record) => CategoryOf(r) == c, records, i);
      }
      assert records[..i + 1][..i] == records[..i];
      var cat := CategoryOf(records[i]);
      if cat in buckets {
        buckets := buckets[cat := buckets[cat] + 1];
      }
      totalRespTime := totalRespTime + ResponseOf(records[i]);
    }
    assert records[..|records|] == records;
    stats := Stats(|records|, totalRespTime, buckets);
  }

  // ---- Grouped --------------------------------------------------------------------------------

  /** One row of the grouped query; the sum of no values is NULL. */
  datatype Group = Group(category: Option<string>, cnt: nat, respTime: Option<int>)

  function RespOf(g: Group): int { if g.respTime.Some? then g.respTime.value else 0 }

  function GroupCategory(g: Group): string { Trim(if g.category.Some? then g.category.value else "") }

  function CntSum(groups: seq<Group>): nat {
    if |groups| == 0 then 0 else CntSum(groups[..|groups| - 1]) + groups[|groups| - 1].cnt
  }

  function RespSum(groups: seq<Group>): int {
    if |groups| == 0 then 0 else RespSum(groups[..|groups| - 1]) + RespOf(groups[|groups| - 1])
  }

  function BucketSum(c: string, groups: seq<Group>): nat {
    if |groups| == 0 then 0
    else BucketSum(c, groups[..|groups| - 1]) + if GroupCategory(groups[|groups| - 1]) == c then groups[|groups| - 1].cnt else 0
  }

  lemma GroupStep(groups: seq<Group>, i: nat, c: string)
    requires i < |groups|
    ensures CntSum(groups[..i + 1]) == CntSum(groups[..i]) + groups[i].cnt
    ensures RespSum(groups[..i + 1]) == RespSum(groups[..i]) + RespOf(groups[i])
    ensures BucketSum(c, groups[..i + 1]) == BucketSum(c, groups[..i]) + if GroupCategory(groups[i]) == c then groups[i].cnt else 0
  {
    assert groups[..i + 1][..i] == groups[..i];
  }

  /** The statistics of a list of group rows. */
  function ReducedStats(groups: seq<Group>): Stats {
    Stats(CntSum(groups), RespSum(groups), map c | c in CATEGORIES :: BucketSum(c, groups))
  }

  /** One more group row counts its records, adds its sum if it has one, and falls in the bucket of its trimmed category. */
  lemma ReducedExtend(groups: seq<Group>, g: Group)
    ensures var was, now := ReducedStats(groups), ReducedStats(groups + [g]);
            && now.total == was.total + g.cnt
            && now.totalRespTime == was.totalRespTime + (match g.respTime case Some(ms) => ms case None => 0)
            && now.buckets.Keys == was.buckets.Keys == {"2xx", "3xx", "4xx", "5xx"}
            && forall c :: c in was.buckets ==>
                 now.buckets[c] == was.buckets[c] + if g.category.Some? && Trim(g.category.value) == c then g.cnt else 0
    ensures ReducedStats([]) == Stats(0, 0, map["2xx" := 0, "3xx" := 0, "4xx" := 0, "5xx" := 0])
  {
    var all := groups + [g];
    assert all[..|groups|] == groups;
    assert Trim("") == "";
  }

  method ReduceCategoryGroups(groups: seq<Group>) returns (stats: Stats)
    ensures stats == ReducedStats(groups)
  {
    var buckets := EmptyBuckets();
    var total, totalRespTime := 0, 0;
    for i := 0 to |groups|
      invariant buckets.Keys == CATEGORIES
      invariant forall c :: c in CATEGORIES ==> buckets[c] == BucketSum(c, groups[..i])
      invariant total == CntSum(groups[..i]) && totalRespTime == RespSum(groups[..i])
    {
      GroupStep(groups, i, "");
      forall c
        ensures BucketSum(c, groups[..i + 1])
                == BucketSum(c, groups[..i]) + if GroupCategory(groups[i]) == c then groups[i].cnt else 0
      {
        GroupStep(groups, i, c);
      }
      total := total + groups[i].cnt;
      totalRespTime := totalRespTime + RespOf(groups[i]);
      var cat := GroupCategory(groups[i]);
      if cat in buckets {
        buckets := buckets[cat := buckets[cat] + groups[i].cnt];
      }
    }
    assert groups[..|groups|] == groups;
    stats := Stats(total, totalRespTime, buckets);
  }

  // ---- Any grouping agrees --------------------------------------------------------------------

  /**
   A grouping: the records dealt out into parts, in any order, each part holding one category, and one
   group row per part. Grouping by the stored category, or by the stored category with NULL read as
   empty, are both of this kind.
   */
  ghost predicate Groups(groups: seq<Group>, parts: seq<seq<Record>>, records: seq<Record>) {
    && |groups| == |parts|
    && multiset(Flatten(parts)) == multiset(records)
    && forall i :: 0 <= i < |parts| ==> GroupOf(groups[i], parts[i])
  }

  predicate GroupOf(g: Group, part: seq<Record>) {
    && g.cnt == |part| && RespOf(g) == TotalResponse(part)
    && forall k :: 0 <= k < |part| ==> CategoryOf(part[k]) == GroupCategory(g)
  }

  lemma {:induction false} ResponseConcat(a: seq<Record>, b: seq<Record>)
    ensures TotalResponse(a + b) == TotalResponse(a) + TotalResponse(b)
  {
    if |b| == 0 {
      assert a + b == a;
    } else {
      assert (a + b)[..|a + b| - 1] == a + b[..|b| - 1];
      ResponseConcat(a, b[..|b| - 1]);
    }
  }

  lemma {:induction false} CountAll(c: string, part: seq<Record>, all: bool)
    requires forall k :: 0 <= k < |part| ==> (CategoryOf(part[k]) == c) == all
    ensures InCategory(c, part) == if all then |part| else 0
  {
    if |part| > 0 {
      CountAll(c, part[..|part| - 1], all);
    }
  }

  /** Summing the groups counts the parts they stand for. */
  lemma {:induction false} GroupsCountParts(groups: seq<Group>, parts: seq<seq<Record>>, c: string)
    requires |groups| == |parts| && forall i :: 0 <= i < |parts| ==> GroupOf(groups[i], parts[i])
    ensures CntSum(groups) == |Flatten(parts)|
    ensures RespSum(groups) == TotalResponse(Flatten(parts))
    ensures BucketSum(c, groups) == InCategory(c, Flatten(parts))
  {
    if |parts| > 0 {
      var last := |parts| - 1;
      GroupsCountParts(groups[..last], parts[..last], c);
      ResponseConcat(Flatten(parts[..last]), parts[last]);
      CountIfConcat((r: Record) => CategoryOf(r) == c, Flatten(parts[..last]), parts[last]);
      CountAll(c, parts[last], GroupCategory(groups[last]) == c);
    }
  }

  lemma SameRest(front: seq<Record>, x: Record, before: seq<Record>, after: seq<Record>)
    requires multiset(front + [x]) == multiset(before + [x] + after)
    ensures multiset(front) == multiset(before + after)
  {
    assert multiset(front) == multiset(front + [x]) - multiset{x};
    assert multiset(before + after) == multiset(before + [x] + after) - multiset{x};
  }

  /** The order of the records does not matter. */
  lemma {:induction false} OrderIrrelevant(a: seq<Record>, b: seq<Record>, c: string)
    requires multiset(a) == multiset(b)
    ensures |a| == |b| && TotalResponse(a) == TotalResponse(b) && InCategory(c, a) == InCategory(c, b)
  {
    assert |multiset(a)| == |multiset(b)|;
    if |a| > 0 {
      var front, last := a[..|a| - 1], a[|a| - 1];
      assert a == front + [last];
      assert last in multiset(b);
      var j :| 0 <= j < |b| && b[j] == last;
      var before, after := b[..j], b[j + 1..];
      assert b == before + [last] + after;
      SameRest(front, last, before, after);
      OrderIrrelevant(front, before + after, c);
      SplitOff(before, last, after, c);
    }
  }

  lemma SplitOff(before: seq<Record>, x: Record, after: seq<Record>, c: string)
    ensures TotalResponse(before + [x] + after) == TotalResponse(before + after) + ResponseOf(x)
    ensures InCategory(c, before + [x] + after) == InCategory(c, before + after) + if CategoryOf(x) == c then 1 else 0
  {
    var p := (r: Record) => CategoryOf(r) == c;
    ResponseConcat(before + [x], after);
    ResponseConcat(before, [x]);
    ResponseConcat(before, after);
    CountIfConcat(p, before + [x], after);
    CountIfConcat(p, before, [x]);
    CountIfConcat(p, before, after);
    assert [x][..0] == [];
  }

  /** Every grouping of the records reduces to the statistics of the single pass. */
  lemma GroupingAgrees(groups: seq<Group>, parts: seq<seq<Record>>, records: seq<Record>)
    requires Groups(groups, parts, records)
    ensures ReducedStats(groups) == StatsOf(records)
  {
    GroupsCountParts(groups, parts, "");
    OrderIrrelevant(Flatten(parts), records, "");
    forall c
      ensures BucketSum(c, groups) == InCategory(c, records)
    {
      GroupsCountParts(groups, parts, c);
      OrderIrrelevant(Flatten(parts), records, c);
    }
  }

  /** What no bucket takes is the uncategorised rest: the total never falls below the four buckets. */
  lemma {:induction false} TotalReconciles(records: seq<Record>)
    ensures var b := StatsOf(records).buckets;
            StatsOf(records).total == b["2xx"] + b["3xx"] + b["4xx"] + b["5xx"]
                                      + CountIf((r: Record) => CategoryOf(r) !in CATEGORIES, records)
  {
    if |records| > 0 {
      TotalReconciles(records[..|records| - 1]);
    }
  }

  /** `Math.round` of the mean: the nearest whole number, halves upwards. */
  function RoundedAverage(stats: Stats): (r: int)
    ensures stats.total > 0 ==>
              var mean := stats.totalRespTime as real / stats.total as real;
              r as real - 0.5 <= mean < r as real + 0.5
    ensures stats.total == 0 ==> r == 0
  {
    if stats.total > 0 then (stats.totalRespTime as real / stats.total as real + 0.5).Floor else 0
  }

  // ---- Unique users ---------------------------------------------------------------------------

  /** A filter by its parts: an optional `$or` clause, an optional USER_ID condition, and the rest. */
  datatype Filter = Filter(anyOf: Option<Record -> bool>, user: Option<Option<int> -> bool>, rest: Record -> bool)

  predicate Matches(f: Filter, r: Record) {
    && (f.anyOf.Some? ==> f.anyOf.value(r))
    && (f.user.Some? ==> f.user.value(r.userId))
    && f.rest(r)
  }

  predicate KnownUser(r: Record) { r.userId.Some? && r.userId.value > 0 }

  /** File mode: users among the matching records. */
  function FileUsers(f: Filter, records: seq<Record>): set<int> {
    set r | r in records && Matches(f, r) && KnownUser(r) :: r.userId.value
  }

  /** The query drops `$or` and puts its own condition in place of any on USER_ID. */
  function QueryUsers(f: Filter, records: seq<Record>): set<int> {
    set r | r in records && f.rest(r) && KnownUser(r) :: r.userId.value
  }

  /** The dropped clauses ask for nothing the rest does not already imply. */
  ghost predicate DroppedImplied(f: Filter) {
    forall r: Record :: f.rest(r) && KnownUser(r) ==> Matches(f, r)
  }

  /** The query never reports fewer users, and the two counts agree on every list exactly when the dropped clauses are implied. */
  lemma UniqueUsersExact(f: Filter)
    ensures forall records :: |FileUsers(f, records)| <= |QueryUsers(f, records)|
    ensures (forall records :: |FileUsers(f, records)| == |QueryUsers(f, records)|) <==> DroppedImplied(f)
  {
    forall records
      ensures |FileUsers(f, records)| <= |QueryUsers(f, records)|
      ensures DroppedImplied(f) ==> |FileUsers(f, records)| == |QueryUsers(f, records)|
    {
      assert FileUsers(f, records) <= QueryUsers(f, records);
      SubsetSize(FileUsers(f, records), QueryUsers(f, records));
      if DroppedImplied(f) {
        assert FileUsers(f, records) == QueryUsers(f, records);
      }
    }
    if !DroppedImplied(f) {
      var r: Record :| f.rest(r) && KnownUser(r) && !Matches(f, r);
      assert FileUsers(f, [r]) == {};
      assert r in [r] && r.userId.value in QueryUsers(f, [r]);
      assert |FileUsers(f, [r])| != |QueryUsers(f, [r])|;
    }
  }

  lemma {:induction false} SubsetSize(a: set<int>, b: set<int>)
    requires a <= b
    ensures |a| <= |b|
  {
    assert b == a + (b - a);
  }

  /** Without `$or` and without a USER_ID condition the two always agree. */
  lemma PlainFilterAgrees(f: Filter, records: seq<Record>)
    requires f.anyOf.None? && f.user.None?
    ensures |FileUsers(f, records)| == |QueryUsers(f, records)|
  {
    UniqueUsersExact(f);
  }

  /** The rest of the filter says nothing of the user: its clauses are on other columns. */
  ghost predicate IgnoresUser(rest: Record -> bool) {
    forall r: Record, user {:trigger r.(userId := user)} :: rest(r.(userId := user)) == rest(r)
  }

  ghost predicate AdmitsEveryUser(user: Option<Option<int> -> bool>) {
    user.None? || forall id :: id > 0 ==> user.value(Some(id))
  }

  /**
   Without `$or`, and with its other clauses on other columns, the two counts agree on every list exactly when
   the USER_ID condition turns no user away or the other clauses match nothing at all.
   */
  lemma UserConditionExact(f: Filter)
    requires f.anyOf.None? && IgnoresUser(f.rest)
    ensures (forall records :: |FileUsers(f, records)| == |QueryUsers(f, records)|)
            <==> AdmitsEveryUser(f.user) || forall r :: !f.rest(r)
  {
    UniqueUsersExact(f);
    if !AdmitsEveryUser(f.user) && exists r :: f.rest(r) {
      var r :| f.rest(r);
      var id :| id > 0 && !f.user.value(Some(id));
      var refused := r.(userId := Some(id));
      assert f.rest(refused) && KnownUser(refused) && !Matches(f, refused);
      assert !DroppedImplied(f);
    }
  }

  /** A filter on one user suffices to part them, even with no `$or`. */
  lemma UserFilterParts()
    ensures var f := Filter(None, Some((u: Option<int>) => u == Some(5)), (r: Record) => true);
            var records := [Record(1, None, Some(5), None), Record(2, None, Some(7), None)];
            FileUsers(f, records) == {5} && QueryUsers(f, records) == {5, 7}
  {
    var f := Filter(None, Some((u: Option<int>) => u == Some(5)), (r: Record) => true);
    var first, second := Record(1, None, Some(5), None), Record(2, None, Some(7), None);
    var records := [first, second];
    assert first in records && second in records;
    assert forall r :: r in records <==> r == first || r == second;
    assert 5 in FileUsers(f, records) && 5 in QueryUsers(f, records) && 7 in QueryUsers(f, records);
  }
}

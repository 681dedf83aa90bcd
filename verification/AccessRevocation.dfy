/**
 Access-token revocation on one process: the bounded in-memory set of ended session families,
 and the service calls that fill it on a revocation and at boot.
 */
module AccessRevocation {
  import opened Common
  import opened SessionLedger

  const CLOCK_SKEW_MS := 60_000
  const FALLBACK_TTL_MS := 7 * 86_400_000
  const MAX_TTL_MS := 366 * 86_400_000
  const MAX_FIDS_PER_MESSAGE := 1000
  const BOOT_LOAD_LIMIT := 200_000
  const SWEEP_MIN_GAP_MS := 1000

  /** Ended family -> time after which the entry may be forgotten. */
  type Entries = map<string, int>

  predicate Refused(entries: Entries, family: string, now: int) {
    family in entries && now < entries[family]
  }

  /** Re-revoking keeps the later time. */
  function Remember(entries: Entries, family: string, until: int): Entries {
    if family in entries && until <= entries[family] then entries else entries[family := until]
  }

  function RememberAll(entries: Entries, list: seq<(string, int)>): Entries {
    if |list| == 0 then entries
    else Remember(RememberAll(entries, list[..|list| - 1]), list[|list| - 1].0, list[|list| - 1].1)
  }

  /** How long an ended family is remembered; `None` is an access-token lifetime that does not parse. */
  function Retention(ttl: Option<int>): int {
    match ttl
    case None => FALLBACK_TTL_MS + CLOCK_SKEW_MS
    case Some(ms) => Min(ms + CLOCK_SKEW_MS, MAX_TTL_MS)
  }

  function Expiry(issued: int, ttl: int): int { issued + ttl }

  /** Every access token of the family issued by `at` is refused from `at` until it expires. */
  ghost predicate CoversAllTokens(entries: Entries, family: string, at: int, ttl: int) {
    forall issued, now {:trigger Expiry(issued, ttl), Refused(entries, family, now)} ::
      issued <= at <= now < Expiry(issued, ttl) ==> Refused(entries, family, now)
  }

  /** The retention covers every access token exactly when the lifetime is within it: for a lifetime that parses, at most a leap year. */
  lemma RetentionExact(ttl: int, parsed: Option<int>, family: string, at: int)
    requires ttl > 0
    ensures CoversAllTokens(Remember(map[], family, at + Retention(parsed)), family, at, ttl) <==> ttl <= Retention(parsed)
    ensures parsed == Some(ttl) ==> (ttl <= Retention(parsed) <==> ttl <= MAX_TTL_MS)
    ensures parsed == None ==> (ttl <= Retention(parsed) <==> ttl <= 7 * 86_400_000 + 60_000)
  {
    var entries := Remember(map[], family, at + Retention(parsed));
    if Retention(parsed) < ttl {
      var now := Max(at, at + Retention(parsed));
      assert now < Expiry(at, ttl);
      assert !Refused(entries, family, now);
    }
  }

  class RevokedSessionSet {
    var entries: Entries
    const maxEntries: nat
    var lastSweep: Option<int>

    constructor (maxEntries: nat)
      ensures entries == map[] && this.maxEntries == maxEntries && lastSweep == None
    {
      entries := map[];
      this.maxEntries := maxEntries;
      lastSweep := None;
    }

    /** Drops expired entries, at most once a second. */
    method SweepExpired(now: int)
      modifies this
      ensures forall f :: f in entries ==> f in old(entries) && entries[f] == old(entries)[f]
      ensures forall f :: f in old(entries) && f !in entries ==> old(entries)[f] <= now
      ensures old(lastSweep).None? || now - old(lastSweep).value >= SWEEP_MIN_GAP_MS ==>
                forall f :: f in entries ==> now < entries[f]
    {
      if lastSweep.None? || now - lastSweep.value >= SWEEP_MIN_GAP_MS {
        lastSweep := Some(now);
        var pending := entries.Keys;
        while pending != {}
          invariant pending <= old(entries).Keys
          invariant forall f :: f in entries ==> f in old(entries) && entries[f] == old(entries)[f]
          invariant forall f :: f in old(entries) && f !in entries ==> old(entries)[f] <= now && f !in pending
          invariant forall f :: f in entries && f !in pending ==> now < entries[f]
          decreases pending
        {
          var f :| f in pending;
          if entries[f] <= now {
            entries := entries - {f};
          }
          pending := pending - {f};
        }
      }
    }

    /** Makes room in a full set: expired entries first, else one soonest-expiring entry. */
    method MakeRoom(now: int) returns (dropped: bool)
      modifies this
      ensures forall f :: f in entries ==> f in old(entries) && entries[f] == old(entries)[f]
      ensures forall f :: f in old(entries) && f !in entries && now < old(entries)[f] ==>
                dropped && forall g :: g in entries ==> old(entries)[f] <= entries[g]
      ensures dropped ==> exists f :: f in old(entries) && f !in entries && now < old(entries)[f]
      ensures dropped ==> |entries| + 1 >= maxEntries
      ensures |entries| < maxEntries || |entries| <= |old(entries)| - 1 || entries == map[]
    {
      SweepExpired(now);
      dropped := false;
      if |entries| >= maxEntries && entries != map[] {
        ghost var swept := entries;
        var pending := entries.Keys;
        var soonest :| soonest in pending;
        pending := pending - {soonest};
        while pending != {}
          invariant soonest in entries && pending <= entries.Keys
          invariant forall f :: f in entries && f !in pending ==> entries[soonest] <= entries[f]
          decreases pending
        {
          var f :| f in pending;
          if entries[f] < entries[soonest] {
            soonest := f;
          }
          pending := pending - {f};
        }
        dropped := now < entries[soonest];
        SubMapSize(old(entries), entries);
        entries := entries - {soonest};
        assert soonest in swept && entries.Keys == swept.Keys - {soonest};
        assert |entries.Keys| == |swept.Keys| - 1;
      }
    }

    method Revoke(family: string, until: int, now: int) returns (added: bool, dropped: bool)
      modifies this
      ensures added <==> family != "" && family !in old(entries)
      ensures !added ==> !dropped && entries == if family == "" then old(entries) else Remember(old(entries), family, until)
      ensures added && |old(entries)| < maxEntries ==> !dropped && entries == Remember(old(entries), family, until)
      ensures added ==> family in entries && entries[family] == until
      ensures forall f :: f in entries && f != family ==> f in old(entries) && entries[f] == old(entries)[f]
      ensures forall f :: f in old(entries) && f !in entries && now < old(entries)[f] ==>
                dropped && forall g :: g in entries && g != family ==> old(entries)[f] <= entries[g]
      ensures |old(entries)| <= Max(1, maxEntries) ==> |entries| <= Max(1, maxEntries)
    {
      added, dropped := false, false;
      if family != "" {
        if family in entries {
          if until > entries[family] {
            entries := entries[family := until];
            assert entries.Keys == old(entries).Keys;
          }
        } else {
          if |entries| >= maxEntries {
            dropped := MakeRoom(now);
          }
          assert family !in entries;
          entries := entries[family := until];
          added := true;
        }
      }
    }

    /** A lookup also forgets an entry whose time has come. */
    method Has(family: string, now: int) returns (live: bool)
      modifies this
      ensures live <==> Refused(old(entries), family, now)
      ensures entries == if family in old(entries) && !live then old(entries) - {family} else old(entries)
    {
      live := false;
      if family in entries {
        if entries[family] <= now {
          entries := entries - {family};
        } else {
          live := true;
        }
      }
    }
  }

  lemma SubMapSize(big: Entries, small: Entries)
    requires small.Keys <= big.Keys
    ensures |small| <= |big|
  {
    assert |small.Keys| <= |big.Keys| by {
      assert big.Keys == small.Keys + (big.Keys - small.Keys);
    }
  }

  // ---- The service --------------------------------------------------------------------

  predicate IsHexDigit(c: char) { '0' <= c <= '9' || 'a' <= c <= 'f' || 'A' <= c <= 'F' }

  /** 8-4-4-4-12 hexadecimal digits. */
  predicate IsFamilyId(s: string) {
    && |s| == 36
    && forall i :: 0 <= i < 36 ==> if i in {8, 13, 18, 23} then s[i] == '-' else IsHexDigit(s[i])
  }

  /** Five groups of hexadecimal digits between dashes, and nothing else. */
  lemma FamilyIdShape(s: string)
    ensures IsFamilyId(s) <==>
            && |s| == 36 && s[8] == s[13] == s[18] == s[23] == '-'
            && forall c :: c in s[..8] + s[9..13] + s[14..18] + s[19..23] + s[24..] ==> c in "0123456789abcdefABCDEF"
  {
    forall c: char
      ensures IsHexDigit(c) <==> c in "0123456789abcdefABCDEF"
    {
      HexDigits(c);
    }
    if |s| == 36 {
      var digits := s[..8] + s[9..13] + s[14..18] + s[19..23] + s[24..];
      assert forall i :: 0 <= i < 36 && i !in {8, 13, 18, 23} ==> s[i] in digits;
    }
  }

  lemma HexDigits(c: char)
    ensures IsHexDigit(c) <==> c in "0123456789abcdefABCDEF"
  {
    var all := "0123456789abcdefABCDEF";
    assert forall k :: 0 <= k < 10 ==> all[k] as int == '0' as int + k;
    assert forall k :: 10 <= k < 16 ==> all[k] as int == 'a' as int + k - 10;
    assert forall k :: 16 <= k < 22 ==> all[k] as int == 'A' as int + k - 16;
    if '0' <= c <= '9' {
      assert all[c as int - '0' as int] == c;
    } else if 'a' <= c <= 'f' {
      assert all[c as int - 'a' as int + 10] == c;
    } else if 'A' <= c <= 'F' {
      assert all[c as int - 'A' as int + 16] == c;
    }
  }

  /** Splits the entries of one revocation into messages of bounded size, losing and reordering nothing. */
  method Chunks(entries: seq<(string, int)>) returns (messages: seq<seq<(string, int)>>)
    ensures Flatten(messages) == entries
    ensures forall m :: 0 <= m < |messages| ==> 0 < |messages[m]| <= MAX_FIDS_PER_MESSAGE
    ensures forall m :: 0 <= m < |messages| - 1 ==> |messages[m]| == MAX_FIDS_PER_MESSAGE
  {
    messages := [];
    var i := 0;
    while i < |entries|
      invariant 0 <= i
      invariant Flatten(messages) == entries[..Min(i, |entries|)]
      invariant forall m :: 0 <= m < |messages| ==> 0 < |messages[m]| <= MAX_FIDS_PER_MESSAGE
      invariant i <= |entries| ==> forall m :: 0 <= m < |messages| ==> |messages[m]| == MAX_FIDS_PER_MESSAGE
      invariant forall m :: 0 <= m < |messages| - 1 ==> |messages[m]| == MAX_FIDS_PER_MESSAGE
    {
      var end := Min(i + MAX_FIDS_PER_MESSAGE, |entries|);
      var chunk := entries[i..end];
      assert (messages + [chunk])[..|messages|] == messages;
      assert entries[..end] == entries[..i] + chunk;
      messages := messages + [chunk];
      i := i + MAX_FIDS_PER_MESSAGE;
    }
    assert entries[..|entries|] == entries;
  }

  /** What a restarted process knows after the boot reload of the ledger. */
  function Loaded(rows: seq<Row>, since: int, retention: int): Entries {
    map f | f in RecentFamilies(rows, since) && IsFamilyId(f) ::
      (if Latest(rows, f, since).Some? then Latest(rows, f, since).value else 0) + retention
  }

  /** Both sets of entries together; a family in both keeps the later time. */
  function Merged(a: Entries, b: Entries): Entries {
    map f | f in a.Keys + b.Keys :: if f in a && !(f in b && a[f] < b[f]) then a[f] else b[f]
  }

  /** Remembering a list into a set is remembering it alone and merging. */
  lemma {:induction false} RememberAllMerges(entries: Entries, list: seq<(string, int)>)
    ensures RememberAll(entries, list) == Merged(entries, RememberAll(map[], list))
  {
    if |list| == 0 {
      assert Merged(entries, map[]) == entries;
    } else {
      var front, last := list[..|list| - 1], list[|list| - 1];
      RememberAllMerges(entries, front);
      MergedRemembers(entries, RememberAll(map[], front), last.0, last.1);
    }
  }

  lemma MergedRemembers(a: Entries, b: Entries, family: string, until: int)
    ensures Remember(Merged(a, b), family, until) == Merged(a, Remember(b, family, until))
  {
    var left, right := Remember(Merged(a, b), family, until), Merged(a, Remember(b, family, until));
    assert left.Keys == right.Keys;
    assert forall f :: f in left ==> left[f] == right[f];
  }

  class AccessRevocationService {
    const revoked: RevokedSessionSet
    const retention: int

    constructor (ttl: Option<int>, maxEntries: nat)
      ensures retention == Retention(ttl) && revoked.entries == map[] && revoked.maxEntries == maxEntries
      ensures fresh(revoked)
    {
      retention := Retention(ttl);
      revoked := new RevokedSessionSet(maxEntries);
    }

    method ApplyLocal(list: seq<(string, int)>, now: int) returns (added: nat)
      requires forall k :: 0 <= k < |list| ==> list[k].0 != ""
      modifies revoked
      ensures |old(revoked.entries)| + |list| <= revoked.maxEntries ==>
                revoked.entries == RememberAll(old(revoked.entries), list)
                && |revoked.entries| == |old(revoked.entries)| + added
    {
      added := 0;
      ghost var before := revoked.entries;
      for i := 0 to |list|
        invariant added <= i
        invariant |before| + |list| <= revoked.maxEntries ==>
                    revoked.entries == RememberAll(before, list[..i]) && |revoked.entries| == |before| + added
      {
        assert list[..i + 1][..i] == list[..i];
        ghost var known := revoked.entries;
        var isNew, dropped := revoked.Revoke(list[i].0, list[i].1, now);
        if |before| + |list| <= revoked.maxEntries && !isNew {
          assert revoked.entries.Keys == known.Keys;
          assert |revoked.entries.Keys| == |known.Keys|;
        }
        if isNew {
          added := added + 1;
        }
      }
      assert list[..|list|] == list;
    }

    /** Ends the valid families of the list on this process, each once, with one common deadline. */
    method Revoke(families: seq<string>, now: int) returns (added: nat, messages: seq<seq<(string, int)>>)
      modifies revoked
      ensures |old(revoked.entries)| + |families| <= revoked.maxEntries ==>
                forall f :: f in families && IsFamilyId(f) ==>
                  f in revoked.entries && now + retention <= revoked.entries[f]
      ensures |old(revoked.entries)| + |families| <= revoked.maxEntries ==>
                forall f :: f in revoked.entries && !(f in families && IsFamilyId(f)) ==>
                  f in old(revoked.entries) && revoked.entries[f] == old(revoked.entries)[f]
      ensures forall p :: p in Flatten(messages) <==> p.0 in families && IsFamilyId(p.0) && p.1 == now + retention
    {
      var list: seq<(string, int)> := [];
      for i := 0 to |families|
        invariant |list| <= i
        invariant forall p :: p in list <==> p.0 in families[..i] && IsFamilyId(p.0) && p.1 == now + retention
      {
        assert families[..i + 1] == families[..i] + [families[i]];
        if IsFamilyId(families[i]) && (families[i], now + retention) !in list {
          list := list + [(families[i], now + retention)];
        }
      }
      assert families[..|families|] == families;
      forall k | 0 <= k < |list|
        ensures list[k].0 != ""
      {
        assert list[k] in list;
      }
      ghost var before := revoked.entries;
      added := ApplyLocal(list, now);
      forall f {
        RememberAllValue(before, list, f, now + retention);
      }
      forall f | f in families && IsFamilyId(f)
        ensures (f, now + retention) in list
      {
      }
      messages := Chunks(list);
    }

    /**
     Boot reload into whatever the set already holds: each family keeps the later time. A query that fails is
     swallowed and nothing is remembered.
     */
    method LoadRecent(ledger: LedgerStore, now: int, fails: bool) returns (added: nat)
      modifies revoked
      ensures fails ==> added == 0 && revoked.entries == old(revoked.entries)
      ensures !fails ==>
              var recent := |RecentFamilies(ledger.rows, now - retention)|;
              recent <= BOOT_LOAD_LIMIT && |old(revoked.entries)| + recent <= revoked.maxEntries ==>
                revoked.entries == Merged(old(revoked.entries), Loaded(ledger.rows, now - retention, retention))
                && |revoked.entries| == |old(revoked.entries)| + added
    {
      if fails {
        return 0;
      }
      ghost var before := revoked.entries;
      var since := now - retention;
      var found := ledger.FindRevokedSince(since, BOOT_LOAD_LIMIT);
      var list: seq<(string, int)> := [];
      for i := 0 to |found|
        invariant |list| <= i
        invariant forall k :: 0 <= k < |list| ==> IsFamilyId(list[k].0)
        invariant forall p :: p in list <==>
                    exists a :: 0 <= a < i && found[a].0 == p.0 && IsFamilyId(p.0) && p.1 == found[a].1 + retention
      {
        if IsFamilyId(found[i].0) {
          var p := (found[i].0, found[i].1 + retention);
          assert p.0 == found[i].0;
          list := list + [p];
        }
      }
      ghost var rows := ledger.rows;
      added := ApplyLocal(list, now);
      if |RecentFamilies(rows, since)| <= BOOT_LOAD_LIMIT {
        assert IsReloadList(list, found, retention);
        LoadedIsRemembered(rows, since, retention, found, list);
        RememberAllMerges(before, list);
      }
    }
  }

  /** All entries of the list carry one deadline: a listed family is remembered at least that long, the rest as before. */
  lemma {:induction false} RememberAllValue(entries: Entries, list: seq<(string, int)>, family: string, until: int)
    requires forall k :: 0 <= k < |list| ==> list[k].1 == until
    ensures (family, until) in list ==>
              family in RememberAll(entries, list) && until <= RememberAll(entries, list)[family]
    ensures (family, until) !in list ==>
              (family in RememberAll(entries, list) <==> family in entries)
              && (family in entries ==> RememberAll(entries, list)[family] == entries[family])
  {
    if |list| > 0 {
      var front := list[..|list| - 1];
      assert list == front + [list[|list| - 1]];
      RememberAllValue(entries, front, family, until);
    }
  }

  predicate Gives(entries: Entries, family: string, until: int) {
    family in entries && entries[family] == until
  }

  lemma SameEntries(a: Entries, b: Entries)
    requires forall f, until :: Gives(a, f, until) <==> Gives(b, f, until)
    ensures a == b
  {
    forall f
      ensures f in a <==> f in b
      ensures f in a && f in b ==> a[f] == b[f]
    {
      if f in a {
        assert Gives(a, f, a[f]);
      }
      if f in b {
        assert Gives(b, f, b[f]);
      }
    }
  }

  /** Remembering a list that gives each family one deadline, into an empty set, stores exactly the list. */
  lemma {:induction false} RememberConsistent(list: seq<(string, int)>)
    requires forall p, q :: p in list && q in list && p.0 == q.0 ==> p.1 == q.1
    ensures forall f, until :: (f, until) in list <==> Gives(RememberAll(map[], list), f, until)
  {
    if |list| > 0 {
      var front, last := list[..|list| - 1], list[|list| - 1];
      assert list == front + [last];
      RememberConsistent(front);
      var known := RememberAll(map[], front);
      if last.0 in known {
        assert Gives(known, last.0, known[last.0]);
      }
    }
  }

  /** The reload list: one entry for each valid family found, a retention after its latest revocation. */
  ghost predicate IsReloadList(list: seq<(string, int)>, found: seq<(string, int)>, retention: int) {
    forall p :: p in list <==>
      exists a :: 0 <= a < |found| && found[a].0 == p.0 && IsFamilyId(p.0) && p.1 == found[a].1 + retention
  }

  lemma ReloadListConsistent(list: seq<(string, int)>, found: seq<(string, int)>, retention: int)
    requires IsReloadList(list, found, retention)
    requires forall a, b :: 0 <= a < b < |found| ==> found[a].0 != found[b].0
    ensures forall p, q :: p in list && q in list && p.0 == q.0 ==> p.1 == q.1
  {
  }

  lemma ReloadListCovers(rows: seq<Row>, since: int, retention: int, found: seq<(string, int)>, list: seq<(string, int)>, family: string)
    requires forall a :: 0 <= a < |found| ==> Latest(rows, found[a].0, since) == Some(found[a].1)
    requires forall f :: f in RecentFamilies(rows, since) ==> exists a :: 0 <= a < |found| && found[a].0 == f
    requires IsReloadList(list, found, retention)
    ensures forall until :: (family, until) in list <==> Gives(Loaded(rows, since, retention), family, until)
  {
    var loaded := Loaded(rows, since, retention);
    LatestNeedsRecent(rows, family, since);
    forall until | (family, until) in list
      ensures Gives(loaded, family, until)
    {
      var p := (family, until);
      var a :| 0 <= a < |found| && found[a].0 == p.0 && IsFamilyId(p.0) && p.1 == found[a].1 + retention;
    }
    if family in loaded {
      var a :| 0 <= a < |found| && found[a].0 == family;
      var p := (family, found[a].1 + retention);
      assert found[a].0 == p.0;
      assert p in list;
    }
  }

  lemma LoadedIsRemembered(rows: seq<Row>, since: int, retention: int, found: seq<(string, int)>, list: seq<(string, int)>)
    requires forall a, b :: 0 <= a < b < |found| ==> found[a].0 != found[b].0
    requires forall a :: 0 <= a < |found| ==> Latest(rows, found[a].0, since) == Some(found[a].1)
    requires forall f :: f in RecentFamilies(rows, since) ==> exists a :: 0 <= a < |found| && found[a].0 == f
    requires IsReloadList(list, found, retention)
    ensures RememberAll(map[], list) == Loaded(rows, since, retention)
  {
    ReloadListConsistent(list, found, retention);
    RememberConsistent(list);
    forall f, until
      ensures (f, until) in list <==> Gives(Loaded(rows, since, retention), f, until)
    {
      ReloadListCovers(rows, since, retention, found, list, f);
    }
    SameEntries(RememberAll(map[], list), Loaded(rows, since, retention));
  }

  lemma LatestNeedsRecent(rows: seq<Row>, family: string, since: int)
    ensures Latest(rows, family, since).Some? <==> family in RecentFamilies(rows, since)
  {
    LatestIsMax(rows, family, since);
  }
}

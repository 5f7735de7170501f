/** The in-memory chain cache. */
module ChainCacheModel {
  import opened Names
  import opened ChainSpec

  predicate Older(entries: Entries, a: Name, b: Name)
    requires a in entries && b in entries
  {
    entries[a].validatedAt <= entries[b].validatedAt
  }

  ghost predicate InAgeOrder(entries: Entries, names: seq<Name>) {
    && (forall n | n in names :: n in entries)
    && (forall i, j | 0 <= i < j < |names| :: names[i] != names[j] && Older(entries, names[i], names[j]))
  }

  method Oldest(entries: Entries, pending: set<Name>) returns (n: Name)
    requires pending != {} && pending <= entries.Keys
    ensures n in pending && forall m | m in pending :: Older(entries, n, m)
  {
    n :| n in pending;
    var rest := pending - {n};
    while rest != {}
      invariant n in pending && rest <= pending
      invariant forall m | m in pending - rest :: Older(entries, n, m)
      decreases |rest|
    {
      var m :| m in rest;
      assert forall k | k in pending - (rest - {m}) :: k == m || k in pending - rest;
      if entries[m].validatedAt < entries[n].validatedAt { n := m; }
      rest := rest - {m};
    }
  }

  /** The names sorted by the time their evidence was recorded, oldest first. */
  method SortByAge(entries: Entries) returns (byAge: seq<Name>)
    ensures InAgeOrder(entries, byAge)
    ensures forall n :: n in byAge <==> n in entries
    ensures |byAge| == |entries|
  {
    byAge := [];
    var pending := entries.Keys;
    while pending != {}
      invariant pending <= entries.Keys
      invariant forall n :: n in byAge <==> n in entries.Keys - pending
      invariant InAgeOrder(entries, byAge)
      invariant forall n, m | n in byAge && m in pending :: Older(entries, n, m)
      invariant |byAge| + |pending| == |entries.Keys|
      decreases |pending|
    {
      var n := Oldest(entries, pending);
      byAge := byAge + [n];
      pending := pending - {n};
    }
    assert |entries.Keys| == |entries|;
  }

  class ChainCache {
    var entries: Entries
    var dirty: bool
    var policy: Option<PolicyRecord>
    const maxEntries: nat
    const parse: Parser

    ghost predicate Valid()
      reads this
    {
      maxEntries >= 1 && |entries| <= maxEntries && Canonical(policy)
    }

    constructor (parse: Parser, maxEntries: nat)
      ensures Valid() && entries == map[] && policy == None && !dirty
      ensures this.parse == parse
    {
      this.parse := parse;
      this.maxEntries := if maxEntries >= 1 then maxEntries else 1;
      entries, dirty, policy := map[], false, None;
    }

    /** Adopts a trust-anchor policy, keeping only the evidence it leaves valid. */
    method EnsurePolicy(fingerprint: string, anchors: set<string>, ntas: set<string>) returns (change: Change)
      requires Valid()
      modifies this
      ensures Valid()
      ensures var next := Policy(fingerprint, Normalize(anchors), Normalize(ntas));
              && change == PolicyChange(parse, old(policy), next)
              && entries == EntriesAfter(old(entries), change)
              && policy == PolicyAfter(old(policy), next, change)
      ensures dirty == (old(dirty) || !change.Unchanged?)
    {
      NormalizeIdempotent(anchors);
      NormalizeIdempotent(ntas);
      change := Adopt(Policy(fingerprint, Normalize(anchors), Normalize(ntas)));
    }

    method Adopt(next: Policy) returns (change: Change)
      requires Valid() && Canonical(Some(PolicyRecord(next, true)))
      modifies this
      ensures Valid()
      ensures change == PolicyChange(parse, old(policy), next)
      ensures entries == EntriesAfter(old(entries), change) && policy == PolicyAfter(old(policy), next, change)
      ensures dirty == (old(dirty) || !change.Unchanged?)
    {
      if policy.None? {
        entries, policy, dirty := map[], Some(PolicyRecord(next, true)), true;
        return FullClear;
      }
      var previous := policy.value;
      if previous.state.fingerprint == next.fingerprint { return Unchanged; }
      if !previous.metadataKnown || previous.state.ntas != next.ntas {
        entries, policy, dirty := map[], Some(PolicyRecord(next, true)), true;
        return FullClear;
      }
      var removedAny := !(previous.state.anchors <= next.anchors);
      var added := Added(parse, previous.state.anchors, next.anchors);
      if removedAny || added == {} {
        entries, policy, dirty := map[], Some(PolicyRecord(next, true)), true;
        return FullClear;
      }
      RemoveContradicted(added);
      policy, dirty := Some(PolicyRecord(next, true)), true;
      return AddedAnchors(added);
    }

    method RemoveContradicted(added: set<Name>)
      modifies this`entries
      ensures entries == WithoutContradicted(old(entries), added)
      ensures |entries| <= |old(entries)|
    {
      var pending := added;
      ghost var done := {};
      assert entries == WithoutContradicted(entries, {});
      while pending != {}
        invariant done + pending == added
        invariant entries == WithoutContradicted(old(entries), done)
        invariant |entries| <= |old(entries)|
        decreases |pending|
      {
        var anchor :| anchor in pending;
        var removed := RemoveUnsignedAtOrAbove(anchor);
        RemoveOneMore(old(entries), done, anchor);
        done := done + {anchor};
        pending := pending - {anchor};
      }
      assert done == added;
    }

    /** Drops the unsigned entries at or above `anchor`; the count dropped. */
    method RemoveUnsignedAtOrAbove(anchor: Name) returns (removed: nat)
      modifies this`entries
      ensures entries == WithoutContradicted(old(entries), {anchor})
      ensures removed == |old(entries)| - |entries|
    {
      var stale := set n | n in entries && entries[n].status.UnsignedZone? && ZoneOf(n, anchor);
      removed := |stale|;
      assert entries.Keys - stale == (entries - stale).Keys;
      assert |entries.Keys - stale| == |entries.Keys| - |stale|;
      entries := entries - stale;
      assert entries == WithoutContradicted(old(entries), {anchor});
    }

    method InvalidateUnsignedAtOrAbove(anchor: Name) returns (removed: nat)
      requires Valid()
      modifies this`entries, this`dirty
      ensures Valid()
      ensures entries == WithoutContradicted(old(entries), {anchor})
      ensures forall n :: n in entries <==>
                n in old(entries) && !(old(entries)[n].status.UnsignedZone? && ZoneOf(n, anchor))
      ensures dirty == (old(dirty) || entries != old(entries))
      ensures removed == |old(entries)| - |entries|
    {
      removed := RemoveUnsignedAtOrAbove(anchor);
      if removed > 0 {
        dirty := true;
      } else {
        SameSizeSame(old(entries), entries);
      }
    }

    /** Startup load of a readable file: merges its live, trustworthy entries and
        adopts its policy. */
    method Load(file: Persisted, now: nat)
      requires Valid()
      modifies this
      ensures Valid()
      ensures policy == LoadPolicy(old(policy), file)
      ensures if file.policy.None? then policy == old(policy)
              else policy.Some? && policy.value.state.fingerprint == file.policy.value
                   && policy.value.metadataKnown == (file.anchors.Some? && file.ntas.Some?)
      ensures IsBounded(LoadEntries(old(entries), file.formatVersion, file.entries, now), entries, maxEntries, now)
      ensures var loaded := LoadEntries(old(entries), file.formatVersion, file.entries, now);
              dirty == (|| old(dirty) || Migrates(file.formatVersion, file.entries, now)
                        || (|loaded| > maxEntries && |Live(loaded, now)| > maxEntries))
      ensures forall n | n in old(entries) && n in entries :: old(entries)[n].validatedAt <= entries[n].validatedAt
    {
      LoadKeepsNewest(entries, file.formatVersion, file.entries, now);
      if file.policy.Some? {
        policy := LoadPolicy(policy, file);
        NormalizeIdempotent(if file.anchors.Some? then file.anchors.value else {});
        NormalizeIdempotent(if file.ntas.Some? then file.ntas.value else {});
      }
      var migrated := LoadRecords(file.formatVersion, file.entries, now);
      if migrated > 0 { dirty := true; }
      EnforceBounds(now);
    }

    /** The loop over the file's entries; the number of legacy entries refused. */
    method LoadRecords(version: nat, file: seq<PersistedEntry>, now: nat) returns (migrated: nat)
      modifies this`entries
      ensures entries == LoadEntries(old(entries), version, file, now)
      ensures migrated > 0 <==> Migrates(version, file, now)
    {
      migrated := 0;
      for i := 0 to |file|
        invariant entries == LoadEntries(old(entries), version, file[..i], now)
        invariant migrated > 0 <==> Migrates(version, file[..i], now)
      {
        assert file[..i + 1][..i] == file[..i];
        assert forall p :: p in file[..i + 1] <==> p in file[..i] || p == file[i] by {
          assert file[..i + 1] == file[..i] + [file[i]];
        }
        var p := file[i];
        if p.entry.expiresAt < now { continue; }
        if p.name.None? { continue; }
        if version < FORMAT_VERSION && ShallowSigned(p.name.value, p.entry) {
          migrated := migrated + 1;
          continue;
        }
        if p.name.value !in entries || p.entry.validatedAt >= entries[p.name.value].validatedAt {
          entries := entries[p.name.value := p.entry];
        }
      }
      assert file[..|file|] == file;
    }

    function Get(name: Name, now: nat): (r: Option<Entry>)
      reads this
      ensures r.Some? <==> name in Live(entries, now)
      ensures r.Some? ==> r.value == Live(entries, now)[name]
    {
      if name in entries && entries[name].expiresAt >= now then Some(entries[name]) else None
    }

    /** Records an authenticated status. */
    method Insert(name: Name, status: Status, expiresAt: nat, now: nat)
      requires Valid()
      modifies this`entries, this`dirty
      ensures Valid()
      ensures IsInserted(old(entries), entries, name, Entry(status, expiresAt, now), maxEntries)
      ensures var accepted := name in old(entries) ==> now >= old(entries)[name].validatedAt;
              && dirty == (old(dirty) || accepted)
              && (accepted && name in entries ==> entries[name] == Entry(status, expiresAt, now))
              && (accepted && |old(entries).Keys + {name}| <= maxEntries ==> name in entries)
      ensures forall n | n in entries && n != name :: n in old(entries) && entries[n] == old(entries)[n]
      ensures forall n | n in old(entries) && n in entries :: old(entries)[n].validatedAt <= entries[n].validatedAt
    {
      if name in entries {
        if now < entries[name].validatedAt { return; }
        entries := entries[name := Entry(status, expiresAt, now)];
      } else {
        entries := entries[name := Entry(status, expiresAt, now)];
      }
      dirty := true;
      assert entries.Keys == old(entries).Keys + {name};
      EnforceBounds(now);
    }

    method Retain(now: nat) returns (removed: nat)
      modifies this`entries
      ensures entries == Live(old(entries), now)
      ensures removed == |old(entries)| - |entries|
    {
      var before := |entries|;
      ghost var gone := set n | n in entries && entries[n].expiresAt < now;
      entries := Live(entries, now);
      assert entries.Keys == old(entries).Keys - gone;
      removed := before - |entries|;
    }

    /** Evicts the oldest evidence once pruning expired entries is not enough. */
    method EnforceBounds(now: nat)
      requires maxEntries >= 1
      modifies this`entries, this`dirty
      ensures |entries| <= maxEntries && IsBounded(old(entries), entries, maxEntries, now)
      ensures dirty == (old(dirty) || (|old(entries)| > maxEntries && |Live(old(entries), now)| > maxEntries))
    {
      if |entries| <= maxEntries { return; }
      var _ := Retain(now);
      if |entries| <= maxEntries { return; }
      EvictOldest(|entries| - maxEntries);
      dirty := true;
    }

    method EvictOldest(excess: nat)
      requires excess <= |entries|
      modifies this`entries
      ensures |entries| == |old(entries)| - excess
      ensures forall n | n in entries :: n in old(entries) && entries[n] == old(entries)[n]
      ensures forall n, m | n in old(entries) && n !in entries && m in entries ::
                old(entries)[n].validatedAt <= entries[m].validatedAt
    {
      var byAge := SortByAge(entries);
      assert entries == Without(entries, byAge[..0]);
      for i := 0 to excess
        invariant |entries| == |old(entries)| - i
        invariant entries == Without(old(entries), byAge[..i])
      {
        NextInOrder(old(entries), byAge, i);
        entries := entries - {byAge[i]};
      }
      DropPrefixKeepsNewest(old(entries), byAge, excess);
    }

    /** The closest cached status covering `name`, by walking its ancestors. */
    method DeepestEntry(name: Name, now: nat) returns (r: Option<(Name, Entry)>)
      ensures r.Some? ==> IsDeepest(entries, name, now, r.value.0) && r.value.1 == entries[r.value.0]
      ensures r.None? ==> forall n | n in Live(entries, now) :: !ZoneOf(n, name)
    {
      var current := name;
      while true
        invariant ZoneOf(current, name)
        invariant forall n | n in Live(entries, now) && ZoneOf(n, name) :: ZoneOf(n, current)
        decreases |current|
      {
        if current in entries && entries[current].expiresAt >= now { return Some((current, entries[current])); }
        if current == [] { return None; }
        assert current !in Live(entries, now);
        assert forall n | n != current && ZoneOf(n, current) :: ZoneOf(n, BaseName(current));
        current := BaseName(current);
      }
    }

    method ClosestSigned(name: Name, now: nat) returns (r: Option<(Name, nat)>)
      ensures r.Some? <==> exists k :: IsDeepest(entries, name, now, k) && entries[k].status.SignedZone?
      ensures r.Some? ==> IsDeepest(entries, name, now, r.value.0) && r.value.1 == entries[r.value.0].expiresAt
    {
      var deepest := DeepestEntry(name, now);
      if deepest.Some? {
        forall k | IsDeepest(entries, name, now, k) ensures k == deepest.value.0 {
          DeepestUnique(entries, name, now, k, deepest.value.0);
        }
        if deepest.value.1.status.SignedZone? { return Some((deepest.value.0, deepest.value.1.expiresAt)); }
      }
      return None;
    }

    method CoversUnsigned(name: Name, now: nat) returns (r: Option<(Name, nat)>)
      ensures r.Some? <==> exists k :: IsDeepest(entries, name, now, k) && entries[k].status.UnsignedZone?
      ensures r.Some? ==> IsDeepest(entries, name, now, r.value.0) && r.value.1 == entries[r.value.0].expiresAt
    {
      var deepest := DeepestEntry(name, now);
      if deepest.Some? {
        forall k | IsDeepest(entries, name, now, k) ensures k == deepest.value.0 {
          DeepestUnique(entries, name, now, k, deepest.value.0);
        }
        if deepest.value.1.status.UnsignedZone? { return Some((deepest.value.0, deepest.value.1.expiresAt)); }
      }
      return None;
    }

    /** The locked half of a flush: nothing when clean, else the file to write. */
    method Snapshot(now: nat) returns (file: Option<Persisted>)
      requires Valid()
      modifies this`entries, this`dirty
      ensures Valid() && !dirty
      ensures file.Some? <==> old(dirty)
      ensures entries == if old(dirty) then Live(old(entries), now) else old(entries)
      ensures file.Some? ==> Lists(file.value.entries, entries) && file.value == Persist(file.value.entries, policy)
    {
      var was := dirty;
      dirty := false;
      if !was { return None; }
      var _ := Retain(now);
      var listed := ListEntries(entries);
      return Some(Persist(listed, policy));
    }
  }

  /** What a client sees of an insert that the cache accepted and kept: until it
      expires, the entry itself, and at its name exactly the lookup of its status;
      afterwards nothing at that name. */
  method InsertThenAsk(c: ChainCache, name: Name, status: Status, expiresAt: nat, now: nat, later: nat)
    returns (kept: bool, got: Option<Entry>, signed: Option<(Name, nat)>, unsigned: Option<(Name, nat)>)
    requires c.Valid()
    requires name in c.entries ==> c.entries[name].validatedAt <= now
    modifies c
    ensures old(name in c.entries || |c.entries| < c.maxEntries) ==> kept
    ensures kept && later <= expiresAt ==>
              && got == Some(Entry(status, expiresAt, now))
              && signed == (if status.SignedZone? then Some((name, expiresAt)) else None)
              && unsigned == (if status.UnsignedZone? then Some((name, expiresAt)) else None)
    ensures !kept || later > expiresAt ==>
              && got == None && (signed.Some? ==> signed.value.0 != name)
              && (unsigned.Some? ==> unsigned.value.0 != name)
  {
    c.Insert(name, status, expiresAt, now);
    kept := name in c.entries;
    got := c.Get(name, later);
    signed := c.ClosestSigned(name, later);
    unsigned := c.CoversUnsigned(name, later);
    if kept && later <= expiresAt {
      assert IsDeepest(c.entries, name, later, name);
      DeepestAlone(c.entries, name, later);
    }
    assert name in old(c.entries) ==> old(c.entries).Keys + {name} == old(c.entries).Keys;
  }

  method ListEntries(entries: Entries) returns (file: seq<PersistedEntry>)
    ensures Lists(file, entries)
  {
    file := [];
    var pending := entries.Keys;
    while pending != {}
      invariant pending <= entries.Keys
      invariant forall i | 0 <= i < |file| ::
                  file[i].name.Some? && file[i].name.value in entries.Keys - pending
                  && file[i].entry == entries[file[i].name.value]
      invariant forall i, j | 0 <= i < j < |file| :: file[i].name != file[j].name
      invariant forall n | n in entries.Keys - pending :: PersistedEntry(Some(n), entries[n]) in file
      decreases |pending|
    {
      var n :| n in pending;
      file := file + [PersistedEntry(Some(n), entries[n])];
      pending := pending - {n};
    }
  }

  lemma SameSizeSame(before: Entries, after: Entries)
    requires |before| == |after| && forall n | n in after :: n in before && after[n] == before[n]
    ensures before == after
  {
    assert after.Keys <= before.Keys;
    assert |before.Keys - after.Keys| == |before.Keys| - |after.Keys|;
    assert before.Keys - after.Keys == {};
  }

  function Without(entries: Entries, names: seq<Name>): Entries {
    map n | n in entries && n !in names :: entries[n]
  }

  lemma WithoutOneMore(entries: Entries, names: seq<Name>, n: Name)
    requires n in entries && n !in names
    ensures Without(entries, names) - {n} == Without(entries, names + [n])
    ensures |Without(entries, names + [n])| == |Without(entries, names)| - 1
  {
    var before := Without(entries, names);
    assert (before - {n}).Keys == before.Keys - {n};
  }

  lemma NextInOrder(entries: Entries, byAge: seq<Name>, i: nat)
    requires InAgeOrder(entries, byAge) && i < |byAge|
    ensures Without(entries, byAge[..i]) - {byAge[i]} == Without(entries, byAge[..i + 1])
    ensures |Without(entries, byAge[..i + 1])| == |Without(entries, byAge[..i])| - 1
  {
    assert byAge[i] in entries && byAge[i] !in byAge[..i];
    WithoutOneMore(entries, byAge[..i], byAge[i]);
    assert byAge[..i + 1] == byAge[..i] + [byAge[i]];
  }

  /** Dropping a prefix of the age order keeps the newest evidence. */
  lemma DropPrefixKeepsNewest(before: Entries, byAge: seq<Name>, k: nat)
    requires k <= |byAge| && InAgeOrder(before, byAge) && forall n :: n in byAge <==> n in before
    ensures var after := Without(before, byAge[..k]);
            forall n, m | n in before && n !in after && m in after :: before[n].validatedAt <= after[m].validatedAt
  {
    var after := Without(before, byAge[..k]);
    forall n, m | n in before && n !in after && m in after
      ensures before[n].validatedAt <= after[m].validatedAt
    {
      var i :| 0 <= i < k && byAge[i] == n;
      var j :| 0 <= j < |byAge| && byAge[j] == m;
      assert j >= k by {
        assert byAge[j] !in byAge[..k];
      }
      assert Older(before, byAge[i], byAge[j]);
    }
  }

  lemma RemoveOneMore(entries: Entries, anchors: set<Name>, anchor: Name)
    ensures WithoutContradicted(WithoutContradicted(entries, anchors), {anchor})
            == WithoutContradicted(entries, anchors + {anchor})
  {
  }

  lemma DeepestUnique(entries: Entries, name: Name, now: nat, k: Name, k': Name)
    requires IsDeepest(entries, name, now, k) && IsDeepest(entries, name, now, k')
    ensures k == k'
  {
    SameLine(k, k', name);
  }

  lemma DeepestAlone(entries: Entries, name: Name, now: nat)
    requires name in Live(entries, now)
    ensures forall k :: IsDeepest(entries, name, now, k) <==> k == name
  {
    forall k | IsDeepest(entries, name, now, k) ensures k == name {
      SameLine(k, name, name);
    }
  }

  /** What the two lookups answer from, a live `Signed` and a live `Unsigned`
      deepest entry, never both exist, and neither does only when no live entry
      covers the name. */
  lemma LookupsPartition(entries: Entries, name: Name, now: nat)
    ensures var signed := exists k :: IsDeepest(entries, name, now, k) && entries[k].status.SignedZone?;
            var unsigned := exists k :: IsDeepest(entries, name, now, k) && entries[k].status.UnsignedZone?;
            && !(signed && unsigned)
            && (!signed && !unsigned <==> forall n | n in Live(entries, now) :: !ZoneOf(n, name))
  {
    forall k, k' | IsDeepest(entries, name, now, k) && IsDeepest(entries, name, now, k') ensures k == k' {
      DeepestUnique(entries, name, now, k, k');
    }
    if n :| n in Live(entries, now) && ZoneOf(n, name) {
      DeepestExists(entries, name, now, n);
    }
  }

  lemma {:induction false} DeepestExists(entries: Entries, name: Name, now: nat, n: Name)
    requires n in Live(entries, now) && ZoneOf(n, name)
    ensures exists k :: IsDeepest(entries, name, now, k)
    decreases |name| - |n|
  {
    if m :| m in Live(entries, now) && ZoneOf(m, name) && |m| > |n| {
      DeepestExists(entries, name, now, m);
    } else {
      assert IsDeepest(entries, name, now, n);
    }
  }
}

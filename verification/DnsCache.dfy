/** The response cache object. */
module DnsCacheModel {
  import opened Names
  import opened Messages
  import opened ResponseCache
  import opened ResponseContract
  import opened ResponseProofs

  const U64_MAX: nat := 0xffff_ffff_ffff_ffff

  function Sat64(x: nat): nat { if x > U64_MAX then U64_MAX else x }

  method ClampSection(records: seq<Record>, lo: u32, hi: u32, minSoFar: u32) returns (ttls: seq<u32>, min: u32)
    ensures ttls == ClampTtls(records, lo, hi) && min == Least(minSoFar, ttls)
  {
    ttls, min := [], minSoFar;
    for i := 0 to |records|
      invariant ttls == ClampTtls(records, lo, hi)[..i] && min == Least(minSoFar, ttls)
    {
      var clamped := Clamp(records[i].ttl, lo, hi);
      assert (ttls + [clamped])[..i] == ttls;
      ttls := ttls + [clamped];
      min := Min(min, clamped);
    }
  }

  method CapSection(records: seq<Record>, cap: u32) returns (ttls: seq<u32>)
    ensures ttls == CapTtls(records, cap)
  {
    ttls := [];
    for i := 0 to |records|
      invariant ttls == CapTtls(records, cap)[..i]
    {
      ttls := ttls + [Min(records[i].ttl, cap)];
    }
  }

  method NegativeTtlFromSoa(authorities: seq<Record>, names: seq<Name>) returns (ttl: Option<u32>)
    ensures var soa := BailiwickSoa(authorities, names);
            ttl == if soa.None? then None else Some(Min(soa.value.ttl, soa.value.data.minimum))
  {
    for i := 0 to |authorities|
      invariant BailiwickSoa(authorities, names) == BailiwickSoa(authorities[i..], names)
    {
      var auth := authorities[i];
      assert authorities[i..][0] == auth && authorities[i..][1..] == authorities[i + 1..];
      if auth.data.Start? && exists n | n in names :: ZoneOf(auth.name, n) {
        return Some(Min(auth.ttl, auth.data.minimum));
      }
    }
    return None;
  }

  method DenialProofTtl(records: seq<Record>) returns (ttl: Option<u32>)
    ensures IsDenialTtl(records, ttl)
  {
    var sawDenial, min := false, U32_MAX;
    for i := 0 to |records|
      invariant sawDenial <==> exists r | r in records[..i] :: IsDenial(r)
      invariant forall r | r in records[..i] && (IsDenial(r) || IsSignature(r)) :: min <= r.ttl
      invariant (min == U32_MAX && !sawDenial) || exists r | r in records[..i] && (IsDenial(r) || IsSignature(r)) ::
          min == r.ttl
    {
      assert records[..i + 1] == records[..i] + [records[i]];
      if IsDenial(records[i]) {
        sawDenial := true;
        min := Min(min, records[i].ttl);
      } else if IsSignature(records[i]) {
        min := Min(min, records[i].ttl);
      }
    }
    assert records[..|records|] == records;
    ttl := if sawDenial then Some(min) else None;
  }

  method LifetimeOfNegative(config: Config, q: Question, response: Message, status: Status, now: nat, bytes: u32)
    returns (r: Option<Entry>)
    requires Cacheable(q, response) && IsNegative(q, response)
    ensures r.Some? ==> IsStored(config, q, response, status, now, r.value) && r.value.bytes == bytes
    ensures r.None? <==> BailiwickSoa(response.authorities, Chain(response.answers, q.name)).None?
  {
    var names, aliasTtl := CnameChain(q.name, response.answers);
    var soaTtl := NegativeTtlFromSoa(response.authorities, names);
    if soaTtl.None? { return None; }
    var denialTtl: Option<u32> := None;
    if status.Secure? { denialTtl := DenialProofTtl(AllRecords(response)); }
    var lifespan := NegativeLifespan(config, status, soaTtl.value, aliasTtl, denialTtl);
    var answerTtls := CapSection(response.answers, lifespan);
    var authorityTtls := CapSection(response.authorities, lifespan);
    var additionalTtls := CapSection(response.additionals, lifespan);
    r := Some(Entry(response, now, lifespan, answerTtls, authorityTtls, additionalTtls, status, bytes));
  }

  method LifetimeOfPositive(config: Config, q: Question, response: Message, status: Status, now: nat, bytes: u32)
    returns (e: Entry)
    requires Cacheable(q, response) && !IsNegative(q, response)
    ensures IsStored(config, q, response, status, now, e) && e.bytes == bytes
  {
    var lo, hi := Floor(config, status), Max(config.maxTtl, config.minTtl);
    var answerTtls, m0 := ClampSection(response.answers, lo, hi, U32_MAX);
    var authorityTtls, m1 := ClampSection(response.authorities, lo, hi, m0);
    var additionalTtls, m2 := ClampSection(response.additionals, lo, hi, m1);
    var lifespan := if m2 == U32_MAX then config.minTtl else m2;
    e := Entry(response, now, lifespan, answerTtls, authorityTtls, additionalTtls, status, bytes);
  }

  function Weight(e: Entry): nat { if e.bytes == 0 then 1 else e.bytes }

  function TotalWeight(cache: map<Key, Entry>, keys: seq<Key>): nat
    requires forall k | k in keys :: k in cache
  {
    if keys == [] then 0 else TotalWeight(cache, keys[..|keys| - 1]) + Weight(cache[keys[|keys| - 1]])
  }

  function TotalBytes(cache: map<Key, Entry>, keys: seq<Key>): nat
    requires forall k | k in keys :: k in cache
  {
    if keys == [] then 0 else TotalBytes(cache, keys[..|keys| - 1]) + cache[keys[|keys| - 1]].bytes
  }

  /** The weight counts every byte and every entry, and not both for one entry. */
  lemma {:induction false} WeightCountsBytes(cache: map<Key, Entry>, keys: seq<Key>)
    requires forall k | k in keys :: k in cache
    ensures TotalBytes(cache, keys) <= TotalWeight(cache, keys) <= TotalBytes(cache, keys) + |keys|
    ensures |keys| <= TotalWeight(cache, keys)
    ensures (forall k | k in keys :: cache[k].bytes >= 1) ==> TotalWeight(cache, keys) == TotalBytes(cache, keys)
  {
    if keys != [] { WeightCountsBytes(cache, keys[..|keys| - 1]); }
  }

  /** Past lifespan and stale window, in 64-bit arithmetic. */
  predicate FullyExpired(config: Config, e: Entry, now: nat)
    requires e.storedAt <= now
  {
    now - e.storedAt >= e.lifespan + StaleWindow(config)
  }

  predicate Servable(config: Config, e: Entry, now: nat)
    requires e.storedAt <= now
  {
    FreshAt(config, e, now) || StaleAt(config, e, now)
  }

  /** The age after the last wrap below which an entry is served. */
  function ServedFor(config: Config, e: Entry): nat {
    if config.serveStaleHours != 0 then StaleLimit(config, e) else e.lifespan
  }

  /** What is dropped as expired could still be served exactly if its age wrapped
      around and is small again. */
  lemma ExpiredIsServableExactly(config: Config, e: Entry, now: nat)
    requires e.storedAt <= now && FullyExpired(config, e, now)
    ensures Servable(config, e, now) <==>
              config.enabled && now >= e.storedAt + WRAP && (now - e.storedAt) % WRAP < ServedFor(config, e)
  {
    if now < e.storedAt + WRAP {
      assert (now - e.storedAt) % WRAP == now - e.storedAt;
    }
  }

  /** `order` lists the keys of `cache`, each once. */
  ghost predicate Enumerates(order: seq<Key>, cache: map<Key, Entry>) {
    && (forall k :: k in order <==> k in cache)
    && (forall i, j | 0 <= i < j < |order| :: order[i] != order[j])
  }

  /** `carried` are the entries of `order[..cut]` that are not expired. */
  ghost predicate Survivors(config: Config, cache: map<Key, Entry>, order: seq<Key>, carried: seq<Key>, cut: nat,
                            now: nat) {
    && cut <= |order| && (forall k | k in cache :: cache[k].storedAt <= now)
    && (forall k | k in order :: k in cache) && (forall k | k in carried :: k in cache)
    && forall k :: k in carried <==> k in order[..cut] && !FullyExpired(config, cache[k], now)
  }

  /** They fit the capacity unless there is only one, and a cut before the end is
      where the next entry would not have fitted. */
  ghost predicate IsCarried(config: Config, cache: map<Key, Entry>, order: seq<Key>, carried: seq<Key>, cut: nat,
                            capacity: nat, now: nat)
  {
    && Survivors(config, cache, order, carried, cut, now)
    && (|carried| <= 1 || TotalWeight(cache, carried) <= capacity)
    && (cut < |order| ==>
          carried != [] && !FullyExpired(config, cache[order[cut]], now)
          && TotalWeight(cache, carried) + Weight(cache[order[cut]]) > capacity)
  }

  /** The entries of the listed keys. */
  ghost function Part(cache: map<Key, Entry>, keys: seq<Key>): map<Key, Entry> {
    map k | k in cache && k in keys :: cache[k]
  }

  lemma SurvivorsGrow(config: Config, cache: map<Key, Entry>, order: seq<Key>, carried: seq<Key>, cut: nat, now: nat)
    requires Survivors(config, cache, order, carried, cut, now) && cut < |order|
    ensures var key := order[cut];
            Survivors(config, cache, order, if FullyExpired(config, cache[key], now) then carried
                else carried + [key], cut + 1, now)
  {
    assert order[..cut + 1] == order[..cut] + [order[cut]];
  }

  lemma PartGrows(cache: map<Key, Entry>, keys: seq<Key>, key: Key)
    requires key in cache && forall k | k in keys :: k in cache
    ensures Part(cache, keys + [key]) == Part(cache, keys)[key := cache[key]]
    ensures TotalWeight(cache, keys + [key]) == TotalWeight(cache, keys) + Weight(cache[key])
  {
    assert (keys + [key])[..|keys|] == keys;
  }

  method CarryOver(config: Config, cache: map<Key, Entry>, order: seq<Key>, capacity: nat, now: nat)
    returns (next: map<Key, Entry>, carried: seq<Key>, cut: nat)
    requires Enumerates(order, cache) && forall k | k in cache :: cache[k].storedAt <= now
    ensures IsCarried(config, cache, order, carried, cut, capacity, now)
    ensures next == Part(cache, carried)
  {
    next, carried, cut := map[], [], 0;
    var bytes := 0;
    while cut < |order|
      invariant Survivors(config, cache, order, carried, cut, now)
      invariant next == Part(cache, carried)
      invariant bytes == TotalWeight(cache, carried) && (|carried| <= 1 || bytes <= capacity)
    {
      var key := order[cut];
      var entry := cache[key];
      SurvivorsGrow(config, cache, order, carried, cut, now);
      if now - entry.storedAt >= entry.lifespan + StaleWindow(config) {
        cut := cut + 1;
        continue;
      }
      var weight := Weight(entry);
      if carried != [] && bytes + weight > capacity { break; }
      PartGrows(cache, carried, key);
      next := next[key := entry];
      carried := carried + [key];
      bytes := bytes + weight;
      cut := cut + 1;
    }
  }

  // ---- Lookups ----------------------------------------------------------

  function FreshAnswer(config: Config, cache: map<Key, Entry>, key: Key, now: nat): Option<(Message, Status)>
    requires key in cache ==> cache[key].storedAt <= now
  {
    if key in cache && FreshAt(config, cache[key],
        now) then Some((FreshMessage(cache[key], now), cache[key].status)) else None
  }

  function StaleAnswer(config: Config, cache: map<Key, Entry>, key: Key, now: nat): Option<(Message, Status)>
    requires key in cache ==> cache[key].storedAt <= now
  {
    if key in cache && StaleAt(config, cache[key],
        now) then Some((StaleMessage(cache[key].message), cache[key].status)) else None
  }

  /** Under the same settings a lookup after a resize misses or answers as the old
      generation would. When every entry was visited it answers exactly so, except
      for an expired entry whose age wrapped around. */
  lemma ResizeRefines(config: Config, cache: map<Key, Entry>, order: seq<Key>, carried: seq<Key>, cut: nat,
                      capacity: nat, now: nat, key: Key, later: nat)
    requires Enumerates(order, cache) && IsCarried(config, cache, order, carried, cut, capacity, now) && now <= later
    ensures var next := Part(cache, carried);
            var fresh', stale' := FreshAnswer(config, next, key, later), StaleAnswer(config, next, key, later);
            var fresh'', stale'' := FreshAnswer(config, cache, key, later), StaleAnswer(config, cache, key, later);
            && (fresh'.None? || fresh' == fresh'') && (stale'.None? || stale' == stale'')
            && (cut == |order| ==>
                  (fresh' == fresh'' && stale' == stale'' <==>
                     !(&& key in cache && FullyExpired(config, cache[key], now) && config.enabled
                       && later >= cache[key].storedAt + WRAP
                       && (later - cache[key].storedAt) % WRAP < ServedFor(config, cache[key]))))
  {
    if cut == |order| && key in cache && FullyExpired(config, cache[key], now) {
      assert order[..cut] == order;
      ExpiredIsServableExactly(config, cache[key], later);
    } else if cut == |order| && key in cache {
      assert order[..cut] == order;
    }
  }

  /** The entry a read of `key` meets. */
  function Slot(cache: map<Key, Entry>, key: Key): Option<Entry> {
    if key in cache then Some(cache[key]) else None
  }

  class DnsCache {
    var cache: map<Key, Entry>
    var config: Config

    /** No entry claims to be stored in the future, and each record has a lifetime. */
    ghost predicate Past(now: nat)
      reads this
    {
      forall k | k in cache :: cache[k].storedAt <= now && Timed(cache[k])
    }

    constructor (config: Config)
      ensures this.config == config && cache == map[]
    {
      this.config, cache := config, map[];
    }

    /** Stores a well-formed positive or negative answer; anything else leaves
        the cache alone. */
    method InsertWithStatus(key: Key, response: Message, status: Status, now: nat, bytes: u32)
      requires Past(now)
      modifies this`cache
      ensures Past(now)
      ensures forall k | k != key :: (k in cache <==> k in old(cache)) && (k in cache ==> cache[k] == old(cache)[k])
      ensures var q := key.question;
              if && config.enabled && response.isResponse && !response.truncated
                 && (response.rcode.NoError? || response.rcode.NxDomain?) && response.question == Some(q)
                 && (forall r | r in response.answers :: r.name in Chain(response.answers, q.name))
                 && (IsAnswered(q, response)
                     || exists r | r in response.authorities :: IsAbove(r, Chain(response.answers, q.name)))
              then key in cache && IsStored(config, q, response, status, now, cache[key]) && cache[key].bytes == bytes
              else cache == old(cache)
    {
      if !config.enabled || !response.isResponse || response.truncated { return; }
      if !response.rcode.NoError? && !response.rcode.NxDomain? { return; }
      if response.question != Some(key.question) { return; }
      var relevant := AnswerOwnersAreRelevant(key.question.name, response.answers);
      if !relevant { return; }
      NegativeIsUnanswered(key.question, response);
      if IsNegative(key.question, response) {
        var entry := LifetimeOfNegative(config, key.question, response, status, now, bytes);
        if entry.None? { return; }
        cache := cache[key := entry.value];
      } else {
        var entry := LifetimeOfPositive(config, key.question, response, status, now, bytes);
        cache := cache[key := entry];
      }
    }

    method GetByKeyWithStatus(key: Key, now: nat) returns (r: Option<(Message, Status)>)
      requires Past(now)
      modifies this`cache
      ensures Past(now)
      ensures r == FreshAnswer(config, old(cache), key, now)
      ensures r.Some? <==> Hits(config, Slot(old(cache), key), Read(false, now))
      ensures Slot(cache, key) == AfterRead(config, Slot(old(cache), key), Read(false, now))
      ensures r.Some? ==>
                IsFreshOf(r.value.0, old(cache)[key], (now - old(cache)[key].storedAt) % 0x1_0000_0000)
                && r.value.1 == old(cache)[key].status
      ensures cache == if config.enabled && key in old(cache)
          && Age(old(cache)[key], now) >= StaleLimit(config, old(cache)[key])
                       then old(cache) - {key} else old(cache)
    {
      if !config.enabled || key !in cache { return None; }
      var entry := cache[key];
      var elapsed := (now - entry.storedAt) % WRAP;
      var maxStale := Sat(entry.lifespan + StaleWindow(config));
      if elapsed >= maxStale {
        cache := cache - {key};
        return None;
      }
      if elapsed >= entry.lifespan { return None; }
      FreshIsExact(entry, now);
      return Some((FreshMessage(entry, now), entry.status));
    }

    method GetStaleByKey(key: Key, now: nat) returns (r: Option<(Message, Status)>)
      requires Past(now)
      modifies this`cache
      ensures Past(now)
      ensures r == StaleAnswer(config, old(cache), key, now)
      ensures r.Some? <==> Hits(config, Slot(old(cache), key), Read(true, now))
      ensures Slot(cache, key) == AfterRead(config, Slot(old(cache), key), Read(true, now))
      ensures r.Some? ==> IsStaleOf(r.value.0, old(cache)[key].message) && r.value.1 == old(cache)[key].status
      ensures cache == if config.enabled && config.serveStaleHours != 0 && key in old(cache)
                          && Age(old(cache)[key], now) >= StaleLimit(config, old(cache)[key])
                       then old(cache) - {key} else old(cache)
    {
      if !config.enabled || config.serveStaleHours == 0 || key !in cache { return None; }
      var entry := cache[key];
      var elapsed := (now - entry.storedAt) % WRAP;
      if elapsed >= Sat(entry.lifespan + StaleWindow(config)) {
        cache := cache - {key};
        return None;
      }
      StaleIsExact(entry.message);
      return Some((StaleMessage(entry.message), entry.status));
    }

    /** Rebuilds the cache with a new capacity, visiting the entries in the order
        `order` of the old generation. */
    method Resize(order: seq<Key>, sizeMb: nat, now: nat) returns (carried: seq<Key>)
      requires Past(now) && Enumerates(order, cache)
      modifies this`cache
      ensures Past(now)
      ensures cache == Part(old(cache), carried)
      ensures exists cut :: IsCarried(config, old(cache), order, carried, cut, Sat64(sizeMb * 1024 * 1024), now)
    {
      var next, kept, cut := CarryOver(config, cache, order, Sat64(sizeMb * 1024 * 1024), now);
      carried := kept;
      cache := next;
      assert IsCarried(config, old(cache), order, carried, cut, Sat64(sizeMb * 1024 * 1024), now);
    }

    /** Hot-reloads the settings, resizing first when the size changes. */
    method UpdateConfig(order: seq<Key>, next: Config, now: nat)
      requires Past(now) && Enumerates(order, cache)
      modifies this
      ensures Past(now)
      ensures config == next
      ensures forall k | k in cache :: k in old(cache) && cache[k] == old(cache)[k]
      ensures next.sizeMb == old(config).sizeMb ==> cache == old(cache)
    {
      if config.sizeMb != next.sizeMb {
        var _ := Resize(order, next.sizeMb, now);
      }
      config := next;
    }

    method Flush()
      modifies this`cache
      ensures cache == map[]
    {
      cache := map[];
    }
  }
}

/** Lifetimes of cached responses over every configuration, response and age. */
module ResponseProofs {
  import opened Names
  import opened Messages
  import opened ResponseCache

  ghost predicate Outlives(records: seq<Record>, age: nat) {
    forall r | r in records :: age < r.ttl
  }

  /** No record is served longer than its own TTL minus the elapsed time. */
  ghost predicate WithinTtl(served: seq<Record>, original: seq<Record>, age: nat) {
    && |served| == |original|
    && forall i | 0 <= i < |served| :: served[i].ttl == 0 || served[i].ttl + age <= original[i].ttl
  }

  /** A denial answer rests on its SOA, the aliases that led to it and, when
      present, the denial proof: all must still be alive. */
  ghost predicate DenialAlive(q: Question, m: Message, age: nat) {
    var names := Chain(m.answers, q.name);
    var soa := BailiwickSoa(m.authorities, names);
    && soa.Some? && age < soa.value.ttl && age < soa.value.data.minimum
    && (forall n | n in names && FirstAlias(m.answers, n).Some? :: age < FirstAlias(m.answers, n).value.ttl)
    && ((exists r | r in AllRecords(m) :: TypeOf(r) in {NSEC, NSEC3}) ==>
          forall r | r in AllRecords(m) && TypeOf(r) in {NSEC, NSEC3, RRSIG, SIG} :: age < r.ttl)
  }

  lemma ClampServesLess(records: seq<Record>, hi: u32, age: u32)
    ensures WithinTtl(Decremented(records, ClampTtls(records, 0, hi), age), records, age)
  {
  }

  lemma CapServesLess(records: seq<Record>, cap: u32, age: u32)
    ensures WithinTtl(Decremented(records, CapTtls(records, cap), age), records, age)
  {
  }

  lemma SecureServesLess(config: Config, q: Question, response: Message, stored: nat, e: Entry, now: nat)
    requires IsStored(config, q, response, Secure, stored, e) && stored <= now
    ensures var m := FreshMessage(e, now);
            && WithinTtl(m.answers, response.answers, Age(e, now))
            && WithinTtl(m.authorities, response.authorities, Age(e, now))
            && WithinTtl(m.additionals, response.additionals, Age(e, now))
  {
    var age := Age(e, now);
    if IsNegative(q, response) {
      CapServesLess(response.answers, e.lifespan, age);
      CapServesLess(response.authorities, e.lifespan, age);
      CapServesLess(response.additionals, e.lifespan, age);
    } else {
      var hi := Max(config.maxTtl, config.minTtl);
      ClampServesLess(response.answers, hi, age);
      ClampServesLess(response.authorities, hi, age);
      ClampServesLess(response.additionals, hi, age);
    }
  }

  lemma LeastBelowSection(records: seq<Record>, lo: u32, hi: u32, least: u32, i: nat)
    requires i < |records| && forall t | t in ClampTtls(records, lo, hi) :: least <= t
    ensures least <= Clamp(records[i].ttl, lo, hi)
  {
    assert ClampTtls(records, lo, hi)[i] in ClampTtls(records, lo, hi);
  }

  /** A positive entry is gone before any of its records is. */
  lemma PositiveDiesFirst(config: Config, response: Message, e: Entry, r: Record, age: nat)
    requires IsPositiveEntry(config, response, e) && r in AllRecords(response) && age < e.lifespan
    ensures age < Clamp(r.ttl, Floor(config, e.status), Max(config.maxTtl, config.minTtl))
  {
    var lo, hi := Floor(config, e.status), Max(config.maxTtl, config.minTtl);
    var least := Least(Least(Least(U32_MAX, e.answerTtls), e.authorityTtls), e.additionalTtls);
    if r in response.answers {
      var i :| 0 <= i < |response.answers| && response.answers[i] == r;
      LeastBelowSection(response.answers, lo, hi, least, i);
    } else if r in response.authorities {
      var i :| 0 <= i < |response.authorities| && response.authorities[i] == r;
      LeastBelowSection(response.authorities, lo, hi, least, i);
    } else {
      var i :| 0 <= i < |response.additionals| && response.additionals[i] == r;
      LeastBelowSection(response.additionals, lo, hi, least, i);
    }
  }

  /** A Secure negative entry is gone before anything its denial rests on is. */
  lemma NegativeDiesFirst(config: Config, q: Question, response: Message, e: Entry, age: nat)
    requires IsNegativeEntry(config, q, response, e) && e.status.Secure? && age < e.lifespan
    ensures DenialAlive(q, response, age)
  {
    var names := Chain(response.answers, q.name);
    var alias, denial :|
      && IsChainTtl(response.answers, names, alias) && IsDenialTtl(AllRecords(response), denial)
      && e.lifespan == NegativeLifespan(config, e.status,
           var soa := BailiwickSoa(response.authorities, names).value; Min(soa.ttl, soa.data.minimum), alias, denial);
  }

  /** Secure lifetime bound (section 5.3.3 of RFC 4035, section 5 of RFC 2308):
      for every response stored as Secure and every fresh hit at an age below
      2^32 seconds, no served TTL exceeds the original less the age, and all the
      response rests on is still alive. */
  lemma SecureLifetime(config: Config, q: Question, response: Message, stored: nat, e: Entry, now: nat)
    requires IsStored(config, q, response, Secure, stored, e)
    requires stored <= now < stored + WRAP && FreshAt(config, e, now)
    ensures var m := FreshMessage(e, now);
            && WithinTtl(m.answers, response.answers, now - stored)
            && WithinTtl(m.authorities, response.authorities, now - stored)
            && WithinTtl(m.additionals, response.additionals, now - stored)
    ensures if IsNegative(q, response) then DenialAlive(q, response, now - stored)
            else Outlives(AllRecords(response), now - stored)
  {
    AgeIs(e, now);
    SecureServesLess(config, q, response, stored, e, now);
    if IsNegative(q, response) {
      NegativeDiesFirst(config, q, response, e, now - stored);
    } else {
      PositiveOutlives(config, response, e, now - stored);
    }
  }

  lemma AgeIs(e: Entry, now: nat)
    requires e.storedAt <= now < e.storedAt + WRAP
    ensures Age(e, now) == now - e.storedAt
  {
  }

  lemma PositiveOutlives(config: Config, response: Message, e: Entry, age: nat)
    requires IsPositiveEntry(config, response, e) && e.status.Secure? && age < e.lifespan
    ensures Outlives(AllRecords(response), age)
  {
    forall r | r in AllRecords(response) ensures age < r.ttl {
      PositiveDiesFirst(config, response, e, r, age);
    }
  }

  /** Everything the response rests on is alive at that age. */
  ghost predicate SourcesAlive(q: Question, response: Message, age: nat) {
    if IsNegative(q, response) then DenialAlive(q, response, age) else Outlives(AllRecords(response), age)
  }

  /** The exact limit: whenever a Secure entry is served fresh, all it rests on is
      alive if and only if fewer than 2^32 seconds have passed. */
  lemma SecureLifetimeExactly(config: Config, q: Question, response: Message, stored: nat, e: Entry, now: nat)
    requires IsStored(config, q, response, Secure, stored, e) && stored <= now && FreshAt(config, e, now)
    ensures SourcesAlive(q, response, now - stored) <==> now < stored + WRAP
  {
    if now < stored + WRAP {
      SecureLifetime(config, q, response, stored, e, now);
    } else if !IsNegative(q, response) {
      assert response.answers != [];
      assert response.answers[0] in AllRecords(response) && response.answers[0].ttl < WRAP;
    }
  }

  /** And the limit is met in every life: 2^32 seconds after it was stored every
      entry is served again as if new. */
  lemma AgeWraps(config: Config, e: Entry)
    requires config.enabled && e.lifespan > 0
    ensures FreshAt(config, e, e.storedAt + WRAP)
    ensures FreshMessage(e, e.storedAt + WRAP) == FreshMessage(e, e.storedAt)
  {
  }

  /** A negative entry of any status never outlives an alias followed. */
  lemma NegativeWithinAliases(config: Config, q: Question, response: Message, e: Entry, n: Name)
    requires IsNegativeEntry(config, q, response, e)
    requires n in Chain(response.answers, q.name) && FirstAlias(response.answers, n).Some?
    ensures e.lifespan <= FirstAlias(response.answers, n).value.ttl
  {
    var names := Chain(response.answers, q.name);
    var alias, denial :|
      && IsChainTtl(response.answers, names, alias)
      && (if e.status.Secure? then IsDenialTtl(AllRecords(response), denial) else denial == None)
      && e.lifespan == NegativeLifespan(config, e.status,
           var soa := BailiwickSoa(response.authorities, names).value; Min(soa.ttl, soa.data.minimum), alias, denial);
  }

  ghost predicate AllAlive(records: seq<Record>) { forall r | r in records :: r.ttl >= 1 }

  lemma SectionAlive(config: Config, response: Message, e: Entry, records: seq<Record>, age: u32)
    requires IsPositiveEntry(config, response, e) && age < e.lifespan
    requires forall r | r in records :: r in AllRecords(response)
    ensures AllAlive(Decremented(records,
        ClampTtls(records, Floor(config, e.status), Max(config.maxTtl, config.minTtl)), age))
  {
    forall i | 0 <= i < |records|
      ensures Decremented(records, ClampTtls(records, Floor(config, e.status), Max(config.maxTtl, config.minTtl)),
          age)[i].ttl >= 1
    {
      PositiveDiesFirst(config, response, e, records[i], age);
    }
  }

  /** A fresh positive hit never serves a TTL of zero. */
  lemma FreshPositiveIsAlive(config: Config, q: Question, response: Message, status: Status, stored: nat, e: Entry,
                             now: nat)
    requires IsStored(config, q, response, status, stored, e) && !IsNegative(q, response)
    requires stored <= now && FreshAt(config, e, now)
    ensures var m := FreshMessage(e, now); AllAlive(m.answers) && AllAlive(m.authorities) && AllAlive(m.additionals)
  {
    var age := Age(e, now);
    SectionAlive(config, response, e, response.answers, age);
    SectionAlive(config, response, e, response.authorities, age);
    SectionAlive(config, response, e, response.additionals, age);
  }

  /** A stale hit claims and carries no DNSSEC. */
  lemma StaleIsStripped(m: Message)
    ensures var s := StaleMessage(m);
            !s.authentic && forall r | r in AllRecords(s) :: !IsDnssec(TypeOf(r)) && r.ttl == STALE_SERVE_TTL
  {
  }

  // ---- The life of an entry ---------------------------------------------

  /** A read of the entry's key: for a fresh answer or, as a fallback, a stale
      one. */
  datatype Read = Read(stale: bool, now: nat)

  /** Reads in time order within 2^32 seconds of the entry's storing. */
  ghost predicate IsTrace(e: Entry, trace: seq<Read>) {
    && (forall i | 0 <= i < |trace| :: e.storedAt <= trace[i].now < e.storedAt + WRAP)
    && (forall i, j | 0 <= i < j < |trace| :: trace[i].now <= trace[j].now)
  }

  predicate Hits(config: Config, slot: Option<Entry>, r: Read) {
    slot.Some? && slot.value.storedAt <= r.now
    && if r.stale then StaleAt(config, slot.value, r.now) else FreshAt(config, slot.value, r.now)
  }

  /** A read drops an entry that is past its stale window. */
  function AfterRead(config: Config, slot: Option<Entry>, r: Read): Option<Entry> {
    if slot.None? || !config.enabled || (r.stale && config.serveStaleHours == 0)
        || slot.value.storedAt > r.now then slot
    else if Age(slot.value, r.now) >= StaleLimit(config, slot.value) then None
    else slot
  }

  function SlotAfter(config: Config, e: Entry, trace: seq<Read>): Option<Entry> {
    if trace == [] then Some(e)
    else AfterRead(config, SlotAfter(config, e, trace[..|trace| - 1]), trace[|trace| - 1])
  }

  /** Fresh, then stale only, then dead. */
  datatype Phase = Fresh | StaleOnly | Dead

  function PhaseAt(config: Config, e: Entry, now: nat): Phase
    requires e.storedAt <= now
  {
    var age := now - e.storedAt;
    if age < e.lifespan then Fresh
    else if age < e.lifespan + config.serveStaleHours * 3600 && age < U32_MAX then StaleOnly else Dead
  }

  function Rank(p: Phase): nat { match p case Fresh => 0 case StaleOnly => 1 case Dead => 2 }

  lemma {:induction false} AliveUntilDead(config: Config, e: Entry, trace: seq<Read>, j: nat, now: nat)
    requires IsTrace(e, trace) && j <= |trace| && (forall i | 0 <= i < j :: trace[i].now <= now)
    requires e.storedAt <= now < e.storedAt + WRAP && !PhaseAt(config, e, now).Dead?
    ensures SlotAfter(config, e, trace[..j]) == Some(e)
  {
    if j > 0 {
      AliveUntilDead(config, e, trace, j - 1, now);
      assert trace[..j][..j - 1] == trace[..j - 1];
      AgeIs(e, trace[j - 1].now);
    }
  }

  lemma {:induction false} SlotIsEntry(config: Config, e: Entry, trace: seq<Read>)
    ensures SlotAfter(config, e, trace) in {None, Some(e)}
  {
    if trace != [] { SlotIsEntry(config, e, trace[..|trace| - 1]); }
  }

  /** Whatever was read before, the j-th read hits exactly by the phase at its
      time: fresh reads in the first phase, stale ones in the first two. */
  lemma HitsByPhase(config: Config, e: Entry, trace: seq<Read>, j: nat)
    requires IsTrace(e, trace) && j < |trace|
    ensures var phase := PhaseAt(config, e, trace[j].now);
            Hits(config, SlotAfter(config, e, trace[..j]), trace[j]) <==>
              config.enabled && if trace[j].stale then config.serveStaleHours != 0 && !phase.Dead? else phase.Fresh?
  {
    AgeIs(e, trace[j].now);
    SlotIsEntry(config, e, trace[..j]);
    if !PhaseAt(config, e, trace[j].now).Dead? {
      AliveUntilDead(config, e, trace, j, trace[j].now);
    }
  }

  /** The life of an entry is one-way: along any sequence of reads a hit is
      preceded only by hits of its kind, and a fresh hit only by stale hits too. */
  lemma LifeIsOneWay(config: Config, e: Entry, trace: seq<Read>, i: nat, j: nat)
    requires IsTrace(e, trace) && i < j < |trace|
    requires Hits(config, SlotAfter(config, e, trace[..j]), trace[j])
    ensures Rank(PhaseAt(config, e, trace[i].now)) <= Rank(PhaseAt(config, e, trace[j].now))
    ensures trace[i].stale == trace[j].stale || (trace[i].stale && config.serveStaleHours != 0) ==>
              Hits(config, SlotAfter(config, e, trace[..i]), trace[i])
  {
    HitsByPhase(config, e, trace, i);
    HitsByPhase(config, e, trace, j);
  }
}

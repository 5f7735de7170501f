/** What is stored and served, record by record. */
module ResponseContract {
  import opened Names
  import opened Messages
  import opened ResponseCache

  // ---- Served records ---------------------------------------------------

  /** `picked` lists, in order, the positions of the records that are not DNSSEC. */
  ghost predicate PicksPlain(picked: seq<nat>, records: seq<Record>) {
    && (forall k | 0 <= k < |picked| :: picked[k] < |records|)
    && (forall j, k | 0 <= j < k < |picked| :: picked[j] < picked[k])
    && (forall i | 0 <= i < |records| :: i in picked <==> !IsDnssec(TypeOf(records[i])))
  }

  /** The same owner and data with another lifetime. */
  predicate Retimed(served: Record, stored: Record, ttl: nat) {
    served.name == stored.name && served.data == stored.data && served.ttl == ttl
  }

  /** Each plain record of the section once, in order, for 30 seconds, and nothing
      else. */
  ghost predicate ServesPlain(served: seq<Record>, stored: seq<Record>) {
    exists picked :: PicksPlain(picked, stored) && ServesPicked(served, stored, picked)
  }

  ghost predicate ServesPicked(served: seq<Record>, stored: seq<Record>, picked: seq<nat>) {
    && |served| == |picked|
    && forall k | 0 <= k < |served| :: picked[k] < |stored| && Retimed(served[k], stored[picked[k]], 30)
  }

  /** Nothing but the AD flag and the sections differs. */
  predicate SameHeader(a: Message, b: Message) {
    a.isResponse == b.isResponse && a.truncated == b.truncated && a.rcode == b.rcode && a.question == b.question
  }

  ghost predicate IsStaleOf(served: Message, stored: Message) {
    && SameHeader(served, stored) && !served.authentic
    && ServesPlain(served.answers, stored.answers) && ServesPlain(served.authorities, stored.authorities)
    && ServesPlain(served.additionals, stored.additionals)
  }

  lemma PicksOneMore(picked: seq<nat>, records: seq<Record>, last: Record)
    requires PicksPlain(picked, records)
    ensures PicksPlain(if IsDnssec(TypeOf(last)) then picked else picked + [|records|], records + [last])
  {
    var more := records + [last];
    assert forall i | 0 <= i < |records| :: more[i] == records[i];
  }

  lemma ServesOneMore(served: seq<Record>, records: seq<Record>, picked: seq<nat>, last: Record)
    requires ServesPicked(served, records, picked)
    ensures ServesPicked(served, records + [last], picked)
    ensures ServesPicked(served + [last.(ttl := 30)], records + [last], picked + [|records|])
  {
  }

  lemma {:induction false} StaleRecordsPicked(records: seq<Record>) returns (picked: seq<nat>)
    ensures PicksPlain(picked, records) && ServesPicked(StaleRecords(records), records, picked)
  {
    if records == [] {
      picked := [];
    } else {
      var init, last := records[..|records| - 1], records[|records| - 1];
      picked := StaleRecordsPicked(init);
      assert records == init + [last];
      PicksOneMore(picked, init, last);
      ServesOneMore(StaleRecords(init), init, picked, last);
      if !IsDnssec(TypeOf(last)) {
        picked := picked + [|init|];
      }
    }
  }

  /** A stale hit serves exactly the plain records. */
  lemma StaleIsExact(m: Message)
    ensures IsStaleOf(StaleMessage(m), m)
  {
    var a := StaleRecordsPicked(m.answers);
    var b := StaleRecordsPicked(m.authorities);
    var c := StaleRecordsPicked(m.additionals);
  }

  /** Each record in its place, its stored lifetime less the age. */
  predicate ServesAged(served: seq<Record>, stored: seq<Record>, ttls: seq<u32>, age: nat) {
    && |served| == |stored| == |ttls|
    && forall i | 0 <= i < |served| :: Retimed(served[i], stored[i], if ttls[i] <= age then 0 else ttls[i] - age)
  }

  predicate IsFreshOf(served: Message, e: Entry, age: nat) {
    && SameHeader(served, e.message) && served.authentic == e.message.authentic
    && ServesAged(served.answers, e.message.answers, e.answerTtls, age)
    && ServesAged(served.authorities, e.message.authorities, e.authorityTtls, age)
    && ServesAged(served.additionals, e.message.additionals, e.additionalTtls, age)
  }

  /** One stored lifetime per record. */
  predicate Timed(e: Entry) {
    && |e.answerTtls| == |e.message.answers| && |e.authorityTtls| == |e.message.authorities|
    && |e.additionalTtls| == |e.message.additionals|
  }

  /** A fresh hit serves every record, aged. */
  lemma FreshIsExact(e: Entry, now: nat)
    requires e.storedAt <= now && Timed(e)
    ensures IsFreshOf(FreshMessage(e, now), e, (now - e.storedAt) % 0x1_0000_0000)
  {
  }

  // ---- Stored lifetimes -------------------------------------------------

  /** `y` is `x` moved into the range from `lo` to `hi`, no further than needed. */
  predicate IsClamped(x: nat, lo: nat, hi: nat, y: nat) {
    && lo <= y <= hi
    && (x < lo ==> y == lo) && (x > hi ==> y == hi) && (lo <= x <= hi ==> y == x)
  }

  /** Whether the response answers the question rather than denying it: an RRset of
      the type, or any record at all for ANY. */
  predicate IsAnswered(q: Question, response: Message) {
    && response.rcode.NoError?
    && if q.qtype.ANY? then response.answers != [] else exists r | r in response.answers :: TypeOf(r) == q.qtype
  }

  lemma NegativeIsUnanswered(q: Question, response: Message)
    requires Cacheable(q, response)
    ensures IsNegative(q, response) <==> !IsAnswered(q, response)
  {
  }

  /** The least and the greatest lifetime an entry may get. */
  function LeastTtl(config: Config, status: Status): u32 { if status.Secure? then 0 else config.minTtl }

  function GreatestTtl(config: Config, answered: bool): u32 {
    var max := if answered then config.maxTtl else config.negativeTtlMax;
    if max < config.minTtl then config.minTtl else max
  }

  ghost predicate ClampsAll(config: Config, status: Status, records: seq<Record>, ttls: seq<u32>) {
    && |ttls| == |records|
    && forall i | 0 <= i < |records| ::
         IsClamped(records[i].ttl, LeastTtl(config, status), GreatestTtl(config, true), ttls[i])
  }

  /** `m` is the least of the lifetimes in the three sections. */
  ghost predicate IsLeast(m: nat, a: seq<u32>, b: seq<u32>, c: seq<u32>) {
    && (m in a || m in b || m in c)
    && (forall t | t in a || t in b || t in c :: m <= t)
  }

  lemma ClampIs(config: Config, status: Status, records: seq<Record>)
    ensures ClampsAll(config, status, records,
                      ClampTtls(records, Floor(config, status), Max(config.maxTtl, config.minTtl)))
  {
  }

  ghost predicate AllMax(a: seq<u32>, b: seq<u32>, c: seq<u32>) {
    forall t | t in a || t in b || t in c :: t == U32_MAX
  }

  lemma LeastIs(a: seq<u32>, b: seq<u32>, c: seq<u32>)
    ensures var m := Least(Least(Least(U32_MAX, a), b), c);
            if AllMax(a, b, c) then m == U32_MAX else m < U32_MAX && IsLeast(m, a, b, c)
  {
    var x := Least(U32_MAX, a);
    var y := Least(x, b);
    var z := Least(y, c);
    if !AllMax(a, b, c) {
      var t :| (t in a || t in b || t in c) && t != U32_MAX;
      assert z <= t;
    }
  }

  /** An answer's records live their own TTL within the configured range, and the
      entry as long as the first of them; only if all of these are the largest TTL
      there is does it live for the configured minimum. */
  lemma PositiveLifetimes(config: Config, q: Question, response: Message, status: Status, now: nat, e: Entry)
    requires IsStored(config, q, response, status, now, e) && IsAnswered(q, response)
    ensures ClampsAll(config, status, response.answers, e.answerTtls)
    ensures ClampsAll(config, status, response.authorities, e.authorityTtls)
    ensures ClampsAll(config, status, response.additionals, e.additionalTtls)
    ensures if AllMax(e.answerTtls, e.authorityTtls, e.additionalTtls) then e.lifespan == config.minTtl
            else IsLeast(e.lifespan, e.answerTtls, e.authorityTtls, e.additionalTtls)
  {
    NegativeIsUnanswered(q, response);
    ClampIs(config, status, response.answers);
    ClampIs(config, status, response.authorities);
    ClampIs(config, status, response.additionals);
    LeastIs(e.answerTtls, e.authorityTtls, e.additionalTtls);
  }

  ghost predicate CapsAll(records: seq<Record>, cap: nat, ttls: seq<u32>) {
    && |ttls| == |records|
    && forall i | 0 <= i < |records| ::
         ttls[i] <= cap && ttls[i] <= records[i].ttl && (ttls[i] == cap || ttls[i] == records[i].ttl)
  }

  /** `m` is the least of `y` and of the other two where present. */
  predicate IsLeastOf(m: nat, y: nat, a: Option<u32>, b: Option<u32>) {
    && m <= y && (a.Some? ==> m <= a.value) && (b.Some? ==> m <= b.value)
    && (m == y || (a.Some? && m == a.value) || (b.Some? && m == b.value))
  }

  /** An SOA owned by an ancestor-or-self of one of the names. */
  ghost predicate IsAbove(r: Record, names: seq<Name>) {
    r.data.Start? && exists n | n in names :: r.name <= n
  }

  /** The lesser TTL of the first SOA at or above a name of the alias chain. */
  ghost predicate IsSoaTtl(q: Question, response: Message, ttl: nat) {
    var names := Chain(response.answers, q.name);
    exists i | 0 <= i < |response.authorities| ::
      var r := response.authorities[i];
      && IsAbove(r, names) && (forall j | 0 <= j < i :: !IsAbove(response.authorities[j], names))
      && ttl <= r.ttl && ttl <= r.data.minimum && (ttl == r.ttl || ttl == r.data.minimum)
  }

  lemma CapIs(records: seq<Record>, cap: u32)
    ensures CapsAll(records, cap, CapTtls(records, cap))
  {
  }

  lemma NegativeIs(config: Config, status: Status, soa: u32, alias: Option<u32>, denial: Option<u32>) returns (y: nat)
    ensures IsClamped(soa, LeastTtl(config, status), GreatestTtl(config, false), y)
    ensures IsLeastOf(NegativeLifespan(config, status, soa, alias, denial), y, alias, denial)
  {
    y := Clamp(soa, Floor(config, status), Max(config.negativeTtlMax, config.minTtl));
  }

  lemma SoaIs(q: Question, response: Message)
    requires var names := Chain(response.answers, q.name); BailiwickSoa(response.authorities, names).Some?
    ensures var r := BailiwickSoa(response.authorities, Chain(response.answers, q.name)).value;
            IsSoaTtl(q, response, Min(r.ttl, r.data.minimum))
  {
    FirstSoa(response.authorities, Chain(response.answers, q.name));
  }

  /** How long a denial lives: as its SOA says, within the configured range, but no
      longer than the aliases followed and, if Secure, the denial proof. */
  ghost predicate IsDenialLife(config: Config, q: Question, response: Message, status: Status, life: nat) {
    exists soa: nat, y: nat, alias, denial ::
      && IsSoaTtl(q, response, soa) && IsClamped(soa, LeastTtl(config, status), GreatestTtl(config, false), y)
      && IsChainTtl(response.answers, Chain(response.answers, q.name), alias)
      && (if status.Secure? then IsDenialTtl(AllRecords(response), denial) else denial == None)
      && IsLeastOf(life, y, alias, denial)
  }

  /** A denial lives that long, and its records no longer. */
  lemma NegativeLifetimes(config: Config, q: Question, response: Message, status: Status, now: nat, e: Entry)
    requires IsStored(config, q, response, status, now, e) && !IsAnswered(q, response)
    ensures IsDenialLife(config, q, response, status, e.lifespan)
    ensures CapsAll(response.answers, e.lifespan, e.answerTtls)
    ensures CapsAll(response.authorities, e.lifespan, e.authorityTtls)
    ensures CapsAll(response.additionals, e.lifespan, e.additionalTtls)
  {
    NegativeIsUnanswered(q, response);
    CapIs(response.answers, e.lifespan);
    CapIs(response.authorities, e.lifespan);
    CapIs(response.additionals, e.lifespan);
    var names := Chain(response.answers, q.name);
    var soa := BailiwickSoa(response.authorities, names).value;
    var alias, denial :|
      && IsChainTtl(response.answers, names, alias)
      && (if e.status.Secure? then IsDenialTtl(AllRecords(response), denial) else denial == None)
      && e.lifespan == NegativeLifespan(config, e.status, Min(soa.ttl, soa.data.minimum), alias, denial);
    SoaIs(q, response);
    var y := NegativeIs(config, status, Min(soa.ttl, soa.data.minimum), alias, denial);
  }
}

/** The response cache: what is stored, for how long, and what a hit serves. */
module ResponseCache {
  import opened Names
  import opened Messages

  const STALE_SERVE_TTL: u32 := 30
  const WRAP: nat := 0x1_0000_0000

  datatype Config = Config(
    enabled: bool, minTtl: u32, maxTtl: u32, negativeTtlMax: u32, serveStaleHours: u32, sizeMb: nat)

  datatype Status = Secure | Insecure | Indeterminate | Unchecked

  datatype Key = Key(question: Question, opcode: nat, dnssecOk: bool, checkingDisabled: bool, subnet: Option<seq<byte>>)

  /** A stored response; times in whole seconds. */
  datatype Entry = Entry(
    message: Message, storedAt: nat, lifespan: u32,
    answerTtls: seq<u32>, authorityTtls: seq<u32>, additionalTtls: seq<u32>,
    status: Status, bytes: u32)

  function Sat(x: nat): u32 { if x > U32_MAX then U32_MAX else x }

  function Min(a: u32, b: u32): u32 { if a < b then a else b }

  function Max(a: u32, b: u32): u32 { if a < b then b else a }

  function Clamp(x: u32, lo: u32, hi: u32): u32 { if x < lo then lo else if x > hi then hi else x }

  // ---- Lifetimes --------------------------------------------------------

  function ClampTtls(records: seq<Record>, lo: u32, hi: u32): seq<u32> {
    seq(|records|, i requires 0 <= i < |records| => Clamp(records[i].ttl, lo, hi))
  }

  function CapTtls(records: seq<Record>, cap: u32): seq<u32> {
    seq(|records|, i requires 0 <= i < |records| => Min(records[i].ttl, cap))
  }

  /** The least of `start` and `ttls`. */
  function Least(start: u32, ttls: seq<u32>): (m: u32)
    ensures m <= start && (forall t | t in ttls :: m <= t)
    ensures m == start || m in ttls
  {
    if ttls == [] then start
    else
      var rest := Least(start, ttls[..|ttls| - 1]);
      assert forall t | t in ttls :: t in ttls[..|ttls| - 1] || t == ttls[|ttls| - 1];
      Min(rest, ttls[|ttls| - 1])
  }

  predicate IsSoaFor(r: Record, names: seq<Name>) {
    r.data.Start? && exists n | n in names :: ZoneOf(r.name, n)
  }

  /** The first SOA whose owner is at or above a name on the chain. */
  function BailiwickSoa(authorities: seq<Record>, names: seq<Name>): (r: Option<Record>)
    ensures r.Some? ==> r.value in authorities && IsSoaFor(r.value, names)
    ensures r.None? ==> forall a | a in authorities :: !IsSoaFor(a, names)
  {
    if authorities == [] then None
    else if IsSoaFor(authorities[0], names) then Some(authorities[0])
    else BailiwickSoa(authorities[1..], names)
  }

  lemma {:induction false} FirstSoa(authorities: seq<Record>, names: seq<Name>)
    requires BailiwickSoa(authorities, names).Some?
    ensures exists i | 0 <= i < |authorities| ::
              && authorities[i] == BailiwickSoa(authorities, names).value
              && IsSoaFor(authorities[i], names) && forall j | 0 <= j < i :: !IsSoaFor(authorities[j], names)
  {
    if !IsSoaFor(authorities[0], names) {
      FirstSoa(authorities[1..], names);
      var i :| 0 <= i < |authorities| - 1 && authorities[1..][i] == BailiwickSoa(authorities, names).value
          && IsSoaFor(authorities[1..][i], names) && forall j | 0 <= j < i :: !IsSoaFor(authorities[1..][j], names);
      assert forall j | 0 < j < i + 1 :: authorities[j] == authorities[1..][j - 1];
      assert authorities[i + 1] == authorities[1..][i];
    }
  }

  predicate IsDenial(r: Record) { TypeOf(r).NSEC? || TypeOf(r).NSEC3? }

  predicate IsSignature(r: Record) { TypeOf(r).RRSIG? || TypeOf(r).SIG? }

  /** The shortest lifetime among denial records and signatures, when a denial
      record is present. */
  ghost predicate IsDenialTtl(records: seq<Record>, ttl: Option<u32>) {
    if forall r | r in records :: !IsDenial(r) then ttl.None?
    else
      && ttl.Some?
      && (forall r | r in records && (IsDenial(r) || IsSignature(r)) :: ttl.value <= r.ttl)
      && (exists r | r in records && (IsDenial(r) || IsSignature(r)) :: ttl.value == r.ttl)
  }

  predicate Cacheable(q: Question, response: Message) {
    && response.isResponse && !response.truncated
    && (response.rcode.NoError? || response.rcode.NxDomain?)
    && response.question == Some(q)
    && forall r | r in response.answers :: r.name in Chain(response.answers, q.name)
  }

  predicate IsNegative(q: Question, response: Message) {
    response.rcode.NxDomain?
    || !((q.qtype.ANY? && response.answers != []) || exists r | r in response.answers :: TypeOf(r) == q.qtype)
  }

  function Floor(config: Config, status: Status): u32 { if status.Secure? then 0 else config.minTtl }

  /** `e` is what storing `response` under `config` at `now` yields. */
  ghost predicate IsStored(config: Config, q: Question, response: Message, status: Status, now: nat, e: Entry) {
    && Cacheable(q, response)
    && e.message == response && e.storedAt == now && e.status == status
    && if IsNegative(q, response) then IsNegativeEntry(config, q, response, e) else IsPositiveEntry(config, response, e)
  }

  ghost predicate IsNegativeEntry(config: Config, q: Question, response: Message, e: Entry) {
    var names := Chain(response.answers, q.name);
    var soa := BailiwickSoa(response.authorities, names);
    && soa.Some?
    && (exists alias, denial ::
          && IsChainTtl(response.answers, names, alias)
          && (if e.status.Secure? then IsDenialTtl(AllRecords(response), denial) else denial == None)
          && e.lifespan == NegativeLifespan(config, e.status, Min(soa.value.ttl, soa.value.data.minimum), alias,
              denial))
    && e.answerTtls == CapTtls(response.answers, e.lifespan)
    && e.authorityTtls == CapTtls(response.authorities, e.lifespan)
    && e.additionalTtls == CapTtls(response.additionals, e.lifespan)
  }

  function NegativeLifespan(config: Config, status: Status, soaTtl: u32, alias: Option<u32>, denial: Option<u32>): u32 {
    var clamped := Clamp(soaTtl, Floor(config, status), Max(config.negativeTtlMax, config.minTtl));
    Min(Min(clamped, if alias.Some? then alias.value else U32_MAX), if denial.Some? then denial.value else U32_MAX)
  }

  ghost predicate IsPositiveEntry(config: Config, response: Message, e: Entry) {
    var lo, hi := Floor(config, e.status), Max(config.maxTtl, config.minTtl);
    var least := Least(Least(Least(U32_MAX, e.answerTtls), e.authorityTtls), e.additionalTtls);
    && e.answerTtls == ClampTtls(response.answers, lo, hi)
    && e.authorityTtls == ClampTtls(response.authorities, lo, hi)
    && e.additionalTtls == ClampTtls(response.additionals, lo, hi)
    && e.lifespan == if least == U32_MAX then config.minTtl else least
  }

  // ---- Reading ----------------------------------------------------------

  /** Age in seconds as the 32-bit value the code compares. */
  function Age(e: Entry, now: nat): u32
    requires e.storedAt <= now
  {
    (now - e.storedAt) % WRAP
  }

  function StaleWindow(config: Config): u32 { Sat(config.serveStaleHours * 3600) }

  function StaleLimit(config: Config, e: Entry): u32 { Sat(e.lifespan + StaleWindow(config)) }

  /** Records with the stored lifetimes reduced by `age`, not below zero. */
  function Decremented(records: seq<Record>, ttls: seq<u32>, age: u32): seq<Record> {
    seq(|records|, i requires 0 <= i < |records| =>
      if i < |ttls| then records[i].(ttl := if ttls[i] > age then ttls[i] - age else 0) else records[i])
  }

  predicate FreshAt(config: Config, e: Entry, now: nat)
    requires e.storedAt <= now
  {
    config.enabled && Age(e, now) < StaleLimit(config, e) && Age(e, now) < e.lifespan
  }

  function FreshMessage(e: Entry, now: nat): Message
    requires e.storedAt <= now
  {
    e.message.(answers := Decremented(e.message.answers, e.answerTtls, Age(e, now)),
               authorities := Decremented(e.message.authorities, e.authorityTtls, Age(e, now)),
               additionals := Decremented(e.message.additionals, e.additionalTtls, Age(e, now)))
  }

  predicate StaleAt(config: Config, e: Entry, now: nat)
    requires e.storedAt <= now
  {
    config.enabled && config.serveStaleHours != 0 && Age(e, now) < StaleLimit(config, e)
  }

  /** The records without DNSSEC ones, in order, with the stale lifetime. */
  function StaleRecords(records: seq<Record>): (r: seq<Record>)
    ensures forall x | x in r :: !IsDnssec(TypeOf(x)) && x.ttl == STALE_SERVE_TTL
  {
    if records == [] then []
    else
      var rest := StaleRecords(records[..|records| - 1]);
      var last := records[|records| - 1];
      if IsDnssec(TypeOf(last)) then rest else rest + [last.(ttl := STALE_SERVE_TTL)]
  }

  function StaleMessage(m: Message): Message {
    m.(authentic := false, answers := StaleRecords(m.answers),
       authorities := StaleRecords(m.authorities), additionals := StaleRecords(m.additionals))
  }
}

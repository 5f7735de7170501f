/** What an NSEC3 verdict says about the zone. */
module Nsec3Proofs {
  import opened Cyclic
  import opened Names
  import opened Zones
  import opened Nsec3

  /** A zone with its NSEC3 chain (section 7.1 of RFC 5155): the names that have
      a record, those whose record carries the opt-out flag, and the hash
      parameters of the chain. */
  datatype Signed = Signed(zone: Zone, chained: set<Name>, optOut: set<Name>, salt: seq<byte>, iterations: nat)

  function Dig(h: Hash, s: Signed, n: Name): Digest {
    match h(s.salt, s.iterations, n)
    case Some(d) => d
    case None => []
  }

  ghost function Digests(h: Hash, s: Signed): set<Digest> {
    set n | n in s.chained :: Dig(h, s, n)
  }

  /** The chain's record at `m` points to `next`. */
  ghost predicate Arc(h: Hash, s: Signed, m: Name, next: Digest) {
    m in s.chained && Follows(OctetsLess, Digests(h, s), Dig(h, s, m), next)
  }

  /** `n` exists but opt-out left it out of the chain. */
  ghost predicate Hidden(s: Signed, n: Name) {
    Exists(s.zone, n) && n !in s.chained
  }

  /** `n` hashes, and no other name of the chain has its digest. */
  ghost predicate Apart(h: Hash, s: Signed, n: Name) {
    h(s.salt, s.iterations, n).Some? && forall m | m in s.chained && Dig(h, s, m) == Dig(h, s, n) :: m == n
  }

  /** So it is for every name an evaluation of `q` hashes: the ancestors of `q`,
      itself included, and their wildcards. */
  ghost predicate Unconfused(h: Hash, s: Signed, q: Name) {
    forall p {:trigger BothApart(h, s, p)} | ZoneOf(p, q) :: BothApart(h, s, p)
  }

  ghost predicate BothApart(h: Hash, s: Signed, p: Name) { Apart(h, s, p) && Apart(h, s, p + [Star]) }

  /** Empty non-terminals above chained names are chained; what is left out are
      insecure delegations, and only inside opt-out arcs. No existing name collides
      with a chained one. */
  ghost predicate WellSigned(h: Hash, s: Signed) {
    && Valid(s.zone) && s.zone.apex in s.chained
    && (forall n {:trigger Exists(s.zone, n)} | n in s.chained :: Exists(s.zone, n))
    && (forall n {:trigger Apart(h, s, n)} | Exists(s.zone, n) :: Apart(h, s, n))
    && (forall n, p | n in s.chained && ZoneOf(p, n) && ZoneOf(s.zone.apex, p) :: p in s.chained)
    && (forall n | n in s.zone.nodes && n !in s.chained :: IsInsecure(s.zone.nodes[n]))
    && (forall n, m, next | Hidden(s, n) && Arc(h, s, m, next)
        && Inside(OctetsLess, Dig(h, s, m), next, Dig(h, s, n)) ::
          m in s.optOut)
  }

  /** A delegation without DS; next to NS it owns no alias. */
  predicate IsInsecure(types: set<RType>) { IsDelegation(types) && DS !in types && CNAME !in types }

  ghost predicate LinkAt(h: Hash, s: Signed, r: Nsec3Record, m: Name) {
    && Arc(h, s, m, r.next)
    && r.ownerHash == Some(Dig(h, s, m)) && r.types == TypesAt(s.zone, m) && r.optOut == (m in s.optOut)
  }

  /** `r` is a record of the chain. */
  ghost predicate Link(h: Hash, s: Signed, r: Nsec3Record) {
    && r.zone == s.zone.apex && r.salt == s.salt && r.iterations == s.iterations
    && exists m :: LinkAt(h, s, r, m)
  }

  ghost predicate Genuine(h: Hash, s: Signed, records: seq<Nsec3Record>) {
    forall r | r in records :: Link(h, s, r)
  }

  // ---- Single records ---------------------------------------------------

  lemma MatchMeans(h: Hash, s: Signed, r: Nsec3Record, n: Name)
    requires WellSigned(h, s) && Link(h, s, r) && Matches(h, r, n) && Apart(h, s, n)
    ensures n in s.chained && r.types == TypesAt(s.zone, n)
  {
    var m :| LinkAt(h, s, r, m);
    assert Dig(h, s, m) == Dig(h, s, n);
  }

  lemma DigestOutsideChain(h: Hash, s: Signed, m: Name, next: Digest, n: Name)
    requires Arc(h, s, m, next) && Inside(OctetsLess, Dig(h, s, m), next, Dig(h, s, n))
    ensures n !in s.chained
  {
    OctetsOrdered();
    ArcHoldsNoMember(OctetsLess, Digests(h, s), Dig(h, s, m), next, Dig(h, s, n));
  }

  lemma CoverIsInside(h: Hash, s: Signed, r: Nsec3Record, m: Name, n: Name)
    requires LinkAt(h, s, r, m) && r.salt == s.salt && r.iterations == s.iterations
    ensures Covers(h, r, n) ==> Inside(OctetsLess, Dig(h, s, m), r.next, Dig(h, s, n))
    ensures && r.iterations <= MAX_ITERATIONS && n !in s.chained && Apart(h, s, n)
            && Inside(OctetsLess, Dig(h, s, m), r.next, Dig(h, s, n))
            ==> Covers(h, r, n)
  {
  }

  /** A covered name has no record, and can exist only under opt-out. */
  lemma CoverMeans(h: Hash, s: Signed, r: Nsec3Record, n: Name)
    requires WellSigned(h, s) && Link(h, s, r) && Covers(h, r, n)
    ensures n !in s.chained
    ensures Exists(s.zone, n) ==> r.optOut
  {
    var m :| LinkAt(h, s, r, m);
    CoverIsInside(h, s, r, m, n);
    DigestOutsideChain(h, s, m, r.next, n);
    assert Exists(s.zone, n) ==> Hidden(s, n);
  }

  lemma ArcsAgree(h: Hash, s: Signed, m: Name, next: Digest, m': Name, next': Digest, d: Digest)
    requires WellSigned(h, s) && Arc(h, s, m, next) && Arc(h, s, m', next')
    requires Inside(OctetsLess, Dig(h, s, m), next, d) && Inside(OctetsLess, Dig(h, s, m'), next', d)
    ensures m == m'
  {
    OctetsOrdered();
    ArcUnique(OctetsLess, Digests(h, s), Dig(h, s, m), next, Dig(h, s, m'), next', d);
    assert Exists(s.zone, m) && Apart(h, s, m);
  }

  /** Genuine records that cover the same name carry the same opt-out flag. */
  lemma CoversAgree(h: Hash, s: Signed, r: Nsec3Record, r': Nsec3Record, n: Name)
    requires WellSigned(h, s) && Link(h, s, r) && Link(h, s, r') && Covers(h, r, n) && Covers(h, r', n)
    ensures r.optOut == r'.optOut
  {
    var m :| LinkAt(h, s, r, m);
    var m' :| LinkAt(h, s, r', m');
    CoverIsInside(h, s, r, m, n);
    CoverIsInside(h, s, r', m', n);
    ArcsAgree(h, s, m, r.next, m', r'.next, Dig(h, s, n));
  }

  // ---- The walk ---------------------------------------------------------

  /** The walk's result has a record. */
  lemma WalkIsChained(h: Hash, s: Signed, relevant: seq<Nsec3Record>, q: Name)
    requires WellSigned(h, s) && Unconfused(h, s, q) && Genuine(h, s, relevant) && Walk(h, relevant, q).Some?
    ensures var c := Walk(h, relevant, q).value;
            c in s.chained && Exists(s.zone, c) && ZoneOf(c, q) && ZoneOf(s.zone.apex, c)
  {
    WalkSpec(h, relevant, q);
    var c := Walk(h, relevant, q).value;
    var r :| r in relevant && Matches(h, r, c);
    assert BothApart(h, s, c);
    MatchMeans(h, s, r, c);
  }

  /** A firm cover of the next closer name makes the walk's result the true
      closest encloser. */
  lemma WalkFindsEncloser(h: Hash, s: Signed, relevant: seq<Nsec3Record>, q: Name, cover: Nsec3Record)
    requires WellSigned(h, s) && Unconfused(h, s, q) && ZoneOf(s.zone.apex, q) && Genuine(h, s, relevant)
    requires Walk(h, relevant, q).Some? && Walk(h, relevant, q).value != q
    requires var c := Walk(h, relevant, q).value; |c| < |q| && Covers(h, cover, NextCloser(c, q))
    requires Link(h, s, cover) && !cover.optOut
    ensures ClosestEncloser(s.zone, q) == Walk(h, relevant, q).value
    ensures !Exists(s.zone, q)
  {
    var c := Walk(h, relevant, q).value;
    var nc := NextCloser(c, q);
    WalkIsChained(h, s, relevant, q);
    CoverMeans(h, s, cover, nc);
    EncloserIs(s.zone, q, c);
    if Exists(s.zone, q) { ExistsAbove(s.zone, nc, q); }
  }

  // ---- Soundness --------------------------------------------------------

  /** `n` is covered without opt-out. */
  predicate FirmAt(h: Hash, relevant: seq<Nsec3Record>, n: Name) {
    FirstCovering(h, relevant, n).Some? && !FirstCovering(h, relevant, n).value.optOut
  }

  /** The denial is of `q` itself or rests on covers without opt-out: of the next
      closer name and, for NXDOMAIN, of the wildcard. */
  ghost predicate Firm(h: Hash, records: seq<Nsec3Record>, q: Name, nxdomain: bool) {
    var relevant := Relevant(records, q);
    Walk(h, relevant, q).Some? &&
    var c := Walk(h, relevant, q).value;
    |c| < |q| ==> FirmAt(h, relevant, NextCloser(c, q)) && (nxdomain ==> FirmAt(h, relevant, c + [Star]))
  }

  /** The encloser walked to is a proper ancestor whose own record says that what is
      below belongs elsewhere: section 8.3 of RFC 5155 forbids such an encloser. */
  predicate ShowsCut(h: Hash, records: seq<Nsec3Record>, q: Name) {
    var relevant := Relevant(records, q);
    Walk(h, relevant, q).Some? &&
    var c := Walk(h, relevant, q).value;
    c != q && exists r | r in relevant :: Matches(h, r, c) && IsCut(r.types)
  }

  lemma EncloserTypes(h: Hash, s: Signed, records: seq<Nsec3Record>, q: Name)
    requires WellSigned(h, s) && Unconfused(h, s, q) && Genuine(h, s, records) && Walk(h, Relevant(records, q), q).Some?
    ensures var c := Walk(h, Relevant(records, q), q).value;
            ShowsCut(h, records, q) <==> c != q && IsCut(TypesAt(s.zone, c))
  {
    var relevant := Relevant(records, q);
    RelevantMembers(records, q);
    WalkSpec(h, relevant, q);
    var c := Walk(h, relevant, q).value;
    assert BothApart(h, s, c);
    forall r | r in relevant && Matches(h, r, c) ensures r.types == TypesAt(s.zone, c) {
      MatchMeans(h, s, r, c);
    }
  }

  /** An NXDOMAIN verdict is Secure only over a next-closer cover without opt-out. */
  lemma NxdomainIsFirm(h: Hash, records: seq<Nsec3Record>, q: Name, t: RType)
    requires Evaluate(h, records, q, t, true) == Secure
    ensures var c := Walk(h, Relevant(records, q), q).value;
            ZoneOf(c, q) && c != q && FirmAt(h, Relevant(records, q), NextCloser(c, q))
            && exists r | r in Relevant(records, q) :: Covers(h, r, c + [Star])
  {
    WalkSpec(h, Relevant(records, q), q);
  }

  lemma MatchedDenial(h: Hash, s: Signed, relevant: seq<Nsec3Record>, n: Name, t: RType)
    requires WellSigned(h, s) && Genuine(h, s, relevant) && Apart(h, s, n)
    requires exists r | r in relevant :: Matches(h, r, n) && DeniesType(r.types, t)
    ensures Exists(s.zone, n) && DeniesType(TypesAt(s.zone, n), t)
  {
    var r :| r in relevant && Matches(h, r, n) && DeniesType(r.types, t);
    MatchMeans(h, s, r, n);
  }

  /** What is covered without opt-out does not exist. */
  lemma FirmIsAbsent(h: Hash, s: Signed, relevant: seq<Nsec3Record>, n: Name)
    requires WellSigned(h, s) && Genuine(h, s, relevant) && FirmAt(h, relevant, n)
    ensures !Exists(s.zone, n)
  {
    FirstCoveringSpec(h, relevant, n);
    CoverMeans(h, s, FirstCovering(h, relevant, n).value, n);
  }

  lemma SoundAtName(h: Hash, s: Signed, relevant: seq<Nsec3Record>, q: Name, t: RType)
    requires WellSigned(h, s) && Unconfused(h, s, q) && ZoneOf(s.zone.apex, q) && Genuine(h, s, relevant)
    requires exists r | r in relevant :: Matches(h, r, q) && DeniesType(r.types, t)
    ensures Lookup(s.zone, q, t) == if BelowCut(s.zone, q) then Referral else NoData
    ensures ClosestEncloser(s.zone, q) == q
  {
    assert BothApart(h, s, q);
    MatchedDenial(h, s, relevant, q, t);
    EncloserIs(s.zone, q, q);
    DeniesIsNoData(TypesAt(s.zone, q), t);
  }

  lemma SoundBelow(h: Hash, s: Signed, relevant: seq<Nsec3Record>, q: Name, t: RType, c: Name, nxdomain: bool)
    requires WellSigned(h, s) && Unconfused(h, s, q) && ZoneOf(s.zone.apex, q) && Genuine(h, s, relevant)
    requires ZoneOf(c, q) && !Exists(s.zone, q) && ClosestEncloser(s.zone, q) == c
    requires if nxdomain then FirmAt(h, relevant, c + [Star])
             else exists r | r in relevant :: Matches(h, r, c + [Star]) && DeniesType(r.types, t)
    ensures Lookup(s.zone, q, t) == if BelowCut(s.zone, q) then Referral else if nxdomain then NxDomain else NoData
  {
    if nxdomain {
      FirmIsAbsent(h, s, relevant, c + [Star]);
    } else {
      assert BothApart(h, s, c);
      MatchedDenial(h, s, relevant, c + [Star], t);
      DeniesIsNoData(TypesAt(s.zone, c + [Star]), t);
    }
  }

  /** The records behind a Secure verdict. */
  lemma SecureRests(h: Hash, records: seq<Nsec3Record>, q: Name, t: RType, nxdomain: bool)
    requires Evaluate(h, records, q, t, nxdomain) == Secure
    ensures Walk(h, Relevant(records, q), q).Some?
    ensures var relevant := Relevant(records, q);
            var c := Walk(h, relevant, q).value;
            ZoneOf(c, q) &&
            if c == q then !nxdomain && exists r | r in relevant :: Matches(h, r, q) && DeniesType(r.types, t)
            else nxdomain || exists r | r in relevant :: Matches(h, r, c + [Star]) && DeniesType(r.types, t)
  {
    WalkSpec(h, Relevant(records, q), q);
  }

  lemma SoundAboveCuts(h: Hash, s: Signed, records: seq<Nsec3Record>, q: Name, t: RType, nxdomain: bool)
    requires WellSigned(h, s) && Unconfused(h, s, q) && ZoneOf(s.zone.apex, q) && Genuine(h, s, records)
    requires Evaluate(h, records, q, t, nxdomain) == Secure && Firm(h, records, q, nxdomain)
    ensures Walk(h, Relevant(records, q), q) == Some(ClosestEncloser(s.zone, q))
    ensures Lookup(s.zone, q, t) == if BelowCut(s.zone, q) then Referral else if nxdomain then NxDomain else NoData
  {
    var relevant := Relevant(records, q);
    RelevantMembers(records, q);
    SecureRests(h, records, q, t, nxdomain);
    var c := Walk(h, relevant, q).value;
    if c == q {
      SoundAtName(h, s, relevant, q, t);
    } else {
      FirstCoveringSpec(h, relevant, NextCloser(c, q));
      WalkFindsEncloser(h, s, relevant, q, FirstCovering(h, relevant, NextCloser(c, q)).value);
      SoundBelow(h, s, relevant, q, t, c, nxdomain);
    }
  }

  /** Soundness: over genuine records of any chain, opt-out included, a firm
      Secure verdict finds the true encloser and is right, in kind too, exactly
      when the encloser's own record shows no cut. */
  lemma Nsec3Sound(h: Hash, s: Signed, records: seq<Nsec3Record>, q: Name, t: RType, nxdomain: bool)
    requires WellSigned(h, s) && Proper(s.zone) && Unconfused(h, s, q) && ZoneOf(s.zone.apex, q)
    requires Genuine(h, s, records)
    requires Evaluate(h, records, q, t, nxdomain) == Secure && Firm(h, records, q, nxdomain)
    ensures Walk(h, Relevant(records, q), q) == Some(ClosestEncloser(s.zone, q))
    ensures Lookup(s.zone, q, t) == if ShowsCut(h, records, q) then Referral else if nxdomain then NxDomain else NoData
  {
    SoundAboveCuts(h, s, records, q, t, nxdomain);
    EncloserTypes(h, s, records, q);
    CutAtEncloser(s.zone, q);
  }

  /** Without opt-out every Secure verdict is firm. */
  lemma NoOptOutIsFirm(h: Hash, s: Signed, records: seq<Nsec3Record>, q: Name, t: RType, nxdomain: bool)
    requires WellSigned(h, s) && Genuine(h, s, records) && s.optOut == {}
    requires Evaluate(h, records, q, t, nxdomain) == Secure
    ensures Firm(h, records, q, nxdomain)
  {
    var relevant := Relevant(records, q);
    RelevantMembers(records, q);
    WalkSpec(h, relevant, q);
    var c := Walk(h, relevant, q).value;
    if |c| < |q| {
      NoOptOutAt(h, s, relevant, NextCloser(c, q));
      NoOptOutAt(h, s, relevant, c + [Star]);
      if nxdomain { NxdomainIsFirm(h, records, q, t); }
    }
  }

  lemma NoOptOutAt(h: Hash, s: Signed, relevant: seq<Nsec3Record>, n: Name)
    requires Genuine(h, s, relevant) && s.optOut == {}
    ensures (exists r | r in relevant :: Covers(h, r, n)) ==> FirmAt(h, relevant, n)
    ensures FirstCovering(h, relevant, n).Some? ==> FirmAt(h, relevant, n)
  {
    FirstCoveringSpec(h, relevant, n);
    if FirstCovering(h, relevant, n).Some? { assert Link(h, s, FirstCovering(h, relevant, n).value); }
  }

  // ---- The whole chain --------------------------------------------------

  ghost predicate HasLink(h: Hash, s: Signed, records: seq<Nsec3Record>, m: Name) {
    exists r | r in records :: LinkAt(h, s, r, m)
  }

  ghost predicate WholeChain(h: Hash, s: Signed, records: seq<Nsec3Record>) {
    Genuine(h, s, records) && forall m {:trigger HasLink(h, s, records, m)} | m in s.chained ::
        HasLink(h, s, records, m)
  }

  /** The arc around the digest of a name without a record. */
  lemma ArcAround(h: Hash, s: Signed, n: Name) returns (m: Name, next: Digest)
    requires s.chained != {} && n !in s.chained && Apart(h, s, n)
    ensures Arc(h, s, m, next) && Inside(OctetsLess, Dig(h, s, m), next, Dig(h, s, n))
  {
    OctetsOrdered();
    var k :| k in s.chained;
    assert Dig(h, s, k) in Digests(h, s);
    var a, b := ArcExists(OctetsLess, Digests(h, s), Dig(h, s, n));
    m :| m in s.chained && Dig(h, s, m) == a;
    next := b;
  }

  /** Without opt-out every existing name has a record. */
  lemma NothingHidden(h: Hash, s: Signed, n: Name)
    requires WellSigned(h, s) && s.optOut == {} && Exists(s.zone, n)
    ensures n in s.chained
  {
    if n !in s.chained {
      assert Apart(h, s, n);
      var m, next := ArcAround(h, s, n);
      assert Hidden(s, n);
    }
  }

  lemma NextDigestUnique(h: Hash, s: Signed, m: Name, d: Digest, d': Digest)
    requires Arc(h, s, m, d) && Arc(h, s, m, d')
    ensures d == d'
  {
    OctetsOrdered();
    FollowerUnique(OctetsLess, Digests(h, s), Dig(h, s, m), d, d');
  }

  lemma WholeChainCovers(h: Hash, s: Signed, records: seq<Nsec3Record>, n: Name) returns (r: Nsec3Record)
    requires WellSigned(h, s) && WholeChain(h, s, records) && s.iterations <= MAX_ITERATIONS
    requires n !in s.chained && Apart(h, s, n)
    ensures r in records && Covers(h, r, n)
  {
    var m, next := ArcAround(h, s, n);
    assert HasLink(h, s, records, m);
    r :| r in records && LinkAt(h, s, r, m);
    assert Link(h, s, r);
    NextDigestUnique(h, s, m, next, r.next);
    CoverIsInside(h, s, r, m, n);
  }

  lemma WholeChainRelevant(h: Hash, s: Signed, records: seq<Nsec3Record>, q: Name)
    requires WholeChain(h, s, records) && s.iterations <= MAX_ITERATIONS && ZoneOf(s.zone.apex, q)
    ensures WholeChain(h, s, Relevant(records, q))
  {
    RelevantMembers(records, q);
    forall m | m in s.chained ensures HasLink(h, s, Relevant(records, q), m) {
      assert HasLink(h, s, records, m);
      var r :| r in records && LinkAt(h, s, r, m);
      assert Link(h, s, r);
    }
  }

  // ---- Stability --------------------------------------------------------

  ghost predicate Within(a: seq<Nsec3Record>, b: seq<Nsec3Record>) {
    forall r | r in a :: r in b
  }

  lemma RelevantWithin(a: seq<Nsec3Record>, b: seq<Nsec3Record>, q: Name)
    requires Within(a, b)
    ensures Within(Relevant(a, q), Relevant(b, q))
  {
    RelevantMembers(a, q);
    RelevantMembers(b, q);
  }

  /** More links keep the walk where a cover of the next closer name put it. */
  lemma WalkStays(h: Hash, s: Signed, a: seq<Nsec3Record>, b: seq<Nsec3Record>, q: Name)
    requires WellSigned(h, s) && Unconfused(h, s, q) && Genuine(h, s, b) && Within(a, b) && Walk(h, a, q).Some?
    requires var c := Walk(h, a, q).value; |c| < |q| ==> exists r | r in b :: Covers(h, r, NextCloser(c, q))
    ensures Walk(h, b, q) == Walk(h, a, q)
  {
    var c := Walk(h, a, q).value;
    WalkSpec(h, a, q);
    WalkSpec(h, b, q);
    WalkIsChained(h, s, b, q);
    var d := Walk(h, b, q).value;
    SameLine(c, d, q);
    if |c| < |d| {
      var r :| r in b && Covers(h, r, NextCloser(c, q));
      CoverMeans(h, s, r, NextCloser(c, q));
      WalkIsChained(h, s, a, q);
      SameLine(NextCloser(c, q), d, q);
      Above(s.zone.apex, c, NextCloser(c, q));
    }
  }

  /** The first cover of a name keeps its opt-out flag when links are added. */
  lemma CoverStays(h: Hash, s: Signed, a: seq<Nsec3Record>, b: seq<Nsec3Record>, n: Name)
    requires WellSigned(h, s) && Genuine(h, s, b) && Within(a, b) && FirstCovering(h, a, n).Some?
    ensures FirstCovering(h, b, n).Some? && FirstCovering(h, b, n).value.optOut == FirstCovering(h, a, n).value.optOut
  {
    FirstCoveringSpec(h, a, n);
    FirstCoveringSpec(h, b, n);
    CoversAgree(h, s, FirstCovering(h, a, n).value, FirstCovering(h, b, n).value, n);
  }

  /** Adding genuine links never takes a Secure verdict away. */
  lemma SecureStays(h: Hash, s: Signed, a: seq<Nsec3Record>, b: seq<Nsec3Record>, q: Name, t: RType, nxdomain: bool)
    requires WellSigned(h, s) && Unconfused(h, s, q) && Genuine(h, s, b) && Within(a, b)
    requires Evaluate(h, a, q, t, nxdomain) == Secure
    ensures Evaluate(h, b, q, t, nxdomain) == Secure
  {
    var ra, rb := Relevant(a, q), Relevant(b, q);
    RelevantWithin(a, b, q);
    RelevantMembers(b, q);
    WalkSpec(h, ra, q);
    var c := Walk(h, ra, q).value;
    if |c| < |q| {
      CoverStays(h, s, ra, rb, NextCloser(c, q));
      FirstCoveringSpec(h, rb, NextCloser(c, q));
    }
    WalkStays(h, s, ra, rb, q);
  }

  lemma {:induction false} WalkSameSet(h: Hash, a: seq<Nsec3Record>, b: seq<Nsec3Record>, cand: Name)
    requires Within(a, b) && Within(b, a)
    ensures Walk(h, a, cand) == Walk(h, b, cand)
  {
    assert (exists r | r in a :: Matches(h, r, cand)) <==> (exists r | r in b :: Matches(h, r, cand));
    if cand != [] { WalkSameSet(h, a, b, BaseName(cand)); }
  }

  lemma CoverSameSet(h: Hash, s: Signed, a: seq<Nsec3Record>, b: seq<Nsec3Record>, n: Name)
    requires WellSigned(h, s) && Genuine(h, s, a) && Within(a, b) && Within(b, a)
    ensures var x, y := FirstCovering(h, a, n), FirstCovering(h, b, n);
            x.Some? == y.Some? && (x.Some? ==> x.value.optOut == y.value.optOut)
  {
    if FirstCovering(h, a, n).Some? { CoverStays(h, s, a, b, n); }
    if FirstCovering(h, b, n).Some? { CoverStays(h, s, b, a, n); }
  }

  /** Over genuine links the verdict depends on neither order nor repetition. */
  lemma OrderIrrelevant(h: Hash, s: Signed, a: seq<Nsec3Record>, b: seq<Nsec3Record>, q: Name, t: RType, nxdomain: bool)
    requires WellSigned(h, s) && Genuine(h, s, a) && Within(a, b) && Within(b, a)
    ensures Evaluate(h, a, q, t, nxdomain) == Evaluate(h, b, q, t, nxdomain)
  {
    var ra, rb := Relevant(a, q), Relevant(b, q);
    RelevantWithin(a, b, q);
    RelevantWithin(b, a, q);
    RelevantMembers(a, q);
    WalkSameSet(h, ra, rb, q);
    WalkSpec(h, ra, q);
    if Walk(h, ra, q).Some? && Walk(h, ra, q).value != q {
      CoverSameSet(h, s, ra, rb, NextCloser(Walk(h, ra, q).value, q));
    }
  }

  function Capped(records: seq<Nsec3Record>): seq<Nsec3Record> {
    if records == [] then []
    else
      var rest := Capped(records[..|records| - 1]);
      if records[|records| - 1].iterations <= MAX_ITERATIONS then rest + [records[|records| - 1]] else rest
  }

  lemma {:induction false} CappedRelevant(records: seq<Nsec3Record>, q: Name)
    ensures Relevant(Capped(records), q) == Relevant(records, q)
  {
    if records != [] {
      var init := records[..|records| - 1];
      CappedRelevant(init, q);
      if records[|records| - 1].iterations <= MAX_ITERATIONS {
        assert Capped(records)[..|Capped(records)| - 1] == Capped(init);
      }
    }
  }

  /** Records above the iteration cap never influence a verdict. */
  lemma OverCapIgnored(h: Hash, records: seq<Nsec3Record>, q: Name, t: RType, nxdomain: bool)
    ensures Evaluate(h, records, q, t, nxdomain) == Evaluate(h, Capped(records), q, t, nxdomain)
  {
    CappedRelevant(records, q);
  }

  lemma {:induction false} RelevantJoins(a: seq<Nsec3Record>, b: seq<Nsec3Record>, q: Name)
    ensures Relevant(a + b, q) == Relevant(a, q) + Relevant(b, q)
  {
    if b == [] {
      assert a + b == a;
    } else {
      RelevantJoins(a, b[..|b| - 1], q);
      assert (a + b)[..|a + b| - 1] == a + b[..|b| - 1];
    }
  }

  /** Nor does a record of a zone that is not above the name. */
  lemma ForeignIgnored(h: Hash, a: seq<Nsec3Record>, r: Nsec3Record, b: seq<Nsec3Record>, q: Name, t: RType,
                       nxdomain: bool)
    requires !ZoneOf(r.zone, q)
    ensures Evaluate(h, a + [r] + b, q, t, nxdomain) == Evaluate(h, a + b, q, t, nxdomain)
  {
    RelevantJoins(a + [r], b, q);
    RelevantJoins(a, b, q);
    assert (a + [r])[..|a|] == a;
  }
}

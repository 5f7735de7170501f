/** What the whole NSEC3 chain proves, opt-out included. */
module Nsec3Completeness {
  import opened Cyclic
  import opened Names
  import opened Zones
  import opened Nsec3
  import opened Nsec3Proofs

  /** `c` is the longest ancestor-or-self of `q` that has a record. */
  ghost predicate IsLongest(s: Signed, q: Name, c: Name) {
    && c in s.chained && ZoneOf(c, q)
    && forall p | p in s.chained && ZoneOf(p, q) :: |p| <= |c|
  }

  /** The digest of `n` falls into an arc with the opt-out flag. */
  ghost predicate InOptOut(h: Hash, s: Signed, n: Name) {
    exists m, next :: Arc(h, s, m, next) && Inside(OctetsLess, Dig(h, s, m), next, Dig(h, s, n)) && m in s.optOut
  }

  /** All records of a chain within the iteration cap, and a name of its zone. */
  ghost predicate WholeProof(h: Hash, s: Signed, records: seq<Nsec3Record>, q: Name) {
    && WellSigned(h, s) && WholeChain(h, s, records) && s.iterations <= MAX_ITERATIONS
    && ZoneOf(s.zone.apex, q) && Unconfused(h, s, q)
  }

  // ---- What the whole chain shows ---------------------------------------

  lemma LinkMatches(h: Hash, s: Signed, records: seq<Nsec3Record>, n: Name) returns (r: Nsec3Record)
    requires WholeChain(h, s, records) && s.iterations <= MAX_ITERATIONS && n in s.chained && Apart(h, s, n)
    ensures r in records && Matches(h, r, n)
  {
    assert HasLink(h, s, records, n);
    r :| r in records && LinkAt(h, s, r, n);
    assert Link(h, s, r);
  }

  lemma ChainWalks(h: Hash, s: Signed, records: seq<Nsec3Record>, q: Name, c: Name)
    requires WholeProof(h, s, records, q) && IsLongest(s, q, c)
    ensures Walk(h, records, q) == Some(c)
  {
    assert BothApart(h, s, c);
    var r := LinkMatches(h, s, records, c);
    WalkSpec(h, records, q);
    WalkIsChained(h, s, records, q);
    SameLine(c, Walk(h, records, q).value, q);
  }

  /** A bitmap at `n` denies the type exactly when `n` has a record and answers
      NODATA. */
  lemma ChainDenies(h: Hash, s: Signed, records: seq<Nsec3Record>, n: Name, t: RType)
    requires WellSigned(h, s) && WholeChain(h, s, records) && s.iterations <= MAX_ITERATIONS && Apart(h, s, n)
    ensures (exists r | r in records :: Matches(h, r, n) && DeniesType(r.types, t)) <==>
              n in s.chained && NodeAnswer(TypesAt(s.zone, n), t).NoData?
  {
    DeniesIsNoData(TypesAt(s.zone, n), t);
    if n in s.chained {
      var r := LinkMatches(h, s, records, n);
      MatchMeans(h, s, r, n);
    }
    if exists r | r in records :: Matches(h, r, n) && DeniesType(r.types, t) {
      var r :| r in records && Matches(h, r, n) && DeniesType(r.types, t);
      MatchMeans(h, s, r, n);
    }
  }

  lemma CoverShowsArc(h: Hash, s: Signed, r: Nsec3Record, n: Name)
    requires WellSigned(h, s) && Link(h, s, r) && Covers(h, r, n)
    ensures r.optOut <==> InOptOut(h, s, n)
  {
    var m :| LinkAt(h, s, r, m);
    CoverIsInside(h, s, r, m, n);
    if InOptOut(h, s, n) {
      var m', next :| Arc(h, s, m', next) && Inside(OctetsLess, Dig(h, s, m'), next, Dig(h, s, n)) && m' in s.optOut;
      ArcsAgree(h, s, m, r.next, m', next, Dig(h, s, n));
    }
  }

  /** A name without a record is covered, with opt-out exactly inside such an arc. */
  lemma ChainCovers(h: Hash, s: Signed, records: seq<Nsec3Record>, n: Name)
    requires WellSigned(h, s) && WholeChain(h, s, records) && s.iterations <= MAX_ITERATIONS
    requires n !in s.chained && Apart(h, s, n)
    ensures FirstCovering(h, records, n).Some? && (FirstCovering(h, records, n).value.optOut <==> InOptOut(h, s, n))
    ensures exists r | r in records :: Covers(h, r, n)
  {
    var r := WholeChainCovers(h, s, records, n);
    FirstCoveringSpec(h, records, n);
    CoverShowsArc(h, s, FirstCovering(h, records, n).value, n);
  }

  lemma ChainedIsUncovered(h: Hash, s: Signed, records: seq<Nsec3Record>, n: Name)
    requires WellSigned(h, s) && Genuine(h, s, records) && n in s.chained
    ensures !exists r | r in records :: Covers(h, r, n)
  {
    if r :| r in records && Covers(h, r, n) { CoverMeans(h, s, r, n); }
  }

  // ---- The verdicts -----------------------------------------------------

  lemma VerdictAt(h: Hash, s: Signed, records: seq<Nsec3Record>, q: Name, t: RType)
    requires WholeProof(h, s, records, q) && q in s.chained
    ensures Evaluate(h, records, q, t, false)
            == if NodeAnswer(TypesAt(s.zone, q), t).NoData? then Secure else Incomplete
    ensures Evaluate(h, records, q, t, true) == Incomplete
  {
    var relevant := Relevant(records, q);
    WholeChainRelevant(h, s, records, q);
    ChainWalks(h, s, relevant, q, q);
    assert BothApart(h, s, q);
    ChainDenies(h, s, relevant, q, t);
  }

  lemma NodataBelow(h: Hash, s: Signed, relevant: seq<Nsec3Record>, q: Name, c: Name, t: RType)
    requires WholeProof(h, s, relevant, q) && IsLongest(s, q, c) && c != q
    ensures var w := c + [Star];
            WildcardNodata(h, relevant, q, c, t)
            == if c != [] && WildcardOf(c).Some? && w in s.chained && NodeAnswer(TypesAt(s.zone, w), t).NoData?
               then Secure else if InOptOut(h, s, NextCloser(c, q)) then OptOut else Incomplete
  {
    var nc := NextCloser(c, q);
    assert nc !in s.chained;
    assert BothApart(h, s, nc) && BothApart(h, s, c);
    ChainCovers(h, s, relevant, nc);
    ChainDenies(h, s, relevant, c + [Star], t);
  }

  lemma NxdomainBelow(h: Hash, s: Signed, relevant: seq<Nsec3Record>, q: Name, c: Name)
    requires WholeProof(h, s, relevant, q) && IsLongest(s, q, c) && c != q
    ensures Nxdomain(h, relevant, q, c)
            == if WildcardOf(c).None? then Incomplete else if InOptOut(h, s, NextCloser(c, q)) then OptOut
               else if c + [Star] !in s.chained then Secure else Incomplete
  {
    var nc, w := NextCloser(c, q), c + [Star];
    assert nc !in s.chained;
    assert BothApart(h, s, nc) && BothApart(h, s, c);
    ChainCovers(h, s, relevant, nc);
    if w in s.chained { ChainedIsUncovered(h, s, relevant, w); } else { ChainCovers(h, s, relevant, w); }
  }

  /** The verdicts below a proper ancestor the walk stops at. */
  lemma VerdictBelow(h: Hash, records: seq<Nsec3Record>, q: Name, c: Name, t: RType)
    requires Walk(h, Relevant(records, q), q) == Some(c) && c != q
    ensures ZoneOf(c, q) && |c| < |q|
    ensures Evaluate(h, records, q, t, false) == WildcardNodata(h, Relevant(records, q), q, c, t)
    ensures Evaluate(h, records, q, t, true) == Nxdomain(h, Relevant(records, q), q, c)
  {
    WalkSpec(h, Relevant(records, q), q);
  }

  /** Completeness, all three verdicts: over the whole chain, opt-out included, each
      verdict on a name is given by the longest ancestor-or-self that has a record,
      by its wildcard, and by whether the next closer name is in an opt-out arc. */
  lemma Nsec3Verdict(h: Hash, s: Signed, records: seq<Nsec3Record>, q: Name, c: Name, t: RType)
    requires WholeProof(h, s, records, q) && WellFormed(q) && IsLongest(s, q, c)
    ensures Evaluate(h, records, q, t, false) ==
              if c == q then if NodeAnswer(TypesAt(s.zone, q), t).NoData? then Secure else Incomplete
              else if c != [] && c + [Star] in s.chained && NodeAnswer(TypesAt(s.zone, c + [Star]), t).NoData?
              then Secure
              else if InOptOut(h, s, NextCloser(c, q)) then OptOut else Incomplete
    ensures Evaluate(h, records, q, t, true) ==
              if c == q || c == [] then Incomplete else if InOptOut(h, s, NextCloser(c, q)) then OptOut
              else if c + [Star] !in s.chained then Secure else Incomplete
  {
    if c == q {
      VerdictAt(h, s, records, q, t);
    } else {
      var relevant := Relevant(records, q);
      WholeChainRelevant(h, s, records, q);
      ChainWalks(h, s, relevant, q, c);
      VerdictBelow(h, records, q, c, t);
      if c != [] { WildcardBuilds(c, q); }
      NodataBelow(h, s, relevant, q, c, t);
      NxdomainBelow(h, s, relevant, q, c);
    }
  }

  // ---- Against the zone -------------------------------------------------

  lemma LongestExists(h: Hash, s: Signed, q: Name) returns (c: Name)
    requires WellSigned(h, s) && ZoneOf(s.zone.apex, q)
    ensures IsLongest(s, q, c) && ZoneOf(s.zone.apex, c)
  {
    c := q;
    while c !in s.chained
      invariant ZoneOf(s.zone.apex, c) && ZoneOf(c, q)
      invariant forall p | p in s.chained && ZoneOf(p, q) :: ZoneOf(p, c)
      decreases |c|
    {
      assert forall p | ZoneOf(p, c) && p != c :: ZoneOf(p, BaseName(c));
      c := BaseName(c);
    }
  }

  /** NODATA at a name with a record is proved exactly when it is the zone's
      answer. */
  lemma ChainedNodataExactly(h: Hash, s: Signed, records: seq<Nsec3Record>, q: Name, t: RType)
    requires WholeProof(h, s, records, q) && Proper(s.zone) && q in s.chained
    ensures Evaluate(h, records, q, t, false) == Secure <==> Lookup(s.zone, q, t).NoData?
  {
    VerdictAt(h, s, records, q, t);
    assert Exists(s.zone, q);
    ExistsAboveCuts(s.zone, q);
  }

  /** The next closer name of a hidden name is in an opt-out arc. */
  lemma HiddenIsInOptOut(h: Hash, s: Signed, q: Name, c: Name)
    requires WellSigned(h, s) && Unconfused(h, s, q) && ZoneOf(s.zone.apex, q) && Hidden(s, q)
    requires IsLongest(s, q, c) && ZoneOf(s.zone.apex, c)
    ensures c != q && InOptOut(h, s, NextCloser(c, q))
  {
    var nc := NextCloser(c, q);
    assert nc !in s.chained && BothApart(h, s, nc);
    Above(s.zone.apex, c, nc);
    ExistsAbove(s.zone, nc, q);
    assert Hidden(s, nc);
    var m, next := ArcAround(h, s, nc);
  }

  /** What opt-out left out of the chain is admitted by the whole chain: the question
      for its DS, which decides whether the delegation is unsigned, gets OptOut, or
      Secure from a wildcard beside it; its absence gets OptOut below every encloser
      but the root. */
  lemma HiddenIsAdmitted(h: Hash, s: Signed, records: seq<Nsec3Record>, q: Name, c: Name, t: RType)
    requires WholeProof(h, s, records, q) && WellFormed(q) && Hidden(s, q) && IsLongest(s, q, c)
    ensures Evaluate(h, records, q, t, false) ==
              if c != [] && c + [Star] in s.chained && NodeAnswer(TypesAt(s.zone, c + [Star]), t).NoData?
              then Secure else OptOut
    ensures Evaluate(h, records, q, t, true) == if c != [] then OptOut else Incomplete
  {
    assert Exists(s.zone, c);
    HiddenIsInOptOut(h, s, q, c);
    Nsec3Verdict(h, s, records, q, c, t);
  }

  /** Without opt-out the longest name with a record is the closest encloser. */
  lemma EncloserIsLongest(h: Hash, s: Signed, q: Name)
    requires WellSigned(h, s) && s.optOut == {} && ZoneOf(s.zone.apex, q)
    ensures IsLongest(s, q, ClosestEncloser(s.zone, q))
  {
    NothingHidden(h, s, ClosestEncloser(s.zone, q));
    forall p | p in s.chained && ZoneOf(p, q) ensures |p| <= |ClosestEncloser(s.zone, q)| {
      assert Exists(s.zone, p);
    }
  }

  /** Completeness without opt-out: the whole chain proves NXDOMAIN exactly when
      neither the name nor a wildcard for it exists and the closest encloser is not
      the root. So for a name not below a cut each negative answer is proved exactly
      when it is the zone's, except below the root. */
  lemma Nsec3Complete(h: Hash, s: Signed, records: seq<Nsec3Record>, q: Name, t: RType)
    requires WholeProof(h, s, records, q) && WellFormed(q) && s.optOut == {}
    ensures var e := ClosestEncloser(s.zone, q);
            var nodata, nxdomain := Evaluate(h, records, q, t, false), Evaluate(h, records, q, t, true);
            && (nxdomain == Secure <==> e != q && e != [] && !Exists(s.zone, e + [Star]))
            && (!BelowCut(s.zone, q) ==>
                  && (nodata == Secure <==> Lookup(s.zone, q, t).NoData? && (e == q || e != []))
                  && (nxdomain == Secure <==> Lookup(s.zone, q, t).NxDomain? && e != []))
  {
    var e := ClosestEncloser(s.zone, q);
    EncloserIsLongest(h, s, q);
    Nsec3Verdict(h, s, records, q, e, t);
    if e != q {
      if Exists(s.zone, q) { EncloserIs(s.zone, q, q); }
      if Exists(s.zone, e + [Star]) { NothingHidden(h, s, e + [Star]); }
    }
  }
}

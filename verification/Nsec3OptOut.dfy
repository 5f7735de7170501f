/** What an opt-out cover cannot exclude, and the exact limit it sets to Secure
    verdicts. */
module Nsec3OptOut {
  import opened Cyclic
  import opened Names
  import opened Zones
  import opened Nsec3
  import opened Nsec3Proofs

  // ---- A zone with one more delegation ----------------------------------

  /** The same chain over a zone that delegates `d`, and so owns nothing below. */
  function WithDelegation(s: Signed, d: Name): Signed {
    s.(zone := s.zone.(nodes := (map n | n in s.zone.nodes && !ZoneOf(d, n) :: s.zone.nodes[n])[d := {NS}]))
  }

  /** `d` has no record, its parent has one. */
  ghost predicate Attachable(s: Signed, d: Name) {
    d != [] && d !in s.chained && BaseName(d) in s.chained && ZoneOf(s.zone.apex, d)
  }

  lemma SameChain(h: Hash, s: Signed, d: Name)
    ensures var s' := WithDelegation(s, d);
            && (forall n :: Dig(h, s', n) == Dig(h, s, n))
            && Digests(h, s') == Digests(h, s)
            && (forall m, next :: Arc(h, s', m, next) <==> Arc(h, s, m, next))
  {
    assert forall n :: Dig(h, WithDelegation(s, d), n) == Dig(h, s, n);
    assert Digests(h, WithDelegation(s, d)) == Digests(h, s);
  }

  lemma SameApart(h: Hash, s: Signed, d: Name, n: Name)
    requires Apart(h, s, n)
    ensures Apart(h, WithDelegation(s, d), n)
  {
    SameChain(h, s, d);
  }

  /** Chained names are not below `d`. */
  lemma ChainedIsNotBelow(h: Hash, s: Signed, d: Name, m: Name)
    requires WellSigned(h, s) && Attachable(s, d) && m in s.chained
    ensures !ZoneOf(d, m)
  {
  }

  lemma SameLinks(h: Hash, s: Signed, d: Name, r: Nsec3Record)
    requires WellSigned(h, s) && Attachable(s, d) && Link(h, s, r)
    ensures Link(h, WithDelegation(s, d), r)
  {
    SameChain(h, s, d);
    var m :| LinkAt(h, s, r, m);
    ChainedIsNotBelow(h, s, d, m);
    assert LinkAt(h, WithDelegation(s, d), r, m);
  }

  /** Only `d` itself is new to the zone. */
  lemma OnlyNew(h: Hash, s: Signed, d: Name, n: Name)
    requires WellSigned(h, s) && Attachable(s, d)
    requires Exists(WithDelegation(s, d).zone, n) && n !in s.chained
    ensures n == d || Hidden(s, n)
  {
    var o :| o in WithDelegation(s, d).zone.nodes && ZoneOf(n, o);
    assert o == d && n != d ==> ZoneOf(n, BaseName(d));
  }

  /** Chained names still exist. */
  lemma ChainedStays(h: Hash, s: Signed, d: Name, n: Name)
    requires WellSigned(h, s) && Attachable(s, d) && n in s.chained
    ensures Exists(WithDelegation(s, d).zone, n)
  {
    assert Exists(s.zone, n);
    var o :| o in s.zone.nodes && ZoneOf(n, o);
    ChainedIsNotBelow(h, s, d, n);
    if ZoneOf(d, o) {
      if |n| <= |d| { SameLine(n, d, o); } else { SameLine(d, n, o); }
      assert d in WithDelegation(s, d).zone.nodes;
    } else {
      assert o in WithDelegation(s, d).zone.nodes;
    }
  }

  /** The new delegation lies only in the opt-out arc that covers it. */
  lemma NewNameInOptOut(h: Hash, s: Signed, d: Name, cover: Nsec3Record, m: Name, next: Digest)
    requires WellSigned(h, s) && Link(h, s, cover) && Covers(h, cover, d) && cover.optOut
    requires Arc(h, s, m, next) && Inside(OctetsLess, Dig(h, s, m), next, Dig(h, s, d))
    ensures m in s.optOut
  {
    var m0 :| LinkAt(h, s, cover, m0);
    CoverIsInside(h, s, cover, m0, d);
    ArcsAgree(h, s, m, next, m0, cover.next, Dig(h, s, d));
  }

  /** A covered name collides with nothing on the chain. */
  lemma CoveredIsApart(h: Hash, s: Signed, r: Nsec3Record, n: Name)
    requires WellSigned(h, s) && Link(h, s, r) && Covers(h, r, n)
    ensures Apart(h, s, n)
  {
    var m :| LinkAt(h, s, r, m);
    CoverIsInside(h, s, r, m, n);
    forall k | k in s.chained ensures Dig(h, s, k) != Dig(h, s, n) {
      if Dig(h, s, k) == Dig(h, s, n) { DigestOutsideChain(h, s, m, r.next, k); }
    }
  }

  lemma DelegationIsHashed(h: Hash, s: Signed, d: Name, cover: Nsec3Record)
    requires WellSigned(h, s) && Attachable(s, d) && Link(h, s, cover) && Covers(h, cover, d) && cover.optOut
    ensures var s' := WithDelegation(s, d);
            && (forall n {:trigger Apart(h, s', n)} | Exists(s'.zone, n) :: Apart(h, s', n))
            && (forall n, m, next | Hidden(s', n) && Arc(h, s', m, next)
                                    && Inside(OctetsLess, Dig(h, s', m), next, Dig(h, s', n)) :: m in s'.optOut)
  {
    var s' := WithDelegation(s, d);
    SameChain(h, s, d);
    CoveredIsApart(h, s, cover, d);
    forall n | Exists(s'.zone, n) ensures Apart(h, s', n) {
      if n !in s.chained { OnlyNew(h, s, d, n); } else { assert Exists(s.zone, n); }
      assert Apart(h, s, n);
      SameApart(h, s, d, n);
    }
    forall n, m, next | Hidden(s', n) && Arc(h, s', m, next) && Inside(OctetsLess, Dig(h, s', m), next, Dig(h, s', n))
      ensures m in s.optOut
    {
      OnlyNew(h, s, d, n);
      if n == d { NewNameInOptOut(h, s, d, cover, m, next); }
    }
  }

  /** An opt-out cover leaves room for an unsigned delegation: the extended zone is
      well signed by the same chain. */
  lemma DelegationFits(h: Hash, s: Signed, d: Name, cover: Nsec3Record)
    requires WellSigned(h, s) && Attachable(s, d) && Link(h, s, cover) && Covers(h, cover, d) && cover.optOut
    ensures WellSigned(h, WithDelegation(s, d))
  {
    var s' := WithDelegation(s, d);
    DelegationIsHashed(h, s, d, cover);
    ChainedIsNotBelow(h, s, d, s.zone.apex);
    assert Valid(s'.zone);
    forall n | n in s.chained ensures Exists(s'.zone, n) {
      ChainedStays(h, s, d, n);
    }
  }

  /** It stays proper when the parent is no cut. */
  lemma StaysProper(h: Hash, s: Signed, d: Name)
    requires WellSigned(h, s) && Attachable(s, d) && Proper(s.zone) && !IsCut(TypesAt(s.zone, BaseName(d)))
    ensures Proper(WithDelegation(s, d).zone)
  {
    var z' := WithDelegation(s, d).zone;
    var p := BaseName(d);
    assert Exists(s.zone, p);
    ExistsAboveCuts(s.zone, p);
    forall n, c | n in z'.nodes && c in z'.nodes && ZoneOf(c, n) && c != n ensures !IsCut(z'.nodes[c]) {
      if c != d {
        if n == d {
          SameLine(c, p, d);
        } else {
          assert !BelowCut(s.zone, n);
        }
      }
    }
  }

  // ---- Zones the records fit --------------------------------------------

  /** The records can come from the zone, and no name of this evaluation collides. */
  ghost predicate Fits(h: Hash, s: Signed, records: seq<Nsec3Record>, q: Name) {
    WellSigned(h, s) && Proper(s.zone) && Unconfused(h, s, q) && ZoneOf(s.zone.apex, q) && Genuine(h, s, records)
  }

  /** Every zone these records can come from answers `q` negatively. */
  ghost predicate Trusted(h: Hash, records: seq<Nsec3Record>, q: Name, t: RType) {
    forall s | Fits(h, s, records, q) :: Negative(Lookup(s.zone, q, t))
  }

  /** An opt-out cover leaves room for a delegation that the very same records fit,
      below a parent that is no cut. */
  lemma OptOutLeavesRoom(h: Hash, s: Signed, records: seq<Nsec3Record>, q: Name, d: Name, cover: Nsec3Record)
    requires Fits(h, s, records, q) && Attachable(s, d) && !IsCut(TypesAt(s.zone, BaseName(d)))
    requires Link(h, s, cover) && Covers(h, cover, d) && cover.optOut
    ensures Fits(h, WithDelegation(s, d), records, q)
  {
    var s' := WithDelegation(s, d);
    DelegationFits(h, s, d, cover);
    StaysProper(h, s, d);
    forall p | ZoneOf(p, q) ensures BothApart(h, s', p) {
      assert BothApart(h, s, p);
      SameApart(h, s, d, p);
      SameApart(h, s, d, p + [Star]);
    }
    forall r | r in records ensures Link(h, s', r) {
      SameLinks(h, s, d, r);
    }
  }

  lemma WildcardDelegatedIsNotNegative(z: Zone, q: Name, t: RType)
    requires Valid(z) && ZoneOf(z.apex, q) && !Exists(z, q) && t != DS
    requires var w := ClosestEncloser(z, q) + [Star]; w in z.nodes && z.nodes[w] == {NS}
    ensures !Negative(Lookup(z, q, t))
  {
    NodeExists(z, ClosestEncloser(z, q) + [Star]);
  }

  // ---- What a verdict over opt-out rests on -----------------------------

  /** `n` is covered with opt-out. */
  predicate OpenAt(h: Hash, relevant: seq<Nsec3Record>, n: Name) {
    FirstCovering(h, relevant, n).Some? && FirstCovering(h, relevant, n).value.optOut
  }

  /** The walk ends at a proper ancestor of `q`. */
  predicate WalksTo(h: Hash, relevant: seq<Nsec3Record>, q: Name, c: Name) {
    Walk(h, relevant, q) == Some(c) && ZoneOf(c, q) && c != q
  }

  /** The open name: the next closer one or, for a Secure NXDOMAIN, the wildcard. */
  function OpenName(c: Name, q: Name, wildcard: bool): Name
    requires |c| < |q|
  {
    if wildcard then c + [Star] else NextCloser(c, q)
  }

  lemma RestsOnOptOut(h: Hash, records: seq<Nsec3Record>, q: Name, t: RType, nxdomain: bool) returns (c: Name)
    requires var v := Evaluate(h, records, q, t, nxdomain);
             v == OptOut || (v == Secure && !Firm(h, records, q, nxdomain))
    ensures var relevant := Relevant(records, q);
            var secure := Evaluate(h, records, q, t, nxdomain) == Secure;
            && WalksTo(h, relevant, q, c) && |c| < |q|
            && OpenAt(h, relevant, OpenName(c, q, secure && nxdomain))
            && (secure && nxdomain ==> FirmAt(h, relevant, NextCloser(c, q)))
  {
    var relevant := Relevant(records, q);
    WalkSpec(h, relevant, q);
    c := Walk(h, relevant, q).value;
    if nxdomain && Evaluate(h, records, q, t, nxdomain) == Secure {
      NxdomainIsFirm(h, records, q, t);
      FirstCoveringSpec(h, relevant, c + [Star]);
    }
  }

  lemma OpenCover(h: Hash, s: Signed, records: seq<Nsec3Record>, q: Name, n: Name)
    requires Genuine(h, s, records) && OpenAt(h, Relevant(records, q), n)
    ensures var cover := FirstCovering(h, Relevant(records, q), n).value;
            Link(h, s, cover) && Covers(h, cover, n) && cover.optOut
  {
    RelevantMembers(records, q);
    FirstCoveringSpec(h, Relevant(records, q), n);
  }

  lemma OpenIsAttachable(h: Hash, s: Signed, records: seq<Nsec3Record>, q: Name, c: Name, wildcard: bool)
    requires Fits(h, s, records, q) && WalksTo(h, Relevant(records, q), q, c)
    requires OpenAt(h, Relevant(records, q), OpenName(c, q, wildcard))
    ensures Attachable(s, OpenName(c, q, wildcard)) && BaseName(OpenName(c, q, wildcard)) == c
  {
    var d := OpenName(c, q, wildcard);
    RelevantMembers(records, q);
    WalkIsChained(h, s, Relevant(records, q), q);
    OpenCover(h, s, records, q, d);
    CoverMeans(h, s, FirstCovering(h, Relevant(records, q), d).value, d);
    assert BaseName(d) == c;
    Above(s.zone.apex, c, d);
  }

  lemma OpenFits(h: Hash, s: Signed, records: seq<Nsec3Record>, q: Name, c: Name, wildcard: bool)
    requires Fits(h, s, records, q) && WalksTo(h, Relevant(records, q), q, c) && !ShowsCut(h, records, q)
    requires OpenAt(h, Relevant(records, q), OpenName(c, q, wildcard))
    ensures Fits(h, WithDelegation(s, OpenName(c, q, wildcard)), records, q)
  {
    var d := OpenName(c, q, wildcard);
    OpenIsAttachable(h, s, records, q, c, wildcard);
    EncloserTypes(h, s, records, q);
    OpenCover(h, s, records, q, d);
    OptOutLeavesRoom(h, s, records, q, d, FirstCovering(h, Relevant(records, q), d).value);
  }

  // ---- The exact limit --------------------------------------------------

  /** A visible cut is answered with a referral. */
  lemma CutIsNotTrusted(h: Hash, s: Signed, records: seq<Nsec3Record>, q: Name, t: RType)
    requires Fits(h, s, records, q) && ShowsCut(h, records, q)
    ensures !Trusted(h, records, q, t)
  {
    var c := Walk(h, Relevant(records, q), q).value;
    RelevantMembers(records, q);
    WalkIsChained(h, s, Relevant(records, q), q);
    EncloserTypes(h, s, records, q);
    assert BelowCut(s.zone, q);
  }

  lemma FirmIsTrusted(h: Hash, records: seq<Nsec3Record>, q: Name, t: RType, nxdomain: bool)
    requires Evaluate(h, records, q, t, nxdomain) == Secure && Firm(h, records, q, nxdomain) && !ShowsCut(h, records, q)
    ensures Trusted(h, records, q, t)
  {
    forall s | Fits(h, s, records, q) ensures Negative(Lookup(s.zone, q, t)) {
      Nsec3Sound(h, s, records, q, t, nxdomain);
    }
  }

  lemma OpenNextCloserIsNotTrusted(h: Hash, s: Signed, records: seq<Nsec3Record>, q: Name, t: RType, c: Name)
    requires Fits(h, s, records, q) && WalksTo(h, Relevant(records, q), q, c) && !ShowsCut(h, records, q)
    requires OpenAt(h, Relevant(records, q), NextCloser(c, q)) && (NextCloser(c, q) != q || t != DS)
    ensures !Trusted(h, records, q, t)
  {
    var d := NextCloser(c, q);
    OpenFits(h, s, records, q, c, false);
    NodeExists(WithDelegation(s, d).zone, d);
  }

  lemma OpenWildcardIsNotTrusted(h: Hash, s: Signed, records: seq<Nsec3Record>, q: Name, t: RType, c: Name)
    requires Fits(h, s, records, q) && WalksTo(h, Relevant(records, q), q, c) && !ShowsCut(h, records, q)
    requires OpenAt(h, Relevant(records, q), c + [Star]) && FirmAt(h, Relevant(records, q), NextCloser(c, q)) && t != DS
    ensures !Trusted(h, records, q, t)
  {
    var s' := WithDelegation(s, c + [Star]);
    OpenFits(h, s, records, q, c, true);
    RelevantMembers(records, q);
    FirmEncloser(h, s', Relevant(records, q), q, c);
    WildcardDelegatedIsNotNegative(s'.zone, q, t);
  }

  lemma FirmEncloser(h: Hash, s: Signed, relevant: seq<Nsec3Record>, q: Name, c: Name)
    requires WellSigned(h, s) && Unconfused(h, s, q) && ZoneOf(s.zone.apex, q) && Genuine(h, s, relevant)
    requires WalksTo(h, relevant, q, c) && FirmAt(h, relevant, NextCloser(c, q))
    ensures ClosestEncloser(s.zone, q) == c && !Exists(s.zone, q)
  {
    FirstCoveringSpec(h, relevant, NextCloser(c, q));
    WalkFindsEncloser(h, s, relevant, q, FirstCovering(h, relevant, NextCloser(c, q)).value);
  }

  /** What is hidden at an open name has no DS. */
  lemma OpenHasNoDs(h: Hash, s: Signed, records: seq<Nsec3Record>, q: Name, n: Name)
    requires WellSigned(h, s) && Genuine(h, s, records) && OpenAt(h, Relevant(records, q), n)
    ensures NodeAnswer(TypesAt(s.zone, n), DS).NoData?
  {
    OpenCover(h, s, records, q, n);
    CoverMeans(h, s, FirstCovering(h, Relevant(records, q), n).value, n);
  }

  /** A DS query is the exception, for NXDOMAIN and at the next closer name: a
      hidden delegation there has no DS either. */
  predicate DsExempt(h: Hash, records: seq<Nsec3Record>, q: Name, t: RType, nxdomain: bool) {
    t == DS && Walk(h, Relevant(records, q), q).Some?
    && (nxdomain || |Walk(h, Relevant(records, q), q).value| + 1 == |q|)
  }

  lemma DsNxdomainIsNegative(h: Hash, s: Signed, records: seq<Nsec3Record>, q: Name, c: Name)
    requires Fits(h, s, records, q) && WalksTo(h, Relevant(records, q), q, c) && !ShowsCut(h, records, q)
    requires OpenAt(h, Relevant(records, q), c + [Star]) && FirmAt(h, Relevant(records, q), NextCloser(c, q))
    ensures Negative(Lookup(s.zone, q, DS))
  {
    RelevantMembers(records, q);
    FirmEncloser(h, s, Relevant(records, q), q, c);
    EncloserTypes(h, s, records, q);
    CutAtEncloser(s.zone, q);
    OpenHasNoDs(h, s, records, q, c + [Star]);
  }

  lemma DsNodataIsNegative(h: Hash, s: Signed, records: seq<Nsec3Record>, q: Name, c: Name)
    requires Fits(h, s, records, q) && WalksTo(h, Relevant(records, q), q, c) && !ShowsCut(h, records, q)
    requires OpenAt(h, Relevant(records, q), q) && |c| + 1 == |q|
    requires exists r | r in Relevant(records, q) :: Matches(h, r, c + [Star]) && DeniesType(r.types, DS)
    ensures Negative(Lookup(s.zone, q, DS))
  {
    RelevantMembers(records, q);
    if Exists(s.zone, q) {
      ExistsAboveCuts(s.zone, q);
      OpenHasNoDs(h, s, records, q, q);
    } else {
      WalkIsChained(h, s, Relevant(records, q), q);
      assert q[..|c| + 1] == q;
      EncloserIs(s.zone, q, c);
      EncloserTypes(h, s, records, q);
      CutAtEncloser(s.zone, q);
      assert BothApart(h, s, c);
      MatchedDenial(h, s, Relevant(records, q), c + [Star], DS);
      DeniedByWildcard(s.zone, q, DS);
    }
  }

  lemma DsIsTrusted(h: Hash, records: seq<Nsec3Record>, q: Name, nxdomain: bool)
    requires Evaluate(h, records, q, DS, nxdomain) == Secure && !Firm(h, records, q, nxdomain)
    requires DsExempt(h, records, q, DS, nxdomain) && !ShowsCut(h, records, q)
    ensures Trusted(h, records, q, DS)
  {
    var c := RestsOnOptOut(h, records, q, DS, nxdomain);
    SecureRests(h, records, q, DS, nxdomain);
    forall s | Fits(h, s, records, q) ensures Negative(Lookup(s.zone, q, DS)) {
      if nxdomain {
        DsNxdomainIsNegative(h, s, records, q, c);
      } else {
        assert NextCloser(c, q) == q;
        DsNodataIsNegative(h, s, records, q, c);
      }
    }
  }

  /** The exact limit of a Secure verdict: it can be trusted in every zone its
      records fit if and only if the encloser's record shows no cut and the verdict
      is firm or exempt. */
  lemma Nsec3SoundExactly(h: Hash, s: Signed, records: seq<Nsec3Record>, q: Name, t: RType, nxdomain: bool)
    requires Fits(h, s, records, q) && Evaluate(h, records, q, t, nxdomain) == Secure
    ensures Trusted(h, records, q, t) <==>
              !ShowsCut(h, records, q) && (Firm(h, records, q, nxdomain) || DsExempt(h, records, q, t, nxdomain))
  {
    if ShowsCut(h, records, q) {
      CutIsNotTrusted(h, s, records, q, t);
    } else if Firm(h, records, q, nxdomain) {
      FirmIsTrusted(h, records, q, t, nxdomain);
    } else if DsExempt(h, records, q, t, nxdomain) {
      DsIsTrusted(h, records, q, nxdomain);
    } else {
      var c := RestsOnOptOut(h, records, q, t, nxdomain);
      if nxdomain {
        OpenWildcardIsNotTrusted(h, s, records, q, t, c);
      } else {
        OpenNextCloserIsNotTrusted(h, s, records, q, t, c);
      }
    }
  }

  /** A zone with these very records delegates `d` unsigned. */
  ghost predicate MayDelegate(h: Hash, records: seq<Nsec3Record>, q: Name, d: Name) {
    exists s :: Fits(h, s, records, q) && d in s.zone.nodes && d !in s.chained
  }

  /** Below a visible cut nothing is delegated. */
  lemma NoneBelowCut(h: Hash, s: Signed, records: seq<Nsec3Record>, q: Name, d: Name)
    requires Fits(h, s, records, q) && ShowsCut(h, records, q)
    requires var c := Walk(h, Relevant(records, q), q).value; ZoneOf(c, d) && c != d
    ensures d !in s.zone.nodes
  {
    var c := Walk(h, Relevant(records, q), q).value;
    RelevantMembers(records, q);
    WalkIsChained(h, s, Relevant(records, q), q);
    EncloserTypes(h, s, records, q);
    assert BelowCut(s.zone, d);
  }

  /** The OptOut verdict is no overreaction: exactly unless the records show a cut,
      the next closer name may be an unsigned delegation; and unless its DS is asked
      for, the name may not be denied at all. */
  lemma OptOutIsJustified(h: Hash, s: Signed, records: seq<Nsec3Record>, q: Name, t: RType, nxdomain: bool)
    returns (c: Name)
    requires Fits(h, s, records, q) && Evaluate(h, records, q, t, nxdomain) == OptOut
    ensures WalksTo(h, Relevant(records, q), q, c) && |c| < |q|
    ensures MayDelegate(h, records, q, NextCloser(c, q)) <==> !ShowsCut(h, records, q)
    ensures ShowsCut(h, records, q) || NextCloser(c, q) != q || t != DS ==> !Trusted(h, records, q, t)
  {
    c := RestsOnOptOut(h, records, q, t, nxdomain);
    var d := NextCloser(c, q);
    if ShowsCut(h, records, q) {
      CutIsNotTrusted(h, s, records, q, t);
      forall s' | Fits(h, s', records, q) ensures d !in s'.zone.nodes {
        NoneBelowCut(h, s', records, q, d);
      }
    } else {
      OpenFits(h, s, records, q, c, false);
      OpenIsAttachable(h, s, records, q, c, false);
      assert d in WithDelegation(s, d).zone.nodes && d !in WithDelegation(s, d).chained;
      if d != q || t != DS { OpenNextCloserIsNotTrusted(h, s, records, q, t, c); }
    }
  }
}

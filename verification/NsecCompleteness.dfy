/** When the whole NSEC chain proves the absence of a name. */
module NsecCompleteness {
  import opened Names
  import opened Zones
  import opened Nsec
  import opened NsecProofs
  import opened NsecExactness

  /** No `*` label between the apex and the first label of the name. */
  ghost predicate NoInnerStar(apex: Name, q: Name) {
    forall i | |apex| <= i < |q| - 1 :: q[i] != Star
  }

  /** In every zone at `apex` that holds neither `q` nor a wildcard for it, the
      whole chain proves NXDOMAIN unless the closest encloser is the root. */
  ghost predicate CompleteFor(apex: Name, q: Name)
    requires ZoneOf(apex, q)
  {
    forall z, records, t ::
      && Valid(z) && z.apex == apex && WholeChain(z, records)
      && !Exists(z, q) && ClosestEncloser(z, q) + [Star] !in z.nodes
      ==> (Evaluate(records, q, t, true, apex) == Secure <==> ClosestEncloser(z, q) != [])
  }

  lemma RelevantWholeChain(z: Zone, records: seq<NsecRecord>)
    requires Valid(z) && WholeChain(z, records)
    ensures WholeChain(z, Relevant(records, z.apex))
  {
    RelevantMembers(records, z.apex);
    forall o | o in z.nodes ensures HasOwner(Relevant(records, z.apex), o) {
      assert HasOwner(records, o);
    }
  }

  /** Over the whole chain of a zone that lacks the name, the verdict turns on
      the computed encloser alone. */
  lemma WholeChainVerdict(z: Zone, records: seq<NsecRecord>, q: Name, t: RType)
    requires Valid(z) && ZoneOf(z.apex, q) && WellFormed(q) && WholeChain(z, records) && !Exists(z, q)
    ensures var c := Closest(Relevant(records, z.apex), q, z.apex);
            Evaluate(records, q, t, true, z.apex) == Secure <==> c != [] && c + [Star] !in z.nodes
  {
    var relevant := Relevant(records, z.apex);
    var c := Closest(relevant, q, z.apex);
    RelevantWholeChain(z, records);
    RelevantMembers(records, z.apex);
    if c != [] && c + [Star] !in z.nodes {
      assert q !in z.nodes by {
        assert ZoneOf(q, q);
      }
      ClosestExists(z, relevant, q);
      var r := NonNodeIsCovered(z, relevant, q);
      var s := NonNodeIsCovered(z, relevant, c + [Star]);
      WildcardBuilds(c, q);
      SecureFrom(records, q, t, z.apex, r, s);
    } else if c != [] {
      UncoveredWildcard(z, records, q, t);
    }
  }

  /** Completeness, zone by zone: without an inner `*` in the name, the whole
      chain proves NXDOMAIN exactly when the closest encloser is not the root. */
  lemma NsecComplete(z: Zone, records: seq<NsecRecord>, q: Name, t: RType)
    requires Valid(z) && ZoneOf(z.apex, q) && WellFormed(q)
    requires WholeChain(z, records) && NoInnerStar(z.apex, q)
    requires !Exists(z, q) && ClosestEncloser(z, q) + [Star] !in z.nodes
    ensures Evaluate(records, q, t, true, z.apex) == Secure <==> ClosestEncloser(z, q) != []
  {
    RelevantWholeChain(z, records);
    WholeChainShowsEncloser(z, Relevant(records, z.apex), q);
    WholeChainVerdict(z, records, q, t);
  }

  lemma WholeChainShowsEncloser(z: Zone, records: seq<NsecRecord>, q: Name)
    requires Valid(z) && ZoneOf(z.apex, q) && WholeChain(z, records) && NoInnerStar(z.apex, q) && !Exists(z, q)
    requires ClosestEncloser(z, q) + [Star] !in z.nodes
    ensures Closest(records, q, z.apex) == ClosestEncloser(z, q)
  {
    var e := ClosestEncloser(z, q);
    ClosestExists(z, records, q);
    if |e| > |z.apex| {
      assert e[|e| - 1] == q[|e| - 1] != Star;
      var d :| d in z.nodes && ZoneOf(e, d);
      assert HasOwner(records, d);
      var r :| r in records && r.owner == d;
      ClimbStopsAtEncloser(z, q, d);
      ClosestAtLeast(records, q, z.apex, r);
    }
    SameLine(Closest(records, q, z.apex), e, q);
  }

  /** With the apex and the wildcard `*.<f>` as only links the encloser is `f`. */
  lemma WildcardShowsParent(apex: Name, q: Name, f: Name, r: NsecRecord, s: NsecRecord)
    requires ZoneOf(apex, f) && ZoneOf(f, q) && f != q && (f == apex || !IsWildcard(f))
    requires r.owner == apex && s.owner == f + [Star]
    ensures Relevant([r, s], apex) == [r, s]
    ensures Closest([r, s], q, apex) == f
  {
    PairUnfolds(r, s, q, apex);
    ShowsApex(apex, q, r);
    assert BaseName(s.owner) == f;
    if f == apex { ShowsApex(apex, q, s); } else { ShowsStart(apex, q, f, s); }
  }

  ghost function WildcardZone(apex: Name, f: Name): Zone {
    Zone(apex, map[f + [Star] := {A}][apex := {SOA}])
  }

  lemma WildcardChain(apex: Name, f: Name) returns (r: NsecRecord, s: NsecRecord)
    requires ZoneOf(apex, f)
    ensures WholeChain(WildcardZone(apex, f), [r, s]) && r.owner == apex && s.owner == f + [Star]
  {
    var e := f + [Star];
    var z := WildcardZone(apex, f);
    AncestorFirst(apex, e);
    NamesAsymmetric(apex, e);
    assert z.nodes.Keys == {apex, e, e};
    ChainOfThree(apex, e, e);
    r := NsecRecord(apex, e, {SOA});
    s := NsecRecord(e, apex, {A});
    assert r in [r, s] && s in [r, s];
    assert HasOwner([r, s], apex) && HasOwner([r, s], e);
  }

  lemma UncoveredWildcard(z: Zone, records: seq<NsecRecord>, q: Name, t: RType)
    requires Valid(z) && ZoneOf(z.apex, q) && Genuine(z, Relevant(records, z.apex))
    requires Closest(Relevant(records, z.apex), q, z.apex) + [Star] in z.nodes
    ensures Evaluate(records, q, t, true, z.apex) == Incomplete
  {
    var w := Closest(Relevant(records, z.apex), q, z.apex) + [Star];
    forall r | r in Relevant(records, z.apex) ensures !Covers(r, w) {
      if Covers(r, w) { CoveredIsNoNode(z, r, w); }
    }
  }

  /** Below an inner `*` the zone of the apex and that wildcard alone has a chain
      that proves nothing about `q`. */
  lemma InnerStarIsIncomplete(apex: Name, q: Name, f: Name)
    requires ZoneOf(apex, f) && ZoneOf(f + [Star], q) && f + [Star] != q
    requires f == apex || !IsWildcard(f)
    ensures ZoneOf(apex, q) && !CompleteFor(apex, q)
  {
    var e := f + [Star];
    var z := WildcardZone(apex, f);
    var r, s := WildcardChain(apex, f);
    WildcardShowsParent(apex, q, f, r, s);
    UncoveredWildcard(z, [r, s], q, A);
    assert forall n | n in z.nodes :: !ZoneOf(q[..|e| + 1], n) && !ZoneOf(q, n);
    assert ZoneOf(e, e) && Exists(z, e);
    EncloserIs(z, q, e);
    assert e + [Star] !in z.nodes;
  }

  lemma NoInnerStarIsComplete(apex: Name, q: Name)
    requires ZoneOf(apex, q) && WellFormed(q) && NoInnerStar(apex, q)
    ensures CompleteFor(apex, q)
  {
    forall z, records, t |
      && Valid(z) && z.apex == apex && WholeChain(z, records)
      && !Exists(z, q) && ClosestEncloser(z, q) + [Star] !in z.nodes
      ensures Evaluate(records, q, t, true, apex) == Secure <==> ClosestEncloser(z, q) != []
    {
      NsecComplete(z, records, q, t);
    }
  }

  lemma FirstInnerStarIsIncomplete(apex: Name, q: Name)
    requires ZoneOf(apex, q) && !NoInnerStar(apex, q)
    ensures !CompleteFor(apex, q)
  {
    var i := |apex|;
    while q[i] != Star
      invariant |apex| <= i < |q| - 1
      invariant forall j | |apex| <= j < i :: q[j] != Star
      decreases |q| - i
    {
      i := i + 1;
    }
    assert q[..i] + [Star] == q[..i + 1];
    InnerStarIsIncomplete(apex, q, q[..i]);
  }

  /** Completeness over all zones at an apex holds for exactly the names without
      an inner `*`. */
  lemma NsecCompleteExactly(apex: Name, q: Name)
    requires ZoneOf(apex, q) && WellFormed(q)
    ensures CompleteFor(apex, q) <==> NoInnerStar(apex, q)
  {
    if NoInnerStar(apex, q) {
      NoInnerStarIsComplete(apex, q);
    } else {
      FirstInnerStarIsIncomplete(apex, q);
    }
  }
}

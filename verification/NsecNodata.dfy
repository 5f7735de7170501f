/** When NSEC records prove that a name lacks a type. */
module NsecNodata {
  import opened Names
  import opened Zones
  import opened Nsec
  import opened NsecProofs
  import opened NsecExactness
  import opened NsecCompleteness

  // ---- A node -----------------------------------------------------------

  /** Over genuine links a node's NODATA verdict turns on its own link. */
  lemma NodeVerdict(z: Zone, records: seq<NsecRecord>, q: Name, t: RType)
    requires Valid(z) && q in z.nodes && Genuine(z, records) && HasOwner(records, q)
    ensures Evaluate(records, q, t, false, z.apex) == Secure <==> DeniesType(z.nodes[q], t)
  {
    var relevant := Relevant(records, z.apex);
    RelevantMembers(records, z.apex);
    forall r | r in relevant ensures !Covers(r, q) && (r.owner == q ==> r.types == z.nodes[q]) {
      assert Link(z, r);
      if Covers(r, q) { CoveredIsNoNode(z, r, q); }
    }
    var r :| r in records && r.owner == q;
    assert r in relevant;
  }

  /** NODATA is complete at the nodes: with the node's own link among genuine
      ones, the verdict is Secure exactly when the zone answers NODATA. */
  lemma NodeNodataExactly(z: Zone, records: seq<NsecRecord>, q: Name, t: RType)
    requires Valid(z) && Proper(z) && q in z.nodes && Genuine(z, records) && HasOwner(records, q)
    ensures Evaluate(records, q, t, false, z.apex) == Secure <==> Lookup(z, q, t).NoData?
  {
    NodeVerdict(z, records, q, t);
    NodeExists(z, q);
    DeniesIsNoData(z.nodes[q], t);
  }

  /** So the link of a delegation without DS proves the delegation unsigned. */
  lemma UnsignedDelegationIsProved(z: Zone, records: seq<NsecRecord>, d: Name)
    requires Valid(z) && d in z.nodes && Genuine(z, records) && HasOwner(records, d)
    requires IsDelegation(z.nodes[d]) && DS !in z.nodes[d] && CNAME !in z.nodes[d]
    ensures Evaluate(records, d, DS, false, z.apex) == Secure
    ensures forall t | t != DS :: Evaluate(records, d, t, false, z.apex) == Incomplete
  {
    NodeVerdict(z, records, d, DS);
    forall t | t != DS ensures Evaluate(records, d, t, false, z.apex) == Incomplete {
      NodeVerdict(z, records, d, t);
    }
  }

  // ---- A name that is no node -------------------------------------------

  lemma SecureNodataRests(z: Zone, records: seq<NsecRecord>, q: Name, t: RType)
    requires Genuine(z, Relevant(records, z.apex)) && q !in z.nodes
    requires Evaluate(records, q, t, false, z.apex) == Secure
    ensures var w := Closest(Relevant(records, z.apex), q, z.apex) + [Star]; w in z.nodes && DeniesType(z.nodes[w], t)
  {
    var relevant := Relevant(records, z.apex);
    forall s | s in relevant ensures s.owner != q {
      assert Link(z, s);
    }
    var s := WildcardWitness(relevant, Closest(relevant, q, z.apex), t);
    assert Link(z, s);
  }

  /** Over the whole chain the verdict on a name that is no node turns on the
      wildcard of the computed encloser. */
  lemma WholeChainNodata(z: Zone, records: seq<NsecRecord>, q: Name, t: RType)
    requires Valid(z) && ZoneOf(z.apex, q) && WholeChain(z, records) && q !in z.nodes
    ensures var w := Closest(Relevant(records, z.apex), q, z.apex) + [Star];
            Evaluate(records, q, t, false, z.apex) == Secure <==> w in z.nodes && NodeAnswer(z.nodes[w], t).NoData?
  {
    var relevant := Relevant(records, z.apex);
    var w := Closest(relevant, q, z.apex) + [Star];
    RelevantWholeChain(z, records);
    if w in z.nodes && DeniesType(z.nodes[w], t) {
      var r := NonNodeIsCovered(z, relevant, q);
      assert HasOwner(relevant, w);
      var s :| s in relevant && s.owner == w;
      assert Link(z, s);
      NodataFrom(records, q, t, z.apex, r, s);
    }
    if Evaluate(records, q, t, false, z.apex) == Secure { SecureNodataRests(z, records, q, t); }
    if w in z.nodes { DeniesIsNoData(z.nodes[w], t); }
  }

  /** Without a lone `*` the label count tells a name from its ancestors. */
  lemma NoTie(apex: Name, q: Name, c: Name, e: Name)
    requires NoLoneStar(apex, q) && ZoneOf(c, q) && ZoneOf(e, q)
    requires |apex| < |e| < |q| && q[|e|] != Star && |c| <= |e| && NumLabels(e) <= NumLabels(c)
    ensures c == e
  {
    assert IsWildcard(e) ==> |e| >= 2 && q[|e| - 2] == Star;
    SameLine(c, e, q);
  }

  lemma WildcardOwnerClimbs(z: Zone, records: seq<NsecRecord>, q: Name, e: Name)
    requires Valid(z) && ZoneOf(z.apex, q) && WholeChain(z, records) && !Exists(z, q)
    requires e == ClosestEncloser(z, q) && e != [] && e + [Star] in z.nodes
    ensures NumLabels(e) <= NumLabels(Closest(records, q, z.apex))
  {
    var w := e + [Star];
    assert HasOwner(records, w);
    var r :| r in records && r.owner == w;
    assert BaseName(w) == e;
    ClimbStopsAtEncloser(z, q, w);
    ClosestAtLeast(records, q, z.apex, r);
  }

  /** Where a wildcard would answer, the whole chain shows the true encloser,
      unless a lone `*` ties with its parent in label count. */
  lemma WildcardShowsEncloser(z: Zone, records: seq<NsecRecord>, q: Name)
    requires Valid(z) && ZoneOf(z.apex, q) && WholeChain(z, records) && NoLoneStar(z.apex, q) && !Exists(z, q)
    requires ClosestEncloser(z, q) + [Star] in z.nodes
    ensures Closest(records, q, z.apex) == ClosestEncloser(z, q)
  {
    var e, c := ClosestEncloser(z, q), Closest(records, q, z.apex);
    ClosestExists(z, records, q);
    NextLabelIsNoStar(z, q);
    if |e| > |z.apex| {
      WildcardOwnerClimbs(z, records, q, e);
      NoTie(z.apex, q, c, e);
    }
    SameLine(c, e, q);
  }

  /** The wildcard that would answer owns nothing below a cut. */
  lemma WildcardAboveCuts(z: Zone, q: Name)
    requires Valid(z) && Proper(z) && ZoneOf(z.apex, q) && !Exists(z, q) && ClosestEncloser(z, q) + [Star] in z.nodes
    ensures !BelowCut(z, q)
  {
    var w := ClosestEncloser(z, q) + [Star];
    CutAtEncloser(z, q);
    assert ZoneOf(ClosestEncloser(z, q), w);
    assert !BelowCut(z, w);
  }

  /** Wildcard NODATA is complete: where a wildcard answers, the whole chain proves
      NODATA exactly when that is the zone's answer. */
  lemma WildcardNodataExactly(z: Zone, records: seq<NsecRecord>, q: Name, t: RType)
    requires Valid(z) && Proper(z) && ZoneOf(z.apex, q) && WholeChain(z, records) && NoLoneStar(z.apex, q)
    requires !Exists(z, q) && ClosestEncloser(z, q) + [Star] in z.nodes
    ensures Evaluate(records, q, t, false, z.apex) == Secure <==> Lookup(z, q, t).NoData?
  {
    assert q !in z.nodes by {
      assert ZoneOf(q, q);
    }
    RelevantWholeChain(z, records);
    WildcardShowsEncloser(z, Relevant(records, z.apex), q);
    WholeChainNodata(z, records, q, t);
    WildcardAboveCuts(z, q);
    NodeExists(z, ClosestEncloser(z, q) + [Star]);
  }

  /** That holds in every proper zone at `apex`. */
  ghost predicate NodataCompleteFor(apex: Name, q: Name)
    requires ZoneOf(apex, q)
  {
    forall z, records, t ::
      && Valid(z) && Proper(z) && z.apex == apex && WholeChain(z, records)
      && !Exists(z, q) && ClosestEncloser(z, q) + [Star] in z.nodes
      ==> (Evaluate(records, q, t, false, apex) == Secure <==> Lookup(z, q, t).NoData?)
  }

  // ---- A lone `*` -------------------------------------------------------

  /** The chain of the apex, `f` and `*.*.<f>`, listed from `f` on. */
  lemma LoneStarChain(apex: Name, f: Name) returns (r: NsecRecord, s: NsecRecord, a: NsecRecord)
    requires ZoneOf(apex, f)
    ensures WholeChain(InnerZone(apex, f, f, {A}), [r, s, a])
    ensures r.owner == f && s.owner == f + [Star, Star] && a.owner == apex
  {
    var z := InnerZone(apex, f, f, {A});
    var w := f + [Star, Star];
    if apex != f { AncestorFirst(apex, f); }
    AncestorFirst(f, w);
    AncestorFirst(apex, w);
    NamesAsymmetric(apex, w);
    NamesAsymmetric(f, w);
    assert z.nodes.Keys == {apex, f, w};
    ChainOfThree(apex, f, w);
    r := NsecRecord(f, w, z.nodes[f]);
    s := NsecRecord(w, apex, z.nodes[w]);
    a := NsecRecord(apex, if apex == f then w else f, z.nodes[apex]);
    HasAll(r, s, a);
  }

  lemma HasAll(r: NsecRecord, s: NsecRecord, a: NsecRecord)
    ensures HasOwner([r, s, a], r.owner) && HasOwner([r, s, a], s.owner) && HasOwner([r, s, a], a.owner)
  {
    assert r in [r, s, a] && s in [r, s, a] && a in [r, s, a];
  }

  /** A record at the apex changes nothing. */
  lemma ApexAddsNothing(apex: Name, q: Name, f: Name, a: NsecRecord)
    requires ZoneOf(apex, f) && ZoneOf(f, q) && !IsWildcard(f) && a.owner == apex
    ensures Better(f, a, q) == f
  {
    ClimbSpec(Start(apex), q);
  }

  lemma OneMore(records: seq<NsecRecord>, a: NsecRecord, q: Name, zone: Name)
    requires Relevant(records, zone) == records && ZoneOf(zone, a.owner)
    ensures Relevant(records + [a], zone) == records + [a]
    ensures Closest(records + [a], q, zone) == Better(Closest(records, q, zone), a, q)
  {
    assert (records + [a])[..|records|] == records;
  }

  /** The tie keeps the encloser at `f`. */
  lemma LoneStarCloses(apex: Name, q: Name, f: Name, r: NsecRecord, s: NsecRecord, a: NsecRecord)
    requires ZoneOf(apex, f) && !IsWildcard(f) && ZoneOf(f + [Star], q) && f + [Star] != q
    requires r.owner == f && s.owner == f + [Star, Star] && a.owner == apex
    ensures Relevant([r, s, a], apex) == [r, s, a] && Closest([r, s, a], q, apex) == f
  {
    InnerCloses(apex, q, f, r, s);
    assert [r, s] + [a] == [r, s, a];
    OneMore([r, s], a, q, apex);
    Above(f, f + [Star], q);
    ApexAddsNothing(apex, q, f, a);
  }

  lemma LoneStarAnswer(apex: Name, q: Name, f: Name)
    requires ZoneOf(apex, f) && ZoneOf(f + [Star], q) && |f| + 1 < |q| && q[|f| + 1] != Star
    ensures var z := InnerZone(apex, f, f, {A});
            && ZoneOf(apex, q) && Valid(z) && NoCuts(z) && Proper(z) && !Exists(z, q)
            && ClosestEncloser(z, q) == f + [Star] && f + [Star] !in z.nodes && Lookup(z, q, Other(16)).NoData?
  {
    var z := InnerZone(apex, f, f, {A});
    var e, w := f + [Star], f + [Star, Star];
    Above(f, e, q);
    Above(apex, f, q);
    assert ZoneOf(e, w) && ZoneOf(apex, e) && Exists(z, e);
    assert w == e + [Star] && q[..|e| + 1][|e|] != w[|e|];
    assert |e| != |f| && |e| != |w| && |e| != |apex|;
    assert forall n | n in z.nodes :: !ZoneOf(q[..|e| + 1], n) && !ZoneOf(q, n);
    EncloserIs(z, q, e);
    NodeExists(z, w);
  }

  lemma MissedWithout(z: Zone, records: seq<NsecRecord>, q: Name, t: RType, f: Name)
    requires Valid(z) && ZoneOf(z.apex, q) && WholeChain(z, records) && !Exists(z, q)
    requires Closest(Relevant(records, z.apex), q, z.apex) == f && f + [Star] !in z.nodes
    ensures Evaluate(records, q, t, false, z.apex) == Incomplete
  {
    if q in z.nodes { NodeExists(z, q); }
    WholeChainNodata(z, records, q, t);
  }

  lemma LoneStarIsMissed(apex: Name, q: Name, f: Name) returns (records: seq<NsecRecord>)
    requires ZoneOf(apex, f) && !IsWildcard(f) && ZoneOf(f + [Star], q) && |f| + 1 < |q| && q[|f| + 1] != Star
    ensures WholeChain(InnerZone(apex, f, f, {A}), records)
    ensures Evaluate(records, q, Other(16), false, apex) == Incomplete
  {
    var r, s, a := LoneStarChain(apex, f);
    records := [r, s, a];
    LoneStarCloses(apex, q, f, r, s, a);
    LoneStarAnswer(apex, q, f);
    MissedWithout(InnerZone(apex, f, f, {A}), records, q, Other(16), f);
  }

  /** Below a lone `*` there is a zone whose whole chain misses the NODATA that the
      wildcard `*.*.<f>` answers. */
  lemma LoneStarIsIncomplete(apex: Name, q: Name, f: Name)
    requires ZoneOf(apex, f) && !IsWildcard(f) && ZoneOf(f + [Star], q) && |f| + 1 < |q| && q[|f| + 1] != Star
    ensures ZoneOf(apex, q) && !NodataCompleteFor(apex, q)
  {
    var z := InnerZone(apex, f, f, {A});
    var records := LoneStarIsMissed(apex, q, f);
    LoneStarAnswer(apex, q, f);
    assert f + [Star] + [Star] == f + [Star, Star];
    assert ClosestEncloser(z, q) + [Star] in z.nodes;
  }

  /** Wildcard NODATA over whole chains is complete for exactly the names without
      a lone `*`. */
  lemma NodataCompleteExactly(apex: Name, q: Name)
    requires ZoneOf(apex, q)
    ensures NodataCompleteFor(apex, q) <==> NoLoneStar(apex, q)
  {
    if NoLoneStar(apex, q) {
      forall z, records, t |
        && Valid(z) && Proper(z) && z.apex == apex && WholeChain(z, records)
        && !Exists(z, q) && ClosestEncloser(z, q) + [Star] in z.nodes
        ensures Evaluate(records, q, t, false, apex) == Secure <==> Lookup(z, q, t).NoData?
      {
        WildcardNodataExactly(z, records, q, t);
      }
    } else {
      var i :| |apex| <= i < |q| - 1 && q[i] == Star && q[i + 1] != Star && !(i > 0 && q[i - 1] == Star);
      assert q[..i] + [Star] == q[..i + 1];
      LoneStarIsIncomplete(apex, q, q[..i]);
    }
  }

  // ---- An empty non-terminal --------------------------------------------

  lemma ClosestIsProper(z: Zone, records: seq<NsecRecord>, q: Name)
    requires Valid(z) && ZoneOf(z.apex, q) && q !in z.nodes
    ensures var c := Closest(records, q, z.apex); ZoneOf(c, q) && c != q && |z.apex| <= |c|
  {
    ClosestSpec(records, q, z.apex);
    var c := Closest(records, q, z.apex);
    if c != z.apex {
      var r :| r in records && Climb(Start(r.owner), q) == Some(c);
      ClimbSpec(Start(r.owner), q);
    }
  }

  /** From below an empty non-terminal the climb passes it and stops at its
      parent. */
  lemma ParentIsClimbed(q: Name, d: Name)
    requires ZoneOf(q, d) && q != d && BaseName(q) != []
    ensures Climb(Start(d), q) == Some(BaseName(q))
  {
    var p := BaseName(q);
    assert ZoneOf(q, Start(d));
    Above(p, q, Start(d));
    ClimbSpec(Start(d), q);
    SameLine(Climb(Start(d), q).value, p, q);
  }

  lemma ParentIsShown(z: Zone, records: seq<NsecRecord>, q: Name)
    requires Valid(z) && ZoneOf(z.apex, q) && WholeChain(z, records) && NoInnerStar(z.apex, q)
    requires Exists(z, q) && q !in z.nodes
    ensures Closest(records, q, z.apex) == BaseName(q)
  {
    var p := BaseName(q);
    ClosestIsProper(z, records, q);
    if |p| > |z.apex| {
      var d :| d in z.nodes && ZoneOf(q, d);
      assert HasOwner(records, d);
      var r :| r in records && r.owner == d;
      ParentIsClimbed(q, d);
      ClosestAtLeast(records, q, z.apex, r);
      assert NumLabels(p) == |p|;
    }
    SameLine(Closest(records, q, z.apex), p, q);
  }

  /** The zone answers NODATA at an empty non-terminal whatever the type, but the
      whole chain proves it exactly when a wildcard beside it lacks the type. */
  lemma NonTerminalNodataExactly(z: Zone, records: seq<NsecRecord>, q: Name, t: RType)
    requires Valid(z) && Proper(z) && ZoneOf(z.apex, q) && WholeChain(z, records) && NoInnerStar(z.apex, q)
    requires Exists(z, q) && q !in z.nodes
    ensures var w := BaseName(q) + [Star];
            Evaluate(records, q, t, false, z.apex) == Secure <==> w in z.nodes && NodeAnswer(z.nodes[w], t).NoData?
    ensures Lookup(z, q, t).NoData?
  {
    RelevantWholeChain(z, records);
    ParentIsShown(z, Relevant(records, z.apex), q);
    WholeChainNodata(z, records, q, t);
    ExistsAboveCuts(z, q);
  }
}

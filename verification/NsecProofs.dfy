/** What a Secure NSEC verdict says about the zone: soundness over every zone and
    every choice of its genuine links, for the names safe for the verdict. */
module NsecProofs {
  import opened Cyclic
  import opened Names
  import opened Zones
  import opened Nsec

  /** `r` is the link of the zone's chain at its owner. */
  ghost predicate Link(z: Zone, r: NsecRecord) {
    && r.owner in z.nodes && r.types == z.nodes[r.owner]
    && Follows(NameLess, z.nodes.Keys, r.owner, r.next)
  }

  ghost predicate Genuine(z: Zone, records: seq<NsecRecord>) {
    forall r | r in records :: Link(z, r)
  }

  /** Every link of the chain is among the records. */
  ghost predicate WholeChain(z: Zone, records: seq<NsecRecord>) {
    Genuine(z, records) && forall o {:trigger HasOwner(records, o)} | o in z.nodes :: HasOwner(records, o)
  }

  ghost predicate HasOwner(records: seq<NsecRecord>, o: Name) {
    exists r | r in records :: r.owner == o
  }

  /** The names for which a Secure verdict can be trusted. Below the label
      directly under the apex no label sorts before `*`, and a `*` followed by
      another label is itself preceded by a `*`. */
  ghost predicate Safe(apex: Name, q: Name) {
    && (forall i | |apex| < i < |q| :: !OctetsLess(q[i], Star))
    && NoLoneStar(apex, q)
  }

  ghost predicate NoLoneStar(apex: Name, q: Name) {
    forall i | |apex| <= i < |q| - 1 && q[i] == Star && q[i + 1] != Star :: i > 0 && q[i - 1] == Star
  }

  /** The search can settle on the ancestor of depth `k`, and a wildcard can be
      built there. */
  predicate Settles(apex: Name, q: Name, k: nat) {
    |apex| <= k < |q| && 0 < k && (k == |apex| || NumLabels(q[..k]) > NumLabels(apex))
  }

  /** The names for which a Secure NXDOMAIN can be trusted: the safe ones, in the
      root zone some more, and those where no legal label leaves room for a node
      between the path to the name and the wildcard of a shallower encloser. */
  ghost predicate SafeNxdomain(apex: Name, q: Name) {
    && (forall k: nat, i: nat | Settles(apex, q, k) && k < i < |q| && OctetsLess(q[i], Star) :: q[k] == LastBeforeStar)
    && (forall i | |apex| <= i < |q| - 1 && 0 < i && q[i] == Star && q[i + 1] != Star :: q[i - 1] == Star)
  }

  ghost predicate SafeFor(apex: Name, q: Name, nxdomain: bool) {
    if nxdomain then SafeNxdomain(apex, q) else Safe(apex, q)
  }

  /** The record covers what lies below its own owner, where the zone has a cut:
      the records section 4.1 of RFC 6840 forbids to deny anything with. */
  predicate ShowsCut(r: NsecRecord, q: Name) {
    Covers(r, q) && ZoneOf(r.owner, q) && IsCut(r.types)
  }

  predicate AnyShowsCut(relevant: seq<NsecRecord>, q: Name) {
    exists r | r in relevant :: ShowsCut(r, q)
  }

  // ---- Links and ranges -------------------------------------------------

  /** The owners are nodes; what the encloser search relies on. */
  ghost predicate Owned(z: Zone, records: seq<NsecRecord>) {
    forall r | r in records :: r.owner in z.nodes
  }

  lemma CoversIsInside(r: NsecRecord, n: Name)
    ensures Covers(r, n) <==> Inside(NameLess, r.owner, r.next, n)
  {
    NamesOrdered();
  }

  lemma CoveredIsNoNode(z: Zone, r: NsecRecord, n: Name)
    requires Link(z, r) && Covers(r, n)
    ensures n !in z.nodes
  {
    NamesOrdered();
    ArcHoldsNoMember(NameLess, z.nodes.Keys, r.owner, r.next, n);
  }

  /** The arc around `n` in the zone's chain. */
  lemma ArcAround(z: Zone, n: Name) returns (a: Name, b: Name)
    requires Valid(z) && n !in z.nodes
    ensures Follows(NameLess, z.nodes.Keys, a, b) && Inside(NameLess, a, b, n)
  {
    NamesOrdered();
    a, b := ArcExists(NameLess, z.nodes.Keys, n);
  }

  lemma LinkEndsAt(z: Zone, r: NsecRecord, b: Name)
    requires Link(z, r) && Follows(NameLess, z.nodes.Keys, r.owner, b)
    ensures r.next == b
  {
    NamesOrdered();
    FollowerUnique(NameLess, z.nodes.Keys, r.owner, b, r.next);
  }

  /** The whole chain leaves no gap: every name that is no node is covered. */
  lemma NonNodeIsCovered(z: Zone, records: seq<NsecRecord>, n: Name) returns (r: NsecRecord)
    requires Valid(z) && WholeChain(z, records) && n !in z.nodes
    ensures r in records && Covers(r, n)
  {
    var a, b := ArcAround(z, n);
    assert HasOwner(records, a);
    r :| r in records && r.owner == a;
    LinkEndsAt(z, r, b);
    CoversIsInside(r, n);
  }

  /** The record covering `q` follows every node that sorts before `q`. */
  lemma CoverStartsAfter(z: Zone, r: NsecRecord, q: Name, w: Name)
    requires Valid(z) && ZoneOf(z.apex, q)
    requires Link(z, r) && Covers(r, q) && w in z.nodes && NameLess(w, q)
    ensures NameLess(r.owner, q) && (w == r.owner || NameLess(w, r.owner))
  {
    NamesOrdered();
  }

  // ---- The computed encloser --------------------------------------------

  /** The computed encloser exists, so it is at or above the true one. */
  lemma ClosestExists(z: Zone, records: seq<NsecRecord>, q: Name)
    requires Valid(z) && ZoneOf(z.apex, q) && Owned(z, records)
    ensures var c := Closest(records, q, z.apex); Exists(z, c) && ZoneOf(c, q) && |c| <= |ClosestEncloser(z, q)|
  {
    ClosestSpec(records, q, z.apex);
    var c := Closest(records, q, z.apex);
    if c == z.apex {
      assert ZoneOf(z.apex, z.apex);
    } else {
      var r :| r in records && Climb(Start(r.owner), q) == Some(c);
      ClimbSpec(Start(r.owner), q);
      assert |c| >= |z.apex|;
      assert ZoneOf(c, r.owner);
    }
  }

  /** A climb that passes the true encloser stops there. */
  lemma ClimbStopsAtEncloser(z: Zone, q: Name, owner: Name)
    requires Valid(z) && ZoneOf(z.apex, q) && !Exists(z, q) && owner in z.nodes
    requires ClosestEncloser(z, q) != [] && ZoneOf(ClosestEncloser(z, q), Start(owner))
    ensures Climb(Start(owner), q) == Some(ClosestEncloser(z, q))
  {
    var e := ClosestEncloser(z, q);
    ClimbSpec(Start(owner), q);
    assert e != q;
    var c := Climb(Start(owner), q).value;
    SameLine(e, c, q);
    Above(z.apex, e, c);
    Above(c, Start(owner), owner);
    assert Exists(z, c);
  }

  /** If a wildcard could answer `q`, the owner of the covering record lies
      strictly below it. */
  lemma SubtreeOwner(z: Zone, r: NsecRecord, q: Name, e: Name)
    requires Valid(z) && ZoneOf(z.apex, q) && ZoneOf(e, q) && e != q
    requires Link(z, r) && Covers(r, q) && e + [Star] in z.nodes
    requires q[|e|] != Star && !OctetsLess(q[|e|], Star)
    ensures ZoneOf(e, r.owner) && e != r.owner
  {
    var w := e + [Star];
    StarFirst(q[|e|]);
    DivergeAt(w, q, |e|);
    CoverStartsAfter(z, r, q, w);
    SubtreeConvex(e, w, r.owner, q);
    AncestorFirst(e, w);
    NamesAsymmetric(e, w);
  }

  lemma StarFirst(l: Label)
    requires l != Star && !OctetsLess(l, Star)
    ensures OctetsLess(Star, l)
  {
    OctetsOrdered();
  }

  lemma NamesAsymmetric(a: Name, b: Name)
    requires NameLess(a, b)
    ensures a != b && !NameLess(b, a)
  {
    NamesOrdered();
  }

  /** The next closer name is never the wildcard that exists. */
  lemma NextLabelIsNoStar(z: Zone, q: Name)
    requires Valid(z) && ZoneOf(z.apex, q) && !Exists(z, q)
    requires ClosestEncloser(z, q) + [Star] in z.nodes
    ensures |ClosestEncloser(z, q)| < |q| && q[|ClosestEncloser(z, q)|] != Star
  {
    var e := ClosestEncloser(z, q);
    var w := e + [Star];
    SameLine(z.apex, e, q);
    assert ZoneOf(z.apex, w) && ZoneOf(w, w);
    assert Exists(z, w);
    assert q[|e|] == Star ==> ZoneOf(w, q);
  }

  lemma ClosestAtLeast(records: seq<NsecRecord>, q: Name, zone: Name, r: NsecRecord)
    requires r in records && Climb(Start(r.owner), q).Some?
    ensures NumLabels(Climb(Start(r.owner), q).value) <= NumLabels(Closest(records, q, zone))
  {
    ClosestSpec(records, q, zone);
  }

  /** Below the last legal label before `*`, the record covering the wildcard of a
      shallower encloser sits on the path to the name. */
  lemma LastLabelOnPath(z: Zone, s: NsecRecord, q: Name, c: Name, e: Name)
    requires Valid(z) && Legal(z) && Link(z, s) && Covers(s, c + [Star]) && ZoneOf(z.apex, c)
    requires ZoneOf(c, q) && ZoneOf(e, q) && |c| < |e| < |q| && e + [Star] in z.nodes && q[|c|] == LastBeforeStar
    ensures ZoneOf(q[..|c| + 1], s.owner)
  {
    var top, w := c + [Star], e + [Star];
    assert w[..|c|] == c && w[|c|] == LastBeforeStar;
    assert OctetsLess(LastBeforeStar, Star);
    DivergeAt(w, top, |c|);
    CoverStartsAfter(z, s, top, w);
    BetweenIsThere(s.owner, w, top, c);
    assert q[..|c| + 1] == c + [LastBeforeStar];
  }

  lemma BetweenIsThere(n: Name, w: Name, top: Name, c: Name)
    requires WellFormed(n) && ZoneOf(c, w) && |c| < |w| && w[|c|] == LastBeforeStar
    requires top == c + [Star] && NameLess(n, top) && (w == n || NameLess(w, n))
    ensures ZoneOf(c, n) && |c| < |n| && n[|c|] == LastBeforeStar
  {
    SubtreeConvex(c, w, n, top);
    AncestorFirst(c, w);
    NamesAsymmetric(c, w);
    assert c != n;
    assert |c| == |n| ==> c == n;
    LabelThere(n, w, top, c);
  }

  /** Between two names that part below `c` at the last legal label before `*` and
      at `*`, every legal name has that label. */
  lemma LabelThere(n: Name, w: Name, top: Name, c: Name)
    requires ZoneOf(c, n) && WellFormed(n) && |c| < |n| && ZoneOf(c, w) && |c| < |w| && w[|c|] == LastBeforeStar
    requires top == c + [Star] && NameLess(n, top) && (w == n || NameLess(w, n))
    ensures n[|c|] == LastBeforeStar
  {
    var l := n[|c|];
    assert IsLabel(l);
    OctetsOrdered();
    NamesOrdered();
    if OctetsLess(l, LastBeforeStar) {
      DivergeAt(n, w, |c|);
    } else if OctetsLess(LastBeforeStar, l) {
      NothingBetween(l);
      if l == Star {
        assert ZoneOf(top, n);
        if n != top { AncestorFirst(top, n); }
      } else {
        DivergeAt(top, n, |c|);
      }
    }
  }

  /** A record on the path shows an encloser there. */
  lemma PathIsShown(records: seq<NsecRecord>, q: Name, zone: Name, s: NsecRecord, nc: Name)
    requires s in records && nc != [] && nc[|nc| - 1] != Star && ZoneOf(nc, s.owner) && ZoneOf(nc, q) && nc != q
    ensures |nc| <= NumLabels(Closest(records, q, zone))
  {
    assert ZoneOf(nc, Start(s.owner));
    ClimbSpec(Start(s.owner), q);
    var c := Climb(Start(s.owner), q).value;
    SameLine(nc, c, q);
    assert |nc| <= NumLabels(c);
    ClosestAtLeast(records, q, zone, s);
  }

  lemma LastLabelIsShown(z: Zone, records: seq<NsecRecord>, q: Name, s: NsecRecord, c: Name, e: Name)
    requires Valid(z) && Legal(z) && s in records && Link(z, s) && Covers(s, c + [Star]) && ZoneOf(z.apex, c)
    requires ZoneOf(c, q) && ZoneOf(e, q) && |c| < |e| < |q| && e + [Star] in z.nodes && q[|c|] == LastBeforeStar
    ensures |c| < NumLabels(Closest(records, q, z.apex))
  {
    LastLabelOnPath(z, s, q, c, e);
    PathIsShown(records, q, z.apex, s, q[..|c| + 1]);
  }

  /** A shorter computed encloser means no early label at the true one. */
  lemma NoEarlyLabel(z: Zone, records: seq<NsecRecord>, q: Name, s: NsecRecord, e: Name, nxdomain: bool)
    requires Valid(z) && SafeFor(z.apex, q, nxdomain) && ZoneOf(z.apex, q) && ZoneOf(e, q) && e + [Star] in z.nodes
    requires var c := Closest(records, q, z.apex);
             && ZoneOf(z.apex, c) && ZoneOf(c, q) && |c| < |e| < |q|
             && (nxdomain ==> c != [] && Legal(z) && s in records && Link(z, s) && Covers(s, c + [Star]))
    ensures !OctetsLess(q[|e|], Star)
  {
    if nxdomain && OctetsLess(q[|e|], Star) {
      ClosestSettles(records, q, z.apex);
      LastLabelIsShown(z, records, q, s, Closest(records, q, z.apex), e);
    }
  }

  lemma ClosestSettles(records: seq<NsecRecord>, q: Name, zone: Name)
    requires var c := Closest(records, q, zone); ZoneOf(zone, c) && ZoneOf(c, q) && c != [] && |c| < |q|
    ensures Settles(zone, q, |Closest(records, q, zone)|)
  {
    ClosestSpec(records, q, zone);
    assert q[..|Closest(records, q, zone)|] == Closest(records, q, zone);
  }

  /** On a safe name the label count singles out the true encloser. */
  lemma LabelCountDecides(apex: Name, q: Name, c: Name, e: Name, nxdomain: bool)
    requires SafeFor(apex, q, nxdomain) && ZoneOf(c, q) && ZoneOf(e, q) && (nxdomain ==> c != [])
    requires |c| <= |e| && |apex| < |e| < |q| && q[|e|] != Star && NumLabels(e) <= NumLabels(c)
    ensures c == e
  {
    SameLine(c, e, q);
    assert IsWildcard(e) && |e| >= 2 ==> q[|e| - 1] == Star && q[|e| - 2] == Star;
  }

  /** If a wildcard could answer `q`, the records show the true encloser. */
  lemma EncloserFound(z: Zone, records: seq<NsecRecord>, q: Name, r: NsecRecord, s: NsecRecord, nxdomain: bool)
    requires Valid(z) && ZoneOf(z.apex, q) && Owned(z, records) && SafeFor(z.apex, q, nxdomain)
    requires r in records && Link(z, r) && Covers(r, q) && !Exists(z, q)
    requires ClosestEncloser(z, q) + [Star] in z.nodes
    requires nxdomain ==>
               var c := Closest(records, q, z.apex);
               c != [] && Legal(z) && s in records && Link(z, s) && Covers(s, c + [Star])
    ensures Closest(records, q, z.apex) == ClosestEncloser(z, q)
  {
    var e := ClosestEncloser(z, q);
    var c := Closest(records, q, z.apex);
    ClosestExists(z, records, q);
    NextLabelIsNoStar(z, q);
    if |c| < |e| {
      NoEarlyLabel(z, records, q, s, e, nxdomain);
      SubtreeOwner(z, r, q, e);
      ClimbStopsAtEncloser(z, q, r.owner);
      ClosestAtLeast(records, q, z.apex, r);
      LabelCountDecides(z.apex, q, c, e, nxdomain);
    } else {
      SameLine(c, e, q);
    }
  }

  // ---- Soundness --------------------------------------------------------

  /** The records behind a Secure verdict: one that denies the type at `q`, or
      one covering `q` and one that deals with the wildcard. */
  lemma SecureRests(records: seq<NsecRecord>, q: Name, t: RType, nxdomain: bool, zone: Name)
    returns (r: NsecRecord, s: NsecRecord)
    requires Evaluate(records, q, t, nxdomain, zone) == Secure
    ensures var relevant := Relevant(records, zone);
            var w := Closest(relevant, q, zone) + [Star];
            && r in relevant && s in relevant && (nxdomain ==> Closest(relevant, q, zone) != [])
            && (|| (!nxdomain && r.owner == q && DeniesType(r.types, t))
                || (Covers(r, q) && if nxdomain then Covers(s, w) else s.owner == w && DeniesType(s.types, t)))
  {
    var relevant := Relevant(records, zone);
    var closest := Closest(relevant, q, zone);
    if !nxdomain && AnyDenies(relevant, q, t) {
      r :| r in relevant && r.owner == q && DeniesType(r.types, t);
      s := r;
    } else {
      r := CoverWitness(relevant, q);
      if nxdomain {
        s := CoverWitness(relevant, closest + [Star]);
      } else {
        s := WildcardWitness(relevant, closest, t);
      }
    }
  }

  lemma CoverWitness(relevant: seq<NsecRecord>, n: Name) returns (r: NsecRecord)
    requires AnyCovers(relevant, n)
    ensures r in relevant && Covers(r, n)
  {
    r :| r in relevant && Covers(r, n);
  }

  lemma WildcardWitness(relevant: seq<NsecRecord>, c: Name, t: RType) returns (r: NsecRecord)
    requires AnyWildcardDenies(relevant, c, t)
    ensures r in relevant && r.owner == c + [Star] && DeniesType(r.types, t)
  {
    r :| r in relevant && IsWildcard(r.owner) && DeniesType(r.types, t) && BaseName(r.owner) == c;
  }

  /** Soundness up to cuts: for every zone and any of its genuine links, a Secure
      verdict on a safe name is right exactly when the name is not below a cut. */
  lemma SoundAboveCuts(z: Zone, records: seq<NsecRecord>, q: Name, t: RType, nxdomain: bool)
    requires Valid(z) && ZoneOf(z.apex, q) && Genuine(z, records) && SafeFor(z.apex, q, nxdomain)
    requires nxdomain ==> Legal(z)
    requires Evaluate(records, q, t, nxdomain, z.apex) == Secure
    ensures Negative(Lookup(z, q, t)) <==> !BelowCut(z, q)
  {
    var relevant := Relevant(records, z.apex);
    RelevantMembers(records, z.apex);
    var r, s := SecureRests(records, q, t, nxdomain, z.apex);
    assert Link(z, r) && Link(z, s) && Owned(z, relevant);
    if r.owner == q {
      NodeExists(z, q);
      DeniesIsNoData(TypesAt(z, q), t);
    } else {
      CoveredIsNoNode(z, r, q);
      var w := ClosestEncloser(z, q) + [Star];
      if !Exists(z, q) && w in z.nodes {
        EncloserFound(z, relevant, q, r, s, nxdomain);
        if nxdomain {
          CoveredIsNoNode(z, s, w);
        } else {
          NodeExists(z, w);
          DeniedByWildcard(z, q, t);
        }
      } else {
        NoWildcardNoAnswer(z, q, t);
      }
    }
  }

  /** The covering record tells whether the name is below a cut: it is, exactly if
      that record is the cut's own. */
  lemma CoverShowsCut(z: Zone, r: NsecRecord, q: Name)
    requires Valid(z) && Proper(z) && ZoneOf(z.apex, q) && Link(z, r) && Covers(r, q)
    ensures BelowCut(z, q) <==> ShowsCut(r, q)
  {
    forall c | c in z.nodes && ZoneOf(c, q) && c != q && IsCut(z.nodes[c]) ensures c == r.owner {
      AncestorFirst(c, q);
      CoverStartsAfter(z, r, q, c);
      SubtreeConvex(c, c, r.owner, q);
      assert !BelowCut(z, r.owner);
    }
  }

  lemma AnyCoverShowsCut(z: Zone, records: seq<NsecRecord>, q: Name)
    requires Valid(z) && Proper(z) && ZoneOf(z.apex, q) && Genuine(z, records)
    requires q in z.nodes || AnyCovers(records, q)
    ensures BelowCut(z, q) <==> AnyShowsCut(records, q)
  {
    forall r | r in records && Covers(r, q) ensures BelowCut(z, q) <==> ShowsCut(r, q) {
      CoverShowsCut(z, r, q);
      CoveredIsNoNode(z, r, q);
    }
  }

  /** Soundness: for every proper zone and any of its genuine links, a Secure
      verdict on a safe name is right exactly when no supplied record shows a cut
      above the name. */
  lemma NsecSound(z: Zone, records: seq<NsecRecord>, q: Name, t: RType, nxdomain: bool)
    requires Valid(z) && Proper(z) && ZoneOf(z.apex, q) && Genuine(z, records) && SafeFor(z.apex, q, nxdomain)
    requires nxdomain ==> Legal(z)
    requires Evaluate(records, q, t, nxdomain, z.apex) == Secure
    ensures Negative(Lookup(z, q, t)) <==> !AnyShowsCut(Relevant(records, z.apex), q)
  {
    SoundAboveCuts(z, records, q, t, nxdomain);
    RelevantMembers(records, z.apex);
    var r, s := SecureRests(records, q, t, nxdomain, z.apex);
    assert Link(z, r);
    AnyCoverShowsCut(z, Relevant(records, z.apex), q);
  }

  /** Exact NODATA needs neither a safe name nor a look for cuts: a record at the
      name itself denying the type is right for every name. */
  lemma ExactNodataSound(z: Zone, records: seq<NsecRecord>, q: Name, t: RType)
    requires Valid(z) && Proper(z) && ZoneOf(z.apex, q) && Genuine(z, records)
    requires AnyDenies(Relevant(records, z.apex), q, t)
    ensures Evaluate(records, q, t, false, z.apex) == Secure && Lookup(z, q, t).NoData?
  {
    RelevantMembers(records, z.apex);
    var r :| r in Relevant(records, z.apex) && r.owner == q && DeniesType(r.types, t);
    assert Link(z, r);
    NodeExists(z, q);
    DeniesIsNoData(r.types, t);
  }

  // ---- Which kind of denial ---------------------------------------------

  /** The covering record tells an empty non-terminal: the next name is below. */
  lemma CoverShowsNonTerminal(z: Zone, r: NsecRecord, q: Name)
    requires Valid(z) && ZoneOf(z.apex, q) && Link(z, r) && Covers(r, q)
    ensures Exists(z, q) <==> ZoneOf(q, r.next)
  {
    CoveredIsNoNode(z, r, q);
    forall o | o in z.nodes && ZoneOf(q, o) ensures ZoneOf(q, r.next) {
      AncestorFirst(q, o);
      NextIsBefore(z, r, q, o);
      SubtreeConvex(q, q, r.next, o);
    }
  }

  /** The next name of a record covering `q` is the first node after `q`. */
  lemma NextIsBefore(z: Zone, r: NsecRecord, q: Name, o: Name)
    requires Valid(z) && ZoneOf(z.apex, q) && Link(z, r) && Covers(r, q) && o in z.nodes && NameLess(q, o)
    ensures NameLess(q, r.next) && (r.next == o || NameLess(r.next, o))
  {
    NamesOrdered();
    if q != z.apex { AncestorFirst(z.apex, q); }
    assert NameLess(r.owner, r.next);
  }

  /** What a right denial of a covered name amounts to: NODATA exactly when the
      covering record shows an empty non-terminal or the wildcard exists that would
      answer, which the record covering that wildcard tells in the same way. */
  lemma DenialKind(z: Zone, r: NsecRecord, q: Name, t: RType)
    requires Valid(z) && ZoneOf(z.apex, q) && Link(z, r) && Covers(r, q) && Negative(Lookup(z, q, t))
    ensures Lookup(z, q, t).NoData? <==> ZoneOf(q, r.next) || Exists(z, ClosestEncloser(z, q) + [Star])
  {
    CoverShowsNonTerminal(z, r, q);
  }
}

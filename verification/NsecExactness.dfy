/** The conditions under which NSEC verdicts are sound are exact: for every other
    name there is a zone and a choice of its links that give a wrong verdict. */
module NsecExactness {
  import opened Orders
  import opened Cyclic
  import opened Names
  import opened Zones
  import opened Nsec
  import opened NsecProofs

  /** No Secure verdict of that kind for `q` over records that show no cut is ever
      wrong in a legal zone at `apex`, whatever its content, the supplied links and
      the type. */
  ghost predicate SoundFor(apex: Name, q: Name, nxdomain: bool)
    requires ZoneOf(apex, q)
  {
    forall z, records, t ::
      && Valid(z) && Proper(z) && Legal(z) && z.apex == apex && Genuine(z, records)
      && !AnyShowsCut(Relevant(records, apex), q) && Evaluate(records, q, t, nxdomain, apex) == Secure
      ==> Negative(Lookup(z, q, t))
  }

  // ---- How witnesses are put together -----------------------------------

  lemma ChainOfThree(a: Name, b: Name, c: Name)
    requires (a == b || NameLess(a, b)) && (b == c || NameLess(b, c)) && a != c
    ensures a != b ==> Follows(NameLess, {a, b, c}, a, b)
    ensures b != c ==> Follows(NameLess, {a, b, c}, b, c)
    ensures Follows(NameLess, {a, b, c}, c, a)
  {
    NamesOrdered();
  }

  /** No node is a cut. */
  ghost predicate NoCuts(z: Zone) {
    forall n | n in z.nodes :: NS !in z.nodes[n] && DNAME !in z.nodes[n]
  }

  /** Shared facts of the witness zones: `q` is answered from the wildcard
      directly below `e`. */
  lemma AnsweredFrom(z: Zone, q: Name, e: Name)
    requires Valid(z) && ZoneOf(z.apex, q) && ZoneOf(e, q) && e != q && ZoneOf(z.apex, e)
    requires e + [Star] in z.nodes && A in z.nodes[e + [Star]] && q[|e|] != Star && NoCuts(z)
    requires forall n | n in z.nodes && ZoneOf(q[..|e| + 1], n) :: n == e + [Star]
    ensures Lookup(z, q, A).Found?
  {
    var w := e + [Star];
    var nc := q[..|e| + 1];
    assert nc[|e|] != w[|e|];
    assert ZoneOf(e, w) && Exists(z, e);
    assert forall n | n in z.nodes :: !ZoneOf(nc, n);
    assert forall n | n in z.nodes && ZoneOf(q, n) :: ZoneOf(nc, n);
    EncloserIs(z, q, e);
    assert ZoneOf(w, w) && Exists(z, w);
  }

  /** How an NXDOMAIN verdict is assembled. */
  lemma SecureFrom(records: seq<NsecRecord>, q: Name, t: RType, zone: Name, r: NsecRecord, s: NsecRecord)
    requires ZoneOf(zone, q) && r in Relevant(records, zone) && s in Relevant(records, zone)
    requires forall x | x in Relevant(records, zone) :: x.owner != q
    requires var c := Closest(Relevant(records, zone), q, zone);
             Covers(r, q) && WildcardOf(c) == Some(c + [Star]) && Covers(s, c + [Star])
    ensures Evaluate(records, q, t, true, zone) == Secure
  {
  }

  /** How a wildcard NODATA verdict is assembled. */
  lemma NodataFrom(records: seq<NsecRecord>, q: Name, t: RType, zone: Name, r: NsecRecord, s: NsecRecord)
    requires ZoneOf(zone, q) && r in Relevant(records, zone) && s in Relevant(records, zone)
    requires Covers(r, q) && DeniesType(s.types, t)
    requires s.owner == Closest(Relevant(records, zone), q, zone) + [Star]
    ensures Evaluate(records, q, t, false, zone) == Secure
  {
    assert BaseName(s.owner) == Closest(Relevant(records, zone), q, zone);
  }

  /** A legal zone without cuts that answers `q`. */
  ghost predicate Answers(z: Zone, q: Name) {
    Valid(z) && Legal(z) && NoCuts(z) && ZoneOf(z.apex, q) && Lookup(z, q, A).Found?
  }

  lemma NoCutShown(z: Zone, records: seq<NsecRecord>, q: Name)
    requires NoCuts(z) && Genuine(z, records)
    ensures Proper(z) && !AnyShowsCut(Relevant(records, z.apex), q)
  {
    RelevantMembers(records, z.apex);
    forall x | x in Relevant(records, z.apex) ensures !ShowsCut(x, q) {
      assert Link(z, x);
    }
  }

  lemma RefutesAll(z: Zone, records: seq<NsecRecord>, q: Name, nxdomain: bool)
    requires Answers(z, q) && Genuine(z, records) && Evaluate(records, q, A, nxdomain, z.apex) == Secure
    ensures !SoundFor(z.apex, q, nxdomain)
  {
    NoCutShown(z, records, q);
  }

  lemma Refutes(z: Zone, r: NsecRecord, s: NsecRecord, q: Name, nxdomain: bool)
    requires Answers(z, q) && Link(z, r) && Link(z, s)
    requires Evaluate([r, s], q, A, nxdomain, z.apex) == Secure
    ensures !SoundFor(z.apex, q, nxdomain)
  {
    RefutesAll(z, [r, s], q, nxdomain);
  }

  lemma PairUnfolds(r: NsecRecord, s: NsecRecord, q: Name, zone: Name)
    requires ZoneOf(zone, r.owner) && ZoneOf(zone, s.owner)
    ensures Relevant([r, s], zone) == [r, s]
    ensures Closest([r, s], q, zone) == Better(Better(zone, r, q), s, q)
  {
    assert [r, s][..1] == [r] && [r][..0] == [];
    assert Relevant([r], zone) == [r] && Closest([r], q, zone) == Better(zone, r, q);
  }

  /** A record that starts its climb at or above the apex shows nothing new. */
  lemma ShowsApex(apex: Name, q: Name, r: NsecRecord)
    requires ZoneOf(apex, q) && ZoneOf(Start(r.owner), apex)
    ensures Better(apex, r, q) == apex
  {
    ClimbSpec(Start(r.owner), q);
    match Climb(Start(r.owner), q) {
      case Some(c) =>
        Above(c, Start(r.owner), apex);
      case None =>
    }
  }

  lemma StarIsNotBeforeItself()
    ensures !OctetsLess(Star, Star)
  {
    OctetsOrdered();
  }

  // An early label, NODATA: the wildcard of the apex denies the type, and a link
  // covers the name although `*.<encloser>` would answer.

  ghost function EarlyZone(apex: Name, q: Name, i: nat): Zone
    requires |apex| < i < |q|
  {
    Zone(apex, map[q[..i] + [Star] := {A}, apex + [Star] := {Other(16)}][apex := {SOA}])
  }

  lemma EarlyOrder(apex: Name, q: Name, i: nat)
    requires ZoneOf(apex, q) && |apex| < i < |q| && OctetsLess(q[i], Star)
    ensures var w := q[..i] + [Star];
            var top := apex + [Star];
            && NameLess(apex, q) && NameLess(q, w) && NameLess(apex, top) && NameLess(apex, w)
            && (if OctetsLess(q[|apex|], Star) then NameLess(w, top) else NameLess(top, q) && NameLess(top, w))
  {
    var w := q[..i] + [Star];
    var top := apex + [Star];
    AncestorFirst(apex, w);
    AncestorFirst(apex, q);
    AncestorFirst(apex, top);
    DivergeAt(q, w, i);
    if OctetsLess(q[|apex|], Star) {
      DivergeAt(w, top, |apex|);
    } else if q[|apex|] == Star {
      AncestorFirst(top, w);
      AncestorFirst(top, q);
    } else {
      StarFirst(q[|apex|]);
      DivergeAt(top, w, |apex|);
      DivergeAt(top, q, |apex|);
    }
  }

  lemma EarlyRecords(apex: Name, q: Name, i: nat) returns (r: NsecRecord, s: NsecRecord)
    requires ZoneOf(apex, q) && |apex| < i < |q| && OctetsLess(q[i], Star)
    ensures Link(EarlyZone(apex, q, i), r) && Link(EarlyZone(apex, q, i), s)
    ensures r.owner == apex && s.owner == apex + [Star] && s.types == {Other(16)}
    ensures Covers(r, q) || Covers(s, q)
  {
    var z := EarlyZone(apex, q, i);
    var w := q[..i] + [Star];
    var top := apex + [Star];
    EarlyOrder(apex, q, i);
    NamesAsymmetric(apex, w);
    NamesAsymmetric(apex, top);
    assert |w| > |top|;
    if OctetsLess(q[|apex|], Star) {
      assert z.nodes.Keys == {apex, w, top};
      ChainOfThree(apex, w, top);
      r, s := NsecRecord(apex, w, z.nodes[apex]), NsecRecord(top, apex, z.nodes[top]);
    } else {
      assert z.nodes.Keys == {apex, top, w};
      ChainOfThree(apex, top, w);
      r, s := NsecRecord(apex, top, z.nodes[apex]), NsecRecord(top, w, z.nodes[top]);
    }
  }

  lemma EarlySecure(apex: Name, q: Name, r: NsecRecord, s: NsecRecord)
    requires ZoneOf(apex, q) && r.owner == apex && s.owner == apex + [Star] && s.types == {Other(16)}
    requires Covers(r, q) || Covers(s, q)
    ensures Evaluate([r, s], q, A, false, apex) == Secure
  {
    PairUnfolds(r, s, q, apex);
    assert BaseName(s.owner) == apex;
    ShowsApex(apex, q, r);
    ShowsApex(apex, q, s);
    NodataFrom([r, s], q, A, apex, if Covers(r, q) then r else s, s);
  }

  lemma EarlyLegal(apex: Name, q: Name, i: nat)
    requires ZoneOf(apex, q) && WellFormed(q) && |apex| < i < |q|
    ensures var z := EarlyZone(apex, q, i); Valid(z) && Legal(z) && NoCuts(z)
  {
    WildcardLegal(q[..i], q);
    WildcardLegal(apex, q);
    AncestorLegal(apex, q);
  }

  lemma EarlyAnswer(apex: Name, q: Name, i: nat)
    requires ZoneOf(apex, q) && WellFormed(q) && |apex| < i < |q| && OctetsLess(q[i], Star)
    ensures Answers(EarlyZone(apex, q, i), q)
  {
    StarIsNotBeforeItself();
    EarlyLegal(apex, q, i);
    AnsweredFrom(EarlyZone(apex, q, i), q, q[..i]);
  }

  lemma EarlyLabelIsUnsound(apex: Name, q: Name, i: nat)
    requires ZoneOf(apex, q) && WellFormed(q) && |apex| < i < |q| && OctetsLess(q[i], Star)
    ensures !SoundFor(apex, q, false)
  {
    var r, s := EarlyRecords(apex, q, i);
    EarlySecure(apex, q, r, s);
    EarlyAnswer(apex, q, i);
    Refutes(EarlyZone(apex, q, i), r, s, q, false);
  }

  // An early label, NXDOMAIN: a node beside the path shows the encloser `c`, and
  // links cover the name and `*.<c>`.

  /** A legal label before `*` beside `a`, and behind it if `a` is before `*`. */
  ghost function BesideLabel(a: Label): Label
    requires IsLabel(a) && a != LastBeforeStar
  {
    if !OctetsLess(a, Star) then [0]
    else if |a| < 63 then a + [0]
    else if a[0] < 41 then [41]
    else
      BelowFull(a);
      var j :| 0 < j < |a| && a[j] < 255;
      a[..j] + [a[j] + 1]
  }

  lemma BelowFull(a: Label)
    requires |a| == 63 && OctetsLess(a, Star) && a[0] >= 41 && a != LastBeforeStar
    ensures a[0] == 41 && exists j :: 0 < j < |a| && a[j] < 255
  {
    assert Star[1..] == [] && !Lex(ByteLess, a[1..], []);
    if forall j | 0 < j < |a| :: a[j] == 255 { IsLast(a); }
  }

  lemma BesideLabelSpec(a: Label)
    requires IsLabel(a) && a != LastBeforeStar
    ensures var l := BesideLabel(a);
            && IsLabel(l) && |l| <= |a| + 1 && l != a && OctetsLess(l, Star)
            && (OctetsLess(a, Star) ==> OctetsLess(a, l))
  {
    BytesOrdered();
    if OctetsLess(a, Star) {
      assert Star[1..] == [] && !Lex(ByteLess, a[1..], []);
      if |a| < 63 {
        LexCommonPrefix(ByteLess, a, [], [0]);
        assert a + [] == a;
      } else if a[0] >= 41 {
        BelowFull(a);
        var l := BesideLabel(a);
        var j := |l| - 1;
        LexCommonPrefix(ByteLess, a[..j], a[j..], [a[j] + 1]);
        assert a[..j] + a[j..] == a;
      }
    }
  }

  /** A node directly below `c`, beside the path to `q`. */
  ghost function Beside(c: Name, q: Name): Name
    requires |c| < |q| && WellFormed(q) && q[|c|] != LastBeforeStar
  {
    assert IsLabel(q[|c|]);
    c + [BesideLabel(q[|c|])]
  }

  /** The early label sits at `i`, below the encloser `c` settled on. */
  ghost predicate Early(apex: Name, c: Name, q: Name, i: nat) {
    && ZoneOf(apex, c) && ZoneOf(c, q) && |c| < i < |q| && OctetsLess(q[i], Star)
    && WellFormed(q) && q[|c|] != LastBeforeStar
  }

  ghost function BesideZone(apex: Name, c: Name, q: Name, i: nat): Zone
    requires Early(apex, c, q, i)
  {
    Zone(apex, map[q[..i] + [Star] := {A}, Beside(c, q) := {A}][apex := {SOA}])
  }

  lemma BesideSpec(c: Name, q: Name)
    requires ZoneOf(c, q) && |c| + 1 < |q| && WellFormed(q) && q[|c|] != LastBeforeStar
    ensures var m := Beside(c, q);
            && WellFormed(m) && !IsWildcard(m) && !ZoneOf(m, q) && m != c + [Star] && m[..|c|] == c
            && m[|c|] != q[|c|] && OctetsLess(m[|c|], Star) && (OctetsLess(q[|c|], Star) ==> OctetsLess(q[|c|], m[|c|]))
  {
    assert IsLabel(q[|c|]) && c == q[..|c|];
    BesideLabelSpec(q[|c|]);
    StarIsNotBeforeItself();
    LegalBranch(q, |c|, BesideLabel(q[|c|]));
  }

  lemma BesideOrder(apex: Name, c: Name, q: Name, i: nat)
    requires Early(apex, c, q, i)
    ensures var w := q[..i] + [Star];
            var m := Beside(c, q);
            var top := c + [Star];
            && NameLess(apex, q) && NameLess(q, w) && NameLess(apex, w) && NameLess(apex, m) && NameLess(m, top)
            && (if OctetsLess(q[|c|], Star) then NameLess(w, m)
                else NameLess(m, w) && NameLess(m, q) && NameLess(top, w))
  {
    var w := q[..i] + [Star];
    var m := Beside(c, q);
    var top := c + [Star];
    BesideSpec(c, q);
    AncestorFirst(apex, q);
    AncestorFirst(apex, w);
    AncestorFirst(apex, m);
    DivergeAt(q, w, i);
    DivergeAt(m, top, |c|);
    if OctetsLess(q[|c|], Star) {
      DivergeAt(w, m, |c|);
    } else {
      BehindStar(c, q, w, m);
      BehindStar(c, q, q, m);
    }
  }

  /** What lies below `c` from `*` on is behind a node before `*`. */
  lemma BehindStar(c: Name, q: Name, w: Name, m: Name)
    requires ZoneOf(c, q) && |c| + 1 < |q| && !OctetsLess(q[|c|], Star) && ZoneOf(q[..|c| + 1], w) && |w| > |c| + 1
    requires ZoneOf(c, m) && |m| == |c| + 1 && OctetsLess(m[|c|], Star)
    ensures NameLess(m, w) && NameLess(c + [Star], w)
  {
    var top := c + [Star];
    assert w[|c|] == q[|c|];
    DivergeAt(m, top, |c|);
    if q[|c|] == Star {
      assert ZoneOf(top, w);
      AncestorFirst(top, w);
    } else {
      StarFirst(q[|c|]);
      DivergeAt(top, w, |c|);
    }
    NamesOrdered();
  }

  lemma BesideRecords(apex: Name, c: Name, q: Name, i: nat) returns (r: NsecRecord, s: NsecRecord)
    requires Early(apex, c, q, i)
    ensures Link(BesideZone(apex, c, q, i), r) && Link(BesideZone(apex, c, q, i), s)
    ensures r.owner == apex && s.owner == Beside(c, q)
    ensures (Covers(r, q) || Covers(s, q)) && Covers(s, c + [Star])
  {
    var z := BesideZone(apex, c, q, i);
    var w := q[..i] + [Star];
    var m := Beside(c, q);
    BesideOrder(apex, c, q, i);
    BesideSpec(c, q);
    NamesAsymmetric(apex, w);
    NamesAsymmetric(apex, m);
    if OctetsLess(q[|c|], Star) {
      NamesAsymmetric(w, m);
      assert z.nodes.Keys == {apex, w, m};
      ChainOfThree(apex, w, m);
      r, s := NsecRecord(apex, w, z.nodes[apex]), NsecRecord(m, apex, z.nodes[m]);
    } else {
      NamesAsymmetric(m, w);
      assert z.nodes.Keys == {apex, m, w};
      ChainOfThree(apex, m, w);
      r, s := NsecRecord(apex, m, z.nodes[apex]), NsecRecord(m, w, z.nodes[m]);
    }
  }

  /** Its climb ends at `c`. */
  lemma BesideShows(apex: Name, c: Name, q: Name, s: NsecRecord)
    requires ZoneOf(c, q) && |c| + 1 < |q| && c != [] && WellFormed(q) && q[|c|] != LastBeforeStar
    requires s.owner == Beside(c, q) && (c == apex || NumLabels(c) > NumLabels(apex))
    ensures Better(apex, s, q) == c
  {
    BesideSpec(c, q);
    assert BaseName(Beside(c, q)) == c;
    assert Climb(c, q) == Some(c);
  }

  lemma BesideCloses(apex: Name, c: Name, q: Name, r: NsecRecord, s: NsecRecord)
    requires ZoneOf(apex, c) && ZoneOf(c, q) && |c| + 1 < |q| && WellFormed(q) && q[|c|] != LastBeforeStar
    requires c != [] && (c == apex || NumLabels(c) > NumLabels(apex))
    requires r.owner == apex && s.owner == Beside(c, q)
    ensures Relevant([r, s], apex) == [r, s] && Closest([r, s], q, apex) == c && s.owner != q
  {
    BesideSpec(c, q);
    Above(apex, c, q);
    PairUnfolds(r, s, q, apex);
    ShowsApex(apex, q, r);
    BesideShows(apex, c, q, s);
  }

  lemma BesideSecure(apex: Name, c: Name, q: Name, r: NsecRecord, s: NsecRecord)
    requires ZoneOf(apex, c) && ZoneOf(c, q) && |c| + 1 < |q| && WellFormed(q) && q[|c|] != LastBeforeStar
    requires c != [] && (c == apex || NumLabels(c) > NumLabels(apex))
    requires r.owner == apex && s.owner == Beside(c, q) && (Covers(r, q) || Covers(s, q)) && Covers(s, c + [Star])
    ensures Evaluate([r, s], q, A, true, apex) == Secure
  {
    BesideCloses(apex, c, q, r, s);
    Above(apex, c, q);
    WildcardBuilds(c, q);
    SecureFrom([r, s], q, A, apex, if Covers(r, q) then r else s, s);
  }

  lemma BesideLegal(apex: Name, c: Name, q: Name, i: nat)
    requires Early(apex, c, q, i)
    ensures var z := BesideZone(apex, c, q, i); ZoneOf(apex, q) && Valid(z) && Legal(z) && NoCuts(z)
  {
    BesideSpec(c, q);
    Above(apex, c, q);
    WildcardLegal(q[..i], q);
    AncestorLegal(apex, q);
  }

  lemma BesideAnswer(apex: Name, c: Name, q: Name, i: nat)
    requires Early(apex, c, q, i)
    ensures Answers(BesideZone(apex, c, q, i), q)
  {
    StarIsNotBeforeItself();
    BesideLegal(apex, c, q, i);
    BesideSpec(c, q);
    assert !ZoneOf(q[..i + 1], Beside(c, q)) by {
      assert q[..i + 1][|c|] != Beside(c, q)[|c|];
    }
    assert !ZoneOf(q[..i + 1], apex);
    AnsweredFrom(BesideZone(apex, c, q, i), q, q[..i]);
  }

  lemma BesideRefutes(apex: Name, c: Name, q: Name, i: nat)
    requires Early(apex, c, q, i) && c != [] && (c == apex || NumLabels(c) > NumLabels(apex))
    ensures ZoneOf(apex, q) && !SoundFor(apex, q, true)
  {
    var r, s := BesideRecords(apex, c, q, i);
    BesideSecure(apex, c, q, r, s);
    BesideAnswer(apex, c, q, i);
    Refutes(BesideZone(apex, c, q, i), r, s, q, true);
  }

  lemma EarlyLabelSpoilsNxdomain(apex: Name, q: Name, k: nat, i: nat)
    requires ZoneOf(apex, q) && WellFormed(q) && Settles(apex, q, k) && k < i < |q|
    requires OctetsLess(q[i], Star) && q[k] != LastBeforeStar
    ensures !SoundFor(apex, q, true)
  {
    var c := q[..k];
    SameLine(apex, c, q);
    BesideRefutes(apex, c, q, i);
  }

  // A single inner `*` followed by another label: the tie in label count keeps
  // the encloser one too high.

  lemma TieKeepsParent(f: Name, q: Name, s: NsecRecord)
    requires ZoneOf(f + [Star], q) && f + [Star] != q && !IsWildcard(f) && s.owner == f + [Star, Star]
    ensures Better(f, s, q) == f
  {
    assert BaseName(s.owner) == f + [Star] && Climb(f + [Star], q) == Some(f + [Star]);
  }

  /** A record that starts its climb at `f` shows `f`. */
  lemma ShowsStart(apex: Name, q: Name, f: Name, r: NsecRecord)
    requires ZoneOf(apex, f) && ZoneOf(f, q) && f != q && !IsWildcard(f) && Start(r.owner) == f
    ensures Better(apex, r, q) == f
  {
    if f == apex {
      ShowsApex(apex, q, r);
    } else {
      assert Climb(f, q) == Some(f);
    }
  }

  lemma InnerOrder(apex: Name, q: Name, f: Name)
    requires ZoneOf(apex, f) && ZoneOf(f + [Star], q) && |f| + 1 < |q| && OctetsLess(Star, q[|f| + 1])
    ensures var e := f + [Star];
            var w := f + [Star, Star];
            && NameLess(f, e) && NameLess(e, w) && NameLess(f, w) && NameLess(apex, w) && NameLess(w, q)
            && NameLess(apex, e) && (apex == f || NameLess(apex, f))
  {
    AncestorFirst(f, f + [Star]);
    AncestorFirst(f + [Star], f + [Star, Star]);
    AncestorFirst(f, f + [Star, Star]);
    AncestorFirst(apex, f + [Star, Star]);
    AncestorFirst(apex, f + [Star]);
    if apex != f { AncestorFirst(apex, f); }
    assert (f + [Star, Star])[..|f| + 1] == f + [Star] == q[..|f| + 1];
    DivergeAt(f + [Star, Star], q, |f| + 1);
  }

  /** The wildcard `*.*.<f>` beside one other node: `f` for an NXDOMAIN verdict,
      `*.<f>` for a NODATA one. */
  ghost function InnerZone(apex: Name, f: Name, other: Name, types: set<RType>): Zone {
    Zone(apex, map[other := types, f + [Star, Star] := {A}][apex := {SOA}])
  }

  lemma InnerRecords(apex: Name, q: Name, f: Name, other: Name, types: set<RType>)
    returns (r: NsecRecord, s: NsecRecord)
    requires ZoneOf(apex, f) && ZoneOf(f + [Star], q) && |f| + 1 < |q| && OctetsLess(Star, q[|f| + 1])
    requires other == f || other == f + [Star]
    ensures Link(InnerZone(apex, f, other, types), r) && Link(InnerZone(apex, f, other, types), s)
    ensures r.owner == other && s.owner == f + [Star, Star] && (other != apex ==> r.types == types)
    ensures Covers(s, q) && (other == f ==> Covers(r, f + [Star]))
  {
    var z := InnerZone(apex, f, other, types);
    var w := f + [Star, Star];
    InnerOrder(apex, q, f);
    NamesAsymmetric(apex, w);
    NamesAsymmetric(other, w);
    assert z.nodes.Keys == {apex, other, w};
    ChainOfThree(apex, other, w);
    r := NsecRecord(other, w, z.nodes[other]);
    s := NsecRecord(w, apex, z.nodes[w]);
  }

  lemma InnerLegal(apex: Name, q: Name, f: Name, other: Name, types: set<RType>)
    requires ZoneOf(apex, f) && ZoneOf(f + [Star], q) && |f| + 1 < |q| && WellFormed(q)
    requires (other == f || other == f + [Star]) && NS !in types && DNAME !in types
    ensures var z := InnerZone(apex, f, other, types); ZoneOf(apex, q) && Valid(z) && Legal(z) && NoCuts(z)
  {
    assert f + [Star, Star] == f + [Star] + [Star];
    Above(f, f + [Star], q);
    Above(apex, f, q);
    AncestorLegal(apex, q);
    AncestorLegal(other, q);
    WildcardLegal(f + [Star], q);
  }

  lemma InnerAnswer(apex: Name, q: Name, f: Name, other: Name, types: set<RType>)
    requires ZoneOf(apex, f) && ZoneOf(f + [Star], q) && |f| + 1 < |q| && OctetsLess(Star, q[|f| + 1]) && WellFormed(q)
    requires (other == f || other == f + [Star]) && NS !in types && DNAME !in types
    ensures Answers(InnerZone(apex, f, other, types), q)
  {
    StarIsNotBeforeItself();
    InnerLegal(apex, q, f, other, types);
    assert f + [Star, Star] == f + [Star] + [Star];
    AnsweredFrom(InnerZone(apex, f, other, types), q, f + [Star]);
  }

  lemma InnerCloses(apex: Name, q: Name, f: Name, r: NsecRecord, s: NsecRecord)
    requires ZoneOf(apex, f) && !IsWildcard(f) && ZoneOf(f + [Star], q) && f + [Star] != q
    requires (r.owner == f || r.owner == f + [Star]) && s.owner == f + [Star, Star]
    ensures Relevant([r, s], apex) == [r, s] && Closest([r, s], q, apex) == f
  {
    PairUnfolds(r, s, q, apex);
    assert BaseName(f + [Star]) == f;
    Above(f, f + [Star], q);
    ShowsStart(apex, q, f, r);
    TieKeepsParent(f, q, s);
  }

  lemma InnerNodata(apex: Name, q: Name, f: Name, r: NsecRecord, s: NsecRecord)
    requires ZoneOf(apex, f) && !IsWildcard(f) && ZoneOf(f + [Star], q) && f + [Star] != q
    requires r.owner == f + [Star] && r.types == {Other(16)} && s.owner == f + [Star, Star] && Covers(s, q)
    ensures Evaluate([r, s], q, A, false, apex) == Secure
  {
    InnerCloses(apex, q, f, r, s);
    Above(f, f + [Star], q);
    Above(apex, f, q);
    NodataFrom([r, s], q, A, apex, s, r);
  }

  lemma InnerNxdomain(apex: Name, q: Name, f: Name, r: NsecRecord, s: NsecRecord)
    requires f != [] && ZoneOf(apex, f) && !IsWildcard(f) && ZoneOf(f + [Star], q) && f + [Star] != q && WellFormed(q)
    requires r.owner == f && s.owner == f + [Star, Star] && s.owner != q && Covers(s, q) && Covers(r, f + [Star])
    ensures Evaluate([r, s], q, A, true, apex) == Secure
  {
    InnerCloses(apex, q, f, r, s);
    Above(f, f + [Star], q);
    Above(apex, f, q);
    WildcardBuilds(f, q);
    SecureFrom([r, s], q, A, apex, s, r);
  }

  lemma InnerStarIsUnsound(apex: Name, q: Name, f: Name)
    requires ZoneOf(apex, f) && !IsWildcard(f) && WellFormed(q)
    requires ZoneOf(f + [Star], q) && |f| + 1 < |q| && OctetsLess(Star, q[|f| + 1])
    ensures ZoneOf(apex, q) && !SoundFor(apex, q, false)
  {
    var r, s := InnerRecords(apex, q, f, f + [Star], {Other(16)});
    InnerNodata(apex, q, f, r, s);
    InnerAnswer(apex, q, f, f + [Star], {Other(16)});
    Refutes(InnerZone(apex, f, f + [Star], {Other(16)}), r, s, q, false);
  }

  lemma InnerStarSpoilsNxdomain(apex: Name, q: Name, f: Name)
    requires f != [] && ZoneOf(apex, f) && !IsWildcard(f) && WellFormed(q)
    requires ZoneOf(f + [Star], q) && |f| + 1 < |q| && OctetsLess(Star, q[|f| + 1])
    ensures ZoneOf(apex, q) && !SoundFor(apex, q, true)
  {
    var r, s := InnerRecords(apex, q, f, f, {A});
    StarIsNotBeforeItself();
    assert s.owner[|f| + 1] == Star;
    InnerNxdomain(apex, q, f, r, s);
    InnerAnswer(apex, q, f, f, {A});
    Refutes(InnerZone(apex, f, f, {A}), r, s, q, true);
  }

  lemma LoneStarIsUnsound(apex: Name, q: Name, i: nat)
    requires ZoneOf(apex, q) && WellFormed(q) && |apex| <= i < |q| - 1 && !OctetsLess(q[i + 1], Star)
    requires q[i] == Star && q[i + 1] != Star && !(i > 0 && q[i - 1] == Star)
    ensures !SoundFor(apex, q, false)
    ensures i > 0 ==> !SoundFor(apex, q, true)
  {
    StarFirst(q[i + 1]);
    assert q[..i] + [Star] == q[..i + 1];
    InnerStarIsUnsound(apex, q, q[..i]);
    if i > 0 { InnerStarSpoilsNxdomain(apex, q, q[..i]); }
  }

  lemma SafeIsSound(apex: Name, q: Name, nxdomain: bool)
    requires ZoneOf(apex, q) && SafeFor(apex, q, nxdomain)
    ensures SoundFor(apex, q, nxdomain)
  {
    forall z, records, t |
      && Valid(z) && Proper(z) && Legal(z) && z.apex == apex && Genuine(z, records)
      && !AnyShowsCut(Relevant(records, apex), q) && Evaluate(records, q, t, nxdomain, apex) == Secure
      ensures Negative(Lookup(z, q, t))
    {
      NsecSound(z, records, q, t, nxdomain);
    }
  }

  /** NODATA verdicts are sound for exactly the safe names. */
  lemma NodataSoundExactly(apex: Name, q: Name)
    requires ZoneOf(apex, q) && WellFormed(q)
    ensures SoundFor(apex, q, false) <==> Safe(apex, q)
  {
    if Safe(apex, q) {
      SafeIsSound(apex, q, false);
    } else if i :| |apex| < i < |q| && OctetsLess(q[i], Star) {
      EarlyLabelIsUnsound(apex, q, i);
    } else {
      var i :| |apex| <= i < |q| - 1 && q[i] == Star && q[i + 1] != Star && !(i > 0 && q[i - 1] == Star);
      LoneStarIsUnsound(apex, q, i);
    }
  }

  /** A lone `*` spoils NXDOMAIN either way: before an early label it is preceded
      by an encloser to settle on. */
  lemma LoneStarSpoilsNxdomain(apex: Name, q: Name, i: nat)
    requires ZoneOf(apex, q) && WellFormed(q)
    requires |apex| <= i < |q| - 1 && 0 < i && q[i] == Star && q[i + 1] != Star && q[i - 1] != Star
    ensures !SoundFor(apex, q, true)
  {
    if OctetsLess(q[i + 1], Star) {
      assert q[..i][i - 1] != Star;
      EarlyLabelSpoilsNxdomain(apex, q, i, i + 1);
    } else {
      LoneStarIsUnsound(apex, q, i);
    }
  }

  /** NXDOMAIN verdicts are sound for exactly the names safe for them. */
  lemma NxdomainSoundExactly(apex: Name, q: Name)
    requires ZoneOf(apex, q) && WellFormed(q)
    ensures SoundFor(apex, q, true) <==> SafeNxdomain(apex, q)
  {
    if SafeNxdomain(apex, q) {
      SafeIsSound(apex, q, true);
    } else if k: nat, i: nat :| Settles(apex, q, k) && k < i < |q| && OctetsLess(q[i], Star) && q[k] != LastBeforeStar {
      EarlyLabelSpoilsNxdomain(apex, q, k, i);
    } else {
      var i :| |apex| <= i < |q| - 1 && 0 < i && q[i] == Star && q[i + 1] != Star && q[i - 1] != Star;
      LoneStarSpoilsNxdomain(apex, q, i);
    }
  }

  /** Soundness of all verdicts holds for exactly the safe names. */
  lemma NsecSoundExactly(apex: Name, q: Name)
    requires ZoneOf(apex, q) && WellFormed(q)
    ensures SoundFor(apex, q, false) && SoundFor(apex, q, true) <==> Safe(apex, q)
  {
    NodataSoundExactly(apex, q);
    if Safe(apex, q) {
      SafeIsSound(apex, q, true);
    }
  }

  // A record at a cut: the check that is missing.

  ghost function CutZone(apex: Name, d: Name): Zone {
    Zone(apex, map[d := {NS}][apex := {SOA, NS}])
  }

  lemma CutLink(apex: Name, d: Name) returns (r: NsecRecord)
    requires ZoneOf(apex, d) && apex != d
    ensures Link(CutZone(apex, d), r) && r.owner == d && r.types == {NS}
    ensures forall q | NameLess(d, q) :: Covers(r, q)
  {
    AncestorFirst(apex, d);
    NamesAsymmetric(apex, d);
    assert CutZone(apex, d).nodes.Keys == {apex, d, d};
    ChainOfThree(apex, d, d);
    r := NsecRecord(d, apex, {NS});
    NamesOrdered();
  }

  lemma CutSecure(apex: Name, d: Name, q: Name, r: NsecRecord)
    requires ZoneOf(apex, d) && apex != d && !IsWildcard(d) && ZoneOf(d, q) && d != q && WellFormed(q)
    requires r.owner == d && (forall n | NameLess(d, n) :: Covers(r, n))
    ensures Evaluate([r], q, A, true, apex) == Secure
  {
    Above(apex, d, q);
    assert [r][..0] == [];
    assert Relevant([r], apex) == [r] && Closest([r], q, apex) == Better(apex, r, q);
    ShowsStart(apex, q, d, r);
    AncestorFirst(d, q);
    AncestorFirst(d, d + [Star]);
    WildcardBuilds(d, q);
    SecureFrom([r], q, A, apex, r, r);
  }

  lemma CutZoneRefers(apex: Name, d: Name, q: Name)
    requires ZoneOf(apex, d) && apex != d && ZoneOf(d, q) && d != q && WellFormed(q)
    ensures var z := CutZone(apex, d);
            Valid(z) && Proper(z) && Legal(z) && ZoneOf(apex, q) && Lookup(z, q, A).Referral?
  {
    var z := CutZone(apex, d);
    Above(apex, d, q);
    AncestorLegal(apex, q);
    AncestorLegal(d, q);
    assert Valid(z) && Legal(z);
    assert Proper(z) by {
      assert forall c | c in z.nodes && IsCut(z.nodes[c]) :: c == d;
      assert !ZoneOf(d, apex);
    }
    assert BelowCut(z, q) by {
      assert d in z.nodes && IsCut(z.nodes[d]);
    }
  }

  /** The delegation's own link proves NXDOMAIN for every name below it, safe or
      not, while the zone answers with a referral. */
  lemma DelegationProvesTooMuch(apex: Name, d: Name, q: Name) returns (records: seq<NsecRecord>)
    requires ZoneOf(apex, d) && apex != d && !IsWildcard(d) && ZoneOf(d, q) && d != q && WellFormed(q)
    ensures ZoneOf(apex, q)
    ensures var z := CutZone(apex, d);
            && Valid(z) && Proper(z) && Legal(z) && Genuine(z, records)
            && Evaluate(records, q, A, true, apex) == Secure && Lookup(z, q, A).Referral?
  {
    var r := CutLink(apex, d);
    records := [r];
    CutSecure(apex, d, q, r);
    CutZoneRefers(apex, d, q);
  }
}

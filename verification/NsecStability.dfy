/** When an NSEC verdict survives further records: more links can show a deeper
    encloser, and then another wildcard counts. */
module NsecStability {
  import opened Names
  import opened Zones
  import opened Nsec
  import opened NsecProofs
  import opened NsecExactness

  ghost predicate Within(a: seq<NsecRecord>, b: seq<NsecRecord>) {
    forall r | r in a :: r in b
  }

  /** The verdict stays Secure whatever further genuine links are supplied, in
      whatever order. */
  ghost predicate Lasting(z: Zone, a: seq<NsecRecord>, q: Name, t: RType, nxdomain: bool) {
    forall b | Genuine(z, b) && Within(a, b) :: Evaluate(b, q, t, nxdomain, z.apex) == Secure
  }

  /** An encloser that can take the place of `c` in the search. */
  predicate Rivals(d: Name, c: Name, zone: Name) {
    d != c && NumLabels(d) >= NumLabels(c) && NumLabels(d) > NumLabels(zone)
  }

  /** The records deal with the wildcard of `c`. */
  predicate Backed(records: seq<NsecRecord>, c: Name, t: RType, nxdomain: bool) {
    if nxdomain then AnyCovers(records, c + [Star]) else AnyWildcardDenies(records, c, t)
  }

  lemma BackedWithin(a: seq<NsecRecord>, b: seq<NsecRecord>, c: Name, t: RType, nxdomain: bool)
    requires Within(a, b) && Backed(a, c, t, nxdomain)
    ensures Backed(b, c, t, nxdomain)
  {
  }

  /** Genuine links all count. */
  lemma {:induction false} AllRelevant(z: Zone, records: seq<NsecRecord>)
    requires Valid(z) && Genuine(z, records)
    ensures Relevant(records, z.apex) == records
  {
    if records != [] {
      var init := records[..|records| - 1];
      assert records == init + [records[|records| - 1]];
      assert Link(z, records[|records| - 1]);
      AllRelevant(z, init);
    }
  }

  lemma VerdictShape(records: seq<NsecRecord>, q: Name, t: RType, nxdomain: bool, zone: Name)
    requires Relevant(records, zone) == records && ZoneOf(zone, q) && AnyCovers(records, q) && !AnyOwner(records, q)
    requires var c := Closest(records, q, zone); c != [] ==> WildcardOf(c) == Some(c + [Star])
    ensures var c := Closest(records, q, zone);
            Evaluate(records, q, t, nxdomain, zone) == Secure <==>
              Backed(records, c, t, nxdomain) && (nxdomain ==> c != [])
  {
    assert !AnyDenies(records, q, t);
  }

  lemma CoveredIsNoOwner(z: Zone, records: seq<NsecRecord>, q: Name)
    requires Genuine(z, records) && AnyCovers(records, q)
    ensures q !in z.nodes && !AnyOwner(records, q)
  {
    var r := CoverWitness(records, q);
    assert Link(z, r);
    CoveredIsNoNode(z, r, q);
    forall x | x in records ensures x.owner != q {
      assert Link(z, x);
    }
  }

  /** The verdict on a covered name, over genuine links. */
  lemma VerdictIs(z: Zone, records: seq<NsecRecord>, q: Name, t: RType, nxdomain: bool)
    requires Valid(z) && ZoneOf(z.apex, q) && WellFormed(q) && Genuine(z, records) && AnyCovers(records, q)
    ensures var c := Closest(records, q, z.apex);
            Evaluate(records, q, t, nxdomain, z.apex) == Secure <==>
              Backed(records, c, t, nxdomain) && (nxdomain ==> c != [])
  {
    AllRelevant(z, records);
    CoveredIsNoOwner(z, records, q);
    ProperAncestor(z, records, q);
    if Closest(records, q, z.apex) != [] { WildcardBuilds(Closest(records, q, z.apex), q); }
    VerdictShape(records, q, t, nxdomain, z.apex);
  }

  lemma ProperAncestor(z: Zone, records: seq<NsecRecord>, q: Name)
    requires ZoneOf(z.apex, q) && q !in z.nodes && Valid(z)
    ensures var c := Closest(records, q, z.apex); ZoneOf(c, q) && c != q
  {
    ClosestSpec(records, q, z.apex);
    var c := Closest(records, q, z.apex);
    if c != z.apex {
      var r :| r in records && Climb(Start(r.owner), q) == Some(c);
      ClimbSpec(Start(r.owner), q);
    }
  }

  /** The computed encloser of more records is the same or a rival that one of them
      shows. */
  lemma MoreRecordsRival(a: seq<NsecRecord>, b: seq<NsecRecord>, q: Name, zone: Name)
    requires Within(a, b) && Closest(b, q, zone) != Closest(a, q, zone)
    ensures Rivals(Closest(b, q, zone), Closest(a, q, zone), zone)
    ensures exists o | o in b :: Climb(Start(o.owner), q) == Some(Closest(b, q, zone))
  {
    ClosestSpec(a, q, zone);
    ClosestSpec(b, q, zone);
  }

  lemma {:induction false} FirstCounts(o: NsecRecord, a: seq<NsecRecord>, q: Name, zone: Name)
    ensures Closest([o] + a, q, zone) == Closest(a, q, Better(zone, o, q))
  {
    var all := [o] + a;
    if a == [] {
      assert all == [o] && [o][..0] == [];
    } else {
      assert all[..|all| - 1] == [o] + a[..|a| - 1];
      FirstCounts(o, a[..|a| - 1], q, zone);
    }
  }

  /** A rival supplied first takes the place. */
  lemma RivalWins(o: NsecRecord, a: seq<NsecRecord>, q: Name, zone: Name, d: Name)
    requires Climb(Start(o.owner), q) == Some(d) && Rivals(d, Closest(a, q, zone), zone)
    ensures Closest([o] + a, q, zone) == d
  {
    FirstCounts(o, a, q, zone);
    ClosestSpec(a, q, zone);
    ClosestSpec(a, q, d);
  }

  /** Every rival that some link of the zone shows is dealt with by the records and
      that link. */
  ghost predicate RivalsBacked(z: Zone, a: seq<NsecRecord>, q: Name, t: RType, nxdomain: bool) {
    forall o, d | Link(z, o) && Climb(Start(o.owner), q) == Some(d) && Rivals(d, Closest(a, q, z.apex), z.apex) ::
      Backed(a + [o], d, t, nxdomain)
  }

  lemma BackedRivalsLast(z: Zone, a: seq<NsecRecord>, b: seq<NsecRecord>, q: Name, t: RType, nxdomain: bool)
    requires Valid(z) && ZoneOf(z.apex, q) && WellFormed(q) && Genuine(z, a) && AnyCovers(a, q)
    requires Evaluate(a, q, t, nxdomain, z.apex) == Secure && RivalsBacked(z, a, q, t, nxdomain)
    requires Genuine(z, b) && Within(a, b)
    ensures Evaluate(b, q, t, nxdomain, z.apex) == Secure
  {
    VerdictIs(z, a, q, t, nxdomain);
    VerdictIs(z, b, q, t, nxdomain);
    var c, d := Closest(a, q, z.apex), Closest(b, q, z.apex);
    if d == c {
      BackedWithin(a, b, c, t, nxdomain);
    } else {
      MoreRecordsRival(a, b, q, z.apex);
      var o :| o in b && Climb(Start(o.owner), q) == Some(d);
      assert Link(z, o);
      ClimbSpec(Start(o.owner), q);
      BackedWithin(a + [o], b, d, t, nxdomain);
    }
  }

  lemma WithFirst(z: Zone, o: NsecRecord, a: seq<NsecRecord>, q: Name)
    requires Genuine(z, a) && Link(z, o) && AnyCovers(a, q)
    ensures var b := [o] + a; Genuine(z, b) && Within(a, b) && Within(b, a + [o]) && AnyCovers(b, q)
  {
    var r := CoverWitness(a, q);
    assert r in [o] + a;
  }

  lemma LastingBacksRival(z: Zone, a: seq<NsecRecord>, q: Name, t: RType, nxdomain: bool, o: NsecRecord, d: Name)
    requires Valid(z) && ZoneOf(z.apex, q) && WellFormed(q) && Genuine(z, a) && AnyCovers(a, q)
    requires Lasting(z, a, q, t, nxdomain)
    requires Link(z, o) && Climb(Start(o.owner), q) == Some(d) && Rivals(d, Closest(a, q, z.apex), z.apex)
    ensures Backed(a + [o], d, t, nxdomain)
  {
    WithFirst(z, o, a, q);
    RivalWins(o, a, q, z.apex, d);
    LastingBacks(z, a, [o] + a, q, t, nxdomain);
    BackedWithin([o] + a, a + [o], d, t, nxdomain);
  }

  lemma LastingBacks(z: Zone, a: seq<NsecRecord>, b: seq<NsecRecord>, q: Name, t: RType, nxdomain: bool)
    requires Valid(z) && ZoneOf(z.apex, q) && WellFormed(q) && Lasting(z, a, q, t, nxdomain)
    requires Genuine(z, b) && Within(a, b) && AnyCovers(b, q)
    ensures Backed(b, Closest(b, q, z.apex), t, nxdomain)
  {
    VerdictIs(z, b, q, t, nxdomain);
  }

  /** A Secure verdict over a covered name lasts exactly when every rival encloser
      some link of the zone shows is dealt with already, or by that link. */
  lemma SecureLastsExactly(z: Zone, a: seq<NsecRecord>, q: Name, t: RType, nxdomain: bool)
    requires Valid(z) && ZoneOf(z.apex, q) && WellFormed(q) && Genuine(z, a) && AnyCovers(a, q)
    requires Evaluate(a, q, t, nxdomain, z.apex) == Secure
    ensures Lasting(z, a, q, t, nxdomain) <==> RivalsBacked(z, a, q, t, nxdomain)
  {
    if RivalsBacked(z, a, q, t, nxdomain) {
      forall b | Genuine(z, b) && Within(a, b) ensures Evaluate(b, q, t, nxdomain, z.apex) == Secure {
        BackedRivalsLast(z, a, b, q, t, nxdomain);
      }
    }
    if Lasting(z, a, q, t, nxdomain) {
      forall o, d | Link(z, o) && Climb(Start(o.owner), q) == Some(d) && Rivals(d, Closest(a, q, z.apex), z.apex)
        ensures Backed(a + [o], d, t, nxdomain)
      {
        LastingBacksRival(z, a, q, t, nxdomain, o, d);
      }
    }
  }

  /** A record at the name itself settles the matter for good. */
  lemma ExactNodataLasts(z: Zone, a: seq<NsecRecord>, q: Name, t: RType)
    requires Valid(z) && ZoneOf(z.apex, q) && Genuine(z, a) && AnyDenies(a, q, t)
    ensures Lasting(z, a, q, t, false)
  {
    forall b | Genuine(z, b) && Within(a, b) ensures Evaluate(b, q, t, false, z.apex) == Secure {
      AllRelevant(z, b);
    }
  }

  // ---- A verdict that is lost -------------------------------------------

  const E: Label := [101]
  const M: Label := [109]
  const X: Label := [120]

  /** `*.<apex>` and `x.e.<apex>` beside the apex. */
  ghost function LossZone(apex: Name): Zone {
    Zone(apex, map[apex + [E, X] := {A}, apex + [Star] := {Other(16)}][apex := {SOA}])
  }

  lemma LossOrder(apex: Name)
    ensures var top, m, x := apex + [Star], apex + [E, M], apex + [E, X];
            NameLess(apex, top) && NameLess(top, m) && NameLess(m, x) && NameLess(top, x) && NameLess(apex, x)
  {
    var top, m, x := apex + [Star], apex + [E, M], apex + [E, X];
    AncestorFirst(apex, top);
    AncestorFirst(apex, x);
    assert top[..|apex|] == m[..|apex|] == x[..|apex|];
    DivergeAt(top, m, |apex|);
    DivergeAt(top, x, |apex|);
    assert m[..|apex| + 1] == x[..|apex| + 1];
    DivergeAt(m, x, |apex| + 1);
  }

  lemma LossLinks(apex: Name) returns (s: NsecRecord, r: NsecRecord)
    ensures Valid(LossZone(apex)) && Link(LossZone(apex), s) && Link(LossZone(apex), r)
    ensures s.owner == apex + [Star] && s.types == {Other(16)} && Covers(s, apex + [E, M]) && r.owner == apex + [E, X]
  {
    var z := LossZone(apex);
    var top, x := apex + [Star], apex + [E, X];
    LossOrder(apex);
    NamesAsymmetric(apex, top);
    NamesAsymmetric(apex, x);
    assert |top| < |x|;
    assert z.nodes.Keys == {apex, top, x};
    ChainOfThree(apex, top, x);
    s, r := NsecRecord(top, x, z.nodes[top]), NsecRecord(x, apex, z.nodes[x]);
  }

  lemma LossSecure(apex: Name, s: NsecRecord)
    requires s.owner == apex + [Star] && s.types == {Other(16)} && Covers(s, apex + [E, M])
    ensures Evaluate([s], apex + [E, M], A, false, apex) == Secure
  {
    var q := apex + [E, M];
    assert [s][..0] == [];
    assert Relevant([s], apex) == [s] && Closest([s], q, apex) == Better(apex, s, q);
    assert BaseName(s.owner) == apex;
    ShowsApex(apex, q, s);
    NodataFrom([s], q, A, apex, s, s);
  }

  lemma LossCloses(apex: Name, s: NsecRecord, r: NsecRecord)
    requires s.owner == apex + [Star] && r.owner == apex + [E, X]
    ensures Relevant([s, r], apex) == [s, r] && Closest([s, r], apex + [E, M], apex) == apex + [E]
  {
    var q := apex + [E, M];
    PairUnfolds(s, r, q, apex);
    assert BaseName(s.owner) == apex;
    ShowsApex(apex, q, s);
    assert BaseName(r.owner) == apex + [E];
    assert q[|apex| + 1] != r.owner[|apex| + 1];
    assert Climb(apex + [E], q) == Some(apex + [E]);
  }

  lemma LossNameIsSafe(apex: Name)
    ensures Safe(apex, apex + [E, M])
  {
    var q := apex + [E, M];
    assert q[|apex|] == E && q[|apex| + 1] == M;
    assert Star[1..] == [];
  }

  /** On a safe name: one link gives a Secure NODATA, one more genuine link takes it
      away. */
  lemma NodataIsLost(apex: Name) returns (s: NsecRecord, r: NsecRecord)
    ensures Safe(apex, apex + [E, M]) && Valid(LossZone(apex)) && Genuine(LossZone(apex), [s, r])
    ensures Evaluate([s], apex + [E, M], A, false, apex) == Secure
    ensures Evaluate([s, r], apex + [E, M], A, false, apex) == Incomplete
  {
    s, r := LossLinks(apex);
    LossNameIsSafe(apex);
    LossSecure(apex, s);
    LossIncomplete(apex, s, r);
  }

  lemma LossIncomplete(apex: Name, s: NsecRecord, r: NsecRecord)
    requires s.owner == apex + [Star] && r.owner == apex + [E, X]
    ensures Evaluate([s, r], apex + [E, M], A, false, apex) == Incomplete
  {
    LossCloses(apex, s, r);
    assert BaseName(s.owner) == apex;
    assert r.owner[|apex| + 1] == X;
    assert |s.owner| == |apex| + 1 && (apex + [E, M])[|apex| + 1] == M;
  }
}

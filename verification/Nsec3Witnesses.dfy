/** Inputs at which Secure NSEC3 verdicts are wrong or may be: two-node chains
    under a small hash. */
module Nsec3Witnesses {
  import opened Orders
  import opened Names
  import opened Zones
  import opened Nsec3
  import opened Nsec3Proofs
  import opened Nsec3OptOut

  /** The apex and one name directly below it are the whole zone and the whole
      chain, in this order of digests, which no other name has. */
  ghost predicate TwoNodes(h: Hash, s: Signed, b: Name) {
    var a := s.zone.apex;
    && s.iterations == 0 && s.chained == {a, b} && s.zone.nodes.Keys == {a, b}
    && b != [] && BaseName(b) == a && a != b
    && SOA in s.zone.nodes[a] && DNAME !in s.zone.nodes[a]
    && (forall n {:trigger Dig(h, s, n)} :: h(s.salt, s.iterations, n).Some?)
    && OctetsLess(Dig(h, s, a), Dig(h, s, b))
    && (forall n {:trigger Dig(h, s, n)} | n != a && n != b ::
          Dig(h, s, n) != Dig(h, s, a) && Dig(h, s, n) != Dig(h, s, b))
  }

  lemma TwoNodesArcs(h: Hash, s: Signed, b: Name)
    requires TwoNodes(h, s, b)
    ensures Arc(h, s, s.zone.apex, Dig(h, s, b)) && Arc(h, s, b, Dig(h, s, s.zone.apex))
  {
    var a := s.zone.apex;
    assert Digests(h, s) == {Dig(h, s, a), Dig(h, s, b)};
    OctetsOrdered();
  }

  lemma TwoNodesExist(h: Hash, s: Signed, b: Name, n: Name)
    requires TwoNodes(h, s, b)
    ensures Exists(s.zone, n) <==> n in s.chained
  {
    var a := s.zone.apex;
    assert ZoneOf(a, b);
    if n in s.chained {
      assert n in s.zone.nodes.Keys && ZoneOf(n, n);
    } else {
      forall o | o in s.zone.nodes && ZoneOf(a, n) ensures !ZoneOf(n, o) {
        assert o in {a, b};
        Between(a, b, n, o);
      }
    }
  }

  lemma Between(a: Name, b: Name, n: Name, o: Name)
    requires b != [] && BaseName(b) == a && ZoneOf(a, n) && n != a && n != b && o in {a, b}
    ensures !ZoneOf(n, o)
  {
    assert ZoneOf(n, o) && |n| == |a| ==> n == a;
    assert ZoneOf(n, o) && |n| == |b| ==> n == b;
  }

  lemma TwoNodesApart(h: Hash, s: Signed, b: Name, n: Name)
    requires TwoNodes(h, s, b)
    ensures Apart(h, s, n)
  {
    OctetsOrdered();
    assert Dig(h, s, n) == Dig(h, s, n);
  }

  /** A chain of exactly the existing names, without collisions, is a good one. */
  lemma NoneHidden(h: Hash, s: Signed)
    requires Valid(s.zone)
    requires forall n {:trigger Exists(s.zone, n)} :: Exists(s.zone, n) <==> n in s.chained
    requires forall n {:trigger Apart(h, s, n)} :: Apart(h, s, n)
    ensures WellSigned(h, s)
  {
    NodeExists(s.zone, s.zone.apex);
    forall n | n in s.zone.nodes ensures n in s.chained {
      NodeExists(s.zone, n);
    }
    forall n, p | n in s.chained && ZoneOf(p, n) && ZoneOf(s.zone.apex, p) ensures p in s.chained {
      assert Exists(s.zone, n);
      ExistsAbove(s.zone, p, n);
    }
  }

  lemma TwoNodesSigned(h: Hash, s: Signed, b: Name)
    requires TwoNodes(h, s, b)
    ensures WellSigned(h, s)
  {
    TwoNodesProper(h, s, b);
    forall n ensures Exists(s.zone, n) <==> n in s.chained {
      TwoNodesExist(h, s, b, n);
    }
    forall n ensures Apart(h, s, n) {
      TwoNodesApart(h, s, b, n);
    }
    NoneHidden(h, s);
  }

  lemma TwoNodesFit(h: Hash, s: Signed, b: Name, records: seq<Nsec3Record>, q: Name)
    requires TwoNodes(h, s, b) && ZoneOf(s.zone.apex, q) && Genuine(h, s, records)
    ensures Fits(h, s, records, q)
  {
    TwoNodesSigned(h, s, b);
    TwoNodesProper(h, s, b);
    forall p ensures BothApart(h, s, p) {
      TwoNodesApart(h, s, b, p);
      TwoNodesApart(h, s, b, p + [Star]);
    }
  }

  lemma TwoNodesProper(h: Hash, s: Signed, b: Name)
    requires TwoNodes(h, s, b)
    ensures Proper(s.zone) && Valid(s.zone)
  {
    var a := s.zone.apex;
    assert !ZoneOf(b, a) && !IsCut(s.zone.nodes[a]);
  }

  /** The chain's records. */
  function At(h: Hash, s: Signed, m: Name, next: Name): Nsec3Record
    requires m in s.zone.nodes
  {
    Nsec3Record(s.zone.apex, Some(Dig(h, s, m)), Dig(h, s, next), s.salt, s.iterations, m in s.optOut, s.zone.nodes[m])
  }

  lemma TwoNodesLinks(h: Hash, s: Signed, b: Name)
    requires TwoNodes(h, s, b)
    ensures Link(h, s, At(h, s, s.zone.apex, b)) && Link(h, s, At(h, s, b, s.zone.apex))
  {
    var a := s.zone.apex;
    TwoNodesArcs(h, s, b);
    assert LinkAt(h, s, At(h, s, a, b), a) && LinkAt(h, s, At(h, s, b, a), b);
  }

  /** A record of the chain matches its own name only. */
  lemma MatchesOwn(h: Hash, s: Signed, b: Name, m: Name, next: Name, n: Name)
    requires TwoNodes(h, s, b) && m in s.chained && next in s.chained
    ensures Matches(h, At(h, s, m, next), n) <==> n == m
  {
    TwoNodesApart(h, s, b, n);
    assert Dig(h, s, n) == Dig(h, s, n);
  }

  lemma TwoNodesWalk(h: Hash, s: Signed, b: Name, records: seq<Nsec3Record>, q: Name, c: Name)
    requires TwoNodes(h, s, b) && Genuine(h, s, records) && ZoneOf(s.zone.apex, q)
    requires c in s.chained && ZoneOf(c, q) && (c == b || !ZoneOf(b, q))
    requires exists r | r in Relevant(records, q) :: Matches(h, r, c)
    ensures Walk(h, Relevant(records, q), q) == Some(c)
  {
    var relevant := Relevant(records, q);
    TwoNodesFit(h, s, b, records, q);
    RelevantMembers(records, q);
    WalkSpec(h, relevant, q);
    WalkIsChained(h, s, relevant, q);
    var d := Walk(h, relevant, q).value;
    assert |c| <= |d|;
  }

  lemma OneRelevant(r: Nsec3Record, q: Name)
    requires IsRelevant(r, q)
    ensures Relevant([r], q) == [r]
  {
    assert [r][..0] == [];
  }

  lemma TwoRelevant(r: Nsec3Record, r': Nsec3Record, q: Name)
    requires IsRelevant(r, q) && IsRelevant(r', q)
    ensures Relevant([r, r'], q) == [r, r']
  {
    OneRelevant(r, q);
    assert [r, r'][..1] == [r];
  }

  lemma FirstOfOne(h: Hash, r: Nsec3Record, n: Name)
    ensures FirstCovering(h, [r], n) == if Covers(h, r, n) then Some(r) else None
  {
    assert [r][..0] == [];
  }

  lemma FirstOfTwo(h: Hash, r: Nsec3Record, r': Nsec3Record, n: Name)
    ensures FirstCovering(h, [r, r'], n)
         == if Covers(h, r, n) then Some(r) else if Covers(h, r', n) then Some(r') else None
  {
    FirstOfOne(h, r, n);
    assert [r, r'][..1] == [r];
  }

  /** Two names get digests of their own, a third one too, all others share one. */
  function Toy(a: Name, b: Name, db: byte, w: Name, dw: byte, rest: byte): Hash {
    (salt: seq<byte>, iterations: nat, n: Name) =>
      if n == a then Some([0]) else if n == b then Some([db]) else if n == w then Some([dw]) else Some([rest])
  }

  lemma ByteDigests(x: byte, y: byte)
    ensures OctetsLess([x], [y]) <==> x < y
  {
    var p: seq<byte>, q: seq<byte> := [x], [y];
    assert p[0] == x && q[0] == y && q[1..] == [];
    assert !Lex(ByteLess, p[1..], q[1..]);
  }

  lemma ToyNodes(s: Signed, b: Name, db: byte, w: Name, dw: byte, rest: byte)
    requires var a := s.zone.apex;
             && s.iterations == 0 && s.chained == {a, b} && s.zone.nodes.Keys == {a, b}
             && b != [] && BaseName(b) == a && a != b && SOA in s.zone.nodes[a] && DNAME !in s.zone.nodes[a]
    requires 0 < db && 0 < dw && 0 < rest && db != dw && db != rest
    ensures TwoNodes(Toy(s.zone.apex, b, db, w, dw, rest), s, b)
  {
    ByteDigests(0, db);
  }

  // ---- An encloser that is a delegation ---------------------------------

  ghost function CutChain(apex: Name, d: Name): Signed {
    Signed(Zone(apex, map[d := {NS}][apex := {SOA, NS}]), {apex, d}, {}, [], 0)
  }

  /** For every name below a delegation the delegation's own record gives a firm
      Secure NXDOMAIN, while the zone answers with a referral. */
  lemma CutGivesSecure(apex: Name, d: Name, q: Name) returns (h: Hash, records: seq<Nsec3Record>)
    requires d != [] && BaseName(d) == apex && ZoneOf(d, q) && d != q && WellFormed(q)
    ensures var s := CutChain(apex, d);
            && Fits(h, s, records, q) && Evaluate(h, records, q, A, true) == Secure
            && Firm(h, records, q, true) && ShowsCut(h, records, q) && Lookup(s.zone, q, A).Referral?
  {
    var s := CutChain(apex, d);
    h := Toy(apex, d, 1, d, 2, 2);
    assert s.zone.nodes.Keys == {apex, d};
    ToyNodes(s, d, 1, d, 2, 2);
    var r := At(h, s, d, apex);
    records := [r];
    TwoNodesLinks(h, s, d);
    Above(apex, d, q);
    TwoNodesFit(h, s, d, records, q);
    CutVerdict(h, s, d, q, r);
    assert d in s.zone.nodes && IsCut(s.zone.nodes[d]);
  }

  lemma CutVerdict(h: Hash, s: Signed, d: Name, q: Name, r: Nsec3Record)
    requires TwoNodes(h, s, d) && h == Toy(s.zone.apex, d, 1, d, 2, 2)
    requires r == At(h, s, d, s.zone.apex) && r.types == {NS} && !r.optOut && Link(h, s, r)
    requires ZoneOf(d, q) && d != q && ZoneOf(s.zone.apex, q) && WellFormed(q)
    ensures Evaluate(h, [r], q, A, true) == Secure && Firm(h, [r], q, true) && ShowsCut(h, [r], q)
  {
    OneRelevant(r, q);
    CutWalks(h, s, d, q, r);
    CutCovers(h, s, d, r, NextCloser(d, q));
    CutCovers(h, s, d, r, d + [Star]);
    WildcardBuilds(d, q);
    NxdomainFrom(h, r, q, d);
  }

  lemma CutWalks(h: Hash, s: Signed, d: Name, q: Name, r: Nsec3Record)
    requires TwoNodes(h, s, d) && r == At(h, s, d, s.zone.apex) && Link(h, s, r) && Relevant([r], q) == [r]
    requires ZoneOf(d, q) && d != q && ZoneOf(s.zone.apex, q) && IsCut(r.types)
    ensures Walk(h, Relevant([r], q), q) == Some(d) && ShowsCut(h, [r], q)
  {
    MatchesOwn(h, s, d, d, s.zone.apex, d);
    assert r in Relevant([r], q);
    TwoNodesWalk(h, s, d, [r], q, d);
  }

  lemma NxdomainFrom(h: Hash, r: Nsec3Record, q: Name, d: Name)
    requires Relevant([r], q) == [r] && Walk(h, [r], q) == Some(d) && ZoneOf(d, q) && d != q && !r.optOut
    requires Covers(h, r, NextCloser(d, q)) && WildcardOf(d) == Some(d + [Star]) && Covers(h, r, d + [Star])
    ensures Evaluate(h, [r], q, A, true) == Secure && Firm(h, [r], q, true)
  {
    FirstOfOne(h, r, NextCloser(d, q));
    FirstOfOne(h, r, d + [Star]);
    assert r in [r];
  }

  lemma CutCovers(h: Hash, s: Signed, d: Name, r: Nsec3Record, n: Name)
    requires h == Toy(s.zone.apex, d, 1, d, 2, 2) && s.iterations == 0
    requires d in s.zone.nodes && d != s.zone.apex && r == At(h, s, d, s.zone.apex) && |n| > |d| && |d| > |s.zone.apex|
    ensures Covers(h, r, n)
  {
    ByteDigests(1, 0);
    ByteDigests(1, 2);
  }

  // ---- A wildcard NODATA over opt-out -----------------------------------

  ghost function OpenChain(apex: Name): Signed {
    Signed(Zone(apex, map[apex + [Star] := {Other(16)}][apex := {SOA}]), {apex, apex + [Star]}, {apex}, [], 0)
  }

  /** For every name directly or further below a non-root apex, but not below its
      wildcard, there is a Secure NODATA over an opt-out cover. */
  lemma OpenGivesSecure(apex: Name, q: Name) returns (h: Hash, records: seq<Nsec3Record>)
    requires apex != [] && ZoneOf(apex, q) && apex != q && q[|apex|] != Star && WellFormed(q)
    ensures Fits(h, OpenChain(apex), records, q) && Evaluate(h, records, q, A, false) == Secure
    ensures !Firm(h, records, q, false) && !ShowsCut(h, records, q)
  {
    var s := OpenChain(apex);
    var w := apex + [Star];
    h := Toy(apex, w, 2, w, 1, 1);
    assert s.zone.nodes.Keys == {apex, w} && BaseName(w) == apex;
    ToyNodes(s, w, 2, w, 1, 1);
    var r, r' := At(h, s, apex, w), At(h, s, w, apex);
    records := [r, r'];
    TwoNodesLinks(h, s, w);
    TwoNodesFit(h, s, w, records, q);
    OpenVerdict(h, s, w, q, r, r');
  }

  lemma OpenVerdict(h: Hash, s: Signed, w: Name, q: Name, r: Nsec3Record, r': Nsec3Record)
    requires TwoNodes(h, s, w) && h == Toy(s.zone.apex, w, 2, w, 1, 1) && w == s.zone.apex + [Star]
    requires r == At(h, s, s.zone.apex, w) && r.types == {SOA} && r.optOut && Link(h, s, r)
    requires r' == At(h, s, w, s.zone.apex) && r'.types == {Other(16)} && Link(h, s, r')
    requires s.zone.apex != [] && ZoneOf(s.zone.apex, q) && s.zone.apex != q && q[|s.zone.apex|] != Star
        && WellFormed(q)
    ensures Evaluate(h, [r, r'], q, A, false) == Secure && !Firm(h, [r, r'], q, false) && !ShowsCut(h, [r, r'], q)
  {
    var a := s.zone.apex;
    TwoRelevant(r, r', q);
    assert !ZoneOf(w, q) by {
      assert w[|a|] == Star;
    }
    PairWalks(h, s, w, q, r, r');
    MatchesOwn(h, s, w, w, a, w);
    OpenCovers(h, s, w, q, r);
    WildcardBuilds(a, q);
    OpenAssembly(h, r, r', q, a);
  }

  lemma OpenAssembly(h: Hash, r: Nsec3Record, r': Nsec3Record, q: Name, a: Name)
    requires Relevant([r, r'], q) == [r, r'] && Walk(h, [r, r'], q) == Some(a) && ZoneOf(a, q) && a != q
    requires Covers(h, r, NextCloser(a, q)) && r.optOut && WildcardOf(a) == Some(a + [Star])
    requires Matches(h, r', a + [Star]) && r'.types == {Other(16)}
    ensures Evaluate(h, [r, r'], q, A, false) == Secure && !Firm(h, [r, r'], q, false)
  {
    FirstOfTwo(h, r, r', NextCloser(a, q));
    assert r' in [r, r'];
  }

  lemma OpenCovers(h: Hash, s: Signed, w: Name, q: Name, r: Nsec3Record)
    requires h == Toy(s.zone.apex, w, 2, w, 1, 1) && w == s.zone.apex + [Star] && s.iterations == 0
    requires s.zone.apex in s.zone.nodes && r == At(h, s, s.zone.apex, w)
    requires ZoneOf(s.zone.apex, q) && s.zone.apex != q && q[|s.zone.apex|] != Star
    ensures Covers(h, r, NextCloser(s.zone.apex, q))
  {
    var nc := NextCloser(s.zone.apex, q);
    assert nc[|s.zone.apex|] != Star;
    ByteDigests(0, 2);
    ByteDigests(0, 1);
    ByteDigests(1, 2);
  }

  /** Over both records the walk from beside the lower node ends at the apex, whose
      record shows no cut. */
  lemma PairWalks(h: Hash, s: Signed, b: Name, q: Name, r: Nsec3Record, r': Nsec3Record)
    requires TwoNodes(h, s, b) && r == At(h, s, s.zone.apex, b) && r' == At(h, s, b, s.zone.apex)
    requires Link(h, s, r) && Link(h, s, r') && ZoneOf(s.zone.apex, q) && !ZoneOf(b, q)
    requires Relevant([r, r'], q) == [r, r']
    ensures Walk(h, Relevant([r, r'], q), q) == Some(s.zone.apex)
    ensures !ShowsCut(h, [r, r'], q)
  {
    var a := s.zone.apex;
    MatchesOwn(h, s, b, a, b, a);
    MatchesOwn(h, s, b, b, a, a);
    assert r in [r, r'];
    TwoNodesWalk(h, s, b, [r, r'], q, a);
  }

  // ---- An NXDOMAIN whose wildcard is covered with opt-out ---------------

  ghost function WildChain(apex: Name, m: Name): Signed {
    Signed(Zone(apex, map[m := {A}][apex := {SOA}]), {apex, m}, {m}, [], 0)
  }

  /** For every such name there is a Secure NXDOMAIN whose wildcard is covered only
      with opt-out. */
  lemma WildGivesSecure(apex: Name, m: Name, q: Name) returns (h: Hash, records: seq<Nsec3Record>)
    requires apex != [] && ZoneOf(apex, q) && apex != q && q[|apex|] != Star && WellFormed(q)
    requires m != [] && BaseName(m) == apex && !ZoneOf(m, q) && m != apex + [Star]
    ensures Fits(h, WildChain(apex, m), records, q) && Evaluate(h, records, q, A, true) == Secure
    ensures !Firm(h, records, q, true) && !ShowsCut(h, records, q)
  {
    var s := WildChain(apex, m);
    var w := apex + [Star];
    h := Toy(apex, m, 2, w, 3, 1);
    assert s.zone.nodes.Keys == {apex, m};
    ToyNodes(s, m, 2, w, 3, 1);
    var r, r' := At(h, s, apex, m), At(h, s, m, apex);
    records := [r, r'];
    TwoNodesLinks(h, s, m);
    TwoNodesFit(h, s, m, records, q);
    WildVerdict(h, s, m, q, r, r');
  }

  lemma WildVerdict(h: Hash, s: Signed, m: Name, q: Name, r: Nsec3Record, r': Nsec3Record)
    requires TwoNodes(h, s, m) && h == Toy(s.zone.apex, m, 2, s.zone.apex + [Star], 3, 1) && !ZoneOf(m, q)
    requires r == At(h, s, s.zone.apex, m) && r.types == {SOA} && !r.optOut && Link(h, s, r)
    requires r' == At(h, s, m, s.zone.apex) && r'.optOut && Link(h, s, r') && m != s.zone.apex + [Star]
    requires s.zone.apex != [] && ZoneOf(s.zone.apex, q) && s.zone.apex != q && q[|s.zone.apex|] != Star
        && WellFormed(q)
    ensures Evaluate(h, [r, r'], q, A, true) == Secure && !Firm(h, [r, r'], q, true) && !ShowsCut(h, [r, r'], q)
  {
    var a := s.zone.apex;
    TwoRelevant(r, r', q);
    PairWalks(h, s, m, q, r, r');
    WildCovers(h, s, m, q, r, r');
    WildcardBuilds(a, q);
    WildAssembly(h, r, r', q, a);
  }

  lemma WildAssembly(h: Hash, r: Nsec3Record, r': Nsec3Record, q: Name, a: Name)
    requires Relevant([r, r'], q) == [r, r'] && Walk(h, [r, r'], q) == Some(a) && ZoneOf(a, q) && a != q
    requires Covers(h, r, NextCloser(a, q)) && !r.optOut && WildcardOf(a) == Some(a + [Star])
    requires !Covers(h, r, a + [Star]) && Covers(h, r', a + [Star]) && r'.optOut
    ensures Evaluate(h, [r, r'], q, A, true) == Secure && !Firm(h, [r, r'], q, true)
  {
    FirstOfTwo(h, r, r', NextCloser(a, q));
    FirstOfTwo(h, r, r', a + [Star]);
    assert r' in [r, r'];
  }

  lemma WildCovers(h: Hash, s: Signed, m: Name, q: Name, r: Nsec3Record, r': Nsec3Record)
    requires h == Toy(s.zone.apex, m, 2, s.zone.apex + [Star], 3, 1) && s.iterations == 0 && !ZoneOf(m, q)
    requires s.zone.apex in s.zone.nodes && m in s.zone.nodes && m != s.zone.apex && m != s.zone.apex + [Star]
    requires r == At(h, s, s.zone.apex, m) && r' == At(h, s, m, s.zone.apex)
    requires ZoneOf(s.zone.apex, q) && s.zone.apex != q && q[|s.zone.apex|] != Star
    ensures var w := s.zone.apex + [Star];
            Covers(h, r, NextCloser(s.zone.apex, q)) && !Covers(h, r, w) && Covers(h, r', w)
  {
    var nc := NextCloser(s.zone.apex, q);
    assert ZoneOf(nc, q) && nc[|s.zone.apex|] != Star;
    ByteDigests(0, 2);
    ByteDigests(0, 1);
    ByteDigests(1, 2);
    ByteDigests(0, 3);
    ByteDigests(3, 2);
    ByteDigests(2, 0);
    ByteDigests(2, 3);
  }
}

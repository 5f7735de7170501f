/** Zones and the authoritative answer they give: the reference every denial
    verdict is judged against. */
module Zones {
  import opened Names

  datatype RType = A | NS | SOA | CNAME | DS | DNAME | Other(code: nat)

  /** The authoritative names and delegation points of a zone with the record
      types each owns. */
  datatype Zone = Zone(apex: Name, nodes: map<Name, set<RType>>)

  datatype Answer =
    | Found      // an RRset of the queried type
    | Alias      // a CNAME to follow
    | Referral   // the name belongs to another zone, or is redirected by a DNAME
    | NoData     // the name exists without the type
    | NxDomain   // the name does not exist

  predicate Negative(a: Answer) { a.NoData? || a.NxDomain? }

  ghost predicate Valid(z: Zone) {
    && z.apex in z.nodes && SOA in z.nodes[z.apex]
    && forall n | n in z.nodes :: ZoneOf(z.apex, n)
  }

  /** `n` is in the zone, as a node or as an empty non-terminal. */
  ghost predicate Exists(z: Zone, n: Name) {
    ZoneOf(z.apex, n) && exists o | o in z.nodes :: ZoneOf(n, o)
  }

  /** The types present at `n`; none at an empty non-terminal. */
  function TypesAt(z: Zone, n: Name): set<RType> {
    if n in z.nodes then z.nodes[n] else {}
  }

  predicate IsDelegation(types: set<RType>) { NS in types && SOA !in types }

  /** What is below belongs elsewhere: a delegation point or a DNAME owner. */
  predicate IsCut(types: set<RType>) { IsDelegation(types) || DNAME in types }

  /** A cut sits strictly above `q`. */
  ghost predicate BelowCut(z: Zone, q: Name) {
    exists c | c in z.nodes :: ZoneOf(c, q) && c != q && IsCut(z.nodes[c])
  }

  /** Nothing is owned strictly below a cut. */
  ghost predicate Proper(z: Zone) {
    forall n | n in z.nodes :: !BelowCut(z, n)
  }

  /** Every owner is a legal name. */
  ghost predicate Legal(z: Zone) {
    forall n | n in z.nodes :: WellFormed(n)
  }

  function NodeAnswer(types: set<RType>, t: RType): Answer {
    if t in types then Found
    else if CNAME in types then Alias
    else if IsDelegation(types) && t != DS then Referral
    else NoData
  }

  /** `e` is the longest existing ancestor-or-self of `q`. */
  ghost predicate Encloses(z: Zone, q: Name, e: Name) {
    && Exists(z, e) && ZoneOf(e, q)
    && forall p | Exists(z, p) && ZoneOf(p, q) :: |p| <= |e|
  }

  lemma {:induction false} EncloserExists(z: Zone, q: Name)
    requires Valid(z) && ZoneOf(z.apex, q)
    ensures exists e :: Encloses(z, q, e)
  {
    if Exists(z, q) {
      assert Encloses(z, q, q);
    } else {
      assert q != z.apex by {
        assert ZoneOf(z.apex, z.apex);
      }
      EncloserExists(z, BaseName(q));
      var e :| Encloses(z, BaseName(q), e);
      assert forall p | Exists(z, p) && ZoneOf(p, q) :: ZoneOf(p, BaseName(q));
      assert Encloses(z, q, e);
    }
  }

  ghost function ClosestEncloser(z: Zone, q: Name): (e: Name)
    requires Valid(z) && ZoneOf(z.apex, q)
    ensures Encloses(z, q, e)
  {
    EncloserExists(z, q);
    var e :| Encloses(z, q, e);
    e
  }

  /** The authoritative answer for `q`/`t` (RFC 1034 section 4.3.2 with the
      wildcard rules of RFC 4592): a wildcard answers only from directly below
      the closest encloser. */
  ghost function Lookup(z: Zone, q: Name, t: RType): Answer
    requires Valid(z) && ZoneOf(z.apex, q)
  {
    if BelowCut(z, q) then Referral
    else if Exists(z, q) then NodeAnswer(TypesAt(z, q), t)
    else
      var source := ClosestEncloser(z, q) + [Star];
      if Exists(z, source) then NodeAnswer(TypesAt(z, source), t) else NxDomain
  }

  /** Ancestors of an existing name exist. */
  lemma ExistsAbove(z: Zone, p: Name, n: Name)
    requires Exists(z, n) && ZoneOf(p, n) && ZoneOf(z.apex, p)
    ensures Exists(z, p)
  {
    var o :| o in z.nodes && ZoneOf(n, o);
    Above(p, n, o);
  }

  /** An existing ancestor whose next closer name does not exist is the
      closest encloser. */
  lemma EncloserIs(z: Zone, q: Name, e: Name)
    requires Valid(z) && ZoneOf(z.apex, q) && ZoneOf(e, q) && Exists(z, e)
    requires e == q || !Exists(z, q[..|e| + 1])
    ensures ClosestEncloser(z, q) == e
  {
    var c := ClosestEncloser(z, q);
    if |c| > |e| {
      var nc := q[..|e| + 1];
      SameLine(nc, c, q);
      SameLine(z.apex, nc, q);
      ExistsAbove(z, nc, c);
    }
    SameLine(c, e, q);
    SameLine(e, c, q);
  }

  /** The bitmap denies `t` and CNAME; a parent-side delegation denies only DS. */
  predicate DeniesType(types: set<RType>, t: RType) {
    if t in types || CNAME in types then false
    else if t == DS then true
    else NS !in types || SOA in types
  }

  /** A bitmap denies a type exactly when the node answers NODATA for it. */
  lemma DeniesIsNoData(types: set<RType>, t: RType)
    ensures DeniesType(types, t) <==> NodeAnswer(types, t).NoData?
  {
  }

  /** A name that is no node, without a wildcard at its closest encloser. */
  lemma NoWildcardNoAnswer(z: Zone, q: Name, t: RType)
    requires Valid(z) && ZoneOf(z.apex, q) && q !in z.nodes
    requires !Exists(z, q) ==> ClosestEncloser(z, q) + [Star] !in z.nodes
    ensures Negative(Lookup(z, q, t)) <==> !BelowCut(z, q)
  {
    assert NodeAnswer({}, t).NoData?;
  }

  /** A denied bitmap at the wildcard of the closest encloser. */
  lemma DeniedByWildcard(z: Zone, q: Name, t: RType)
    requires Valid(z) && ZoneOf(z.apex, q) && !Exists(z, q)
    requires var w := ClosestEncloser(z, q) + [Star]; Exists(z, w) && DeniesType(TypesAt(z, w), t)
    ensures Negative(Lookup(z, q, t)) <==> !BelowCut(z, q)
  {
    DeniesIsNoData(TypesAt(z, ClosestEncloser(z, q) + [Star]), t);
  }

  /** What exists in a proper zone is not below a cut. */
  lemma ExistsAboveCuts(z: Zone, n: Name)
    requires Proper(z) && Exists(z, n)
    ensures !BelowCut(z, n)
  {
    var o :| o in z.nodes && ZoneOf(n, o);
    forall c | c in z.nodes && ZoneOf(c, n) && c != n && IsCut(z.nodes[c]) ensures BelowCut(z, o) {
      Above(c, n, o);
    }
  }

  /** In a proper zone only the closest encloser can be the cut above a name. */
  lemma CutAtEncloser(z: Zone, q: Name)
    requires Valid(z) && Proper(z) && ZoneOf(z.apex, q)
    ensures var e := ClosestEncloser(z, q); BelowCut(z, q) <==> e != q && IsCut(TypesAt(z, e))
  {
    var e := ClosestEncloser(z, q);
    ExistsAboveCuts(z, e);
    forall c | c in z.nodes && ZoneOf(c, q) && c != q && IsCut(z.nodes[c]) ensures c == e {
      NodeExists(z, c);
      SameLine(c, e, q);
    }
  }

  lemma NodeExists(z: Zone, n: Name)
    requires Valid(z) && n in z.nodes
    ensures Exists(z, n)
  {
    assert ZoneOf(n, n);
  }
}

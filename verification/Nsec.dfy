/** NSEC denial-of-existence evaluation. */
module Nsec {
  import opened Names
  import opened Zones

  datatype NsecRecord = NsecRecord(owner: Name, next: Name, types: set<RType>)

  datatype Verdict = Secure | Incomplete

  /** `q` falls strictly between the owner and the next name, wrapping at the
      last record of the zone. */
  predicate Covers(r: NsecRecord, q: Name) {
    if r.owner == q then false
    else if !NameLess(r.owner, r.next) then NameLess(r.owner, q) || NameLess(q, r.next)
    else NameLess(r.owner, q) && NameLess(q, r.next)
  }

  /** The records whose owner lies in the signer zone. */
  function Relevant(records: seq<NsecRecord>, zone: Name): seq<NsecRecord> {
    if records == [] then []
    else
      var rest := Relevant(records[..|records| - 1], zone);
      var last := records[|records| - 1];
      if ZoneOf(zone, last.owner) then rest + [last] else rest
  }

  /** A wildcard owner only proves its base name. */
  function Start(owner: Name): Name {
    if IsWildcard(owner) then BaseName(owner) else owner
  }

  /** The first non-root proper ancestor of `q` on the way up from `cand`. */
  function Climb(cand: Name, q: Name): Option<Name> {
    if cand == [] then None
    else if cand != q && ZoneOf(cand, q) then Some(cand)
    else Climb(BaseName(cand), q)
  }

  function Better(closest: Name, r: NsecRecord, q: Name): Name {
    match Climb(Start(r.owner), q)
    case Some(c) => if NumLabels(c) > NumLabels(closest) then c else closest
    case None => closest
  }

  /** The encloser the records show: the deepest climbed name, the first such
      record winning, at least the signer zone. */
  function Closest(records: seq<NsecRecord>, q: Name, zone: Name): Name {
    if records == [] then zone
    else Better(Closest(records[..|records| - 1], q, zone), records[|records| - 1], q)
  }

  predicate AnyOwner(relevant: seq<NsecRecord>, n: Name) { exists r | r in relevant :: r.owner == n }

  predicate AnyCovers(relevant: seq<NsecRecord>, n: Name) { exists r | r in relevant :: Covers(r, n) }

  predicate AnyDenies(relevant: seq<NsecRecord>, q: Name, t: RType) {
    exists r | r in relevant :: r.owner == q && DeniesType(r.types, t)
  }

  predicate AnyWildcardDenies(relevant: seq<NsecRecord>, closest: Name, t: RType) {
    exists r | r in relevant :: IsWildcard(r.owner) && DeniesType(r.types, t) && BaseName(r.owner) == closest
  }

  /** The verdict as one expression; `EvaluateNsecDenial` computes it. */
  function Evaluate(records: seq<NsecRecord>, q: Name, t: RType, nxdomain: bool, zone: Name): Verdict {
    if !ZoneOf(zone, q) then Incomplete
    else
      var relevant := Relevant(records, zone);
      var closest := Closest(relevant, q, zone);
      if nxdomain then
        if !AnyOwner(relevant, q) && AnyCovers(relevant, q)
           && WildcardOf(closest).Some? && AnyCovers(relevant, WildcardOf(closest).value)
        then Secure else Incomplete
      else
        if AnyDenies(relevant, q, t)
           || (AnyCovers(relevant, q) && AnyWildcardDenies(relevant, closest, t))
        then Secure else Incomplete
  }

  method CollectRelevant(records: seq<NsecRecord>, zone: Name) returns (relevant: seq<NsecRecord>)
    ensures relevant == Relevant(records, zone)
  {
    relevant := [];
    for i := 0 to |records|
      invariant relevant == Relevant(records[..i], zone)
    {
      assert records[..i + 1][..i] == records[..i];
      if ZoneOf(zone, records[i].owner) { relevant := relevant + [records[i]]; }
    }
    assert records[..|records|] == records;
  }

  method FindClosest(relevant: seq<NsecRecord>, q: Name, zone: Name) returns (closest: Name)
    ensures closest == Closest(relevant, q, zone)
  {
    closest := zone;
    for i := 0 to |relevant|
      invariant closest == Closest(relevant[..i], q, zone)
    {
      assert relevant[..i + 1][..i] == relevant[..i];
      ghost var before := closest;
      var cand := if IsWildcard(relevant[i].owner) then BaseName(relevant[i].owner) else relevant[i].owner;
      while cand != []
        invariant closest == before
        invariant Climb(cand, q) == Climb(Start(relevant[i].owner), q)
        decreases |cand|
      {
        if cand != q && ZoneOf(cand, q) {
          if NumLabels(cand) > NumLabels(closest) { closest := cand; }
          break;
        }
        cand := BaseName(cand);
      }
      assert closest == Better(before, relevant[i], q);
    }
    assert relevant[..|relevant|] == relevant;
  }

  method EvaluateNsecDenial(records: seq<NsecRecord>, q: Name, t: RType, nxdomain: bool, zone: Name)
    returns (v: Verdict)
    ensures v == Evaluate(records, q, t, nxdomain, zone)
  {
    if !ZoneOf(zone, q) { return Incomplete; }
    var relevant := CollectRelevant(records, zone);
    var closest := FindClosest(relevant, q, zone);
    if nxdomain {
      if AnyOwner(relevant, q) { return Incomplete; }
      if !AnyCovers(relevant, q) { return Incomplete; }
      var wildcard := WildcardOf(closest);
      if wildcard.None? { return Incomplete; }
      if !AnyCovers(relevant, wildcard.value) { return Incomplete; }
      return Secure;
    }
    if AnyDenies(relevant, q, t) { return Secure; }
    var exactNameAbsent := AnyCovers(relevant, q);
    if exactNameAbsent && AnyWildcardDenies(relevant, closest, t) { return Secure; }
    return Incomplete;
  }

  lemma {:induction false} RelevantMembers(records: seq<NsecRecord>, zone: Name)
    ensures forall r :: r in Relevant(records, zone) <==> r in records && ZoneOf(zone, r.owner)
  {
    if records != [] {
      var init := records[..|records| - 1];
      RelevantMembers(init, zone);
      assert records == init + [records[|records| - 1]];
    }
  }

  /** `Climb` finds the longest non-root proper ancestor of `q` that is an
      ancestor-or-self of the starting name, and nothing exactly when there is
      none. */
  lemma {:induction false} ClimbSpec(cand: Name, q: Name)
    ensures match Climb(cand, q)
            case Some(c) => c != [] && c != q && ZoneOf(c, q) && ZoneOf(c, cand)
            case None => true
    ensures forall p | p != [] && p != q && ZoneOf(p, q) && ZoneOf(p, cand) ::
              Climb(cand, q).Some? && |p| <= |Climb(cand, q).value|
  {
    if cand != [] && !(cand != q && ZoneOf(cand, q)) {
      ClimbSpec(BaseName(cand), q);
      assert forall p | p != q && ZoneOf(p, q) && ZoneOf(p, cand) :: ZoneOf(p, BaseName(cand));
    }
  }

  /** The chosen encloser comes from the zone or from a record, and no record
      shows one with more labels. */
  lemma {:induction false} ClosestSpec(records: seq<NsecRecord>, q: Name, zone: Name)
    ensures var c := Closest(records, q, zone);
            && (c == zone || exists r | r in records :: Climb(Start(r.owner), q) == Some(c))
            && NumLabels(zone) <= NumLabels(c)
            && (c != zone ==> NumLabels(zone) < NumLabels(c))
            && forall r | r in records && Climb(Start(r.owner), q).Some? ::
                 NumLabels(Climb(Start(r.owner), q).value) <= NumLabels(c)
  {
    if records != [] {
      var init := records[..|records| - 1];
      ClosestSpec(init, q, zone);
      assert records == init + [records[|records| - 1]];
    }
  }

  lemma {:induction false} RelevantJoins(a: seq<NsecRecord>, b: seq<NsecRecord>, zone: Name)
    ensures Relevant(a + b, zone) == Relevant(a, zone) + Relevant(b, zone)
  {
    if b == [] {
      assert a + b == a;
    } else {
      RelevantJoins(a, b[..|b| - 1], zone);
      assert (a + b)[..|a + b| - 1] == a + b[..|b| - 1];
    }
  }

  /** A record owned outside the signer zone never influences a verdict. */
  lemma ForeignIgnored(a: seq<NsecRecord>, r: NsecRecord, b: seq<NsecRecord>, q: Name, t: RType, nxdomain: bool,
                       zone: Name)
    requires !ZoneOf(zone, r.owner)
    ensures Evaluate(a + [r] + b, q, t, nxdomain, zone) == Evaluate(a + b, q, t, nxdomain, zone)
  {
    RelevantJoins(a + [r], b, zone);
    RelevantJoins(a, b, zone);
    assert (a + [r])[..|a|] == a;
  }

  /** Whatever the records, genuine or not, nothing is proved about a name outside
      the signer zone, and no NXDOMAIN about the owner of one of them. */
  lemma NeverDenied(records: seq<NsecRecord>, q: Name, t: RType, nxdomain: bool, zone: Name)
    requires !ZoneOf(zone, q) || (nxdomain && exists r | r in records :: r.owner == q)
    ensures Evaluate(records, q, t, nxdomain, zone) == Incomplete
  {
    RelevantMembers(records, zone);
  }
}

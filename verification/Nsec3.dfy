/** NSEC3 denial-of-existence evaluation. */
module Nsec3 {
  import opened Names
  import opened Zones

  const MAX_ITERATIONS: nat := 150

  type Digest = seq<byte>

  /** The hash of a name under a salt and an iteration count; `None` when the
      algorithm cannot hash it. */
  type Hash = (seq<byte>, nat, Name) -> Option<Digest>

  /** A record: the zone its owner label hangs below, the digest decoded from
      that label (`None` when it is no Base32 text) and its data. */
  datatype Nsec3Record = Nsec3Record(
    zone: Name, ownerHash: Option<Digest>, next: Digest,
    salt: seq<byte>, iterations: nat, optOut: bool, types: set<RType>)

  datatype Verdict = Secure | OptOut | Incomplete

  function HashName(h: Hash, r: Nsec3Record, n: Name): Option<Digest> {
    if r.iterations > MAX_ITERATIONS then None else h(r.salt, r.iterations, n)
  }

  predicate Matches(h: Hash, r: Nsec3Record, n: Name) {
    r.ownerHash.Some? && HashName(h, r, n).Some? && r.ownerHash == HashName(h, r, n)
  }

  predicate Covers(h: Hash, r: Nsec3Record, n: Name) {
    match (r.ownerHash, HashName(h, r, n))
    case (Some(owner), Some(hash)) =>
      if owner == hash || hash == r.next then false
      else if OctetsLess(owner, r.next) then OctetsLess(owner, hash) && OctetsLess(hash, r.next)
      else OctetsLess(owner, hash) || OctetsLess(hash, r.next)
    case _ => false
  }

  predicate IsRelevant(r: Nsec3Record, q: Name) {
    ZoneOf(r.zone, q) && r.iterations <= MAX_ITERATIONS
  }

  function Relevant(records: seq<Nsec3Record>, q: Name): seq<Nsec3Record> {
    if records == [] then []
    else
      var rest := Relevant(records[..|records| - 1], q);
      var last := records[|records| - 1];
      if IsRelevant(last, q) then rest + [last] else rest
  }

  /** The first matched name on the way up from `cand`. */
  function Walk(h: Hash, relevant: seq<Nsec3Record>, cand: Name): Option<Name> {
    if exists r | r in relevant :: Matches(h, r, cand) then Some(cand)
    else if cand == [] then None
    else Walk(h, relevant, BaseName(cand))
  }

  /** The ancestor of `q` one label below its proper ancestor `c`. */
  function NextCloser(c: Name, q: Name): Name
    requires |c| < |q|
  {
    q[..|c| + 1]
  }

  function FirstCovering(h: Hash, relevant: seq<Nsec3Record>, n: Name): Option<Nsec3Record> {
    if relevant == [] then None
    else
      match FirstCovering(h, relevant[..|relevant| - 1], n)
      case Some(r) => Some(r)
      case None =>
        var last := relevant[|relevant| - 1];
        if Covers(h, last, n) then Some(last) else None
  }

  /** The NODATA verdict below a proper closest encloser `c`. */
  function WildcardNodata(h: Hash, relevant: seq<Nsec3Record>, q: Name, c: Name, t: RType): Verdict
    requires |c| < |q|
  {
    match FirstCovering(h, relevant, NextCloser(c, q))
    case None => Incomplete
    case Some(cover) =>
      if WildcardOf(c).Some?
         && exists r | r in relevant :: Matches(h, r, WildcardOf(c).value) && DeniesType(r.types, t)
      then Secure
      else if cover.optOut then OptOut else Incomplete
  }

  /** The NXDOMAIN verdict below a proper closest encloser `c`. */
  function Nxdomain(h: Hash, relevant: seq<Nsec3Record>, q: Name, c: Name): Verdict
    requires |c| < |q|
  {
    match (WildcardOf(c), FirstCovering(h, relevant, NextCloser(c, q)))
    case (Some(w), Some(cover)) =>
      if cover.optOut then OptOut
      else if exists r | r in relevant :: Covers(h, r, w) then Secure else Incomplete
    case _ => Incomplete
  }

  /** The verdict as one expression; `EvaluateNsec3Denial` computes it. */
  function Evaluate(h: Hash, records: seq<Nsec3Record>, q: Name, t: RType, nxdomain: bool): Verdict {
    var relevant := Relevant(records, q);
    match Walk(h, relevant, q)
    case None => Incomplete
    case Some(c) =>
      if c == q then
        if !nxdomain && exists r | r in relevant :: Matches(h, r, q) && DeniesType(r.types, t)
        then Secure else Incomplete
      else
        WalkSpec(h, relevant, q);
        if nxdomain then Nxdomain(h, relevant, q, c) else WildcardNodata(h, relevant, q, c, t)
  }

  /** The walk finds the longest matched ancestor-or-self, and nothing exactly
      when none is matched. */
  lemma {:induction false} WalkSpec(h: Hash, relevant: seq<Nsec3Record>, cand: Name)
    ensures match Walk(h, relevant, cand)
            case Some(c) => ZoneOf(c, cand) && exists r | r in relevant :: Matches(h, r, c)
            case None => true
    ensures forall p, r | ZoneOf(p, cand) && r in relevant && Matches(h, r, p) ::
              Walk(h, relevant, cand).Some? && |p| <= |Walk(h, relevant, cand).value|
  {
    if !(exists r | r in relevant :: Matches(h, r, cand)) && cand != [] {
      WalkSpec(h, relevant, BaseName(cand));
      assert forall p | ZoneOf(p, cand) && p != cand :: ZoneOf(p, BaseName(cand));
    }
  }

  method CollectRelevant(records: seq<Nsec3Record>, q: Name) returns (relevant: seq<Nsec3Record>)
    ensures relevant == Relevant(records, q)
  {
    relevant := [];
    for i := 0 to |records|
      invariant relevant == Relevant(records[..i], q)
    {
      assert records[..i + 1][..i] == records[..i];
      if ZoneOf(records[i].zone, q) && records[i].iterations <= MAX_ITERATIONS {
        relevant := relevant + [records[i]];
      }
    }
    assert records[..|records|] == records;
  }

  method FindCovering(h: Hash, relevant: seq<Nsec3Record>, n: Name) returns (cover: Option<Nsec3Record>)
    ensures cover == FirstCovering(h, relevant, n)
  {
    cover := None;
    for i := 0 to |relevant|
      invariant cover == None && FirstCovering(h, relevant[..i], n) == None
    {
      assert relevant[..i + 1][..i] == relevant[..i];
      if Covers(h, relevant[i], n) {
        FirstOfPrefix(h, relevant, n, i + 1);
        return Some(relevant[i]);
      }
    }
    assert relevant[..|relevant|] == relevant;
  }

  lemma {:induction false} FirstOfPrefix(h: Hash, relevant: seq<Nsec3Record>, n: Name, i: nat)
    requires i <= |relevant| && FirstCovering(h, relevant[..i], n).Some?
    ensures FirstCovering(h, relevant, n) == FirstCovering(h, relevant[..i], n)
  {
    if i < |relevant| {
      assert relevant[..|relevant| - 1][..i] == relevant[..i];
      FirstOfPrefix(h, relevant[..|relevant| - 1], n, i);
    } else {
      assert relevant[..i] == relevant;
    }
  }

  /** The upward walk, with the name it passed last. */
  method FindEncloser(h: Hash, relevant: seq<Nsec3Record>, q: Name)
    returns (closest: Option<Name>, nextCloser: Option<Name>)
    ensures closest == Walk(h, relevant, q)
    ensures closest.Some? ==>
              ZoneOf(closest.value, q)
              && nextCloser == if closest.value == q then None else Some(NextCloser(closest.value, q))
  {
    var candidate := q;
    nextCloser := None;
    closest := None;
    while true
      invariant ZoneOf(candidate, q) && closest == None
      invariant Walk(h, relevant, candidate) == Walk(h, relevant, q)
      invariant nextCloser == if candidate == q then None else Some(NextCloser(candidate, q))
      decreases |candidate|
    {
      if exists r | r in relevant :: Matches(h, r, candidate) {
        closest := Some(candidate);
        break;
      }
      if candidate == [] { break; }
      nextCloser := Some(candidate);
      assert q[..|candidate|] == candidate;
      candidate := BaseName(candidate);
    }
  }

  method EvaluateNsec3Denial(h: Hash, records: seq<Nsec3Record>, q: Name, t: RType, nxdomain: bool)
    returns (v: Verdict)
    ensures v == Evaluate(h, records, q, t, nxdomain)
  {
    var relevant := CollectRelevant(records, q);
    if relevant == [] { return Incomplete; }
    var encloser, next := FindEncloser(h, relevant, q);
    if encloser.None? { return Incomplete; }
    var closest := encloser.value;
    if !nxdomain {
      if closest == q {
        var denied := exists r | r in relevant :: Matches(h, r, q) && DeniesType(r.types, t);
        return if denied then Secure else Incomplete;
      }
      var covering := FindCovering(h, relevant, next.value);
      if covering.None? { return Incomplete; }
      var wildcard := WildcardOf(closest);
      if wildcard.Some?
         && exists r | r in relevant :: Matches(h, r, wildcard.value) && DeniesType(r.types, t)
      {
        return Secure;
      }
      if covering.value.optOut { return OptOut; }
      return Incomplete;
    }
    if closest == q { return Incomplete; }
    var wildcard := WildcardOf(closest);
    if wildcard.None? { return Incomplete; }
    var covering := FindCovering(h, relevant, next.value);
    if covering.Some? && covering.value.optOut { return OptOut; }
    if covering.Some? && exists r | r in relevant :: Covers(h, r, wildcard.value) { return Secure; }
    return Incomplete;
  }

  lemma {:induction false} RelevantMembers(records: seq<Nsec3Record>, q: Name)
    ensures forall r :: r in Relevant(records, q) <==> r in records && IsRelevant(r, q)
  {
    if records != [] {
      var init := records[..|records| - 1];
      RelevantMembers(init, q);
      assert records == init + [records[|records| - 1]];
    }
  }

  lemma {:induction false} FirstCoveringSpec(h: Hash, relevant: seq<Nsec3Record>, n: Name)
    ensures match FirstCovering(h, relevant, n)
            case Some(r) => r in relevant && Covers(h, r, n)
            case None => forall r | r in relevant :: !Covers(h, r, n)
  {
    if relevant != [] {
      var init := relevant[..|relevant| - 1];
      FirstCoveringSpec(h, init, n);
      assert relevant == init + [relevant[|relevant| - 1]];
    }
  }

  /** No record before the one found covers the name. */
  lemma {:induction false} FirstCoveringIsFirst(h: Hash, relevant: seq<Nsec3Record>, n: Name)
    requires FirstCovering(h, relevant, n).Some?
    ensures exists i | 0 <= i < |relevant| ::
              && relevant[i] == FirstCovering(h, relevant, n).value
              && forall j | 0 <= j < i :: !Covers(h, relevant[j], n)
  {
    var k := |relevant| - 1;
    var init := relevant[..k];
    FirstCoveringSpec(h, init, n);
    if FirstCovering(h, init, n).Some? {
      FirstCoveringIsFirst(h, init, n);
      var i :| 0 <= i < k && init[i] == FirstCovering(h, init, n).value
               && forall j | 0 <= j < i :: !Covers(h, init[j], n);
      assert relevant[i] == init[i] && forall j | 0 <= j < i :: relevant[j] == init[j];
    } else {
      assert forall j | 0 <= j < k :: relevant[j] in init;
      assert relevant[k] == FirstCovering(h, relevant, n).value;
    }
  }
}

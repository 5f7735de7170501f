/** DNS messages as the response cache sees them, and the CNAME chain of an
    answer section. */
module Messages {
  import opened Names

  const U32_MAX: nat := 0xffff_ffff

  type u32 = x: nat | x <= U32_MAX

  datatype RRType =
    | CNAME | SOA | NSEC | NSEC3 | RRSIG | SIG | ANY
    | OtherDnssec(code: nat) | Plain(code: nat)

  predicate IsDnssec(t: RRType) { t.NSEC? || t.NSEC3? || t.RRSIG? || t.SIG? || t.OtherDnssec? }

  datatype RData = Alias(target: Name) | Start(minimum: u32) | Data(rtype: RRType)

  datatype Record = Record(name: Name, ttl: u32, data: RData)

  function TypeOf(r: Record): RRType {
    match r.data
    case Alias(_) => CNAME
    case Start(_) => SOA
    case Data(t) => t
  }

  datatype Question = Question(name: Name, qtype: RRType, qclass: nat)

  datatype Rcode = NoError | NxDomain | OtherRcode(code: nat)

  datatype Message = Message(
    isResponse: bool, truncated: bool, authentic: bool, rcode: Rcode, question: Option<Question>,
    answers: seq<Record>, authorities: seq<Record>, additionals: seq<Record>)

  function AllRecords(m: Message): seq<Record> { m.answers + m.authorities + m.additionals }

  // ---- The CNAME chain --------------------------------------------------

  const MAX_CHAIN: nat := 16

  predicate IsAliasOf(r: Record, n: Name) { r.data.Alias? && r.name == n }

  /** The first CNAME owned by `n`. */
  function FirstAlias(answers: seq<Record>, n: Name): (r: Option<Record>)
    ensures r.Some? ==> r.value in answers && IsAliasOf(r.value, n)
    ensures r.None? ==> forall a | a in answers :: !IsAliasOf(a, n)
  {
    if answers == [] then None
    else if IsAliasOf(answers[0], n) then Some(answers[0])
    else FirstAlias(answers[1..], n)
  }

  lemma {:induction false} FirstAliasIsFirst(answers: seq<Record>, n: Name)
    requires FirstAlias(answers, n).Some?
    ensures exists i | 0 <= i < |answers| ::
              answers[i] == FirstAlias(answers, n).value && forall j | 0 <= j < i :: !IsAliasOf(answers[j], n)
  {
    if !IsAliasOf(answers[0], n) {
      FirstAliasIsFirst(answers[1..], n);
      var i :| 0 <= i < |answers| - 1 && answers[1..][i] == FirstAlias(answers, n).value
          && forall j | 0 <= j < i :: !IsAliasOf(answers[1..][j], n);
      assert forall j | 0 < j < i + 1 :: answers[j] == answers[1..][j - 1];
      assert answers[i + 1] == answers[1..][i];
    }
  }

  /** The names visited from `current` with `fuel` rounds left, after `seen`. */
  function Visit(answers: seq<Record>, current: Name, seen: seq<Name>, fuel: nat): seq<Name>
    decreases fuel
  {
    if fuel == 0 || current in seen then seen
    else
      match FirstAlias(answers, current)
      case None => seen + [current]
      case Some(r) => Visit(answers, r.data.target, seen + [current], fuel - 1)
  }

  function Chain(answers: seq<Record>, q: Name): seq<Name> {
    Visit(answers, q, [], MAX_CHAIN)
  }

  /** `b` is where the first CNAME of `a` points. */
  predicate Leads(answers: seq<Record>, a: Name, b: Name) {
    FirstAlias(answers, a).Some? && FirstAlias(answers, a).value.data.target == b
  }

  /** Distinct names, each led to by the one before. */
  ghost predicate IsPath(answers: seq<Record>, names: seq<Name>) {
    && (forall i, j | 0 <= i < j < |names| :: names[i] != names[j])
    && (forall i | 0 < i < |names| :: Leads(answers, names[i - 1], names[i]))
  }

  /** `n` is reached from `q` by following `k` first-match aliases. */
  ghost predicate Reaches(answers: seq<Record>, q: Name, n: Name, k: nat)
    decreases k
  {
    if k == 0 then n == q
    else exists m :: Reaches(answers, q, m, k - 1) && Leads(answers, m, n)
  }

  lemma {:induction false} VisitIsPath(answers: seq<Record>, current: Name, seen: seq<Name>, fuel: nat)
    requires IsPath(answers, seen) && (seen != [] ==> Leads(answers, seen[|seen| - 1], current))
    ensures var v := Visit(answers, current, seen, fuel);
            IsPath(answers, v) && seen <= v && |v| <= |seen| + fuel
            && (fuel > 0 && current !in seen ==> seen + [current] <= v)
    decreases fuel
  {
    if fuel > 0 && current !in seen {
      var next := seen + [current];
      assert IsPath(answers, next);
      match FirstAlias(answers, current) {
        case Some(r) => VisitIsPath(answers, r.data.target, next, fuel - 1);
        case None =>
      }
    }
  }

  /** A walk that stopped before its bound is closed: every alias of a visited
      name leads to a visited name. */
  lemma {:induction false} VisitIsClosed(answers: seq<Record>, current: Name, seen: seq<Name>, fuel: nat)
    requires IsPath(answers, seen) && (seen != [] ==> Leads(answers, seen[|seen| - 1], current))
    requires |Visit(answers, current, seen, fuel)| < |seen| + fuel
    ensures var v := Visit(answers, current, seen, fuel);
            current in v && forall a, b | a in v && Leads(answers, a, b) :: b in v
    decreases fuel
  {
    var v := Visit(answers, current, seen, fuel);
    if current in seen {
      forall a, b | a in seen && Leads(answers, a, b) ensures b in seen {
        var i :| 0 <= i < |seen| && seen[i] == a;
        if i < |seen| - 1 { assert Leads(answers, seen[i], seen[i + 1]); }
      }
    } else {
      var next := seen + [current];
      match FirstAlias(answers, current) {
        case Some(r) =>
          VisitIsClosed(answers, r.data.target, next, fuel - 1);
          VisitIsPath(answers, current, seen, fuel);
          assert current in next && forall n | n in next :: n in v;
        case None =>
          forall a, b | a in next && Leads(answers, a, b) ensures b in next {
            var i :| 0 <= i < |next| && next[i] == a;
            assert i < |seen|;
            if i < |seen| - 1 { assert Leads(answers, seen[i], seen[i + 1]); }
          }
      }
    }
  }

  /** The chain: at most 16 distinct linked names starting at the query name. */
  lemma ChainIsPath(answers: seq<Record>, q: Name)
    ensures var c := Chain(answers, q);
            IsPath(answers, c) && 1 <= |c| <= MAX_CHAIN && c[0] == q
  {
    VisitIsPath(answers, q, [], MAX_CHAIN);
    assert [] + [q] <= Chain(answers, q);
  }

  /** Every alias of a name in `v` leads to a name in `v`. */
  ghost predicate Closed(answers: seq<Record>, v: seq<Name>) {
    forall a, b | a in v && Leads(answers, a, b) :: b in v
  }

  lemma ChainIsClosed(answers: seq<Record>, q: Name)
    requires |Chain(answers, q)| < MAX_CHAIN
    ensures q in Chain(answers, q) && Closed(answers, Chain(answers, q))
  {
    VisitIsClosed(answers, q, [], MAX_CHAIN);
  }

  lemma {:induction false} ClosedHoldsReached(answers: seq<Record>, v: seq<Name>, q: Name, n: Name, k: nat)
    requires q in v && Closed(answers, v) && Reaches(answers, q, n, k)
    ensures n in v
    decreases k
  {
    if k > 0 {
      var m :| Reaches(answers, q, m, k - 1) && Leads(answers, m, n);
      ClosedHoldsReached(answers, v, q, m, k - 1);
    }
  }

  lemma {:induction false} VisitedIsReached(answers: seq<Record>, q: Name, i: nat)
    requires i < |Chain(answers, q)|
    ensures Reaches(answers, q, Chain(answers, q)[i], i)
  {
    ChainIsPath(answers, q);
    if i > 0 {
      VisitedIsReached(answers, q, i - 1);
      assert Leads(answers, Chain(answers, q)[i - 1], Chain(answers, q)[i]);
    }
  }

  ghost predicate Reachable(answers: seq<Record>, q: Name, n: Name) {
    exists k: nat :: Reaches(answers, q, n, k)
  }

  /** A chain below the bound holds exactly the names reachable from the query
      name by first-match aliases. */
  lemma ChainIsReachable(answers: seq<Record>, q: Name, n: Name)
    requires |Chain(answers, q)| < MAX_CHAIN
    ensures n in Chain(answers, q) <==> Reachable(answers, q, n)
  {
    var c := Chain(answers, q);
    if n in c {
      var i :| 0 <= i < |c| && c[i] == n;
      VisitedIsReached(answers, q, i);
      assert Reaches(answers, q, n, i);
    } else if Reachable(answers, q, n) {
      var k: nat :| Reaches(answers, q, n, k);
      ChainIsClosed(answers, q);
      ClosedHoldsReached(answers, Chain(answers, q), q, n, k);
    }
  }

  lemma {:induction false} ReachesOne(answers: seq<Record>, q: Name, n: Name, m: Name, k: nat)
    requires Reaches(answers, q, n, k) && Reaches(answers, q, m, k)
    ensures n == m
    decreases k
  {
    if k > 0 {
      var n' :| Reaches(answers, q, n', k - 1) && Leads(answers, n', n);
      var m' :| Reaches(answers, q, m', k - 1) && Leads(answers, m', m);
      ReachesOne(answers, q, n', m', k - 1);
    }
  }

  /** The chain is exactly what fewer than 16 aliases lead to. */
  lemma ChainExactly(answers: seq<Record>, q: Name, n: Name)
    ensures n in Chain(answers, q) <==> exists k: nat | k < 16 :: Reaches(answers, q, n, k)
  {
    var c := Chain(answers, q);
    ChainIsPath(answers, q);
    if n in c {
      var i :| 0 <= i < |c| && c[i] == n;
      VisitedIsReached(answers, q, i);
      assert Reaches(answers, q, n, i);
    }
    if exists k: nat | k < 16 :: Reaches(answers, q, n, k) {
      var k: nat :| k < 16 && Reaches(answers, q, n, k);
      if |c| < MAX_CHAIN {
        assert Reachable(answers, q, n);
        ChainIsReachable(answers, q, n);
      } else {
        VisitedIsReached(answers, q, k);
        ReachesOne(answers, q, n, c[k], k);
      }
    }
  }

  /** Bailiwick: every answer is owned by a name on the chain. */
  method AnswerOwnersAreRelevant(q: Name, answers: seq<Record>) returns (ok: bool)
    ensures ok <==> forall r | r in answers :: r.name in Chain(answers, q)
  {
    var relevant: seq<Name> := [];
    var current := q;
    var i := 0;
    while i < MAX_CHAIN
      invariant 0 <= i <= MAX_CHAIN
      invariant Visit(answers, current, relevant, MAX_CHAIN - i) == Chain(answers, q)
    {
      if current in relevant { break; }
      var next := FirstAlias(answers, current);
      relevant := relevant + [current];
      if next.None? { break; }
      current := next.value.data.target;
      i := i + 1;
    }
    assert relevant == Chain(answers, q);
    ok := forall r | r in answers :: r.name in relevant;
  }

  /** No alias followed from a visited name lives shorter than `ttl`, which is
      the lifetime of one of them; `None` when none was followed. */
  ghost predicate IsChainTtl(answers: seq<Record>, names: seq<Name>, ttl: Option<u32>) {
    match ttl
    case None => forall n | n in names :: FirstAlias(answers, n).None?
    case Some(t) =>
      && (exists n | n in names :: FirstAlias(answers, n).Some? && FirstAlias(answers, n).value.ttl == t)
      && (forall n | n in names && FirstAlias(answers, n).Some? :: t <= FirstAlias(answers, n).value.ttl)
  }

  lemma ChainTtlExtend(answers: seq<Record>, names: seq<Name>, ttl: Option<u32>, n: Name)
    requires IsChainTtl(answers, names, ttl)
    ensures var a := FirstAlias(answers, n);
            IsChainTtl(answers, names + [n],
                       if a.None? then ttl
                       else if ttl.None? || a.value.ttl < ttl.value then Some(a.value.ttl) else ttl)
  {
    assert n in names + [n];
    assert forall m | m in names :: m in names + [n];
  }

  /** The chain's names and the shortest lifetime among its aliases. */
  method CnameChain(q: Name, answers: seq<Record>) returns (names: seq<Name>, minTtl: Option<u32>)
    ensures names == Chain(answers, q)
    ensures IsChainTtl(answers, names, minTtl)
  {
    names := [];
    minTtl := None;
    var current := q;
    var i := 0;
    while i < MAX_CHAIN
      invariant 0 <= i <= MAX_CHAIN
      invariant Visit(answers, current, names, MAX_CHAIN - i) == Chain(answers, q)
      invariant IsChainTtl(answers, names, minTtl)
    {
      if current in names { break; }
      ChainTtlExtend(answers, names, minTtl, current);
      var next := FirstAlias(answers, current);
      names := names + [current];
      if next.None? { break; }
      minTtl := if minTtl.None? || next.value.ttl < minTtl.value then Some(next.value.ttl) else minTtl;
      current := next.value.data.target;
      i := i + 1;
    }
  }
}

/** Parental categories: which queried domains a category blocks. */
module Parental {
  import opened Names
  import opened Text
  import opened Domains

  const IGNORED_HOSTNAMES: set<string> := {
    "localhost", "localhost.localdomain", "local", "broadcasthost", "ip6-localhost", "ip6-loopback",
    "ip6-localnet", "ip6-mcastprefix", "ip6-allnodes", "ip6-allrouters", "ip6-allhosts", "0.0.0.0", "::1", "::"}

  // ---- Lists ------------------------------------------------------------

  predicate IsIgnored(token: string) { Lower(TrimDots(token)) in IGNORED_HOSTNAMES }

  /** The token is an entry for `d` and not one of the ignored host names, spelled
      in any case with any number of final dots. */
  ghost predicate States(token: string, d: string) {
    && (!exists h | h in IGNORED_HOSTNAMES :: Dotted(token, h))
    && IsHostName(d) && IsEntryFor(token, d)
  }

  lemma IgnoredNamesEnd(h: string)
    requires h in IGNORED_HOSTNAMES
    ensures !EndsInDot(h)
  {
  }

  lemma IgnoredExactly(token: string)
    ensures IsIgnored(token) <==> exists h | h in IGNORED_HOSTNAMES :: Dotted(token, h)
  {
    forall h | h in IGNORED_HOSTNAMES ensures Dotted(token, h) <==> Lower(TrimDots(token)) == h {
      IgnoredNamesEnd(h);
      DottedIs(token, h);
    }
  }

  lemma StatesExactly(token: string, d: string)
    ensures States(token, d) <==> !IsIgnored(token) && NormalizeDomainToken(token) == Some(d)
  {
    IgnoredExactly(token);
    NormalizesExactly(token, d);
    DomainsAreHostNames(d);
  }

  /** A domain some token of the list stands for. */
  ghost predicate Stated(tokens: seq<string>, d: string) {
    exists t | t in tokens :: States(t, d)
  }

  method ParseTokens(tokens: seq<string>) returns (domains: seq<string>)
    ensures forall d :: d in domains <==> Stated(tokens, d)
  {
    domains := [];
    for i := 0 to |tokens|
      invariant forall d :: d in domains <==> Stated(tokens[..i], d)
    {
      assert tokens[..i + 1] == tokens[..i] + [tokens[i]];
      forall d ensures States(tokens[i], d) <==> !IsIgnored(tokens[i]) && NormalizeDomainToken(tokens[i]) == Some(d) {
        StatesExactly(tokens[i], d);
      }
      if !IsIgnored(tokens[i]) {
        var domain := NormalizeDomainToken(tokens[i]);
        if domain.Some? {
          domains := domains + [domain.value];
        }
      }
    }
    assert tokens[..|tokens|] == tokens;
  }

  /** `d` is `q` or an ancestor of it. */
  predicate MatchesDomainSuffix(q: string, d: string) {
    && d != []
    && (q == d || (|q| > |d| && q[|q| - |d|..] == d && q[|q| - |d| - 1] == '.'))
  }

  /** The query, final dots aside, is `d` or ends in it after a dot, in any case. */
  ghost predicate Asks(query: string, d: string) {
    exists i: nat | i + |d| <= |query| :: AsksAt(query, d, i)
  }

  ghost predicate AsksAt(query: string, d: string, i: nat)
    requires i + |d| <= |query|
  {
    (i == 0 || query[i - 1] == '.') && Spells(query[i..i + |d|], d) && AllDots(query[i + |d|..])
  }

  lemma LowerOfTail(x: string, i: nat)
    requires i <= |x|
    ensures Lower(x)[i..] == Lower(x[i..])
  {
  }

  lemma SpellingEnds(x: string, d: string)
    requires d != [] && !EndsInDot(d) && Spells(x, d)
    ensures !EndsInDot(x)
  {
    assert IsSmallOf(d[|d| - 1], x[|d| - 1]);
  }

  lemma AsksTrims(query: string, d: string, i: nat)
    requires d != [] && !EndsInDot(d) && i + |d| <= |query| && AsksAt(query, d, i)
    ensures TrimDots(query) == query[..i + |d|]
  {
    var x, y, dots := query[..i + |d|], query[i..i + |d|], query[i + |d|..];
    SpellingEnds(y, d);
    assert x[|x| - 1] == y[|y| - 1];
    assert query == x + dots;
    TrimDotsSkips(x, dots);
  }

  lemma SuffixMatches(x: string, d: string, i: nat)
    requires d != [] && i + |d| == |x| && Lower(x[i..]) == d && (i == 0 || x[i - 1] == '.')
    ensures MatchesDomainSuffix(Lower(x), d)
  {
    LowerOfTail(x, i);
    if i == 0 {
      assert x[0..] == x;
    } else {
      assert Lower(x)[i - 1] == '.';
    }
  }

  lemma AsksMatches(query: string, d: string, i: nat)
    requires d != [] && !EndsInDot(d) && i + |d| <= |query| && AsksAt(query, d, i)
    ensures MatchesDomainSuffix(Lower(TrimDots(query)), d)
  {
    var x, y := query[..i + |d|], query[i..i + |d|];
    AsksTrims(query, d, i);
    LowerSpells(y, d);
    assert x[i..] == y && (i > 0 ==> x[i - 1] == query[i - 1]);
    SuffixMatches(x, d, i);
  }

  lemma MatchesAsks(query: string, d: string)
    requires MatchesDomainSuffix(Lower(TrimDots(query)), d)
    ensures Asks(query, d)
  {
    var dots := TrimDotsParts(query);
    var x := TrimDots(query);
    var i := |x| - |d|;
    assert query[i..i + |d|] == x[i..] && query[i + |d|..] == dots;
    LowerOfTail(x, i);
    LowerSpells(x[i..], d);
    assert i > 0 ==> query[i - 1] == x[i - 1];
    assert AsksAt(query, d, i);
  }

  lemma MatchesExactly(query: string, d: string)
    requires d != [] && !EndsInDot(d)
    ensures MatchesDomainSuffix(Lower(TrimDots(query)), d) <==> Asks(query, d)
  {
    if MatchesDomainSuffix(Lower(TrimDots(query)), d) { MatchesAsks(query, d); }
    if Asks(query, d) {
      var i: nat :| i + |d| <= |query| && AsksAt(query, d, i);
      AsksMatches(query, d, i);
    }
  }

  /** The walk has reached `q[i..]`, a parent, and found nothing on its way. */
  predicate NothingUpTo(q: string, domains: set<string>, i: nat)
    requires i <= |q|
  {
    q !in domains && forall j | 0 < j <= i && q[j - 1] == '.' :: q[j..] !in domains
  }

  lemma WalkIsSuffixMatch(q: string, domains: set<string>)
    requires "" !in domains
    ensures NothingUpTo(q, domains, |q|) <==> forall d | d in domains :: !MatchesDomainSuffix(q, d)
  {
    forall j | 0 < j <= |q| && q[j - 1] == '.' && q[j..] in domains
      ensures MatchesDomainSuffix(q, q[j..])
    {
      assert |q| - |q[j..]| == j;
    }
    forall d | d in domains && MatchesDomainSuffix(q, d)
      ensures !NothingUpTo(q, domains, |q|)
    {
      assert q != d ==> q[|q| - |d|..] in domains;
    }
  }

  /** The next dot of `q` after a parent starting at `i` is `p` further on. */
  lemma NextDot(q: string, i: nat, p: nat)
    requires i <= |q| && p == Find(q[i..], '.')
    ensures i + p <= |q| && forall j | i <= j < i + p :: q[j] != '.'
    ensures i + p < |q| ==> q[i + p] == '.'
  {
    forall j | i <= j < i + p ensures q[j] != '.' {
      assert q[j] == q[i..][j - i];
    }
  }

  method WalkSuffixes(domains: set<string>, q: string) returns (r: bool)
    requires "" !in domains
    ensures r <==> exists d | d in domains :: MatchesDomainSuffix(q, d)
  {
    WalkIsSuffixMatch(q, domains);
    if q in domains {
      return true;
    }
    var i, p := 0, Find(q, '.');
    assert q[0..] == q;
    NextDot(q, 0, p);
    while i + p < |q|
      invariant i <= |q| && p == Find(q[i..], '.')
      invariant NothingUpTo(q, domains, i)
      decreases |q| - i
    {
      NextDot(q, i, p);
      i := i + p + 1;
      if q[i..] in domains {
        assert !NothingUpTo(q, domains, |q|);
        return true;
      }
      p := Find(q[i..], '.');
    }
    NextDot(q, i, p);
    assert NothingUpTo(q, domains, |q|);
    return false;
  }

  class Registry {
    var categories: map<string, set<string>>

    /** Only domains are stored. */
    ghost predicate Valid()
      reads this
    {
      forall k, d | k in categories && d in categories[k] :: IsDomain(d)
    }

    constructor ()
      ensures Valid() && categories == map[]
    {
      categories := map[];
    }

    method AddCategoryList(category: string, tokens: seq<string>)
      requires Valid()
      modifies this
      ensures Valid() && Lower(category) in categories
      ensures var stored := if Lower(category) in old(categories) then old(categories)[Lower(category)] else {};
              forall d :: d in categories[Lower(category)] <==> d in stored || Stated(tokens, d)
      ensures categories - {Lower(category)} == old(categories) - {Lower(category)}
    {
      var parsed := ParseTokens(tokens);
      var key := Lower(category);
      var stored := if key in categories then categories[key] else {};
      categories := categories[key := stored + set d | d in parsed];
      forall d | Stated(tokens, d) ensures IsDomain(d) {
        DomainsAreHostNames(d);
      }
    }

    /** The category holds exactly what the new list states, and the count is of
        distinct domains. */
    method SetCategoryList(category: string, tokens: seq<string>) returns (count: nat)
      requires Valid()
      modifies this
      ensures Valid() && Lower(category) in categories && count == |categories[Lower(category)]|
      ensures forall d :: d in categories[Lower(category)] <==> Stated(tokens, d)
      ensures categories - {Lower(category)} == old(categories) - {Lower(category)}
    {
      var key := Lower(category);
      categories := categories - {key};
      AddCategoryList(category, tokens);
      count := |categories[key]|;
    }

    /** The parent walk finds a match exactly when the query is a stored domain or
        below one. */
    method MatchesCategory(category: string, query: string) returns (r: bool)
      requires Valid()
      ensures r <==> Lower(category) in categories && exists d | d in categories[Lower(category)] :: Asks(query, d)
    {
      var key := Lower(category);
      if key !in categories {
        return false;
      }
      assert !IsDomain("");
      forall d | d in categories[key]
        ensures MatchesDomainSuffix(Lower(TrimDots(query)), d) <==> Asks(query, d)
      {
        assert key in categories && IsDomain(d);
        DomainIsPlain(d);
        MatchesExactly(query, d);
      }
      r := WalkSuffixes(categories[key], Lower(TrimDots(query)));
    }
  }

  /** End to end: after a list is set, a query is blocked exactly when some token
      of that list stands for it or for an ancestor. */
  method SetThenMatch(r: Registry, category: string, tokens: seq<string>, query: string) returns (blocked: bool)
    requires r.Valid()
    modifies r
    ensures blocked <==> exists d | Stated(tokens, d) :: Asks(query, d)
  {
    var _ := r.SetCategoryList(category, tokens);
    blocked := r.MatchesCategory(category, query);
  }
}

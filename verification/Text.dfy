/** Trimming and lowercasing of strings. */
module Text {
  /** Unicode white space. */
  predicate IsSpace(c: char) {
    var n := c as int;
    || n == 0x20 || 0x09 <= n <= 0x0d || n == 0x85 || n == 0xa0 || n == 0x1680
    || 0x2000 <= n <= 0x200a || n == 0x2028 || n == 0x2029 || n == 0x202f || n == 0x205f || n == 0x3000
  }

  function TrimLeft(s: string): string {
    if s != [] && IsSpace(s[0]) then TrimLeft(s[1..]) else s
  }

  function TrimRight(s: string): string {
    if s != [] && IsSpace(s[|s| - 1]) then TrimRight(s[..|s| - 1]) else s
  }

  function Lower(s: string): string {
    seq(|s|, i requires 0 <= i < |s| => if 'A' <= s[i] <= 'Z' then (s[i] as int + 32) as char else s[i])
  }

  /** No white space at either end. */
  predicate Tight(s: string) {
    s != [] ==> !IsSpace(s[0]) && !IsSpace(s[|s| - 1])
  }

  lemma {:induction false} TrimLeftTight(s: string)
    ensures TrimLeft(s) != [] ==> !IsSpace(TrimLeft(s)[0])
  {
    if s != [] && IsSpace(s[0]) { TrimLeftTight(s[1..]); }
  }

  lemma {:induction false} TrimRightTight(s: string)
    requires s != [] ==> !IsSpace(s[0])
    ensures Tight(TrimRight(s))
  {
    if s != [] && IsSpace(s[|s| - 1]) { TrimRightTight(s[..|s| - 1]); }
  }

  // ---- What these compute -----------------------------------------------

  predicate AllSpace(s: string) { forall i | 0 <= i < |s| :: IsSpace(s[i]) }

  /** `l` is `c`, or its small letter when `c` is a capital one. */
  predicate IsSmallOf(l: char, c: char) {
    if 'A' <= c <= 'Z' then l as int - 'a' as int == c as int - 'A' as int else l == c
  }

  /** `x` is `d` but for the case of letters, and `d` has no capital ones. */
  ghost predicate Spells(x: string, d: string) {
    |x| == |d| && forall i | 0 <= i < |x| :: IsSmallOf(d[i], x[i])
  }

  lemma LowerSpells(x: string, d: string)
    ensures Lower(x) == d <==> Spells(x, d)
  {
  }

  lemma {:induction false} TrimLeftSkips(lead: string, s: string)
    requires AllSpace(lead) && (s != [] ==> !IsSpace(s[0]))
    ensures TrimLeft(lead + s) == s
  {
    if lead == [] {
      assert lead + s == s;
    } else {
      assert (lead + s)[1..] == lead[1..] + s;
      TrimLeftSkips(lead[1..], s);
    }
  }

  lemma {:induction false} TrimRightSkips(s: string, trail: string)
    requires AllSpace(trail) && (s != [] ==> !IsSpace(s[|s| - 1]))
    ensures TrimRight(s + trail) == s
  {
    if trail == [] {
      assert s + trail == s;
    } else {
      assert (s + trail)[..|s + trail| - 1] == s + trail[..|trail| - 1];
      TrimRightSkips(s, trail[..|trail| - 1]);
    }
  }

  lemma {:induction false} TrimLeftParts(s: string) returns (lead: string)
    ensures AllSpace(lead) && s == lead + TrimLeft(s)
  {
    if s != [] && IsSpace(s[0]) {
      var rest := TrimLeftParts(s[1..]);
      lead := [s[0]] + rest;
      assert s == [s[0]] + s[1..];
    } else {
      lead := [];
    }
  }

  lemma {:induction false} TrimRightParts(s: string) returns (trail: string)
    ensures AllSpace(trail) && s == TrimRight(s) + trail
  {
    if s != [] && IsSpace(s[|s| - 1]) {
      var rest := TrimRightParts(s[..|s| - 1]);
      trail := rest + [s[|s| - 1]];
      assert s == s[..|s| - 1] + [s[|s| - 1]];
    } else {
      trail := [];
    }
  }

  /** `s` is `t` between white space, and `t` has none at either end. */
  ghost predicate Surrounds(s: string, t: string) {
    Tight(t) && exists lead, trail :: Frames(s, lead, t, trail)
  }

  ghost predicate Frames(s: string, lead: string, t: string, trail: string) {
    AllSpace(lead) && AllSpace(trail) && s == lead + t + trail
  }

  /** Trimming leaves what white space surrounds. */
  lemma TrimIs(s: string, t: string)
    ensures TrimRight(TrimLeft(s)) == t <==> Surrounds(s, t)
  {
    TrimLeftTight(s);
    TrimRightTight(TrimLeft(s));
    var lead := TrimLeftParts(s);
    var trail := TrimRightParts(TrimLeft(s));
    assert s == lead + TrimRight(TrimLeft(s)) + trail;
    assert Frames(s, lead, TrimRight(TrimLeft(s)), trail);
    if Surrounds(s, t) {
      var lead, trail :| Frames(s, lead, t, trail);
      TrimFramed(lead, t, trail);
    }
  }

  lemma TrimFramed(lead: string, t: string, trail: string)
    requires AllSpace(lead) && AllSpace(trail) && Tight(t)
    ensures TrimRight(TrimLeft(lead + t + trail)) == t
  {
    if t == [] {
      assert lead + t + trail == (lead + trail) + [];
      TrimLeftSkips(lead + trail, []);
    } else {
      assert lead + t + trail == lead + (t + trail);
      TrimLeftSkips(lead, t + trail);
      TrimRightSkips(t, trail);
    }
  }
}

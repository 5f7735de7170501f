/** Domains in category lists: how they are written and what is stored. */
module Domains {
  import opened Names
  import opened Text

  // ---- Domains ----------------------------------------------------------

  function TrimDots(s: string): string {
    if s != [] && s[|s| - 1] == '.' then TrimDots(s[..|s| - 1]) else s
  }

  /** Position of the first `c`, or the length. */
  function Find(s: string, c: char): (i: nat)
    ensures i <= |s| && (i < |s| ==> s[i] == c)
    ensures forall j | 0 <= j < i :: s[j] != c
  {
    if s == [] || s[0] == c then 0 else 1 + Find(s[1..], c)
  }

  predicate IsDomainLabel(s: string) {
    && 0 < |s| <= 63
    && forall c | c in s :: 'a' <= c <= 'z' || '0' <= c <= '9' || c == '-' || c == '_'
  }

  /** Every label between the dots is one. */
  predicate LabelsOk(s: string)
    decreases |s|
  {
    var i := Find(s, '.');
    IsDomainLabel(s[..i]) && (i < |s| ==> LabelsOk(s[i + 1..]))
  }

  /** A stored domain: labels of lowercase letters, digits, `-` and `_`. */
  predicate IsDomain(s: string) { 0 < |s| <= 253 && LabelsOk(s) }

  // ---- Domains by their characters --------------------------------------

  predicate IsPlain(c: char) { 'a' <= c <= 'z' || '0' <= c <= '9' || c == '-' || c == '_' || c == '.' }

  predicate AllPlain(s: string) { forall i | 0 <= i < |s| :: IsPlain(s[i]) }

  predicate EndsInDot(s: string) { s != [] && s[|s| - 1] == '.' }

  /** A domain by its characters: small letters, digits, `-`, `_` and dots, no dot
      at either end or next to another, one among any 64 in a row. */
  ghost predicate IsHostName(d: string) {
    0 < |d| <= 253 && AllPlain(d) && Dots(d)
  }

  ghost predicate Dots(d: string) {
    && d != [] && d[0] != '.' && !EndsInDot(d)
    && (forall i | 0 < i < |d| :: !(d[i - 1] == '.' && d[i] == '.'))
    && (forall i {:trigger DotWithin(d, i)} | 0 <= i <= |d| - 64 :: DotWithin(d, i))
  }

  ghost predicate DotWithin(d: string, i: nat) {
    exists j | i <= j < i + 64 && j < |d| :: d[j] == '.'
  }

  /** A dot within 64 characters of `rest` is one of `d`, and the other way round. */
  lemma DotShifts(d: string, i: nat, k: nat)
    requires i < |d|
    ensures DotWithin(d[i + 1..], k) <==> DotWithin(d, k + i + 1)
  {
    var rest := d[i + 1..];
    if DotWithin(rest, k) {
      var j :| k <= j < k + 64 && j < |rest| && rest[j] == '.';
      assert d[j + i + 1] == '.';
    }
    if DotWithin(d, k + i + 1) {
      var j :| k + i + 1 <= j < k + i + 1 + 64 && j < |d| && d[j] == '.';
      assert rest[j - i - 1] == '.';
    }
  }

  /** The labels after the first dot have their dots right exactly if all have. */
  lemma DotsShift(d: string, i: nat)
    requires 0 < i < |d| && i < 64 && d[i] == '.' && forall j | 0 <= j < i :: d[j] != '.'
    ensures Dots(d) <==> Dots(d[i + 1..])
  {
    var rest := d[i + 1..];
    forall k: nat ensures DotWithin(rest, k) <==> DotWithin(d, k + i + 1) {
      DotShifts(d, i, k);
    }
    forall k: nat | k <= i ensures DotWithin(d, k) {
      assert d[i] == '.';
    }
    if Dots(rest) {
      forall k: nat | k <= |d| - 64 ensures DotWithin(d, k) {
        if k > i { assert DotWithin(rest, k - i - 1); }
      }
      forall k | 0 < k < |d| ensures !(d[k - 1] == '.' && d[k] == '.') {
        if k > i + 1 { assert !(rest[k - i - 2] == '.' && rest[k - i - 1] == '.'); }
      }
      assert d[|d| - 1] == rest[|rest| - 1];
    }
    if Dots(d) {
      assert i + 1 < |d| && !(d[i + 1 - 1] == '.' && d[i + 1] == '.');
      forall k | 0 < k < |rest| ensures !(rest[k - 1] == '.' && rest[k] == '.') {
        assert !(d[k + i + 1 - 1] == '.' && d[k + i + 1] == '.');
      }
    }
  }

  lemma DotlessPlain(s: string)
    requires 0 < |s| <= 63 && forall j | 0 <= j < |s| :: s[j] != '.'
    ensures IsDomainLabel(s) <==> AllPlain(s)
  {
    if IsDomainLabel(s) {
      forall k | 0 <= k < |s| ensures IsPlain(s[k]) {
        assert s[k] in s;
      }
    }
  }

  lemma PlainParts(d: string, i: nat)
    requires 0 < i < |d| && i < 64 && d[i] == '.' && forall j | 0 <= j < i :: d[j] != '.'
    ensures AllPlain(d) <==> IsDomainLabel(d[..i]) && AllPlain(d[i + 1..])
  {
    var rest := d[i + 1..];
    DotlessPlain(d[..i]);
    if AllPlain(d[..i]) && AllPlain(rest) {
      forall k | 0 <= k < |d| ensures IsPlain(d[k]) {
        if k < i { assert d[k] == d[..i][k]; } else if k > i { assert d[k] == rest[k - i - 1]; }
      }
    }
    if AllPlain(d) {
      forall k | 0 <= k < |rest| ensures IsPlain(rest[k]) {
        assert rest[k] == d[k + i + 1];
      }
    }
  }

  /** A domain's labels, cut at the dots, are right exactly if its characters are. */
  lemma {:induction false} LabelsAreDots(d: string)
    ensures LabelsOk(d) <==> AllPlain(d) && Dots(d)
    decreases |d|
  {
    var i := Find(d, '.');
    if i > 63 {
      assert i <= |d| && !DotWithin(d, 0);
    } else if 0 < i < |d| {
      LabelsAreDots(d[i + 1..]);
      DotsShift(d, i);
      assert d == d[..i] + ['.'] + d[i + 1..];
      PlainParts(d, i);
    } else if i > 0 {
      assert d[..i] == d;
      DotlessPlain(d);
    }
  }

  lemma DomainsAreHostNames(d: string)
    ensures IsDomain(d) <==> IsHostName(d)
  {
    LabelsAreDots(d);
  }

  lemma DomainIsPlain(s: string)
    requires LabelsOk(s)
    ensures s != [] && !EndsInDot(s) && AllPlain(s)
  {
    LabelsAreDots(s);
  }

  // ---- Normalizing ------------------------------------------------------

  function WithoutAnchor(s: string): string { if "||" <= s then s[2..] else s }

  function BeforeModifiers(s: string): string { s[..Find(s, '$')] }

  function WithoutCaret(s: string): string { if s != [] && s[|s| - 1] == '^' then s[..|s| - 1] else s }

  /** The token without white space, `||`, modifiers, `^` and final dots. */
  function Strip(token: string): string {
    TrimDots(WithoutCaret(BeforeModifiers(WithoutAnchor(TrimRight(TrimLeft(token))))))
  }

  function NormalizeDomainToken(token: string): (r: Option<string>) {
    var s := Strip(token);
    if s == [] || |s| > 253 then None
    else if LabelsOk(Lower(s)) then Some(Lower(s))
    else None
  }

  lemma PlainIsStripped(s: string)
    requires s != [] && s[|s| - 1] != '.' && AllPlain(s)
    ensures Strip(s) == s
  {
    assert IsPlain(s[0]) && IsPlain(s[|s| - 1]);
    assert TrimRight(TrimLeft(s)) == s;
    assert Find(s, '$') == |s| && s[..|s|] == s;
  }

  /** Normalizing yields exactly the domains, and they are its fixed points. */
  lemma NormalizesToDomains(token: string, d: string)
    ensures NormalizeDomainToken(token) == Some(d) ==> IsDomain(d)
    ensures NormalizeDomainToken(d) == Some(d) <==> IsDomain(d)
  {
    if LabelsOk(d) {
      DomainIsPlain(d);
      assert AllPlain(d);
      PlainIsStripped(d);
      assert Lower(d) == d;
    }
  }

  // ---- How a domain is written ------------------------------------------

  predicate AllDots(s: string) { forall i | 0 <= i < |s| :: s[i] == '.' }

  lemma {:induction false} TrimDotsSkips(s: string, dots: string)
    requires AllDots(dots) && !EndsInDot(s)
    ensures TrimDots(s + dots) == s
  {
    if dots == [] {
      assert s + dots == s;
    } else {
      assert (s + dots)[..|s + dots| - 1] == s + dots[..|dots| - 1];
      TrimDotsSkips(s, dots[..|dots| - 1]);
    }
  }

  lemma {:induction false} TrimDotsParts(s: string) returns (dots: string)
    ensures AllDots(dots) && s == TrimDots(s) + dots && !EndsInDot(TrimDots(s))
  {
    if EndsInDot(s) {
      dots := TrimDotsParts(s[..|s| - 1]);
      dots := dots + ['.'];
    } else {
      dots := [];
    }
  }

  /** `x` spells `d` in any case, with any number of final dots. */
  ghost predicate Dotted(x: string, d: string) {
    |d| <= |x| && Spells(x[..|d|], d) && AllDots(x[|d|..])
  }

  /** What case folding leaves after final dots are gone. */
  lemma DottedIs(x: string, d: string)
    requires !EndsInDot(d)
    ensures Lower(TrimDots(x)) == d <==> Dotted(x, d)
  {
    var dots := TrimDotsParts(x);
    LowerSpells(TrimDots(x), d);
    if Lower(TrimDots(x)) == d {
      assert x[..|d|] == TrimDots(x) && x[|d|..] == dots;
    }
    if Dotted(x, d) {
      assert x == x[..|d|] + x[|d|..];
      TrimDotsSkips(x[..|d|], x[|d|..]);
      LowerSpells(x[..|d|], d);
    }
  }

  /** A list entry for a domain, piece by piece. */
  datatype Written = Written(
    lead: string, anchor: string, name: string, dots: string, caret: string, modifiers: string, trail: string)

  function TextOf(w: Written): string {
    w.lead + (w.anchor + w.name + w.dots + w.caret + w.modifiers) + w.trail
  }

  /** The domain in any case between an optional `||`, final dots, an optional `^`
      and modifiers from a `$` on, white space around it all. */
  ghost predicate Writes(w: Written, d: string) {
    && AllSpace(w.lead) && AllSpace(w.trail) && w.anchor in {"", "||"} && Spells(w.name, d)
    && AllDots(w.dots) && w.caret in {"", "^"} && (w.modifiers == "" || w.modifiers[0] == '$')
  }

  ghost predicate IsEntryFor(token: string, d: string) {
    exists w :: Writes(w, d) && TextOf(w) == token
  }

  lemma SpellingIsPlain(x: string, d: string)
    requires IsDomain(d) && Spells(x, d)
    ensures x != [] && !EndsInDot(x)
    ensures forall i | 0 <= i < |x| :: !IsSpace(x[i]) && x[i] != '$' && x[i] != '^' && x[i] != '|'
  {
    DomainIsPlain(d);
    forall i | 0 <= i < |x| ensures !IsSpace(x[i]) && x[i] != '$' && x[i] != '^' && x[i] != '|' {
      assert d[i] in d && IsSmallOf(d[i], x[i]);
    }
  }

  lemma {:induction false} FindSkips(s: string, rest: string, c: char)
    requires c !in s && (rest == [] || rest[0] == c)
    ensures Find(s + rest, c) == |s|
  {
    if s == [] {
      assert s + rest == rest;
    } else {
      assert (s + rest)[1..] == s[1..] + rest;
      FindSkips(s[1..], rest, c);
    }
  }

  /** The tail of an entry, trimmed, is still empty or modifiers. */
  lemma {:induction false} TrimRightKeepsHead(s: string, m: string) returns (m': string)
    requires s != [] && !IsSpace(s[|s| - 1]) && (m == "" || m[0] == '$')
    ensures TrimRight(s + m) == s + m' && (m' == "" || m'[0] == '$')
    decreases |m|
  {
    if m == "" {
      assert s + m == s;
      m' := m;
    } else if IsSpace(m[|m| - 1]) {
      assert (s + m)[..|s + m| - 1] == s + m[..|m| - 1];
      m' := TrimRightKeepsHead(s, m[..|m| - 1]);
    } else {
      m' := m;
    }
  }

  lemma TrimRightTwice(s: string, trail: string)
    requires AllSpace(trail)
    ensures TrimRight(s + trail) == TrimRight(s)
  {
    var t := TrimRightParts(s);
    assert s + trail == TrimRight(s) + (t + trail);
    TrimRightStops(s);
    TrimRightSkips(TrimRight(s), t + trail);
  }

  lemma {:induction false} TrimRightStops(s: string)
    ensures TrimRight(s) != [] ==> !IsSpace(TrimRight(s)[|TrimRight(s)| - 1])
  {
    if s != [] && IsSpace(s[|s| - 1]) { TrimRightStops(s[..|s| - 1]); }
  }

  lemma AnchorGoes(anchor: string, s: string)
    requires anchor in {"", "||"} && s != [] && s[0] != '|'
    ensures WithoutAnchor(anchor + s) == s
  {
    if anchor == "||" {
      assert (anchor + s)[2..] == s;
    } else {
      assert anchor + s == s;
    }
  }

  lemma ModifiersGo(s: string, m: string)
    requires '$' !in s && (m == "" || m[0] == '$')
    ensures BeforeModifiers(s + m) == s
  {
    FindSkips(s, m, '$');
  }

  lemma CaretGoes(s: string, caret: string)
    requires caret in {"", "^"} && s != [] && s[|s| - 1] != '^'
    ensures WithoutCaret(s + caret) == s
  {
    if caret == "^" {
      assert (s + caret)[..|s|] == s;
    } else {
      assert s + caret == s;
    }
  }

  /** What is between white space is cut to the name. */
  lemma PiecesGo(anchor: string, x: string, dots: string, caret: string, m: string)
    requires anchor in {"", "||"} && AllDots(dots) && caret in {"", "^"} && (m == "" || m[0] == '$')
    requires x != [] && !EndsInDot(x) && forall i | 0 <= i < |x| :: x[i] != '$' && x[i] != '^' && x[i] != '|'
    ensures TrimDots(WithoutCaret(BeforeModifiers(WithoutAnchor(anchor + (x + dots + caret + m))))) == x
  {
    var s := x + dots + caret;
    assert (s + m)[0] == x[0];
    AnchorGoes(anchor, s + m);
    ModifiersGo(s, m);
    CaretGoes(x + dots, caret);
    TrimDotsSkips(x, dots);
  }

  lemma HeadIsTight(anchor: string, x: string, dots: string, caret: string)
    requires anchor in {"", "||"} && AllDots(dots) && caret in {"", "^"}
    requires x != [] && forall i | 0 <= i < |x| :: !IsSpace(x[i])
    ensures var head := anchor + (x + dots + caret); head != [] && !IsSpace(head[0]) && !IsSpace(head[|head| - 1])
  {
  }

  /** White space goes; what is left of modifiers still starts with `$`. */
  lemma SpaceGoes(lead: string, head: string, m: string, trail: string) returns (m': string)
    requires AllSpace(lead) && AllSpace(trail) && (m == "" || m[0] == '$')
    requires head != [] && !IsSpace(head[0]) && !IsSpace(head[|head| - 1])
    ensures TrimRight(TrimLeft(lead + (head + m) + trail)) == head + m' && (m' == "" || m'[0] == '$')
  {
    var body := head + m;
    assert lead + body + trail == lead + (body + trail) && (body + trail)[0] == head[0];
    TrimLeftSkips(lead, body + trail);
    TrimRightTwice(body, trail);
    m' := TrimRightKeepsHead(head, m);
  }

  /** An entry is stripped to the name. */
  lemma EntryStrips(lead: string, anchor: string, x: string, dots: string, caret: string, m: string, trail: string)
    requires AllSpace(lead) && AllSpace(trail) && anchor in {"", "||"} && AllDots(dots) && caret in {"", "^"}
    requires (m == "" || m[0] == '$') && x != [] && !EndsInDot(x)
    requires forall i | 0 <= i < |x| :: !IsSpace(x[i]) && x[i] != '$' && x[i] != '^' && x[i] != '|'
    ensures Strip(lead + (anchor + (x + dots + caret) + m) + trail) == x
  {
    var head := anchor + (x + dots + caret);
    HeadIsTight(anchor, x, dots, caret);
    var m' := SpaceGoes(lead, head, m, trail);
    assert head + m' == anchor + (x + dots + caret + m');
    PiecesGo(anchor, x, dots, caret, m');
  }

  lemma EntryNormalizes(w: Written, d: string)
    requires IsDomain(d) && Writes(w, d)
    ensures NormalizeDomainToken(TextOf(w)) == Some(d)
  {
    SpellingIsPlain(w.name, d);
    EntryStrips(w.lead, w.anchor, w.name, w.dots, w.caret, w.modifiers, w.trail);
    assert w.anchor + w.name + w.dots + w.caret == w.anchor + (w.name + w.dots + w.caret);
    LowerSpells(w.name, d);
  }

  lemma AnchorPart(s: string) returns (anchor: string)
    ensures anchor in {"", "||"} && s == anchor + WithoutAnchor(s)
  {
    anchor := if "||" <= s then "||" else "";
  }

  lemma ModifiersPart(s: string) returns (m: string)
    ensures (m == "" || m[0] == '$') && s == BeforeModifiers(s) + m
  {
    m := s[Find(s, '$')..];
  }

  lemma CaretPart(s: string) returns (caret: string)
    ensures caret in {"", "^"} && s == WithoutCaret(s) + caret
  {
    caret := if s != [] && s[|s| - 1] == '^' then "^" else "";
  }

  lemma NormalizedIsEntry(token: string, d: string)
    requires NormalizeDomainToken(token) == Some(d)
    ensures IsDomain(d) && IsEntryFor(token, d)
  {
    var lead := TrimLeftParts(token);
    var trail := TrimRightParts(TrimLeft(token));
    var s0 := TrimRight(TrimLeft(token));
    var anchor := AnchorPart(s0);
    var s1 := WithoutAnchor(s0);
    var m := ModifiersPart(s1);
    var s2 := BeforeModifiers(s1);
    var caret := CaretPart(s2);
    var dots := TrimDotsParts(WithoutCaret(s2));
    var w := Written(lead, anchor, Strip(token), dots, caret, m, trail);
    LowerSpells(Strip(token), d);
    Assembled(token, w, s0, s1, s2);
    assert Writes(w, d);
  }

  lemma Assembled(token: string, w: Written, s0: string, s1: string, s2: string)
    requires token == w.lead + (s0 + w.trail) && s0 == w.anchor + s1 && s1 == s2 + w.modifiers
    requires s2 == w.name + w.dots + w.caret
    ensures TextOf(w) == token
  {
    assert s0 == w.anchor + w.name + w.dots + w.caret + w.modifiers;
  }

  /** A token normalizes to exactly the domains it is an entry for. */
  lemma NormalizesExactly(token: string, d: string)
    ensures NormalizeDomainToken(token) == Some(d) <==> IsDomain(d) && IsEntryFor(token, d)
  {
    if NormalizeDomainToken(token) == Some(d) { NormalizedIsEntry(token, d); }
    if IsDomain(d) && IsEntryFor(token, d) {
      var w :| Writes(w, d) && TextOf(w) == token;
      EntryNormalizes(w, d);
    }
  }
}

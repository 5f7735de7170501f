/** DNS names and their canonical order (section 6.1 of RFC 4034). */
module Names {
  import opened Orders

  datatype Option<+T> = None | Some(value: T)

  newtype byte = x: int | 0 <= x < 256

  /** A label, already lowercased. */
  type Label = seq<byte>

  /** A fully qualified name, labels listed from the root: the root is `[]`,
      the ancestors of a name are its prefixes. */
  type Name = seq<Label>

  const Star: Label := [42]

  predicate ByteLess(a: byte, b: byte) { a < b }

  /** Octet strings compare left to right: labels, and hash digests too. */
  predicate OctetsLess(a: seq<byte>, b: seq<byte>) { Lex(ByteLess, a, b) }

  predicate NameLess(a: Name, b: Name) { Lex(OctetsLess, a, b) }

  /** `zone` is `name` or an ancestor of it. */
  predicate ZoneOf(zone: Name, name: Name) { zone <= name }

  predicate IsWildcard(name: Name) { name != [] && name[|name| - 1] == Star }

  /** The parent; the root is its own parent. */
  function BaseName(name: Name): (r: Name)
    ensures ZoneOf(r, name)
    ensures name != [] ==> |r| == |name| - 1
  {
    if name == [] then [] else name[..|name| - 1]
  }

  /** Label count, a leading `*` not counted. */
  function NumLabels(name: Name): nat {
    if IsWildcard(name) then |name| - 1 else |name|
  }

  /** Two ancestors of one name lie on one line. */
  lemma SameLine(a: Name, b: Name, n: Name)
    requires ZoneOf(a, n) && ZoneOf(b, n) && |a| <= |b|
    ensures ZoneOf(a, b)
    ensures |a| == |b| ==> a == b
  {
  }

  lemma Above(a: Name, b: Name, c: Name)
    requires ZoneOf(a, b) && ZoneOf(b, c)
    ensures ZoneOf(a, c)
  {
  }

  /** Octets of the uncompressed wire form. */
  function WireLength(name: Name): nat {
    if name == [] then 1 else WireLength(name[..|name| - 1]) + |name[|name| - 1]| + 1
  }

  predicate IsLabel(l: Label) { 0 < |l| <= 63 }

  /** A legal name: labels of 1 to 63 octets, at most 255 octets in all. */
  predicate WellFormed(name: Name) {
    && (forall i | 0 <= i < |name| :: IsLabel(name[i]))
    && WireLength(name) <= 255
  }

  /** `*.<name>`, built through its text form: the root has no such text and an
      overlong name is refused. */
  function WildcardOf(name: Name): Option<Name> {
    if name == [] || WireLength(name) + 2 > 255 then None else Some(name + [Star])
  }

  lemma {:induction false} AncestorIsShorter(a: Name, n: Name)
    requires ZoneOf(a, n) && a != n && WellFormed(n)
    ensures WireLength(a) + 2 <= WireLength(n)
  {
    var p := n[..|n| - 1];
    assert IsLabel(n[|n| - 1]);
    if a != p {
      assert ZoneOf(a, p);
      assert forall i | 0 <= i < |p| :: p[i] == n[i];
      AncestorIsShorter(a, p);
    }
  }

  /** A wildcard can be built below every non-root proper ancestor. */
  lemma WildcardBuilds(a: Name, n: Name)
    requires ZoneOf(a, n) && a != n && WellFormed(n) && a != []
    ensures WildcardOf(a) == Some(a + [Star])
  {
    AncestorIsShorter(a, n);
  }

  /** A legal label no longer than the one it replaces keeps a name legal; one
      octet more is fine where labels are dropped. */
  lemma LegalBranch(n: Name, i: nat, l: Label)
    requires WellFormed(n) && i < |n| && IsLabel(l)
    requires |l| <= |n[i]| || (|l| == |n[i]| + 1 && i + 1 < |n|)
    ensures WellFormed(n[..i] + [l]) && WellFormed(n[..i])
  {
    var m := n[..i] + [l];
    assert m[..i] == n[..i] && n[..i + 1][..i] == n[..i];
    assert WireLength(m) == WireLength(n[..i]) + |l| + 1;
    assert WireLength(n[..i + 1]) == WireLength(n[..i]) + |n[i]| + 1;
    if i + 1 < |n| { AncestorIsShorter(n[..i + 1], n); } else { assert n[..i + 1] == n; }
  }

  lemma AncestorLegal(a: Name, n: Name)
    requires ZoneOf(a, n) && WellFormed(n)
    ensures WellFormed(a)
  {
    if a != n {
      assert n[..|a|] == a;
      LegalBranch(n, |a|, Star);
    }
  }

  lemma WildcardLegal(a: Name, n: Name)
    requires ZoneOf(a, n) && a != n && WellFormed(n)
    ensures WellFormed(a + [Star])
  {
    assert n[..|a|] == a;
    LegalBranch(n, |a|, Star);
  }

  function AllOnes(k: nat): Label { seq(k, _ => 255) }

  /** The last legal label before `*`. */
  const LastBeforeStar: Label := [41] + AllOnes(62)

  lemma IsLast(l: Label)
    requires |l| == 63 && l[0] == 41 && forall j | 0 < j < |l| :: l[j] == 255
    ensures l == LastBeforeStar
  {
  }

  lemma {:induction false} NoneAboveFull(k: nat, l: Label)
    requires |l| <= k
    ensures !OctetsLess(AllOnes(k), l)
  {
    if l != [] {
      NoneAboveFull(k - 1, l[1..]);
      assert AllOnes(k)[1..] == AllOnes(k - 1);
    }
  }

  lemma NothingBetween(l: Label)
    requires IsLabel(l) && OctetsLess(LastBeforeStar, l)
    ensures !OctetsLess(l, Star)
  {
    assert LastBeforeStar[1..] == AllOnes(62);
    NoneAboveFull(62, l[1..]);
    assert l[0] > 41;
    assert Star[1..] == [] && !Lex(ByteLess, l[1..], []);
  }

  lemma BytesOrdered()
    ensures StrictTotal(ByteLess)
  {
  }

  lemma OctetsOrdered()
    ensures StrictTotal(OctetsLess)
  {
    BytesOrdered();
    forall a: seq<byte> ensures !OctetsLess(a, a) {
      LexIrreflexive(ByteLess, a);
    }
    forall a: seq<byte>, b: seq<byte>, c: seq<byte> | OctetsLess(a, b) && OctetsLess(b, c) ensures OctetsLess(a, c) {
      LexTransitive(ByteLess, a, b, c);
    }
    forall a: seq<byte>, b: seq<byte> ensures OctetsLess(a, b) || a == b || OctetsLess(b, a) {
      LexConnected(ByteLess, a, b);
    }
  }

  /** Canonical order is a strict total order on names. */
  lemma NamesOrdered()
    ensures StrictTotal(NameLess)
  {
    OctetsOrdered();
    forall a: Name ensures !NameLess(a, a) {
      LexIrreflexive(OctetsLess, a);
    }
    forall a: Name, b: Name, c: Name | NameLess(a, b) && NameLess(b, c) ensures NameLess(a, c) {
      LexTransitive(OctetsLess, a, b, c);
    }
    forall a: Name, b: Name ensures NameLess(a, b) || a == b || NameLess(b, a) {
      LexConnected(OctetsLess, a, b);
    }
  }

  /** An ancestor sorts before its descendants. */
  lemma AncestorFirst(a: Name, n: Name)
    requires ZoneOf(a, n) && a != n
    ensures NameLess(a, n)
  {
    OctetsOrdered();
    LexCommonPrefix(OctetsLess, a, [], n[|a|..]);
    assert a + [] == a && a + n[|a|..] == n;
  }

  /** Names that part at depth `i` compare as the labels there do. */
  lemma DivergeAt(a: Name, b: Name, i: nat)
    requires i < |a| && i < |b| && a[..i] == b[..i] && OctetsLess(a[i], b[i])
    ensures NameLess(a, b)
  {
    OctetsOrdered();
    LexCommonPrefix(OctetsLess, a[..i], a[i..], b[i..]);
    assert a[..i] + a[i..] == a && b[..i] + b[i..] == b;
  }

  /** A subtree is contiguous in canonical order. */
  lemma SubtreeConvex(top: Name, x: Name, y: Name, z: Name)
    requires ZoneOf(top, x) && ZoneOf(top, z)
    requires x == y || NameLess(x, y)
    requires y == z || NameLess(y, z)
    ensures ZoneOf(top, y)
  {
    OctetsOrdered();
    LexConvex(OctetsLess, top, x, y, z);
  }
}

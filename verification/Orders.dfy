/** Strict total orders, the lexicographic order they induce on sequences, and
    the cyclic chain a finite set forms under such an order. */
module Orders {

  ghost predicate StrictTotal<T(!new)>(lt: (T, T) -> bool) {
    && (forall x :: !lt(x, x))
    && (forall x, y, z :: lt(x, y) && lt(y, z) ==> lt(x, z))
    && (forall x, y :: lt(x, y) || x == y || lt(y, x))
  }

  /** Lexicographic order; a proper prefix comes first. */
  predicate Lex<T(==)>(lt: (T, T) -> bool, a: seq<T>, b: seq<T>) {
    if b == [] then false
    else if a == [] then true
    else lt(a[0], b[0]) || (a[0] == b[0] && Lex(lt, a[1..], b[1..]))
  }

  lemma {:induction false} LexIrreflexive<T(!new)>(lt: (T, T) -> bool, a: seq<T>)
    requires StrictTotal(lt)
    ensures !Lex(lt, a, a)
  {
    if a != [] {
      LexIrreflexive(lt, a[1..]);
    }
  }

  lemma {:induction false} LexTransitive<T(!new)>(lt: (T, T) -> bool, a: seq<T>, b: seq<T>, c: seq<T>)
    requires StrictTotal(lt) && Lex(lt, a, b) && Lex(lt, b, c)
    ensures Lex(lt, a, c)
  {
    if a != [] && a[0] == b[0] && b[0] == c[0] {
      LexTransitive(lt, a[1..], b[1..], c[1..]);
    }
  }

  lemma {:induction false} LexConnected<T(!new)>(lt: (T, T) -> bool, a: seq<T>, b: seq<T>)
    requires StrictTotal(lt)
    ensures Lex(lt, a, b) || a == b || Lex(lt, b, a)
  {
    if a != [] && b != [] && a[0] == b[0] {
      LexConnected(lt, a[1..], b[1..]);
      if a[1..] == b[1..] {
        assert a == [a[0]] + a[1..] && b == [b[0]] + b[1..];
      }
    }
  }

  /** Stripping a common prefix does not change the comparison. */
  lemma {:induction false} LexCommonPrefix<T(!new)>(lt: (T, T) -> bool, p: seq<T>, a: seq<T>, b: seq<T>)
    requires StrictTotal(lt)
    ensures Lex(lt, p + a, p + b) == Lex(lt, a, b)
  {
    if p == [] {
      assert p + a == a && p + b == b;
    } else {
      assert (p + a)[1..] == p[1..] + a && (p + b)[1..] == p[1..] + b;
      LexCommonPrefix(lt, p[1..], a, b);
    }
  }

  /** The sequences that extend `p` are an interval of the order. */
  lemma {:induction false} LexConvex<T(!new)>(lt: (T, T) -> bool, p: seq<T>, x: seq<T>, y: seq<T>, z: seq<T>)
    requires StrictTotal(lt) && p <= x && p <= z
    requires x == y || Lex(lt, x, y)
    requires y == z || Lex(lt, y, z)
    ensures p <= y
  {
    if p != [] && y != x && y != z {
      assert x[0] == p[0] == z[0];
      assert y[0] == p[0];
      LexConvex(lt, p[1..], x[1..], y[1..], z[1..]);
      assert p == [p[0]] + p[1..] && y == [y[0]] + y[1..];
    }
  }
}

/** The cyclic chain of a finite set: every member points to the next larger
    one and the largest points back to the smallest. */
module Cyclic {
  import opened Orders

  /** `b` follows `a` in the chain over `s`. */
  ghost predicate Follows<T(!new)>(lt: (T, T) -> bool, s: set<T>, a: T, b: T) {
    && a in s && b in s
    && if lt(a, b) then forall m | m in s :: !(lt(a, m) && lt(m, b))
       else forall m | m in s :: !lt(a, m) && !lt(m, b)
  }

  /** `x` lies strictly inside the arc from `a` to `b`. */
  predicate Inside<T(==)>(lt: (T, T) -> bool, a: T, b: T, x: T) {
    if lt(a, b) then lt(a, x) && lt(x, b) else lt(a, x) || lt(x, b)
  }

  lemma ArcHoldsNoMember<T(!new)>(lt: (T, T) -> bool, s: set<T>, a: T, b: T, x: T)
    requires StrictTotal(lt) && Follows(lt, s, a, b) && Inside(lt, a, b, x)
    ensures x !in s
  {
  }

  /** At most one arc contains a given point. */
  lemma ArcUnique<T(!new)>(lt: (T, T) -> bool, s: set<T>, a: T, b: T, a': T, b': T, x: T)
    requires StrictTotal(lt)
    requires Follows(lt, s, a, b) && Inside(lt, a, b, x)
    requires Follows(lt, s, a', b') && Inside(lt, a', b', x)
    ensures a == a' && b == b'
  {
  }

  lemma FollowerUnique<T(!new)>(lt: (T, T) -> bool, s: set<T>, a: T, b: T, b': T)
    requires StrictTotal(lt) && Follows(lt, s, a, b) && Follows(lt, s, a, b')
    ensures b == b'
  {
  }

  /** The largest member below `x`, or the largest member of all. */
  lemma {:induction false} Predecessor<T(!new)>(lt: (T, T) -> bool, s: set<T>, x: T) returns (a: T)
    requires StrictTotal(lt) && s != {} && x !in s
    ensures a in s
    ensures forall m | m in s :: if lt(a, x) then lt(x, m) || !lt(a, m) else !lt(m, x) && !lt(a, m)
    decreases |s|
  {
    var m :| m in s;
    if s == {m} {
      a := m;
    } else {
      a := Predecessor(lt, s - {m}, x);
      assert forall k | k in s :: k == m || k in s - {m};
      if (lt(m, x) && !lt(a, x)) || (lt(m, x) == lt(a, x) && lt(a, m)) {
        a := m;
      }
    }
  }

  /** The member that follows `a`. */
  lemma {:induction false} Successor<T(!new)>(lt: (T, T) -> bool, s: set<T>, a: T) returns (b: T)
    requires StrictTotal(lt) && a in s
    ensures Follows(lt, s, a, b)
  {
    if s == {a} {
      b := a;
    } else {
      b := After(lt, s - {a}, a);
      assert forall k | k in s :: k == a || k in s - {a};
    }
  }

  lemma {:induction false} After<T(!new)>(lt: (T, T) -> bool, s: set<T>, x: T) returns (b: T)
    requires StrictTotal(lt) && s != {} && x !in s
    ensures b in s
    ensures forall m | m in s :: if lt(x, b) then lt(m, x) || !lt(m, b) else !lt(x, m) && !lt(m, b)
    decreases |s|
  {
    var m :| m in s;
    if s == {m} {
      b := m;
    } else {
      b := After(lt, s - {m}, x);
      assert forall k | k in s :: k == m || k in s - {m};
      if (lt(x, m) && !lt(x, b)) || (lt(x, m) == lt(x, b) && lt(m, b)) {
        b := m;
      }
    }
  }

  /** The arcs cover every point that is not a member, the wrap-around arc of a
      single-member set included. */
  lemma ArcExists<T(!new)>(lt: (T, T) -> bool, s: set<T>, x: T) returns (a: T, b: T)
    requires StrictTotal(lt) && s != {} && x !in s
    ensures Follows(lt, s, a, b) && Inside(lt, a, b, x)
  {
    a := Predecessor(lt, s, x);
    b := Successor(lt, s, a);
  }
}

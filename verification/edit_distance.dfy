/** Damerau-Levenshtein distance at most one, stated independently of any
    algorithm: the two strings share a prefix `u` and a suffix `v`, and what
    lies between is one elementary edit. */
module EditDistance {

  /** The middle parts of one edit: nothing changed (both empty), one letter
      substituted (one letter each), one letter inserted or deleted (one side
      empty), or two adjacent letters swapped. */
  ghost predicate ElementaryEdit(x: string, y: string) {
    || (|x| <= 1 && |y| <= 1)
    || (|x| == 2 && y == [x[1], x[0]])
  }

  ghost predicate EditAt(a: string, b: string, u: string, x: string, y: string, v: string) {
    a == u + x + v && b == u + y + v && ElementaryEdit(x, y)
  }

  ghost predicate WithinOneEdit(a: string, b: string) {
    exists u, x, y, v :: EditAt(a, b, u, x, y, v)
  }

  lemma Reflexive(a: string)
    ensures WithinOneEdit(a, a)
  {
    assert EditAt(a, a, a, [], [], []);
  }

  lemma Symmetric(a: string, b: string)
    requires WithinOneEdit(a, b)
    ensures WithinOneEdit(b, a)
  {
    var u, x, y, v :| EditAt(a, b, u, x, y, v);
    assert EditAt(b, a, u, y, x, v);
  }

  /** A common prefix does not change the distance. */
  lemma ExtendFront(p: string, a: string, b: string)
    requires WithinOneEdit(a, b)
    ensures WithinOneEdit(p + a, p + b)
  {
    var u, x, y, v :| EditAt(a, b, u, x, y, v);
    assert p + a == (p + u) + x + v;
    assert p + b == (p + u) + y + v;
    assert EditAt(p + a, p + b, p + u, x, y, v);
  }

  /** A common suffix does not change the distance. */
  lemma ExtendBack(a: string, b: string, q: string)
    requires WithinOneEdit(a, b)
    ensures WithinOneEdit(a + q, b + q)
  {
    var u, x, y, v :| EditAt(a, b, u, x, y, v);
    assert a + q == u + x + (v + q);
    assert b + q == u + y + (v + q);
    assert EditAt(a + q, b + q, u, x, y, v + q);
  }

  /** One edit at a known place. */
  lemma EditHere(u: string, x: string, y: string, v: string)
    requires ElementaryEdit(x, y)
    ensures WithinOneEdit(u + x + v, u + y + v)
  {
    assert EditAt(u + x + v, u + y + v, u, x, y, v);
  }

  /** The lengths of two strings within one edit differ by at most one. */
  lemma LengthsClose(a: string, b: string)
    requires WithinOneEdit(a, b)
    ensures -1 <= |a| - |b| <= 1
  {
    var u, x, y, v :| EditAt(a, b, u, x, y, v);
  }
}

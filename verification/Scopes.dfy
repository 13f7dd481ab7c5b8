/** The parts of a request that a directive can apply to, as bit sets. */
module Scopes {
  type Scope = bv8

  const PATH: Scope := 1
  const QUERY_STRING: Scope := 2
  const HEADERS: Scope := 4
  const BODY: Scope := 8
  const METHOD: Scope := 16

  predicate Covers(scope: Scope, part: Scope) { scope & part != 0 }

  /** A scope is a set of parts: no two parts share a bit, and a union covers what either of the two does. */
  lemma CoversByPart(scope: Scope, a: Scope, b: Scope)
    ensures Covers(scope, a | b) <==> Covers(scope, a) || Covers(scope, b)
    ensures Covers(a | b, scope) <==> Covers(a, scope) || Covers(b, scope)
  {
  }

  lemma PartsAreApart(a: Scope, b: Scope)
    requires a in {PATH, QUERY_STRING, HEADERS, BODY, METHOD} && b in {PATH, QUERY_STRING, HEADERS, BODY, METHOD}
    ensures Covers(a, b) <==> a == b
  {
  }
}

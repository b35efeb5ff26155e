/**
 * A proposed exchange of two cookies (CookieCrunch/Swap.swift). A `Swap` is an
 * immutable value; two swaps are equal when they name the same unordered pair
 * of squares.
 */
module Swaps {
  import opened Cookies
  import opened Bitwise

  /** The struct `Swap`; its two `let` fields never change after construction. */
  datatype Swap = Swap(cookieA: Cookie, cookieB: Cookie)

  /** The operator `==` on swaps: the same two cookies, in either order, compared with cookie `==`. */
  predicate SwapEq(s: Swap, t: Swap)
    reads s.cookieA, s.cookieB, t.cookieA, t.cookieB
  {
    (Same(s.cookieA, t.cookieA) && Same(s.cookieB, t.cookieB)) ||
    (Same(s.cookieB, t.cookieA) && Same(s.cookieA, t.cookieB))
  }

  /** `hashValue`: the xor of the two cookies' hashes. */
  function SwapHash(s: Swap): int
    reads s.cookieA, s.cookieB
  {
    Xor(HashValue(s.cookieA), HashValue(s.cookieB))
  }

  /** The squares a swap names, as a multiset: `==` is equality of these. */
  ghost function Squares(s: Swap): multiset<(int, int)>
    reads s.cookieA, s.cookieB
  {
    multiset{(s.cookieA.col, s.cookieA.row), (s.cookieB.col, s.cookieB.row)}
  }

  /** `Swap(a, b) == Swap(b, a)`. */
  lemma SwapEqSymmetricPair(a: Cookie, b: Cookie)
    ensures SwapEq(Swap(a, b), Swap(b, a))
  {
  }

  /** Two two-element multisets are equal exactly when their elements match in one order or the other. */
  lemma {:induction false} PairsEqual<T>(p: T, q: T, u: T, v: T)
    ensures multiset{p, q} == multiset{u, v} <==> (p == u && q == v) || (q == u && p == v)
  {
    if multiset{p, q} == multiset{u, v} {
      assert u in multiset{p, q};
      if u == p {
        assert multiset{p, q} - multiset{p} == multiset{q};
        assert multiset{u, v} - multiset{u} == multiset{v};
      } else {
        assert multiset{p, q} - multiset{q} == multiset{p};
        assert multiset{u, v} - multiset{u} == multiset{v};
      }
    }
  }

  /** Swap equality is equality of unordered pairs of squares. */
  lemma SwapEqIsPairEquality(s: Swap, t: Swap)
    ensures SwapEq(s, t) <==> Squares(s) == Squares(t)
  {
    PairsEqual((s.cookieA.col, s.cookieA.row), (s.cookieB.col, s.cookieB.row),
               (t.cookieA.col, t.cookieA.row), (t.cookieB.col, t.cookieB.row));
  }

  /** Swap equality is reflexive, symmetric and transitive. */
  lemma SwapEqIsEquivalence(s: Swap, t: Swap, w: Swap)
    ensures SwapEq(s, s)
    ensures SwapEq(s, t) ==> SwapEq(t, s)
    ensures SwapEq(s, t) && SwapEq(t, w) ==> SwapEq(s, w)
  {
    SwapEqIsPairEquality(s, s);
    SwapEqIsPairEquality(s, t);
    SwapEqIsPairEquality(t, s);
    SwapEqIsPairEquality(t, w);
    SwapEqIsPairEquality(s, w);
  }

  /** The hash does not depend on the order of the two cookies. */
  lemma SwapHashSymmetric(a: Cookie, b: Cookie)
    ensures SwapHash(Swap(a, b)) == SwapHash(Swap(b, a))
  {
    XorCommutes(HashValue(a), HashValue(b));
  }

  /** Equal swaps hash equally. */
  lemma SwapEqHashesEqual(s: Swap, t: Swap)
    requires SwapEq(s, t)
    ensures SwapHash(s) == SwapHash(t)
  {
    if !(Same(s.cookieA, t.cookieA) && Same(s.cookieB, t.cookieB)) {
      XorCommutes(HashValue(s.cookieA), HashValue(s.cookieB));
    }
  }
}

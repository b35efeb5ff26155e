/**
 * A detected match (CookieCrunch/Chain.swift): an ordered list of cookies, an
 * orientation and a score that the level assigns after detection.
 */
module Chains {
  import opened Cookies
  import opened Bitwise

  /** `Chain.ChainType`; `LShaped` exists but no detection produces it. */
  datatype ChainType = Horizontal | Vertical | LShaped

  class Chain {
    var cookies: seq<Cookie>
    var score: int
    var chainType: ChainType

    constructor (chainType: ChainType)
      ensures cookies == [] && score == 0 && this.chainType == chainType
    {
      cookies := [];
      score := 0;
      this.chainType := chainType;
    }

    /** `addCookie`: append at the end. */
    method AddCookie(cookie: Cookie)
      modifies this`cookies
      ensures cookies == old(cookies) + [cookie]
      ensures Length() == old(Length()) + 1 && LastCookie() == cookie
      ensures old(Length()) > 0 ==> FirstCookie() == old(FirstCookie())
    {
      cookies := cookies + [cookie];
    }

    /** `length`: the number of cookies. */
    function Length(): (n: nat)
      reads this
      ensures n == |cookies|
    {
      |cookies|
    }

    /** `firstCookie`: element 0, which traps on an empty chain. */
    function FirstCookie(): (c: Cookie)
      reads this
      requires |cookies| > 0
      ensures c in cookies && c == cookies[0]
    {
      cookies[0]
    }

    /** `lastCookie`: element `count - 1`, which traps on an empty chain. */
    function LastCookie(): (c: Cookie)
      reads this
      requires |cookies| > 0
      ensures c in cookies && c == cookies[|cookies| - 1]
    {
      cookies[|cookies| - 1]
    }

    /** `hashValue`: the xor of the cookies' hashes, folded from the left starting at 0. */
    function HashValue(): int
      reads this, cookies
    {
      XorFold(Hashes(cookies))
    }
  }

  /** The hash of each cookie, in order. */
  function Hashes(cs: seq<Cookie>): (hs: seq<int>)
    reads cs
    ensures |hs| == |cs|
    ensures forall i :: 0 <= i < |cs| ==> hs[i] == Cookies.HashValue(cs[i])
  {
    if cs == [] then [] else Hashes(cs[..|cs| - 1]) + [Cookies.HashValue(cs[|cs| - 1])]
  }

  /** `reduce(0) { $0 ^ $1 }` over a list of hashes. */
  function XorFold(hs: seq<int>): int {
    if hs == [] then 0 else Xor(XorFold(hs[..|hs| - 1]), hs[|hs| - 1])
  }

  /** The operator `==` on chains: the cookie lists agree element by element under cookie `==`. */
  predicate ChainEq(a: Chain, b: Chain)
    reads a, b, a.cookies, b.cookies
  {
    |a.cookies| == |b.cookies| &&
    forall i :: 0 <= i < |a.cookies| ==> Same(a.cookies[i], b.cookies[i])
  }

  /** Chain equality is reflexive, symmetric and transitive. */
  lemma ChainEqIsEquivalence(a: Chain, b: Chain, c: Chain)
    ensures ChainEq(a, a)
    ensures ChainEq(a, b) ==> ChainEq(b, a)
    ensures ChainEq(a, b) && ChainEq(b, c) ==> ChainEq(a, c)
  {
  }

  /** Equal chains hash equally. */
  lemma ChainEqHashesEqual(a: Chain, b: Chain)
    requires ChainEq(a, b)
    ensures a.HashValue() == b.HashValue()
  {
    assert Hashes(a.cookies) == Hashes(b.cookies);
  }

  /** Folding splits over concatenation. */
  lemma {:induction false} XorFoldAppend(s: seq<int>, t: seq<int>)
    ensures XorFold(s + t) == Xor(XorFold(s), XorFold(t))
    decreases |t|
  {
    if t == [] {
      assert s + t == s;
      XorZero(XorFold(s));
    } else {
      var t', x := t[..|t| - 1], t[|t| - 1];
      assert (s + t)[..|s + t| - 1] == s + t';
      XorFoldAppend(s, t');
      XorAssociates(XorFold(s), XorFold(t'), x);
    }
  }

  /** The chain hash does not depend on the order of the cookies: only on which hashes occur, how often. */
  lemma {:induction false} XorFoldOrderInsensitive(s: seq<int>, t: seq<int>)
    requires multiset(s) == multiset(t)
    ensures XorFold(s) == XorFold(t)
    decreases |s|
  {
    if s != [] {
      var s', x := s[..|s| - 1], s[|s| - 1];
      assert s == s' + [x];
      assert x in multiset(t);
      var i :| 0 <= i < |t| && t[i] == x;
      var t' := t[..i] + t[i + 1..];
      assert t == t[..i] + [x] + t[i + 1..];
      assert multiset(t) == multiset(t') + multiset{x} by {
        assert multiset(t) == multiset(t[..i]) + multiset([x]) + multiset(t[i + 1..]);
      }
      assert multiset(s) == multiset(s') + multiset{x};
      assert multiset(t') == multiset(t) - multiset{x};
      assert multiset(s') == multiset(s) - multiset{x};
      XorFoldOrderInsensitive(s', t');
      calc {
        XorFold(t);
        { XorFoldAppend(t[..i] + [x], t[i + 1..]); }
        Xor(XorFold(t[..i] + [x]), XorFold(t[i + 1..]));
        { assert (t[..i] + [x])[..i] == t[..i]; }
        Xor(Xor(XorFold(t[..i]), x), XorFold(t[i + 1..]));
        { XorAssociates(XorFold(t[..i]), x, XorFold(t[i + 1..]));
          XorCommutes(x, XorFold(t[i + 1..]));
          XorAssociates(XorFold(t[..i]), XorFold(t[i + 1..]), x); }
        Xor(Xor(XorFold(t[..i]), XorFold(t[i + 1..])), x);
        { XorFoldAppend(t[..i], t[i + 1..]); }
        Xor(XorFold(t'), x);
        Xor(XorFold(s'), x);
        XorFold(s);
      }
    }
  }
}

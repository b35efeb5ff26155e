/**
 * The kinds of cookie and the `Cookie` game piece (CookieCrunch/Cookie.swift).
 * A cookie is a reference object whose `col` and `row` the level updates when
 * it moves; two cookies are equal when they stand on the same square,
 * whatever their kinds.
 */
module Cookies {
  import opened Optional

  /** The enum `CookieType: Int`; `Unknown` has raw value 0. */
  datatype CookieType = Unknown | Croissant | Cupcake | Danish | Donut | Macaroon | SugarCookie {

    function RawValue(): (n: nat)
      ensures n <= 6
      ensures n == 0 <==> this == Unknown
    {
      match this
      case Unknown => 0
      case Croissant => 1
      case Cupcake => 2
      case Danish => 3
      case Donut => 4
      case Macaroon => 5
      case SugarCookie => 6
    }

    /** The image name: `spriteNames[rawValue - 1]`, which traps for `Unknown`. */
    function SpriteName(): (s: string)
      requires this != Unknown
      ensures s in SpriteNames && |s| > 0
    {
      SpriteNames[RawValue() - 1]
    }

    /** The selected-state image name: the sprite name with "-Highlighted" appended. */
    function HighlightedSpriteName(): (s: string)
      requires this != Unknown
      ensures |s| == |SpriteName()| + |HighlightSuffix|
      ensures s[..|SpriteName()|] == SpriteName() && s[|SpriteName()|..] == HighlightSuffix
      ensures s !in SpriteNames
    {
      SpriteName() + HighlightSuffix
    }
  }

  const SpriteNames: seq<string> := ["Croissant", "Cupcake", "Danish", "Donut", "Macaroon", "SugarCookie"]

  const HighlightSuffix: string := "-Highlighted"

  /** The failable initializer `CookieType(rawValue:)`. */
  function FromRaw(n: int): (t: Option<CookieType>)
    ensures t.Some? <==> 0 <= n <= 6
    ensures t.Some? ==> t.value.RawValue() == n
  {
    match n
    case 0 => Some(Unknown)
    case 1 => Some(Croissant)
    case 2 => Some(Cupcake)
    case 3 => Some(Danish)
    case 4 => Some(Donut)
    case 5 => Some(Macaroon)
    case 6 => Some(SugarCookie)
    case _ => None
  }

  /** One value of `arc4random_uniform(6)`. */
  type Die = d: int | 0 <= d < 6

  /** `CookieType.random()`, fed one draw of the random source. */
  function Random(d: Die): (t: CookieType)
    ensures 1 <= t.RawValue() <= 6 && t != Unknown
  {
    FromRaw(d + 1).value
  }

  /** Every real cookie kind is reachable from exactly one draw. */
  lemma RandomCoversKinds(t: CookieType)
    requires t != Unknown
    ensures Random((t.RawValue() - 1) as Die) == t
    ensures forall d: Die :: Random(d) == t ==> d == t.RawValue() - 1
  {
  }

  /** Distinct kinds have distinct sprite names. */
  lemma SpriteNameInjective(t: CookieType, u: CookieType)
    requires t != Unknown && u != Unknown && t != u
    ensures t.SpriteName() != u.SpriteName()
  {
  }

  class Cookie {
    var col: int
    var row: int
    const cookieType: CookieType

    constructor (column: int, row: int, cookieType: CookieType)
      ensures col == column && this.row == row && this.cookieType == cookieType
    {
      col := column;
      this.row := row;
      this.cookieType := cookieType;
    }
  }

  /** The operator `==` on cookies: the same square, whatever the kinds. */
  predicate Same(a: Cookie, b: Cookie)
    reads a, b
  {
    a.col == b.col && a.row == b.row
  }

  /** `hashValue`: `row * 10 + col`. */
  function HashValue(c: Cookie): int
    reads c
  {
    c.row * 10 + c.col
  }

  /** `==` is an equivalence relation on cookies. */
  lemma SameIsEquivalence(a: Cookie, b: Cookie, c: Cookie)
    ensures Same(a, a)
    ensures Same(a, b) ==> Same(b, a)
    ensures Same(a, b) && Same(b, c) ==> Same(a, c)
  {
  }

  /** `==` looks at the square only: two cookies on one square are equal even when their kinds differ. */
  lemma SameIgnoresKind(a: Cookie, b: Cookie)
    requires a.col == b.col && a.row == b.row
    ensures Same(a, b)
  {
  }

  /** Equal cookies hash equally. */
  lemma SameHashesEqual(a: Cookie, b: Cookie)
    requires Same(a, b)
    ensures HashValue(a) == HashValue(b)
  {
  }

  /** On a board at most ten columns wide, distinct squares hash distinctly. */
  lemma HashDistinctOnBoard(a: Cookie, b: Cookie)
    requires 0 <= a.col < 10 && 0 <= b.col < 10 && 0 <= a.row && 0 <= b.row
    requires !Same(a, b)
    ensures HashValue(a) != HashValue(b)
  {
    if a.row < b.row {
      assert a.row * 10 + 10 <= b.row * 10;
    } else if b.row < a.row {
      assert b.row * 10 + 10 <= a.row * 10;
    }
  }
}

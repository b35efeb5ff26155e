/**
 * The chain scans of CookieCrunch/Level.swift (detectHorizontalMatches and
 * detectVerticalMatches), stated on one line of the board at a time: a row
 * read left to right, or a column read bottom to top, as the cookie kind in
 * each cell. The scan is greedy: at each position it checks the next three
 * cells; on a match it extends the chain as far as the kind repeats and
 * resumes right after it, otherwise it moves one cell on.
 */
module Lines {
  import opened Optional
  import opened Cookies

  /** The kinds along one row or column; `None` for a cell without a cookie. */
  type Line = seq<Option<CookieType>>

  /** The half-open stretch of cells [start, end) of a line. */
  datatype Span = Span(start: int, end: int)

  /** Cells s, s+1 and s+2 exist and hold cookies of one kind. */
  predicate Three(l: Line, s: int) {
    0 <= s && s + 2 < |l| && l[s].Some? && l[s + 1] == l[s] && l[s + 2] == l[s]
  }

  /** Cell k lies inside some stretch of three equal kinds. */
  predicate InThree(l: Line, k: int) {
    Three(l, k - 2) || Three(l, k - 1) || Three(l, k)
  }

  /** No stretch of three equal kinds anywhere on the line. */
  predicate NoThree(l: Line) {
    forall s :: 0 <= s < |l| ==> !Three(l, s)
  }

  /** The first index at or after i whose cell does not hold kind t: where a chain of t stops growing. */
  function RunEnd(l: Line, t: CookieType, i: nat): (e: nat)
    requires i <= |l|
    ensures i <= e <= |l|
    decreases |l| - i
  {
    if i < |l| && l[i] == Some(t) then RunEnd(l, t, i + 1) else i
  }

  /** The first index at or before i from which every cell up to i holds kind t. */
  function RunStart(l: Line, t: CookieType, i: nat): (s: nat)
    requires i <= |l|
    ensures s <= i
  {
    if 0 < i && l[i - 1] == Some(t) then RunStart(l, t, i - 1) else i
  }

  /** The greedy scan from position `col` on; a chain starts only before |l| - 2. */
  function Scan(l: Line, col: nat): seq<Span>
    decreases |l| - col
  {
    if col + 2 >= |l| then []
    else if Three(l, col) then
      var e := RunEnd(l, l[col].value, col + 1);
      [Span(col, e)] + Scan(l, e)
    else Scan(l, col + 1)
  }

  /** [s, e) holds one kind throughout, has at least three cells, and cannot be extended either way. */
  predicate MaximalRun(l: Line, s: int, e: int) {
    0 <= s && s + 3 <= e <= |l| && l[s].Some? &&
    (forall k :: s <= k < e ==> l[k] == l[s]) &&
    (s == 0 || l[s - 1] != l[s]) &&
    (e == |l| || l[e] != l[s])
  }

  /** What the scan knows on arriving at `col`: the cell before does not begin a stretch of three through col. */
  predicate Entry(l: Line, col: int) {
    0 < col < |l| ==> l[col - 1] != l[col] || !Three(l, col - 1)
  }

  lemma {:induction false} RunEndFacts(l: Line, t: CookieType, i: nat)
    requires i <= |l|
    ensures forall k :: i <= k < RunEnd(l, t, i) ==> l[k] == Some(t)
    ensures RunEnd(l, t, i) == |l| || l[RunEnd(l, t, i)] != Some(t)
    decreases |l| - i
  {
    if i < |l| && l[i] == Some(t) {
      RunEndFacts(l, t, i + 1);
    }
  }

  lemma {:induction false} RunStartFacts(l: Line, t: CookieType, i: nat)
    requires i <= |l|
    ensures forall k :: RunStart(l, t, i) <= k < i ==> l[k] == Some(t)
    ensures RunStart(l, t, i) == 0 || l[RunStart(l, t, i) - 1] != Some(t)
  {
    if 0 < i && l[i - 1] == Some(t) {
      RunStartFacts(l, t, i - 1);
    }
  }

  /** A stretch of kind t that stops at e is measured exactly by RunEnd. */
  lemma {:induction false} RunEndExact(l: Line, t: CookieType, i: nat, e: nat)
    requires i <= e <= |l|
    requires forall k :: i <= k < e ==> l[k] == Some(t)
    requires e == |l| || l[e] != Some(t)
    ensures RunEnd(l, t, i) == e
    decreases e - i
  {
    if i < e {
      RunEndExact(l, t, i + 1, e);
    }
  }

  /** Every span the scan reports lies at or after its starting position and is a maximal run. */
  lemma {:induction false} ScanSound(l: Line, col: nat)
    requires Entry(l, col)
    ensures forall sp :: sp in Scan(l, col) ==> col <= sp.start && MaximalRun(l, sp.start, sp.end)
    decreases |l| - col
  {
    if col + 2 >= |l| {
    } else if Three(l, col) {
      var t := l[col].value;
      var e := RunEnd(l, t, col + 1);
      RunEndFacts(l, t, col + 1);
      assert l[e - 1] == Some(t);
      ScanSound(l, e);
      assert MaximalRun(l, col, e);
    } else {
      ScanSound(l, col + 1);
    }
  }

  /** The scan's spans are in order and never overlap. */
  lemma {:induction false} ScanOrdered(l: Line, col: nat)
    ensures forall i, j :: 0 <= i < j < |Scan(l, col)| ==> Scan(l, col)[i].end <= Scan(l, col)[j].start
    ensures forall i :: 0 <= i < |Scan(l, col)| ==> col <= Scan(l, col)[i].start < Scan(l, col)[i].end
    decreases |l| - col
  {
    if col + 2 >= |l| {
    } else if Three(l, col) {
      var e := RunEnd(l, l[col].value, col + 1);
      ScanOrdered(l, e);
    } else {
      ScanOrdered(l, col + 1);
    }
  }

  /** Every maximal run that starts at or after `col` is reported by the scan from `col`. */
  lemma {:induction false} ScanComplete(l: Line, col: nat, s: int, e: int)
    requires col <= s && MaximalRun(l, s, e)
    ensures Span(s, e) in Scan(l, col)
    decreases s - col
  {
    var t := l[s].value;
    assert l[s + 1] == l[s] && l[s + 2] == l[s];
    if Three(l, col) {
      var t' := l[col].value;
      var e' := RunEnd(l, t', col + 1);
      if col == s {
        RunEndExact(l, t, col + 1, e);
      } else {
        RunEndFacts(l, t', col + 1);
        assert e' <= s;
        ScanComplete(l, e', s, e);
      }
    } else {
      assert col != s;
      ScanComplete(l, col + 1, s, e);
    }
  }

  /** A span is reported by the whole-line scan exactly when it is a maximal run of three or more. */
  lemma ScanExact(l: Line, s: int, e: int)
    ensures Span(s, e) in Scan(l, 0) <==> MaximalRun(l, s, e)
  {
    ScanSound(l, 0);
    if MaximalRun(l, s, e) {
      ScanComplete(l, 0, s, e);
    }
  }

  /** A cell in a reported span lies in some stretch of three equal kinds. */
  lemma SpanCellInThree(l: Line, sp: Span, k: int)
    requires MaximalRun(l, sp.start, sp.end) && sp.start <= k < sp.end
    ensures InThree(l, k)
  {
    var s := if k - 2 >= sp.start then k - 2 else sp.start;
    assert l[s] == l[sp.start] && l[s + 1] == l[sp.start] && l[s + 2] == l[sp.start];
    assert Three(l, s);
  }

  /** A cell in a stretch of three equal kinds lies in a span the scan reports. */
  lemma InThreeCovered(l: Line, k: int) returns (sp: Span)
    requires InThree(l, k)
    ensures sp in Scan(l, 0) && sp.start <= k < sp.end
  {
    var w := if Three(l, k - 2) then k - 2 else if Three(l, k - 1) then k - 1 else k;
    var t := l[w].value;
    var s := RunStart(l, t, w);
    var e := RunEnd(l, t, w);
    RunStartFacts(l, t, w);
    RunEndFacts(l, t, w);
    assert l[w] == Some(t) && l[w + 1] == Some(t) && l[w + 2] == Some(t);
    assert MaximalRun(l, s, e);
    ScanComplete(l, 0, s, e);
    sp := Span(s, e);
  }

  /** Cell k lies in a reported span exactly when it lies in some stretch of three equal kinds. */
  lemma ScanCovers(l: Line, k: int)
    ensures (exists sp :: sp in Scan(l, 0) && sp.start <= k < sp.end) <==> InThree(l, k)
  {
    if sp :| sp in Scan(l, 0) && sp.start <= k < sp.end {
      ScanSound(l, 0);
      SpanCellInThree(l, sp, k);
    }
    if InThree(l, k) {
      var sp := InThreeCovered(l, k);
    }
  }

  /** The whole-line scan finds nothing exactly when no three equal kinds stand in a row. */
  lemma ScanEmptyIff(l: Line)
    ensures Scan(l, 0) == [] <==> NoThree(l)
  {
    if !NoThree(l) {
      var s :| Three(l, s);
      ScanCovers(l, s);
    }
    if Scan(l, 0) != [] {
      ScanCovers(l, Scan(l, 0)[0].start);
      ScanOrdered(l, 0);
    }
  }

  /** A stretch of kind t from i up to j is inside the one RunEnd measures from i. */
  lemma {:induction false} RunEndAtLeast(l: Line, t: CookieType, i: nat, j: nat)
    requires i <= j <= |l|
    requires forall k :: i <= k < j ==> l[k] == Some(t)
    ensures j <= RunEnd(l, t, i)
    decreases j - i
  {
    if i < j {
      RunEndAtLeast(l, t, i + 1, j);
    }
  }

  /** A stretch of kind t from j up to i is inside the one RunStart measures back from i. */
  lemma {:induction false} RunStartAtMost(l: Line, t: CookieType, i: nat, j: nat)
    requires j <= i <= |l|
    requires forall k :: j <= k < i ==> l[k] == Some(t)
    ensures RunStart(l, t, i) <= j
    decreases i - j
  {
    if j < i {
      RunStartAtMost(l, t, i - 1, j);
    }
  }

  /**
   * A stretch of kind t from `start` up to `end` through cell k that cannot
   * be extended either way is the one RunStart and RunEnd measure, and it
   * is three long exactly when cell k lies in three equal kinds.
   */
  lemma StretchLength(l: Line, t: CookieType, k: nat, start: int, end: int)
    requires 0 <= start <= k < end <= |l|
    requires forall j :: start <= j < end ==> l[j] == Some(t)
    requires start == 0 || l[start - 1] != Some(t)
    requires end == |l| || l[end] != Some(t)
    ensures end - start == RunEnd(l, t, k + 1) - RunStart(l, t, k)
    ensures end - start >= 3 <==> InThree(l, k)
  {
    RunStartAtMost(l, t, k, start);
    RunStartFacts(l, t, k);
    RunEndExact(l, t, k + 1, end);
    InThreeByLength(l, k, t);
  }

  /**
   * The count `hasChainAtColumn` makes: the cell itself, the equal kinds
   * before it and the equal kinds after it reach three exactly when the cell
   * lies in a stretch of three.
   */
  lemma InThreeByLength(l: Line, k: nat, t: CookieType)
    requires k < |l| && l[k] == Some(t)
    ensures RunEnd(l, t, k + 1) - RunStart(l, t, k) >= 3 <==> InThree(l, k)
  {
    if RunEnd(l, t, k + 1) - RunStart(l, t, k) >= 3 {
      LongRunInThree(l, k, t);
    }
    if InThree(l, k) {
      InThreeLongRun(l, k, t);
    }
  }

  /** A stretch of at least three around cell k has a window of three that holds k. */
  lemma LongRunInThree(l: Line, k: nat, t: CookieType)
    requires k < |l| && l[k] == Some(t) && RunEnd(l, t, k + 1) - RunStart(l, t, k) >= 3
    ensures InThree(l, k)
  {
    var s, e := RunStart(l, t, k), RunEnd(l, t, k + 1);
    RunStartFacts(l, t, k);
    RunEndFacts(l, t, k + 1);
    var w := if k - 2 >= s then k - 2 else s;
    assert l[w] == Some(t) && l[w + 1] == Some(t) && l[w + 2] == Some(t);
    assert Three(l, w);
  }

  /** A window of three holding cell k lies inside the stretch around k. */
  lemma InThreeLongRun(l: Line, k: nat, t: CookieType)
    requires k < |l| && l[k] == Some(t) && InThree(l, k)
    ensures RunEnd(l, t, k + 1) - RunStart(l, t, k) >= 3
  {
    var w := if Three(l, k - 2) then k - 2 else if Three(l, k - 1) then k - 1 else k;
    assert l[w] == Some(t) && l[w + 1] == Some(t) && l[w + 2] == Some(t);
    RunStartAtMost(l, t, k, w);
    RunEndAtLeast(l, t, k + 1, w + 3);
  }
}

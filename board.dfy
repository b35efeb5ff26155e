/**
 * The rules of CookieCrunch/Level.swift stated on a snapshot of the board: the
 * 9 x 9 cookie grid as a row-major sequence of cells, row 0 at the bottom.
 * Everything here is a function of such a snapshot; the class `Level` is
 * proved against these definitions.
 */
module Board {
  import opened Optional
  import opened Cookies
  import opened Lines
  import opened Chains
  import opened Swaps

  const NumRows: int := 9
  const NumCols: int := 9
  const NumCells: int := 81

  /** A playable square; the level keeps a grid of optional tiles as its mask. */
  datatype Tile = Tile

  /** Row-major position of (col, row) on the 9 x 9 board. */
  function Idx(col: int, row: int): int {
    row * NumCols + col
  }

  predicate InBoard(col: int, row: int) {
    0 <= col < NumCols && 0 <= row < NumRows
  }

  lemma IdxFacts(c: int, r: int)
    requires InBoard(c, r)
    ensures 0 <= Idx(c, r) < NumCells
    ensures forall c', r' :: InBoard(c', r') && Idx(c', r') == Idx(c, r) ==> c' == c && r' == r
  {
  }

  /** Optional chaining `cell?.cookieType`. */
  function Kind(o: Option<Cookie>): Option<CookieType> {
    if o.Some? then Some(o.value.cookieType) else None
  }

  /** The kind at (col, row), or None for an empty cell or a position off the board. */
  function TypeAt(g: seq<Option<Cookie>>, col: int, row: int): Option<CookieType> {
    if |g| == NumCells && InBoard(col, row) then Kind(g[Idx(col, row)]) else None
  }

  /** Row `row` read left to right. */
  function Row(g: seq<Option<Cookie>>, row: int): (l: Line)
    ensures |l| == NumCols
  {
    seq(NumCols, c => TypeAt(g, c, row))
  }

  /** Column `col` read bottom to top. */
  function Col(g: seq<Option<Cookie>>, col: int): (l: Line)
    ensures |l| == NumRows
  {
    seq(NumRows, r => TypeAt(g, col, r))
  }

  /**
   * What `hasChainAtColumn` decides: the cell lies in three equal kinds in a
   * row, horizontally or vertically.
   */
  predicate ChainAt(g: seq<Option<Cookie>>, col: int, row: int) {
    InThree(Row(g, row), col) || InThree(Col(g, col), row)
  }

  /** No three equal kinds stand in a row anywhere on the board. */
  predicate NoChains(g: seq<Option<Cookie>>) {
    (forall r :: 0 <= r < NumRows ==> NoThree(Row(g, r))) &&
    (forall c :: 0 <= c < NumCols ==> NoThree(Col(g, c)))
  }

  /** Distinct cells hold distinct cookie objects. */
  predicate Injective(g: seq<Option<Cookie>>) {
    forall i, j :: 0 <= i < |g| && 0 <= j < |g| && i != j && g[i].Some? ==> g[i] != g[j]
  }

  // ---------------------------------------------------------------------------
  // Chain detection over the whole board

  /** The two scanning directions; `LShaped` is never produced. */
  type Axis = d: ChainType | d != LShaped witness Horizontal

  /** Line k in direction `dir`: row k for the horizontal pass, column k for the vertical one. */
  function LineOf(g: seq<Option<Cookie>>, dir: Axis, k: int): (l: Line)
    ensures |l| == 9
  {
    if dir == Horizontal then Row(g, k) else Col(g, k)
  }

  /** The board position of cell i of line k. */
  function CellOf(dir: Axis, k: int, i: int): int {
    if dir == Horizontal then Idx(i, k) else Idx(k, i)
  }

  /** A chain found on line k: the span of cells it covers. */
  datatype Run = Run(line: int, span: Span)

  function Tag(k: int, spans: seq<Span>): (rs: seq<Run>)
    ensures |rs| == |spans|
    ensures forall i :: 0 <= i < |spans| ==> rs[i] == Run(k, spans[i])
  {
    seq(|spans|, i requires 0 <= i < |spans| => Run(k, spans[i]))
  }

  lemma TagAppend(k: int, a: seq<Span>, b: seq<Span>)
    ensures Tag(k, a + b) == Tag(k, a) + Tag(k, b)
  {
  }

  /** The chains of the lines 0 .. k-1 in scan order. */
  function RunsBelow(g: seq<Option<Cookie>>, dir: Axis, k: nat): seq<Run>
    requires k <= 9
  {
    if k == 0 then [] else RunsBelow(g, dir, k - 1) + Tag(k - 1, Scan(LineOf(g, dir, k - 1), 0))
  }

  /** The chains one pass reports, in the order it reports them. */
  function Runs(g: seq<Option<Cookie>>, dir: Axis): seq<Run> {
    RunsBelow(g, dir, 9)
  }

  /** `cs` are, in order, the cookies in the cells of `run`. */
  predicate Holds(cs: seq<Cookie>, g: seq<Option<Cookie>>, dir: Axis, run: Run) {
    |g| == NumCells && 0 <= run.line < 9 && 0 <= run.span.start &&
    |cs| == run.span.end - run.span.start &&
    run.span.end <= 9 &&
    forall j :: 0 <= j < |cs| ==> g[CellOf(dir, run.line, run.span.start + j)] == Some(cs[j])
  }

  /** A run covers the board position (col, row). */
  predicate Covers(dir: Axis, run: Run, col: int, row: int) {
    if dir == Horizontal then run.line == row && run.span.start <= col < run.span.end
    else run.line == col && run.span.start <= row < run.span.end
  }

  predicate CoveredBy(runs: seq<Run>, dir: Axis, col: int, row: int) {
    exists i :: 0 <= i < |runs| && Covers(dir, runs[i], col, row)
  }

  /** The cells `removeMatches` empties: those under a chain of either pass. */
  predicate Covered(g: seq<Option<Cookie>>, col: int, row: int) {
    CoveredBy(Runs(g, Horizontal), Horizontal, col, row) || CoveredBy(Runs(g, Vertical), Vertical, col, row)
  }

  lemma {:induction false} RunsBelowMember(g: seq<Option<Cookie>>, dir: Axis, k: nat, run: Run)
    requires k <= 9
    ensures run in RunsBelow(g, dir, k) <==> 0 <= run.line < k && run.span in Scan(LineOf(g, dir, run.line), 0)
  {
    if k > 0 {
      RunsBelowMember(g, dir, k - 1, run);
      var spans := Scan(LineOf(g, dir, k - 1), 0);
      var a, b := RunsBelow(g, dir, k - 1), Tag(k - 1, spans);
      assert RunsBelow(g, dir, k) == a + b;
      TagMember(k - 1, spans, run);
      assert run in a + b <==> run in a || run in b;
    }
  }

  lemma TagMember(k: int, spans: seq<Span>, run: Run)
    ensures run in Tag(k, spans) <==> run.line == k && run.span in spans
  {
    if run.line == k && run.span in spans {
      var i :| 0 <= i < |spans| && spans[i] == run.span;
      assert Tag(k, spans)[i] == run;
    }
  }

  /** A pass reports exactly the maximal runs of three or more equal kinds, line by line. */
  lemma RunsExact(g: seq<Option<Cookie>>, dir: Axis, run: Run)
    ensures run in Runs(g, dir) <==> 0 <= run.line < 9 && MaximalRun(LineOf(g, dir, run.line), run.span.start, run.span.end)
  {
    RunsBelowMember(g, dir, 9, run);
    ScanExact(LineOf(g, dir, run.line), run.span.start, run.span.end);
  }

  /** Runs in scan order: by line, and within a line left to right (bottom to top) without overlap. */
  predicate InScanOrder(rs: seq<Run>) {
    forall i, j :: 0 <= i < j < |rs| ==>
      rs[i].line < rs[j].line || (rs[i].line == rs[j].line && rs[i].span.end <= rs[j].span.start)
  }

  /** Runs on lines below k. */
  predicate LinesBelow(rs: seq<Run>, k: int) {
    forall i :: 0 <= i < |rs| ==> rs[i].line < k
  }

  /** Runs of earlier lines followed by runs in order on line k stay in scan order. */
  lemma ScanOrderAppend(a: seq<Run>, b: seq<Run>, k: int)
    requires InScanOrder(a) && LinesBelow(a, k) && InScanOrder(b)
    requires forall i :: 0 <= i < |b| ==> b[i].line == k
    ensures InScanOrder(a + b) && LinesBelow(a + b, k + 1)
  {
    var ab := a + b;
    forall i, j | 0 <= i < j < |ab|
      ensures ab[i].line < ab[j].line || (ab[i].line == ab[j].line && ab[i].span.end <= ab[j].span.start)
    {
      if j < |a| {
        assert ab[i] == a[i] && ab[j] == a[j];
      } else if i < |a| {
        assert ab[i] == a[i] && ab[j] == b[j - |a|];
      } else {
        assert ab[i] == b[i - |a|] && ab[j] == b[j - |a|];
      }
    }
    forall i | 0 <= i < |ab|
      ensures ab[i].line < k + 1
    {
      if i < |a| {
        assert ab[i] == a[i];
      } else {
        assert ab[i] == b[i - |a|];
      }
    }
  }

  /** A pass reports its chains line by line in increasing order, left to right (bottom to top) within a line, without overlap. */
  lemma {:induction false} RunsOrdered(g: seq<Option<Cookie>>, dir: Axis, k: nat)
    requires k <= 9
    ensures InScanOrder(RunsBelow(g, dir, k)) && LinesBelow(RunsBelow(g, dir, k), k)
  {
    if k > 0 {
      RunsOrdered(g, dir, k - 1);
      var spans := Scan(LineOf(g, dir, k - 1), 0);
      ScanOrdered(LineOf(g, dir, k - 1), 0);
      var b: seq<Run> := Tag(k - 1, spans);
      assert InScanOrder(b) by {
        forall i, j | 0 <= i < j < |b|
          ensures b[i].span.end <= b[j].span.start
        {
          assert b[i].span == spans[i] && b[j].span == spans[j];
        }
      }
      ScanOrderAppend(RunsBelow(g, dir, k - 1), b, k - 1);
    }
  }

  /** Every reported chain is a maximal run on a line of the board. */
  lemma RunsShape(g: seq<Option<Cookie>>, dir: Axis)
    ensures forall run :: run in Runs(g, dir) ==>
      0 <= run.line < 9 && MaximalRun(LineOf(g, dir, run.line), run.span.start, run.span.end)
  {
    forall run | run in Runs(g, dir)
      ensures 0 <= run.line < 9 && MaximalRun(LineOf(g, dir, run.line), run.span.start, run.span.end)
    {
      RunsExact(g, dir, run);
    }
  }

  /** A pass reports nothing exactly when no line holds three equal kinds in a row. */
  lemma RunsEmptyIff(g: seq<Option<Cookie>>, dir: Axis)
    ensures Runs(g, dir) == [] <==> forall k :: 0 <= k < 9 ==> NoThree(LineOf(g, dir, k))
  {
    if Runs(g, dir) != [] {
      var run := Runs(g, dir)[0];
      RunsExact(g, dir, run);
      ScanEmptyIff(LineOf(g, dir, run.line));
      RunsBelowMember(g, dir, 9, run);
    }
    if k :| 0 <= k < 9 && !NoThree(LineOf(g, dir, k)) {
      ScanEmptyIff(LineOf(g, dir, k));
      var sp := Scan(LineOf(g, dir, k), 0)[0];
      RunsBelowMember(g, dir, 9, Run(k, sp));
    }
  }

  /** Both passes report nothing exactly when the board has no chain at all. */
  lemma NoRunsIff(g: seq<Option<Cookie>>)
    ensures Runs(g, Horizontal) == [] && Runs(g, Vertical) == [] <==> NoChains(g)
  {
    RunsEmptyIff(g, Horizontal);
    RunsEmptyIff(g, Vertical);
    assert forall k :: LineOf(g, Horizontal, k) == Row(g, k);
    assert forall k :: LineOf(g, Vertical, k) == Col(g, k);
  }

  /** A cell is under a chain of one pass exactly when it lies in three equal kinds in a row in that direction. */
  lemma CoveredByIff(g: seq<Option<Cookie>>, dir: Axis, col: int, row: int)
    requires InBoard(col, row)
    ensures CoveredBy(Runs(g, dir), dir, col, row) <==>
      if dir == Horizontal then InThree(Row(g, row), col) else InThree(Col(g, col), row)
  {
    var k, p := if dir == Horizontal then row else col, if dir == Horizontal then col else row;
    var l := LineOf(g, dir, k);
    ScanCovers(l, p);
    if CoveredBy(Runs(g, dir), dir, col, row) {
      var i :| 0 <= i < |Runs(g, dir)| && Covers(dir, Runs(g, dir)[i], col, row);
      var run := Runs(g, dir)[i];
      RunsBelowMember(g, dir, 9, run);
      assert run.span in Scan(l, 0) && run.span.start <= p < run.span.end;
    }
    if InThree(l, p) {
      var sp :| sp in Scan(l, 0) && sp.start <= p < sp.end;
      RunsBelowMember(g, dir, 9, Run(k, sp));
      var i :| 0 <= i < |Runs(g, dir)| && Runs(g, dir)[i] == Run(k, sp);
      assert Covers(dir, Runs(g, dir)[i], col, row);
    }
  }

  /** `removeMatches` empties a cell exactly when `hasChainAtColumn` would report a chain there. */
  lemma CoveredIffChainAt(g: seq<Option<Cookie>>, col: int, row: int)
    requires InBoard(col, row)
    ensures Covered(g, col, row) <==> ChainAt(g, col, row)
  {
    CoveredByIff(g, Horizontal, col, row);
    CoveredByIff(g, Vertical, col, row);
  }

  /** Cell i of line k is the kind in the cell at board position CellOf(dir, k, i). */
  lemma LineCell(g: seq<Option<Cookie>>, dir: Axis, k: int, i: int)
    requires |g| == NumCells && 0 <= k < 9 && 0 <= i < 9
    ensures 0 <= CellOf(dir, k, i) < NumCells
    ensures LineOf(g, dir, k)[i] == Kind(g[CellOf(dir, k, i)])
  {
  }

  /** Every chain a pass builds holds three or more cookies, all of one kind. */
  lemma ChainShape(cs: seq<Cookie>, g: seq<Option<Cookie>>, dir: Axis, run: Run)
    requires run in Runs(g, dir) && Holds(cs, g, dir, run)
    ensures |cs| >= 3
    ensures forall j :: 0 <= j < |cs| ==> cs[j].cookieType == cs[0].cookieType
  {
    RunsExact(g, dir, run);
    var l := LineOf(g, dir, run.line);
    forall j | 0 <= j < |cs|
      ensures cs[j].cookieType == cs[0].cookieType
    {
      LineCell(g, dir, run.line, run.span.start + j);
      LineCell(g, dir, run.line, run.span.start);
      assert l[run.span.start + j] == l[run.span.start];
    }
  }

  /** Two different chains of one pass never share a cookie, when no cookie sits on two squares. */
  lemma ChainsDisjoint(g: seq<Option<Cookie>>, dir: Axis, i: int, j: int, cs: seq<Cookie>, ds: seq<Cookie>)
    requires Injective(g)
    requires 0 <= i < |Runs(g, dir)| && 0 <= j < |Runs(g, dir)| && i != j
    requires Holds(cs, g, dir, Runs(g, dir)[i]) && Holds(ds, g, dir, Runs(g, dir)[j])
    ensures forall a, b :: 0 <= a < |cs| && 0 <= b < |ds| ==> cs[a] != ds[b]
  {
    RunsOrdered(g, dir, 9);
    var u, w := Runs(g, dir)[i], Runs(g, dir)[j];
    forall a, b | 0 <= a < |cs| && 0 <= b < |ds|
      ensures cs[a] != ds[b]
    {
      var p, q := CellOf(dir, u.line, u.span.start + a), CellOf(dir, w.line, w.span.start + b);
      assert p != q by {
        if u.line == w.line {
          assert u.span.start + a != w.span.start + b;
        }
      }
      assert g[p] == Some(cs[a]) && g[q] == Some(ds[b]);
    }
  }

  /** On a board of cookies that know their squares, `==` cookies held by two runs stand on one square and are one cookie. */
  lemma HeldSame(g: seq<Option<Cookie>>, cs: seq<Cookie>, ds: seq<Cookie>, d1: Axis, r1: Run, d2: Axis, r2: Run, a: int, b: int)
    requires WellPlaced(g) && Holds(cs, g, d1, r1) && Holds(ds, g, d2, r2)
    requires 0 <= a < |cs| && 0 <= b < |ds| && Same(cs[a], ds[b])
    ensures CellOf(d1, r1.line, r1.span.start + a) == CellOf(d2, r2.line, r2.span.start + b)
    ensures cs[a] == ds[b]
  {
    var p, q := CellOf(d1, r1.line, r1.span.start + a), CellOf(d2, r2.line, r2.span.start + b);
    assert g[p] == Some(cs[a]) && g[q] == Some(ds[b]);
  }

  /**
   * Chain `==` cannot hold between the cookies of two runs that start on
   * different squares, or that run in different directions: the first two
   * cookies stand side by side in one and one above the other in the other.
   */
  lemma RunChainsDiffer(g: seq<Option<Cookie>>, cs: seq<Cookie>, ds: seq<Cookie>, d1: Axis, r1: Run, d2: Axis, r2: Run)
    requires WellPlaced(g) && Holds(cs, g, d1, r1) && Holds(ds, g, d2, r2) && |cs| >= 2
    requires d1 != d2 || r1.line != r2.line || r1.span.start != r2.span.start
    ensures !(|cs| == |ds| && forall i :: 0 <= i < |cs| ==> Same(cs[i], ds[i]))
  {
    if |cs| == |ds| && forall i :: 0 <= i < |cs| ==> Same(cs[i], ds[i]) {
      HeldSame(g, cs, ds, d1, r1, d2, r2, 0, 0);
      HeldSame(g, cs, ds, d1, r1, d2, r2, 1, 1);
      IdxFacts(r1.span.start, r1.line);
      IdxFacts(r1.line, r1.span.start);
      IdxFacts(r1.span.start + 1, r1.line);
      IdxFacts(r1.line, r1.span.start + 1);
      assert false;
    }
  }

  /** The squares one run covers. */
  function SpanCells(dir: Axis, run: Run): set<int> {
    set m | run.span.start <= m < run.span.end :: CellOf(dir, run.line, m)
  }

  /** The squares a list of runs covers. */
  function RunCells(dir: Axis, runs: seq<Run>): set<int> {
    if runs == [] then {} else RunCells(dir, runs[..|runs| - 1]) + SpanCells(dir, runs[|runs| - 1])
  }

  /** The runs lie on the board. */
  predicate OnBoard(runs: seq<Run>) {
    forall i :: 0 <= i < |runs| ==> 0 <= runs[i].line < 9 && 0 <= runs[i].span.start && runs[i].span.end <= 9
  }

  /** A square is among the runs' squares exactly when one of the runs covers it. */
  lemma {:induction false} RunCellsCovered(dir: Axis, runs: seq<Run>, col: int, row: int)
    requires InBoard(col, row) && OnBoard(runs)
    ensures Idx(col, row) in RunCells(dir, runs) <==> CoveredBy(runs, dir, col, row)
  {
    if runs != [] {
      var front, run := runs[..|runs| - 1], runs[|runs| - 1];
      RunCellsCovered(dir, front, col, row);
      var m := if dir == Horizontal then col else row;
      if Idx(col, row) in SpanCells(dir, run) {
        var m' :| run.span.start <= m' < run.span.end && CellOf(dir, run.line, m') == Idx(col, row);
        if dir == Horizontal {
          IdxFacts(col, row);
          assert InBoard(m', run.line);
        } else {
          IdxFacts(col, row);
          assert InBoard(run.line, m');
        }
        assert Covers(dir, runs[|runs| - 1], col, row);
      }
      if Covers(dir, run, col, row) {
        assert CellOf(dir, run.line, m) == Idx(col, row);
      }
      if CoveredBy(runs, dir, col, row) && !Covers(dir, run, col, row) {
        var i :| 0 <= i < |runs| && Covers(dir, runs[i], col, row);
        assert front[i] == runs[i];
      }
      if CoveredBy(front, dir, col, row) {
        var i :| 0 <= i < |front| && Covers(dir, front[i], col, row);
        assert runs[i] == front[i];
      }
    }
  }

  /** The squares the chains of a pass cover are exactly those in three in a row in that direction. */
  lemma RunsCells(g: seq<Option<Cookie>>, dir: Axis, col: int, row: int)
    requires InBoard(col, row)
    ensures OnBoard(Runs(g, dir))
    ensures Idx(col, row) in RunCells(dir, Runs(g, dir)) <==>
      if dir == Horizontal then InThree(Row(g, row), col) else InThree(Col(g, col), row)
  {
    RunsShape(g, dir);
    forall i | 0 <= i < |Runs(g, dir)|
      ensures 0 <= Runs(g, dir)[i].line < 9 && 0 <= Runs(g, dir)[i].span.start && Runs(g, dir)[i].span.end <= 9
    {
      assert Runs(g, dir)[i] in Runs(g, dir);
    }
    RunCellsCovered(dir, Runs(g, dir), col, row);
    CoveredByIff(g, dir, col, row);
  }

  /** `h` is `g` with exactly the squares that lie in three in a row emptied. */
  predicate Cleared(g: seq<Option<Cookie>>, h: seq<Option<Cookie>>)
    requires |g| == NumCells && |h| == NumCells
  {
    forall c, r :: 0 <= c < NumCols && 0 <= r < NumRows ==> h[Idx(c, r)] == if ChainAt(g, c, r) then None else g[Idx(c, r)]
  }

  /**
   * Emptying the squares of both passes' chains empties exactly the squares
   * that lie in three in a row.
   */
  lemma ClearedIsChainAt(g: seq<Option<Cookie>>, h: seq<Option<Cookie>>)
    requires |g| == NumCells && |h| == NumCells
    requires forall p :: 0 <= p < NumCells ==>
      h[p] == if p in RunCells(Horizontal, Runs(g, Horizontal)) || p in RunCells(Vertical, Runs(g, Vertical)) then None else g[p]
    ensures Cleared(g, h)
  {
    forall c, r | InBoard(c, r)
      ensures h[Idx(c, r)] == if ChainAt(g, c, r) then None else g[Idx(c, r)]
    {
      IdxFacts(c, r);
      RunsCells(g, Horizontal, c, r);
      RunsCells(g, Vertical, c, r);
    }
  }

  // ---------------------------------------------------------------------------
  // Cookies on the board

  /** The cookie objects on the board. */
  function CookiesOf(g: seq<Option<Cookie>>): set<Cookie> {
    set i | 0 <= i < |g| && g[i].Some? :: g[i].value
  }

  /** Each cookie on the board records its own square in `col` and `row`. */
  ghost predicate WellPlaced(g: seq<Option<Cookie>>)
    reads CookiesOf(g)`col, CookiesOf(g)`row
  {
    |g| == NumCells &&
    forall i :: 0 <= i < |g| && g[i].Some? ==>
      g[i].value in CookiesOf(g) && InBoard(g[i].value.col, g[i].value.row) && Idx(g[i].value.col, g[i].value.row) == i
  }

  /** A cookie that knows its square can sit on only that square. */
  lemma WellPlacedInjective(g: seq<Option<Cookie>>)
    requires WellPlaced(g)
    ensures Injective(g)
  {
  }

  /** On a board of well-placed cookies, two of them are `==` exactly when they are one and the same square. */
  lemma SameSquare(g: seq<Option<Cookie>>, i: int, j: int)
    requires WellPlaced(g) && 0 <= i < |g| && 0 <= j < |g| && g[i].Some? && g[j].Some?
    ensures Same(g[i].value, g[j].value) <==> i == j
  {
  }

  /** Cookies stand only on tiles. */
  predicate OnTiles(g: seq<Option<Cookie>>, t: seq<Option<Tile>>) {
    |g| == |t| && forall i :: 0 <= i < |g| && g[i].Some? ==> t[i].Some?
  }

  // ---------------------------------------------------------------------------
  // The initial fill

  /**
   * The draw `createInitialCookies` rejects for (col, row): kind t would
   * complete three in a row with the two cookies to its left or the two
   * below it.
   */
  predicate Clash(g: seq<Option<Cookie>>, col: int, row: int, t: CookieType) {
    (col >= 2 && TypeAt(g, col - 1, row) == Some(t) && TypeAt(g, col - 2, row) == Some(t)) ||
    (row >= 2 && TypeAt(g, col, row - 1) == Some(t) && TypeAt(g, col, row - 2) == Some(t))
  }

  /** (col, row) ends three equal kinds leftward or downward. */
  predicate EndsThree(g: seq<Option<Cookie>>, col: int, row: int) {
    TypeAt(g, col, row).Some? && Clash(g, col, row, TypeAt(g, col, row).value)
  }

  /** A board where no square ends three equal kinds leftward or downward has no chain at all. */
  lemma NoEndsNoChains(g: seq<Option<Cookie>>)
    requires |g| == NumCells
    requires forall c, r :: InBoard(c, r) ==> !EndsThree(g, c, r)
    ensures NoChains(g)
  {
    forall r, s | 0 <= r < NumRows && 0 <= s < NumCols
      ensures !Three(Row(g, r), s)
    {
      if Three(Row(g, r), s) {
        assert EndsThree(g, s + 2, r);
      }
    }
    forall c, s | 0 <= c < NumCols && 0 <= s < NumRows
      ensures !Three(Col(g, c), s)
    {
      if Three(Col(g, c), s) {
        assert EndsThree(g, c, s + 2);
      }
    }
  }

  /** Filling square p leaves whether an earlier square ends three equal kinds as it was. */
  lemma EndsThreeFrame(g: seq<Option<Cookie>>, p: int, v: Option<Cookie>, c: int, r: int)
    requires |g| == NumCells && 0 <= p < NumCells && InBoard(c, r) && Idx(c, r) < p
    ensures EndsThree(g[p := v], c, r) == EndsThree(g, c, r)
  {
    var h := g[p := v];
    forall c', r' | InBoard(c', r') && Idx(c', r') <= Idx(c, r)
      ensures TypeAt(h, c', r') == TypeAt(g, c', r')
    {
    }
    if c >= 2 {
      assert Idx(c - 1, r) <= Idx(c, r) && Idx(c - 2, r) <= Idx(c, r);
    }
    if r >= 2 {
      assert Idx(c, r - 1) <= Idx(c, r) && Idx(c, r - 2) <= Idx(c, r);
    }
  }

  /** The square a new cookie takes ends no three in a row when its kind was not a clash there. */
  lemma {:induction false} FillEndsNoThree(g: seq<Option<Cookie>>, c: int, r: int, x: Cookie)
    requires |g| == NumCells && InBoard(c, r) && !Clash(g, c, r, x.cookieType)
    ensures !EndsThree(g[Idx(c, r) := Some(x)], c, r)
  {
    var h := g[Idx(c, r) := Some(x)];
    assert TypeAt(h, c, r) == Some(x.cookieType);
    if c >= 2 {
      assert TypeAt(h, c - 1, r) == TypeAt(g, c - 1, r) && TypeAt(h, c - 2, r) == TypeAt(g, c - 2, r);
    }
    if r >= 2 {
      assert TypeAt(h, c, r - 1) == TypeAt(g, c, r - 1) && TypeAt(h, c, r - 2) == TypeAt(g, c, r - 2);
    }
  }

  /** What the initial fill has achieved on the squares before p: no three in a row ends there, and exactly the tiles hold cookies. */
  ghost predicate FilledBefore(g: seq<Option<Cookie>>, t: seq<Option<Tile>>, p: int) {
    |g| == NumCells && |t| == NumCells &&
    (forall c, r :: InBoard(c, r) && Idx(c, r) < p ==> !EndsThree(g, c, r)) &&
    (forall i :: 0 <= i < p && i < NumCells ==> (g[i].Some? <==> t[i].Some?))
  }

  /** The initial fill, once it has visited every square, leaves no chain. */
  lemma FilledNoChains(g: seq<Option<Cookie>>, t: seq<Option<Tile>>)
    requires FilledBefore(g, t, NumCells)
    ensures NoChains(g)
  {
    forall c, r | InBoard(c, r)
      ensures !EndsThree(g, c, r)
    {
      IdxFacts(c, r);
    }
    NoEndsNoChains(g);
  }

  /** One more square of the initial fill: a new cookie of a kind that does not clash on a tile, nothing elsewhere. */
  lemma FilledStep(g: seq<Option<Cookie>>, t: seq<Option<Tile>>, c: int, r: int, v: Option<Cookie>)
    requires FilledBefore(g, t, Idx(c, r)) && InBoard(c, r)
    requires v.Some? <==> t[Idx(c, r)].Some?
    requires v.Some? ==> !Clash(g, c, r, v.value.cookieType)
    requires v.None? ==> g[Idx(c, r)] == None
    ensures FilledBefore(g[Idx(c, r) := v], t, Idx(c, r) + 1)
  {
    var p := Idx(c, r);
    var h := g[p := v];
    forall c', r' | InBoard(c', r') && Idx(c', r') < p
      ensures !EndsThree(h, c', r')
    {
      EndsThreeFrame(g, p, v, c', r');
    }
    if v.Some? {
      FillEndsNoThree(g, c, r, v.value);
    } else {
      assert h == g;
    }
    assert !EndsThree(h, c, r);
    forall c', r' | InBoard(c', r') && Idx(c', r') < p + 1
      ensures !EndsThree(h, c', r')
    {
      if Idx(c', r') == p {
        IdxFacts(c, r);
      }
    }
    forall i | 0 <= i < p + 1 && i < NumCells
      ensures h[i].Some? <==> t[i].Some?
    {
    }
  }

  /** A cookie that knows its square, put on that square, keeps the board well placed. */
  lemma PlaceWellPlaced(g: seq<Option<Cookie>>, x: Cookie)
    requires WellPlaced(g) && InBoard(x.col, x.row)
    ensures WellPlaced(g[Idx(x.col, x.row) := Some(x)])
  {
    var h := g[Idx(x.col, x.row) := Some(x)];
    forall i | 0 <= i < |h| && h[i].Some?
      ensures h[i].value in CookiesOf(h)
    {
    }
  }

  /** Setting square p of a board adds its cookie to those before p. */
  lemma CookiesOfPrefix(g: seq<Option<Cookie>>, p: int, v: Option<Cookie>)
    requires 0 <= p < |g|
    ensures CookiesOf(g[p := v][..p + 1]) == CookiesOf(g[..p]) + (if v.Some? then {v.value} else {})
  {
    assert g[p := v][..p + 1] == g[..p] + [v];
    CookiesOfSnoc(g[..p], v);
  }

  lemma CookiesOfSnoc(s: seq<Option<Cookie>>, v: Option<Cookie>)
    ensures CookiesOf(s + [v]) == CookiesOf(s) + (if v.Some? then {v.value} else {})
  {
    var t := s + [v];
    forall x | x in CookiesOf(t)
      ensures x in CookiesOf(s) + (if v.Some? then {v.value} else {})
    {
      var i :| 0 <= i < |t| && t[i].Some? && t[i].value == x;
      if i < |s| {
        assert s[i] == t[i];
      }
    }
    forall x | x in CookiesOf(s)
      ensures x in CookiesOf(t)
    {
      var i :| 0 <= i < |s| && s[i].Some? && s[i].value == x;
      assert t[i] == s[i];
    }
    if v.Some? {
      assert t[|s|] == v;
    }
  }

  // ---------------------------------------------------------------------------
  // Possible swaps

  /** The board with the contents of squares i and j exchanged. */
  function Exchange(g: seq<Option<Cookie>>, i: int, j: int): (h: seq<Option<Cookie>>)
    requires 0 <= i < |g| && 0 <= j < |g|
    ensures |h| == |g| && h[i] == g[j] && h[j] == g[i]
    ensures forall k :: 0 <= k < |g| && k != i && k != j ==> h[k] == g[k]
  {
    g[i := g[j]][j := g[i]]
  }

  /** Exchanging twice restores the board. */
  lemma ExchangeInvolutive(g: seq<Option<Cookie>>, i: int, j: int)
    requires 0 <= i < |g| && 0 <= j < |g|
    ensures Exchange(Exchange(g, i, j), i, j) == g
    ensures Exchange(g, i, j) == Exchange(g, j, i)
  {
    var h := Exchange(Exchange(g, i, j), i, j);
    assert forall k :: 0 <= k < |g| ==> h[k] == g[k];
  }

  /**
   * The swap with the right-hand neighbour that `detectPossibleSwaps` accepts:
   * both squares hold cookies and, once they are exchanged, the right or the
   * left square lies in three in a row.
   */
  predicate RightLegal(g: seq<Option<Cookie>>, col: int, row: int) {
    |g| == NumCells && InBoard(col, row) && col + 1 < NumCols &&
    g[Idx(col, row)].Some? && g[Idx(col + 1, row)].Some? &&
    var h := Exchange(g, Idx(col, row), Idx(col + 1, row));
    ChainAt(h, col + 1, row) || ChainAt(h, col, row)
  }

  /** The swap with the neighbour above, accepted on the same terms. */
  predicate UpLegal(g: seq<Option<Cookie>>, col: int, row: int) {
    |g| == NumCells && InBoard(col, row) && row + 1 < NumRows &&
    g[Idx(col, row)].Some? && g[Idx(col, row + 1)].Some? &&
    var h := Exchange(g, Idx(col, row), Idx(col, row + 1));
    ChainAt(h, col, row + 1) || ChainAt(h, col, row)
  }

  /** The swaps found at one square: with the neighbour on the right, then with the one above. */
  function CellSwaps(g: seq<Option<Cookie>>, col: int, row: int): set<Swap>
    requires |g| == NumCells && InBoard(col, row)
  {
    (if RightLegal(g, col, row) then {Swap(g[Idx(col, row)].value, g[Idx(col + 1, row)].value)} else {}) +
    (if UpLegal(g, col, row) then {Swap(g[Idx(col, row)].value, g[Idx(col, row + 1)].value)} else {})
  }

  /** The swaps found at columns 0 .. n-1 of a row. */
  function RowSwaps(g: seq<Option<Cookie>>, row: int, n: nat): set<Swap>
    requires |g| == NumCells && 0 <= row < NumRows && n <= NumCols
  {
    if n == 0 then {} else RowSwaps(g, row, n - 1) + CellSwaps(g, n - 1, row)
  }

  /** The swaps found in rows 0 .. n-1. */
  function SwapsBelow(g: seq<Option<Cookie>>, n: nat): set<Swap>
    requires |g| == NumCells && n <= NumRows
  {
    if n == 0 then {} else SwapsBelow(g, n - 1) + RowSwaps(g, n - 1, NumCols)
  }

  /** The set `detectPossibleSwaps` builds. */
  function PossibleSwaps(g: seq<Option<Cookie>>): set<Swap>
    requires |g| == NumCells
  {
    SwapsBelow(g, NumRows)
  }

  /** The swaps of one more square of a row. */
  lemma RowSwapsNext(g: seq<Option<Cookie>>, row: int, n: nat, a: set<Swap>, b: set<Swap>)
    requires |g| == NumCells && 0 <= row < NumRows && n < NumCols
    requires a == RowSwaps(g, row, n) && b == CellSwaps(g, n, row)
    ensures a + b == RowSwaps(g, row, n + 1)
  {
  }

  /** The swaps of one more row. */
  lemma SwapsBelowNext(g: seq<Option<Cookie>>, n: nat, a: set<Swap>, b: set<Swap>)
    requires |g| == NumCells && n < NumRows
    requires a == SwapsBelow(g, n) && b == RowSwaps(g, n, NumCols)
    ensures a + b == SwapsBelow(g, n + 1)
  {
  }

  /** The union of f(0) .. f(n-1). */
  ghost function UnionBelow(f: int -> set<Swap>, n: nat): set<Swap> {
    if n == 0 then {} else UnionBelow(f, n - 1) + f(n - 1)
  }

  lemma {:induction false} UnionBelowMember(f: int -> set<Swap>, n: nat, s: Swap)
    ensures s in UnionBelow(f, n) <==> exists i :: 0 <= i < n && s in f(i)
  {
    if n > 0 {
      UnionBelowMember(f, n - 1, s);
      if s in f(n - 1) {
        assert s in UnionBelow(f, n);
      }
    }
  }

  /** The swaps found at each square of a row, by column. */
  ghost function RowFinds(g: seq<Option<Cookie>>, row: int): int -> set<Swap>
    requires |g| == NumCells && 0 <= row < NumRows
  {
    c => if 0 <= c < NumCols then CellSwaps(g, c, row) else {}
  }

  /** The swaps found in each row, by row. */
  ghost function BoardRows(g: seq<Option<Cookie>>): int -> set<Swap>
    requires |g| == NumCells
  {
    r => if 0 <= r < NumRows then RowSwaps(g, r, NumCols) else {}
  }

  /** One more term of a union. */
  lemma UnionBelowStep(f: int -> set<Swap>, n: nat, a: set<Swap>, b: set<Swap>)
    requires n > 0 && a == UnionBelow(f, n - 1) && b == f(n - 1)
    ensures a + b == UnionBelow(f, n)
  {
  }

  lemma {:induction false} RowSwapsUnion(g: seq<Option<Cookie>>, row: int, n: nat)
    requires |g| == NumCells && 0 <= row < NumRows && n <= NumCols
    ensures RowSwaps(g, row, n) == UnionBelow(RowFinds(g, row), n)
  {
    if n > 0 {
      RowSwapsUnion(g, row, n - 1);
      UnionBelowStep(RowFinds(g, row), n, RowSwaps(g, row, n - 1), CellSwaps(g, n - 1, row));
    }
  }

  lemma {:induction false} SwapsBelowUnion(g: seq<Option<Cookie>>, n: nat)
    requires |g| == NumCells && n <= NumRows
    ensures SwapsBelow(g, n) == UnionBelow(BoardRows(g), n)
  {
    if n > 0 {
      SwapsBelowUnion(g, n - 1);
      UnionBelowStep(BoardRows(g), n, SwapsBelow(g, n - 1), RowSwaps(g, n - 1, NumCols));
    }
  }

  lemma RowSwapsMember(g: seq<Option<Cookie>>, row: int, n: nat, s: Swap)
    requires |g| == NumCells && 0 <= row < NumRows && n <= NumCols
    ensures s in RowSwaps(g, row, n) ==> exists c :: 0 <= c < n && s in CellSwaps(g, c, row)
    ensures forall c :: 0 <= c < n && s in CellSwaps(g, c, row) ==> s in RowSwaps(g, row, n)
  {
    RowSwapsUnion(g, row, n);
    UnionBelowMember(RowFinds(g, row), n, s);
    if s in RowSwaps(g, row, n) {
      var c :| 0 <= c < n && s in RowFinds(g, row)(c);
      assert s in CellSwaps(g, c, row);
    }
    forall c | 0 <= c < n && s in CellSwaps(g, c, row)
      ensures s in RowSwaps(g, row, n)
    {
      assert s in RowFinds(g, row)(c);
    }
  }

  lemma SwapsBelowMember(g: seq<Option<Cookie>>, n: nat, s: Swap)
    requires |g| == NumCells && n <= NumRows
    ensures s in SwapsBelow(g, n) ==> exists c, r :: 0 <= r < n && 0 <= c < NumCols && s in CellSwaps(g, c, r)
    ensures forall c, r :: 0 <= r < n && 0 <= c < NumCols && s in CellSwaps(g, c, r) ==> s in SwapsBelow(g, n)
  {
    SwapsBelowUnion(g, n);
    UnionBelowMember(BoardRows(g), n, s);
    if s in SwapsBelow(g, n) {
      var r :| 0 <= r < n && s in BoardRows(g)(r);
      RowSwapsMember(g, r, NumCols, s);
    }
    forall c, r | 0 <= r < n && 0 <= c < NumCols && s in CellSwaps(g, c, r)
      ensures s in SwapsBelow(g, n)
    {
      RowSwapsMember(g, r, NumCols, s);
      assert s in BoardRows(g)(r);
    }
  }

  /** Every swap found is one of an accepted pair of neighbours, named lower or left square first. */
  lemma PossibleSwapSound(g: seq<Option<Cookie>>, s: Swap)
    requires |g| == NumCells && s in PossibleSwaps(g)
    ensures exists c, r ::
      InBoard(c, r) && g[Idx(c, r)] == Some(s.cookieA) &&
      ((RightLegal(g, c, r) && g[Idx(c + 1, r)] == Some(s.cookieB)) ||
       (UpLegal(g, c, r) && g[Idx(c, r + 1)] == Some(s.cookieB)))
  {
    SwapsBelowMember(g, NumRows, s);
  }

  /** Every swap found names the cookies on two squares, the lower-numbered one first. */
  lemma PossibleSwapSquares(g: seq<Option<Cookie>>, s: Swap) returns (p: int, q: int)
    requires |g| == NumCells && s in PossibleSwaps(g)
    ensures 0 <= p < q < NumCells && g[p] == Some(s.cookieA) && g[q] == Some(s.cookieB)
  {
    SwapsBelowMember(g, NumRows, s);
    var c, r :| 0 <= r < NumRows && 0 <= c < NumCols && s in CellSwaps(g, c, r);
    p := Idx(c, r);
    if RightLegal(g, c, r) && s == Swap(g[Idx(c, r)].value, g[Idx(c + 1, r)].value) {
      q := Idx(c + 1, r);
    } else {
      q := Idx(c, r + 1);
    }
  }

  /** A swap found at a square names the cookie there first and an accepted neighbour second. */
  lemma CellSwapFacts(g: seq<Option<Cookie>>, c: int, r: int, s: Swap)
    requires |g| == NumCells && InBoard(c, r) && s in CellSwaps(g, c, r)
    ensures g[Idx(c, r)] == Some(s.cookieA)
    ensures (RightLegal(g, c, r) && g[Idx(c + 1, r)] == Some(s.cookieB)) ||
            (UpLegal(g, c, r) && g[Idx(c, r + 1)] == Some(s.cookieB))
  {
  }

  /** On a board without a repeated cookie, two squares holding the same cookie are one square. */
  lemma SameCell(g: seq<Option<Cookie>>, c: int, r: int, c': int, r': int)
    requires |g| == NumCells && Injective(g) && InBoard(c, r) && InBoard(c', r')
    requires g[Idx(c, r)].Some? && g[Idx(c, r)] == g[Idx(c', r')]
    ensures c == c' && r == r'
  {
    IdxFacts(c, r);
    IdxFacts(c', r');
  }

  /** A neighbour pair across columns is found exactly when swapping it makes a chain. */
  lemma PossibleSwapRight(g: seq<Option<Cookie>>, col: int, row: int)
    requires |g| == NumCells && Injective(g) && InBoard(col, row) && col + 1 < NumCols
    requires g[Idx(col, row)].Some? && g[Idx(col + 1, row)].Some?
    ensures Swap(g[Idx(col, row)].value, g[Idx(col + 1, row)].value) in PossibleSwaps(g) <==> RightLegal(g, col, row)
  {
    var s := Swap(g[Idx(col, row)].value, g[Idx(col + 1, row)].value);
    SwapsBelowMember(g, NumRows, s);
    if s in PossibleSwaps(g) {
      var c, r :| 0 <= r < NumRows && 0 <= c < NumCols && s in CellSwaps(g, c, r);
      CellSwapFacts(g, c, r, s);
      SameCell(g, c, r, col, row);
      if !RightLegal(g, c, r) {
        SameCell(g, c, r + 1, col + 1, row);
        assert false;
      }
    }
    if RightLegal(g, col, row) {
      assert s in CellSwaps(g, col, row);
    }
  }

  /** A neighbour pair across rows is found exactly when swapping it makes a chain. */
  lemma PossibleSwapUp(g: seq<Option<Cookie>>, col: int, row: int)
    requires |g| == NumCells && Injective(g) && InBoard(col, row) && row + 1 < NumRows
    requires g[Idx(col, row)].Some? && g[Idx(col, row + 1)].Some?
    ensures Swap(g[Idx(col, row)].value, g[Idx(col, row + 1)].value) in PossibleSwaps(g) <==> UpLegal(g, col, row)
  {
    var s := Swap(g[Idx(col, row)].value, g[Idx(col, row + 1)].value);
    SwapsBelowMember(g, NumRows, s);
    if s in PossibleSwaps(g) {
      var c, r :| 0 <= r < NumRows && 0 <= c < NumCols && s in CellSwaps(g, c, r);
      CellSwapFacts(g, c, r, s);
      SameCell(g, c, r, col, row);
      if !UpLegal(g, c, r) {
        SameCell(g, c + 1, r, col, row + 1);
        assert false;
      }
    }
    if UpLegal(g, col, row) {
      assert s in CellSwaps(g, col, row);
    }
  }

  // ---------------------------------------------------------------------------
  // Gravity: one column at a time, bottom to top

  /** Column `col` of the board, bottom to top. */
  function Column(g: seq<Option<Cookie>>, col: int): (s: seq<Option<Cookie>>)
    requires |g| == NumCells && 0 <= col < NumCols
    ensures |s| == NumRows && forall r :: 0 <= r < NumRows ==> s[r] == g[Idx(col, r)]
  {
    seq(NumRows, r requires 0 <= r < NumRows => g[Idx(col, r)])
  }

  /** Which squares of column `col` have a tile, bottom to top. */
  function TileColumn(t: seq<Option<Tile>>, col: int): (s: seq<bool>)
    requires |t| == NumCells && 0 <= col < NumCols
    ensures |s| == NumRows && forall r :: 0 <= r < NumRows ==> s[r] == t[Idx(col, r)].Some?
  {
    seq(NumRows, r requires 0 <= r < NumRows => t[Idx(col, r)].Some?)
  }

  /** The cookies of a column in order, empty squares dropped. */
  function Present(s: seq<Option<Cookie>>): (cs: seq<Cookie>)
    ensures |cs| <= |s|
  {
    if s == [] then [] else (if s[0].Some? then [s[0].value] else []) + Present(s[1..])
  }

  /** No tile square is empty below a cookie. */
  predicate Compacted(s: seq<Option<Cookie>>, t: seq<bool>) {
    |s| == |t| && forall r1, r2 :: 0 <= r1 < r2 < |s| && t[r1] && s[r1].None? ==> s[r2].None?
  }

  /** Every cookie of the column stands on a tile. */
  predicate ColumnOnTiles(s: seq<Option<Cookie>>, t: seq<bool>) {
    |s| == |t| && forall r :: 0 <= r < |s| && s[r].Some? ==> t[r]
  }

  /** The cookies of column `after` that were not on the same square in `before`, bottom to top. */
  function Changed(before: seq<Option<Cookie>>, after: seq<Option<Cookie>>): seq<Cookie>
    requires |before| == |after|
  {
    if after == [] then []
    else (if after[0].Some? && after[0] != before[0] then [after[0].value] else []) + Changed(before[1..], after[1..])
  }

  lemma {:induction false} PresentAppend(a: seq<Option<Cookie>>, b: seq<Option<Cookie>>)
    ensures Present(a + b) == Present(a) + Present(b)
    decreases |a|
  {
    if a == [] {
      assert a + b == b;
    } else {
      var ab := a + b;
      assert ab != [] && ab[0] == a[0] && ab[1..] == a[1..] + b;
      var head: seq<Cookie> := if a[0].Some? then [a[0].value] else [];
      assert Present(ab) == head + Present(a[1..] + b);
      assert Present(a) == head + Present(a[1..]);
      PresentAppend(a[1..], b);
    }
  }

  lemma {:induction false} ChangedAppend(a: seq<Option<Cookie>>, b: seq<Option<Cookie>>, c: seq<Option<Cookie>>, d: seq<Option<Cookie>>)
    requires |a| == |c| && |b| == |d|
    ensures Changed(a + b, c + d) == Changed(a, c) + Changed(b, d)
  {
    if c == [] {
      assert a + b == b && c + d == d;
    } else {
      assert (a + b)[1..] == a[1..] + b;
      assert (c + d)[1..] == c[1..] + d;
      ChangedAppend(a[1..], b, c[1..], d);
    }
  }

  /** A column without cookies has none present, and conversely. */
  lemma {:induction false} PresentEmptyIff(s: seq<Option<Cookie>>)
    ensures Present(s) == [] <==> forall r :: 0 <= r < |s| ==> s[r].None?
  {
    if s != [] {
      PresentEmptyIff(s[1..]);
      assert forall r :: 1 <= r < |s| ==> s[r] == s[1..][r - 1];
    }
  }

  /**
   * Moving the lowest cookie above an empty square down onto it, over empty
   * squares only, keeps the column's cookies and their order.
   */
  lemma DropKeepsPresent(s: seq<Option<Cookie>>, row: int, lookup: int)
    requires 0 <= row < lookup < |s| && s[row].None? && s[lookup].Some?
    requires forall r :: row < r < lookup ==> s[r].None?
    ensures Present(s[row := s[lookup]][lookup := None]) == Present(s)
  {
    var s' := s[row := s[lookup]][lookup := None];
    var below, above := s[..row], s[lookup + 1..];
    assert s == below + (s[row..lookup] + [s[lookup]]) + above;
    assert s' == below + ([s[lookup]] + s'[row + 1..lookup + 1]) + above;
    PresentAround(below, s[row..lookup] + [s[lookup]], above);
    PresentAround(below, [s[lookup]] + s'[row + 1..lookup + 1], above);
    PresentAppend(s[row..lookup], [s[lookup]]);
    PresentEmptyIff(s[row..lookup]);
    PresentAppend([s[lookup]], s'[row + 1..lookup + 1]);
    PresentEmptyIff(s'[row + 1..lookup + 1]);
  }

  /** The cookies of a column cut into three parts. */
  lemma PresentAround(a: seq<Option<Cookie>>, b: seq<Option<Cookie>>, c: seq<Option<Cookie>>)
    ensures Present(a + b + c) == Present(a) + Present(b) + Present(c)
  {
    PresentAppend(a + b, c);
    PresentAppend(a, b);
  }

  /**
   * The end state of gravity is determined: two columns over the same tiles,
   * holding the same cookies in the same order, both compacted and on tiles,
   * are equal.
   */
  lemma {:induction false} SettledUnique(a: seq<Option<Cookie>>, b: seq<Option<Cookie>>, t: seq<bool>)
    requires |a| == |b| == |t|
    requires Present(a) == Present(b)
    requires Compacted(a, t) && Compacted(b, t) && ColumnOnTiles(a, t) && ColumnOnTiles(b, t)
    ensures a == b
  {
    if a != [] {
      PresentEmptyIff(a);
      PresentEmptyIff(b);
      if t[0] && (a[0].None? || b[0].None?) {
        assert forall r :: 0 <= r < |a| ==> a[r].None? && b[r].None?;
        assert a == b;
      } else {
        assert a[0].Some? <==> b[0].Some?;
        assert a[0] == b[0] by {
          if a[0].Some? {
            assert Present(a)[0] == a[0].value && Present(b)[0] == b[0].value;
          }
        }
        var x: seq<Cookie> := if a[0].Some? then [a[0].value] else [];
        assert Present(a) == x + Present(a[1..]) && Present(b) == x + Present(b[1..]);
        assert Present(a[1..]) == Present(a)[|x|..] == Present(b)[|x|..] == Present(b[1..]);
        SettledUnique(a[1..], b[1..], t[1..]);
        assert a == [a[0]] + a[1..] && b == [b[0]] + b[1..];
      }
    }
  }

  /** The `for lookup in (row + 1)..<NumRows` search: the first square from k up that holds a cookie, or |s| if none. */
  function NextCookie(s: seq<Option<Cookie>>, k: int): (n: int)
    requires 0 <= k <= |s|
    ensures k <= n <= |s|
    ensures n < |s| ==> s[n].Some?
    ensures forall q :: k <= q < n ==> s[q].None?
    decreases |s| - k
  {
    if k == |s| || s[k].Some? then k else NextCookie(s, k + 1)
  }

  /** The search stops at the first cookie. */
  lemma {:induction false} NextCookieIs(s: seq<Option<Cookie>>, k: int, n: int)
    requires 0 <= k <= n <= |s| && (n == |s| || s[n].Some?)
    requires forall q :: k <= q < n ==> s[q].None?
    ensures NextCookie(s, k) == n
    decreases n - k
  {
    if k < n {
      NextCookieIs(s, k + 1, n);
    }
  }

  /** Moving a cookie from square q of a column down to empty square p of it changes that column only, and only there. */
  lemma ColumnMove(g: seq<Option<Cookie>>, col: int, p: int, q: int)
    requires |g| == NumCells && 0 <= col < NumCols && 0 <= p < NumRows && 0 <= q < NumRows && p != q
    ensures forall c :: 0 <= c < NumCols ==>
      Column(g[Idx(col, p) := g[Idx(col, q)]][Idx(col, q) := None], c) ==
        if c == col then Column(g, col)[p := g[Idx(col, q)]][q := None] else Column(g, c)
  {
    var h := g[Idx(col, p) := g[Idx(col, q)]][Idx(col, q) := None];
    forall c | 0 <= c < NumCols
      ensures Column(h, c) == if c == col then Column(g, col)[p := g[Idx(col, q)]][q := None] else Column(g, c)
    {
      forall r | 0 <= r < NumRows
        ensures Column(h, c)[r] == (if c == col then Column(g, col)[p := g[Idx(col, q)]][q := None] else Column(g, c))[r]
      {
        IdxFacts(c, r);
        IdxFacts(col, p);
        IdxFacts(col, q);
      }
    }
  }

  /** Writing one square changes its column only, and only there. */
  lemma ColumnSet(g: seq<Option<Cookie>>, col: int, row: int, v: Option<Cookie>)
    requires |g| == NumCells && 0 <= col < NumCols && 0 <= row < NumRows
    ensures forall c :: 0 <= c < NumCols ==>
      Column(g[Idx(col, row) := v], c) == if c == col then Column(g, col)[row := v] else Column(g, c)
  {
    var h := g[Idx(col, row) := v];
    forall c | 0 <= c < NumCols
      ensures Column(h, c) == if c == col then Column(g, col)[row := v] else Column(g, c)
    {
      forall r | 0 <= r < NumRows
        ensures Column(h, c)[r] == (if c == col then Column(g, col)[row := v] else Column(g, c))[r]
      {
        IdxFacts(c, r);
        IdxFacts(col, row);
      }
    }
  }

  /** Moving a cookie to an empty square keeps the set of cookies on the board. */
  lemma CookiesOfMove(g: seq<Option<Cookie>>, p: int, q: int)
    requires 0 <= p < |g| && 0 <= q < |g| && p != q && g[p].None?
    ensures CookiesOf(g[p := g[q]][q := None]) == CookiesOf(g)
  {
    var h := g[p := g[q]][q := None];
    forall x | x in CookiesOf(g)
      ensures x in CookiesOf(h)
    {
      var i :| 0 <= i < |g| && g[i].Some? && g[i].value == x;
      if i == q {
        assert h[p] == g[q];
      } else {
        assert h[i] == g[i];
      }
    }
    forall x | x in CookiesOf(h)
      ensures x in CookiesOf(g)
    {
      var i :| 0 <= i < |h| && h[i].Some? && h[i].value == x;
      if i == p {
        assert h[p] == g[q];
      } else {
        assert h[i] == g[i];
      }
    }
  }

  /** Distinct squares of a board of distinct cookies hold distinct cookies in each column too. */
  lemma ColumnInjective(g: seq<Option<Cookie>>, col: int)
    requires |g| == NumCells && 0 <= col < NumCols && Injective(g)
    ensures Injective(Column(g, col))
  {
    forall i, j | 0 <= i < NumRows && 0 <= j < NumRows && i != j
      ensures Idx(col, i) != Idx(col, j)
    {
      IdxFacts(col, i);
    }
  }

  /** What `fillHoles` returns for boards g before and h after: per column, left to right, the cookies that fell, leaving out columns where none did. */
  function Fallen(g: seq<Option<Cookie>>, h: seq<Option<Cookie>>, n: int): seq<seq<Cookie>>
    requires |g| == NumCells && |h| == NumCells && 0 <= n <= NumCols
  {
    if n == 0 then []
    else
      var moved := Changed(Column(g, n - 1), Column(h, n - 1));
      Fallen(g, h, n - 1) + (if moved == [] then [] else [moved])
  }

  /** `Fallen` over the first n columns looks at those columns only. */
  lemma {:induction false} FallenFrame(g: seq<Option<Cookie>>, h1: seq<Option<Cookie>>, h2: seq<Option<Cookie>>, n: int)
    requires |g| == NumCells && |h1| == NumCells && |h2| == NumCells && 0 <= n <= NumCols
    requires forall c :: 0 <= c < n ==> Column(h1, c) == Column(h2, c)
    ensures Fallen(g, h1, n) == Fallen(g, h2, n)
  {
    if n > 0 {
      FallenFrame(g, h1, h2, n - 1);
    }
  }

  /** The body of `fillHoles` for square r of a column: an empty tile square takes the next cookie above it. */
  function DropAt(s: seq<Option<Cookie>>, t: seq<bool>, r: int): (s': seq<Option<Cookie>>)
    requires |s| == |t| && 0 <= r < |s|
    ensures |s'| == |s|
  {
    var k := NextCookie(s, r + 1);
    if t[r] && s[r].None? && k < |s| then s[r := s[k]][k := None] else s
  }

  /** `fillHoles` on one column from square r up. */
  function Settle(s: seq<Option<Cookie>>, t: seq<bool>, r: int): (s': seq<Option<Cookie>>)
    requires |s| == |t| && 0 <= r <= |s|
    ensures |s'| == |s|
    decreases |s| - r
  {
    if r == |s| then s else Settle(DropAt(s, t, r), t, r + 1)
  }

  /** Gravity keeps the column's cookies and their order. */
  lemma {:induction false} SettlePresent(s: seq<Option<Cookie>>, t: seq<bool>, r: int)
    requires |s| == |t| && 0 <= r <= |s|
    ensures Present(Settle(s, t, r)) == Present(s)
    decreases |s| - r
  {
    if r < |s| {
      var k := NextCookie(s, r + 1);
      if t[r] && s[r].None? && k < |s| {
        DropKeepsPresent(s, r, k);
      }
      SettlePresent(DropAt(s, t, r), t, r + 1);
    }
  }

  /** No tile square below r is empty under a cookie. */
  predicate CompactedBelow(s: seq<Option<Cookie>>, t: seq<bool>, r: int) {
    |s| == |t| && forall r1, r2 :: 0 <= r1 < r && r1 < r2 < |s| && t[r1] && s[r1].None? ==> s[r2].None?
  }

  /** One step of gravity extends the compacted stretch by one square and keeps cookies on tiles. */
  lemma DropAtCompacts(s: seq<Option<Cookie>>, t: seq<bool>, r: int)
    requires CompactedBelow(s, t, r) && ColumnOnTiles(s, t) && 0 <= r < |s|
    ensures CompactedBelow(DropAt(s, t, r), t, r + 1) && ColumnOnTiles(DropAt(s, t, r), t)
  {
    var k := NextCookie(s, r + 1);
    var s' := DropAt(s, t, r);
    if t[r] && s[r].None? && k < |s| {
      assert s'[r].Some?;
    }
  }

  /** Gravity leaves a column compacted and on its tiles. */
  lemma {:induction false} SettleCompacted(s: seq<Option<Cookie>>, t: seq<bool>, r: int)
    requires CompactedBelow(s, t, r) && ColumnOnTiles(s, t) && 0 <= r <= |s|
    ensures Compacted(Settle(s, t, r), t) && ColumnOnTiles(Settle(s, t, r), t)
    decreases |s| - r
  {
    if r < |s| {
      DropAtCompacts(s, t, r);
      SettleCompacted(DropAt(s, t, r), t, r + 1);
    }
  }

  /**
   * `fillHoles` on a column of cookies standing on tiles is gravity: the one
   * column that holds the same cookies in the same order, compacted onto the
   * same tiles.
   */
  lemma SettleIsGravity(s: seq<Option<Cookie>>, t: seq<bool>, a: seq<Option<Cookie>>)
    requires |s| == |t| && ColumnOnTiles(s, t)
    ensures Present(Settle(s, t, 0)) == Present(s)
    ensures Compacted(Settle(s, t, 0), t) && ColumnOnTiles(Settle(s, t, 0), t)
    ensures |a| == |t| && Present(a) == Present(s) && Compacted(a, t) && ColumnOnTiles(a, t) ==> a == Settle(s, t, 0)
  {
    SettlePresent(s, t, 0);
    SettleCompacted(s, t, 0);
    if |a| == |t| && Present(a) == Present(s) && Compacted(a, t) && ColumnOnTiles(a, t) {
      SettledUnique(a, Settle(s, t, 0), t);
    }
  }

  // ---------------------------------------------------------------------------
  // Topping up

  /**
   * The kinds `topUpCookies` keeps from a run of draws: a draw of the kind it
   * kept last (`prev` before any) is thrown away and drawn again.
   */
  function Accept(ds: seq<Die>, prev: CookieType): seq<CookieType> {
    if ds == [] then []
    else
      var kept := Accept(ds[..|ds| - 1], prev);
      var last := if kept == [] then prev else kept[|kept| - 1];
      var t := Random(ds[|ds| - 1]);
      if t == last then kept else kept + [t]
  }

  /** Consecutive new cookies differ in kind, and the first differs from `prev`. */
  lemma {:induction false} AcceptNoRepeat(ds: seq<Die>, prev: CookieType)
    ensures |Accept(ds, prev)| > 0 ==> Accept(ds, prev)[0] != prev
    ensures forall i :: 0 <= i < |Accept(ds, prev)| - 1 ==> Accept(ds, prev)[i] != Accept(ds, prev)[i + 1]
    ensures forall i :: 0 <= i < |Accept(ds, prev)| ==> Accept(ds, prev)[i] != Unknown
  {
    if ds != [] {
      AcceptNoRepeat(ds[..|ds| - 1], prev);
    }
  }

  /** The kind kept last, or `prev` when none was. */
  function LastOr(ks: seq<CookieType>, prev: CookieType): CookieType {
    if ks == [] then prev else ks[|ks| - 1]
  }

  /** The kind kept last after two lists of kinds is the one kept last in the second, if it kept any. */
  lemma LastOrConcat(x: seq<CookieType>, y: seq<CookieType>, prev: CookieType)
    ensures LastOr(x + y, prev) == LastOr(y, LastOr(x, prev))
  {
    if y == [] {
      assert x + y == x;
    }
  }

  /** One more draw: it is kept unless it repeats the kind kept last. */
  lemma AcceptSnoc(ds: seq<Die>, d: Die, prev: CookieType)
    ensures Accept(ds + [d], prev) ==
      if Random(d) == LastOr(Accept(ds, prev), prev) then Accept(ds, prev) else Accept(ds, prev) + [Random(d)]
  {
    assert (ds + [d])[..|ds|] == ds;
  }

  /** Drawing in two runs keeps what drawing in one run keeps: the second run starts from the kind the first kept last. */
  lemma {:induction false} AcceptConcat(a: seq<Die>, b: seq<Die>, prev: CookieType)
    ensures Accept(a + b, prev) == Accept(a, prev) + Accept(b, LastOr(Accept(a, prev), prev))
    decreases |b|
  {
    var mid := LastOr(Accept(a, prev), prev);
    if b == [] {
      assert a + b == a;
    } else {
      var n := |b| - 1;
      assert a + b == (a + b[..n]) + [b[n]] && b == b[..n] + [b[n]];
      AcceptConcat(a, b[..n], prev);
      AcceptSnoc(a + b[..n], b[n], prev);
      AcceptSnoc(b[..n], b[n], mid);
      LastOrConcat(Accept(a, prev), Accept(b[..n], mid), prev);
    }
  }

  /** The kinds of a list of cookies. */
  function Kinds(cs: seq<Cookie>): (ks: seq<CookieType>)
    ensures |ks| == |cs| && forall i :: 0 <= i < |cs| ==> ks[i] == cs[i].cookieType
  {
    if cs == [] then [] else Kinds(cs[..|cs| - 1]) + [cs[|cs| - 1].cookieType]
  }

  lemma KindsConcat(a: seq<Cookie>, b: seq<Cookie>)
    ensures Kinds(a + b) == Kinds(a) + Kinds(b)
  {
    var k, ab := Kinds(a) + Kinds(b), a + b;
    forall i | 0 <= i < |ab|
      ensures Kinds(ab)[i] == k[i]
    {
      if i < |a| {
        assert ab[i] == a[i];
      } else {
        assert ab[i] == b[i - |a|];
      }
    }
  }

  lemma KindsSnoc(cs: seq<Cookie>, x: Cookie)
    ensures Kinds(cs + [x]) == Kinds(cs) + [x.cookieType]
  {
  }

  /** The lists of a list of lists, one after another. */
  function Flatten(css: seq<seq<Cookie>>): (cs: seq<Cookie>) {
    if css == [] then [] else Flatten(css[..|css| - 1]) + css[|css| - 1]
  }

  lemma FlattenSnoc(css: seq<seq<Cookie>>, cs: seq<Cookie>)
    ensures Flatten(css + [cs]) == Flatten(css) + cs
  {
    assert (css + [cs])[..|css|] == css;
  }

  /** A list read back to front. */
  function Reversed(cs: seq<Cookie>): (rs: seq<Cookie>)
    ensures |rs| == |cs| && forall i :: 0 <= i < |cs| ==> rs[i] == cs[|cs| - 1 - i]
  {
    if cs == [] then [] else [cs[|cs| - 1]] + Reversed(cs[..|cs| - 1])
  }

  lemma ReversedCons(x: Cookie, cs: seq<Cookie>)
    ensures Reversed([x] + cs) == Reversed(cs) + [x]
  {
  }

  /** Nothing changed, nothing listed. */
  lemma {:induction false} ChangedSame(a: seq<Option<Cookie>>)
    ensures Changed(a, a) == []
  {
    if a != [] {
      ChangedSame(a[1..]);
    }
  }

  /** What `topUpCookies` returns for boards g before and h after: per column, left to right, the new cookies from the top down, leaving out columns that got none. */
  function Added(g: seq<Option<Cookie>>, h: seq<Option<Cookie>>, n: int): seq<seq<Cookie>>
    requires |g| == NumCells && |h| == NumCells && 0 <= n <= NumCols
  {
    if n == 0 then []
    else
      var added := Reversed(Changed(Column(g, n - 1), Column(h, n - 1)));
      Added(g, h, n - 1) + (if added == [] then [] else [added])
  }

  /** `Added` over the first n columns looks at those columns only. */
  lemma {:induction false} AddedFrame(g: seq<Option<Cookie>>, h1: seq<Option<Cookie>>, h2: seq<Option<Cookie>>, n: int)
    requires |g| == NumCells && |h1| == NumCells && |h2| == NumCells && 0 <= n <= NumCols
    requires forall c :: 0 <= c < n ==> Column(h1, c) == Column(h2, c)
    ensures Added(g, h1, n) == Added(g, h2, n)
  {
    if n > 0 {
      AddedFrame(g, h1, h2, n - 1);
    }
  }

  /** The lowest row from which the column is empty to the top. */
  function Top(s: seq<Option<Cookie>>): (b: nat)
    ensures b <= |s|
    ensures forall r :: b <= r < |s| ==> s[r].None?
    ensures b > 0 ==> s[b - 1].Some?
  {
    if s == [] || s[|s| - 1].Some? then |s| else Top(s[..|s| - 1])
  }

  /** The first square from the top that holds a cookie lies just below `Top`. */
  lemma {:induction false} TopExact(s: seq<Option<Cookie>>, r: nat)
    requires r <= |s| && forall k :: r <= k < |s| ==> s[k].None?
    ensures Top(s) <= r
  {
    if s != [] && s[|s| - 1].None? && r < |s| {
      TopExact(s[..|s| - 1], r);
    }
  }

  /**
   * The squares `topUpCookies` fills in a column: the tile squares of the
   * empty stretch at the top, from the top down.
   */
  function Holes(s: seq<Option<Cookie>>, t: seq<bool>, r: int): (rows: seq<int>)
    requires |s| == |t| && r <= |s|
    ensures forall k :: 0 <= k < |rows| ==> Top(s) <= rows[k] < r && t[rows[k]]
    ensures forall k :: 0 <= k < |rows| - 1 ==> rows[k] > rows[k + 1]
    ensures forall q :: Top(s) <= q < r && t[q] ==> q in rows
    decreases r
  {
    if r <= Top(s) then [] else if t[r - 1] then [r - 1] + Holes(s, t, r - 1) else Holes(s, t, r - 1)
  }

  /** Column `after` is column `s` topped up: every tile square of the empty stretch at the top holds a cookie, the rest is as it was. */
  predicate ToppedUp(s: seq<Option<Cookie>>, after: seq<Option<Cookie>>, t: seq<bool>) {
    |s| == |after| == |t| &&
    forall r :: 0 <= r < |s| ==> if Top(s) <= r && t[r] then after[r].Some? else after[r] == s[r]
  }

  /** A compacted column, topped up, has a cookie on every tile square. */
  lemma ToppedUpFull(s: seq<Option<Cookie>>, after: seq<Option<Cookie>>, t: seq<bool>)
    requires Compacted(s, t) && ToppedUp(s, after, t)
    ensures forall r :: 0 <= r < |t| && t[r] ==> after[r].Some?
  {
    forall r | 0 <= r < |t| && t[r] && s[r].None?
      ensures Top(s) <= r
    {
      TopExact(s, r);
    }
  }

  /** Cookies standing on tiles stand on tiles column by column. */
  lemma ColumnsOnTiles(g: seq<Option<Cookie>>, m: seq<Option<Tile>>)
    requires |g| == NumCells && OnTiles(g, m)
    ensures forall c :: 0 <= c < NumCols ==> ColumnOnTiles(Column(g, c), TileColumn(m, c))
  {
  }

  /** Topping up changes a square of the column exactly when it is one of the `Holes`, the tile squares of the empty top stretch. */
  lemma ToppedUpHoles(s: seq<Option<Cookie>>, after: seq<Option<Cookie>>, t: seq<bool>)
    requires ToppedUp(s, after, t)
    ensures forall r :: 0 <= r < |s| ==> (after[r] != s[r] <==> r in Holes(s, t, |s|))
  {
    var holes := Holes(s, t, |s|);
    forall r | 0 <= r < |s| && r in holes
      ensures after[r] != s[r]
    {
      var k :| 0 <= k < |holes| && holes[k] == r;
    }
  }
}

/**
 * The game board of CookieCrunch/Level.swift: a 9 x 9 grid of tiles (the
 * level's shape) and of cookies, the swaps the player may make, chain
 * detection and removal, scoring, gravity and refilling.
 *
 * Random draws are an input: a method that needs `CookieType.random()` takes
 * the sequence of draws and the position of the next one, and reports
 * `ok == false` if the draws run out before it is done.
 */
module Levels {
  import opened Optional
  import opened Grid2D
  import opened Cookies
  import opened Swaps
  import opened Chains
  import opened Lines
  import opened Board

  /** The parts of a level file the game reads: the tile mask row by row from the top, the target score and the move limit. */
  datatype LevelFile = LevelFile(tiles: seq<seq<int>>, targetScore: int, moves: int)

  /** The board squares of the cells marked 1 in rows 0 .. n-1 of the mask, row i of the file being board row 8 - i. */
  function MaskCells(mask: seq<seq<int>>, n: nat): set<int>
    requires n <= |mask|
  {
    if n == 0 then {} else MaskCells(mask, n - 1) + RowCells(mask[n - 1], NumRows - n, |mask[n - 1]|)
  }

  /** The board squares of the cells marked 1 among the first m of one file row, placed on board row `row`. */
  function RowCells(line: seq<int>, row: int, m: nat): set<int>
    requires m <= |line|
  {
    if m == 0 then {} else RowCells(line, row, m - 1) + (if line[m - 1] == 1 then {Idx(m - 1, row)} else {})
  }

  lemma {:induction false} RowCellsMember(line: seq<int>, row: int, m: nat, i: int)
    requires m <= |line|
    ensures i in RowCells(line, row, m) <==> exists col :: 0 <= col < m && line[col] == 1 && Idx(col, row) == i
  {
    if m > 0 {
      RowCellsMember(line, row, m - 1, i);
    }
  }

  lemma {:induction false} MaskCellsMember(mask: seq<seq<int>>, n: nat, i: int)
    requires n <= |mask|
    ensures i in MaskCells(mask, n) ==>
      exists row, col :: 0 <= row < n && 0 <= col < |mask[row]| && mask[row][col] == 1 && Idx(col, NumRows - row - 1) == i
    ensures forall row, col :: 0 <= row < n && 0 <= col < |mask[row]| && mask[row][col] == 1 && Idx(col, NumRows - row - 1) == i ==>
      i in MaskCells(mask, n)
  {
    if n > 0 {
      MaskCellsMember(mask, n - 1, i);
      RowCellsMember(mask[n - 1], NumRows - n, |mask[n - 1]|, i);
    }
  }

  /**
   * The file lists rows from the top and the board counts them from the
   * bottom: for a mask at most 9 x 9, board square (col, row) has a tile
   * exactly when file row 8 - row marks column col with 1.
   */
  lemma MaskRowsReversed(mask: seq<seq<int>>, col: int, row: int)
    requires |mask| <= NumRows && forall k :: 0 <= k < |mask| ==> |mask[k]| <= NumCols
    requires InBoard(col, row)
    ensures Idx(col, row) in MaskCells(mask, |mask|) <==>
      NumRows - 1 - row < |mask| && col < |mask[NumRows - 1 - row]| && mask[NumRows - 1 - row][col] == 1
  {
    MaskCellsMember(mask, |mask|, Idx(col, row));
    if Idx(col, row) in MaskCells(mask, |mask|) {
      var r, c :| 0 <= r < |mask| && 0 <= c < |mask[r]| && mask[r][c] == 1 && Idx(c, NumRows - r - 1) == Idx(col, row);
      IdxFacts(col, row);
      assert InBoard(c, NumRows - r - 1);
    }
  }

  class Level {
    const cookies: Array2D<Cookie>
    const tiles: Array2D<Tile>
    var possibleSwaps: set<Swap>
    var targetScore: int
    var maximumMoves: int
    var comboMultiplier: int

    /** Both grids are 9 x 9. */
    ghost predicate Shaped() {
      cookies.rows == NumRows && cookies.cols == NumCols && cookies.buf.Length == NumCells &&
      tiles.rows == NumRows && tiles.cols == NumCols && tiles.buf.Length == NumCells
    }

    /** The cookie grid as a value. */
    ghost function Grid(): seq<Option<Cookie>>
      reads cookies.buf
    {
      cookies.buf[..]
    }

    /** The tile grid as a value. */
    ghost function Mask(): seq<Option<Tile>>
      reads tiles.buf
    {
      tiles.buf[..]
    }

    /** The board invariant: cookies stand on tiles and know their squares. */
    ghost predicate Valid()
      reads cookies.buf, tiles.buf, CookiesOf(cookies.buf[..])`col, CookiesOf(cookies.buf[..])`row
    {
      Shaped() && WellPlaced(Grid()) && OnTiles(Grid(), Mask())
    }

    /**
     * `init(filename:)` on the parsed file, or on None when the file or its
     * "tiles" entry is missing: then no tile is set and the score and move
     * limit stay 0. A marked cell must land inside the grid.
     */
    constructor (file: Option<LevelFile>)
      requires file.Some? ==> forall row, col ::
        (0 <= row < |file.value.tiles| && 0 <= col < |file.value.tiles[row]| && file.value.tiles[row][col] == 1)
        ==> 0 <= Idx(col, NumRows - row - 1) < NumCells
      ensures Valid() && fresh(cookies) && fresh(tiles) && fresh(cookies.buf) && fresh(tiles.buf)
      ensures forall i :: 0 <= i < NumCells ==> Grid()[i] == None
      ensures forall i :: 0 <= i < NumCells ==>
        (Mask()[i].Some? <==> file.Some? && i in MaskCells(file.value.tiles, |file.value.tiles|))
      ensures targetScore == (if file.Some? then file.value.targetScore else 0)
      ensures maximumMoves == (if file.Some? then file.value.moves else 0)
      ensures possibleSwaps == {} && comboMultiplier == 0
    {
      cookies := new Array2D<Cookie>(NumCols, NumRows);
      tiles := new Array2D<Tile>(NumCols, NumRows);
      possibleSwaps := {};
      targetScore := 0;
      maximumMoves := 0;
      comboMultiplier := 0;
      new;
      if file.Some? {
        LoadTiles(file.value.tiles);
        targetScore := file.value.targetScore;
        maximumMoves := file.value.moves;
      }
    }

    /** The loop of `init` over the rows of the "tiles" entry: file row `row` is board row NumRows - row - 1. */
    method LoadTiles(mask: seq<seq<int>>)
      requires tiles.rows == NumRows && tiles.cols == NumCols && tiles.buf.Length == NumCells
      requires forall row, col ::
        (0 <= row < |mask| && 0 <= col < |mask[row]| && mask[row][col] == 1)
        ==> 0 <= Idx(col, NumRows - row - 1) < NumCells
      requires forall i :: 0 <= i < NumCells ==> tiles.buf[i] == None
      modifies tiles.buf
      ensures forall i :: 0 <= i < NumCells ==> (tiles.buf[i].Some? <==> i in MaskCells(mask, |mask|))
    {
      var row := 0;
      while row < |mask|
        invariant 0 <= row <= |mask|
        invariant forall i :: 0 <= i < NumCells ==> (tiles.buf[i].Some? <==> i in MaskCells(mask, row))
      {
        LoadTileRow(mask, row);
        row := row + 1;
      }
    }

    /** One row of `init`'s loop: a tile on every cell marked 1. */
    method LoadTileRow(mask: seq<seq<int>>, row: int)
      requires tiles.rows == NumRows && tiles.cols == NumCols && tiles.buf.Length == NumCells
      requires 0 <= row < |mask|
      requires forall col :: 0 <= col < |mask[row]| && mask[row][col] == 1 ==> 0 <= Idx(col, NumRows - row - 1) < NumCells
      modifies tiles.buf
      ensures forall i :: 0 <= i < NumCells ==>
        (tiles.buf[i].Some? <==> old(tiles.buf[i].Some?) || i in RowCells(mask[row], NumRows - row - 1, |mask[row]|))
    {
      var tileRow := NumRows - row - 1;
      var column := 0;
      while column < |mask[row]|
        invariant 0 <= column <= |mask[row]|
        invariant forall i :: 0 <= i < NumCells ==>
          (tiles.buf[i].Some? <==> old(tiles.buf[i].Some?) || i in RowCells(mask[row], tileRow, column))
      {
        if mask[row][column] == 1 {
          tiles.Set(column, tileRow, Some(Tile));
        }
        column := column + 1;
      }
    }

    /** `cookieAtColumn`: the cookie on an in-board square, if any. */
    function CookieAtColumn(col: int, row: int): (c: Option<Cookie>)
      reads cookies.buf
      requires Shaped() && InBoard(col, row)
      ensures c == Grid()[Idx(col, row)] && Kind(c) == TypeAt(Grid(), col, row)
    {
      IdxFacts(col, row);
      cookies.Get(col, row)
    }

    /** `tileAtColumn`: the tile on an in-board square, if any. */
    function TileAtColumn(col: int, row: int): (t: Option<Tile>)
      reads tiles.buf
      requires Shaped() && InBoard(col, row)
      ensures t == Mask()[Idx(col, row)]
    {
      IdxFacts(col, row);
      tiles.Get(col, row)
    }
  
    /** The cookies the swaps in `possibleSwaps` name. */
    ghost function SwapCookies(): set<Cookie>
      reads this
    {
      (set s | s in possibleSwaps :: s.cookieA) + (set s | s in possibleSwaps :: s.cookieB)
    }

    /** `isPossibleSwap`: membership under the swap `==`, which ignores the order of the two cookies. */
    function IsPossibleSwap(swap: Swap): bool
      reads this, SwapCookies(), swap.cookieA, swap.cookieB
    {
      exists s :: s in possibleSwaps && SwapEq(s, swap)
    }

    /**
     * Once `detectPossibleSwaps` has run, the player may swap two cookies side
     * by side, named in either order, exactly when the exchange makes a chain.
     */
    lemma IsPossibleSwapRight(col: int, row: int)
      requires Valid() && possibleSwaps == PossibleSwaps(Grid())
      requires InBoard(col, row) && col + 1 < NumCols
      requires Grid()[Idx(col, row)].Some? && Grid()[Idx(col + 1, row)].Some?
      ensures IsPossibleSwap(Swap(Grid()[Idx(col, row)].value, Grid()[Idx(col + 1, row)].value)) <==> RightLegal(Grid(), col, row)
      ensures IsPossibleSwap(Swap(Grid()[Idx(col + 1, row)].value, Grid()[Idx(col, row)].value)) <==> RightLegal(Grid(), col, row)
    {
      var g := Grid();
      var a, b := g[Idx(col, row)].value, g[Idx(col + 1, row)].value;
      WellPlacedInjective(g);
      PossibleSwapRight(g, col, row);
      if IsPossibleSwap(Swap(a, b)) || IsPossibleSwap(Swap(b, a)) {
        var s :| s in possibleSwaps && (SwapEq(s, Swap(a, b)) || SwapEq(s, Swap(b, a)));
        SwapsInSquares(s, a, b, Idx(col, row), Idx(col + 1, row));
      }
    }

    /** The same for two cookies one above the other. */
    lemma IsPossibleSwapUp(col: int, row: int)
      requires Valid() && possibleSwaps == PossibleSwaps(Grid())
      requires InBoard(col, row) && row + 1 < NumRows
      requires Grid()[Idx(col, row)].Some? && Grid()[Idx(col, row + 1)].Some?
      ensures IsPossibleSwap(Swap(Grid()[Idx(col, row)].value, Grid()[Idx(col, row + 1)].value)) <==> UpLegal(Grid(), col, row)
      ensures IsPossibleSwap(Swap(Grid()[Idx(col, row + 1)].value, Grid()[Idx(col, row)].value)) <==> UpLegal(Grid(), col, row)
    {
      var g := Grid();
      var a, b := g[Idx(col, row)].value, g[Idx(col, row + 1)].value;
      WellPlacedInjective(g);
      PossibleSwapUp(g, col, row);
      if IsPossibleSwap(Swap(a, b)) || IsPossibleSwap(Swap(b, a)) {
        var s :| s in possibleSwaps && (SwapEq(s, Swap(a, b)) || SwapEq(s, Swap(b, a)));
        SwapsInSquares(s, a, b, Idx(col, row), Idx(col, row + 1));
      }
    }

    /** A found swap `==` to a swap of the cookies on squares i < j is that very swap, lower square first. */
    lemma SwapsInSquares(s: Swap, a: Cookie, b: Cookie, i: int, j: int)
      requires Valid() && possibleSwaps == PossibleSwaps(Grid()) && s in possibleSwaps
      requires 0 <= i < j < NumCells && Grid()[i] == Some(a) && Grid()[j] == Some(b)
      requires SwapEq(s, Swap(a, b)) || SwapEq(s, Swap(b, a))
      ensures s == Swap(a, b)
    {
      var g := Grid();
      var p, q := PossibleSwapSquares(g, s);
      SameSquare(g, p, i);
      SameSquare(g, q, j);
      if !(Same(s.cookieA, a) && Same(s.cookieB, b)) {
        SameSquare(g, p, j);
        SameSquare(g, q, i);
        assert false;
      }
    }

    /**
     * `performSwap`: each cookie is written to the other's square and takes
     * over its coordinates. On a valid board with both cookies on their own
     * squares this exchanges the two squares and keeps the board valid.
     */
    method PerformSwap(swap: Swap)
      requires Shaped()
      requires 0 <= Idx(swap.cookieA.col, swap.cookieA.row) < NumCells
      requires 0 <= Idx(swap.cookieB.col, swap.cookieB.row) < NumCells
      modifies cookies.buf, swap.cookieA, swap.cookieB
      ensures Grid() == old(Grid())[old(Idx(swap.cookieA.col, swap.cookieA.row)) := Some(swap.cookieB)]
                                   [old(Idx(swap.cookieB.col, swap.cookieB.row)) := Some(swap.cookieA)]
      ensures swap.cookieA.col == old(swap.cookieB.col) && swap.cookieA.row == old(swap.cookieB.row)
      ensures swap.cookieB.col == old(swap.cookieA.col) && swap.cookieB.row == old(swap.cookieA.row)
      ensures old(Valid() && Grid()[Idx(swap.cookieA.col, swap.cookieA.row)] == Some(swap.cookieA) &&
                  Grid()[Idx(swap.cookieB.col, swap.cookieB.row)] == Some(swap.cookieB)) ==>
        Valid() && Grid() == Exchange(old(Grid()), old(Idx(swap.cookieA.col, swap.cookieA.row)), old(Idx(swap.cookieB.col, swap.cookieB.row)))
    {
      ghost var g := Grid();
      var colA, rowA := swap.cookieA.col, swap.cookieA.row;
      var colB, rowB := swap.cookieB.col, swap.cookieB.row;
      ghost var p, q := Idx(colA, rowA), Idx(colB, rowB);
      ghost var placed := Valid() && g[p] == Some(swap.cookieA) && g[q] == Some(swap.cookieB);
      if placed {
        WellPlacedInjective(g);
      }
      Place(swap.cookieB, colA, rowA);
      Place(swap.cookieA, colB, rowB);
      if placed {
        forall i | 0 <= i < NumCells && i != p && i != q && g[i].Some?
          ensures InBoard(g[i].value.col, g[i].value.row) && Idx(g[i].value.col, g[i].value.row) == i
        {
          assert g[i] != g[p] && g[i] != g[q];
        }
        SwappedPlaced(g, p, q);
      }
    }

    /** One half of `performSwap`: cookie `c` goes to square (column, row) and records it. */
    method Place(c: Cookie, column: int, row: int)
      requires Shaped() && 0 <= Idx(column, row) < NumCells
      modifies cookies.buf, c
      ensures Grid() == old(Grid())[Idx(column, row) := Some(c)]
      ensures c.col == column && c.row == row
    {
      cookies.Set(column, row, Some(c));
      c.col := column;
      c.row := row;
    }

    /** The heap half of `performSwap` on a valid board: the two cookies record each other's squares and the rest keep theirs. */
    lemma SwappedPlaced(g: seq<Option<Cookie>>, p: int, q: int)
      requires Shaped() && |g| == NumCells && 0 <= p < NumCells && 0 <= q < NumCells && g[p].Some? && g[q].Some?
      requires OnTiles(g, Mask()) && Grid() == Exchange(g, p, q)
      requires forall i :: 0 <= i < NumCells && i != p && i != q && g[i].Some? ==>
        InBoard(g[i].value.col, g[i].value.row) && Idx(g[i].value.col, g[i].value.row) == i
      requires InBoard(g[p].value.col, g[p].value.row) && Idx(g[p].value.col, g[p].value.row) == q
      requires InBoard(g[q].value.col, g[q].value.row) && Idx(g[q].value.col, g[q].value.row) == p
      ensures Valid()
    {
      var h := Grid();
      forall i | 0 <= i < |h| && h[i].Some?
        ensures h[i].value in CookiesOf(h) && InBoard(h[i].value.col, h[i].value.row) && Idx(h[i].value.col, h[i].value.row) == i
      {
        assert h[i] == if i == p then g[q] else if i == q then g[p] else g[i];
      }
    }

    /**
     * `hasChainAtColumn`: counts the equal kinds to the left and to the right
     * of an occupied square, then below and above it; the square lies in a
     * chain when either count, the square included, reaches three.
     */
    method HasChainAtColumn(column: int, row: int) returns (b: bool)
      requires Shaped() && InBoard(column, row) && Grid()[Idx(column, row)].Some?
      ensures b == ChainAt(Grid(), column, row)
    {
      IdxFacts(column, row);
      var cookieType := cookies.Get(column, row).value.cookieType;
      var horzLength := HorzLength(column, row, cookieType);
      if horzLength >= 3 {
        return true;
      }
      var vertLength := VertLength(column, row, cookieType);
      return vertLength >= 3;
    }

    /** The horizontal count of `hasChainAtColumn`: the square and the equal kinds left and right of it. */
    method HorzLength(column: int, row: int, cookieType: CookieType) returns (horzLength: int)
      requires Shaped() && InBoard(column, row) && Row(Grid(), row)[column] == Some(cookieType)
      ensures horzLength == RunEnd(Row(Grid(), row), cookieType, column + 1) - RunStart(Row(Grid(), row), cookieType, column)
      ensures horzLength >= 3 <==> InThree(Row(Grid(), row), column)
    {
      ghost var across := Row(Grid(), row);
      horzLength := 1;
      var i := column - 1;
      while i >= 0 && Kind(CookieAtColumn(i, row)) == Some(cookieType)
        invariant -1 <= i < column && horzLength == column - i
        invariant forall k :: i < k < column ==> across[k] == Some(cookieType)
      {
        assert across[i] == Some(cookieType);
        i := i - 1;
        horzLength := horzLength + 1;
      }
      ghost var start := i + 1;
      i := column + 1;
      while i < NumCols && Kind(CookieAtColumn(i, row)) == Some(cookieType)
        invariant column < i <= NumCols && horzLength == i - start
        invariant forall k :: column < k < i ==> across[k] == Some(cookieType)
      {
        assert across[i] == Some(cookieType);
        i := i + 1;
        horzLength := horzLength + 1;
      }
      StretchLength(across, cookieType, column, start, i);
    }

    /** The vertical count of `hasChainAtColumn`: the square and the equal kinds below and above it. */
    method VertLength(column: int, row: int, cookieType: CookieType) returns (vertLength: int)
      requires Shaped() && InBoard(column, row) && Col(Grid(), column)[row] == Some(cookieType)
      ensures vertLength == RunEnd(Col(Grid(), column), cookieType, row + 1) - RunStart(Col(Grid(), column), cookieType, row)
      ensures vertLength >= 3 <==> InThree(Col(Grid(), column), row)
    {
      ghost var up := Col(Grid(), column);
      vertLength := 1;
      var i := row - 1;
      while i >= 0 && Kind(CookieAtColumn(column, i)) == Some(cookieType)
        invariant -1 <= i < row && vertLength == row - i
        invariant forall k :: i < k < row ==> up[k] == Some(cookieType)
      {
        assert up[i] == Some(cookieType);
        i := i - 1;
        vertLength := vertLength + 1;
      }
      ghost var start := i + 1;
      i := row + 1;
      while i < NumRows && Kind(CookieAtColumn(column, i)) == Some(cookieType)
        invariant row < i <= NumRows && vertLength == i - start
        invariant forall k :: row < k < i ==> up[k] == Some(cookieType)
      {
        assert up[i] == Some(cookieType);
        i := i + 1;
        vertLength := vertLength + 1;
      }
      StretchLength(up, cookieType, row, start, i);
    }

    /** The loop condition of `createInitialCookies`: kind t would make three in a row leftward or downward at (col, row). */
    function ClashAt(col: int, row: int, t: CookieType): (b: bool)
      reads cookies.buf
      requires Shaped() && InBoard(col, row)
      ensures b == Clash(Grid(), col, row, t)
    {
      (col >= 2 && Kind(cookies.Get(col - 1, row)) == Some(t) && Kind(cookies.Get(col - 2, row)) == Some(t)) ||
      (row >= 2 && Kind(cookies.Get(col, row - 1)) == Some(t) && Kind(cookies.Get(col, row - 2)) == Some(t))
    }

    /**
     * `createInitialCookies`: visits the squares row by row from the bottom,
     * left to right, and puts a new cookie on each tile, drawing kinds until
     * one does not complete three in a row with the two cookies to its left
     * or the two below it. The result is a full board without a chain.
     */
    method CreateInitialCookies(draws: seq<Die>, pos: nat) returns (ok: bool, created: set<Cookie>, next: nat)
      requires Valid() && pos <= |draws|
      modifies cookies.buf
      ensures pos <= next <= |draws|
      ensures ok ==> Valid() && NoChains(Grid())
      ensures ok ==> forall i :: 0 <= i < NumCells ==> (Grid()[i].Some? <==> Mask()[i].Some?)
      ensures ok ==> created == CookiesOf(Grid()) && fresh(created)
      ensures ok && next == pos ==> forall i :: 0 <= i < NumCells ==> Mask()[i].None?
    {
      created := {};
      next := pos;
      var row := 0;
      while row < NumRows
        invariant 0 <= row <= NumRows && pos <= next <= |draws|
        invariant Valid() && FilledBefore(Grid(), Mask(), Idx(0, row))
        invariant created == CookiesOf(Grid()[..Idx(0, row)]) && fresh(created)
        invariant next == pos ==> forall i :: 0 <= i < Idx(0, row) ==> Mask()[i].None?
      {
        var added;
        ok, added, next := FillRow(row, draws, next, created);
        if !ok {
          return false, created, next;
        }
        created := added;
        row := row + 1;
      }
      FilledNoChains(Grid(), Mask());
      return true, created, next;
    }

    /** One row of `createInitialCookies`, left to right. */
    method FillRow(row: int, draws: seq<Die>, start: nat, created: set<Cookie>) returns (ok: bool, added: set<Cookie>, next: nat)
      requires Valid() && 0 <= row < NumRows && FilledBefore(Grid(), Mask(), Idx(0, row)) && start <= |draws|
      requires created == CookiesOf(Grid()[..Idx(0, row)])
      modifies cookies.buf
      ensures start <= next <= |draws|
      ensures ok ==> Valid() && FilledBefore(Grid(), Mask(), Idx(0, row + 1))
      ensures ok ==> added == CookiesOf(Grid()[..Idx(0, row + 1)]) && fresh(added - created)
      ensures ok && next == start ==> forall i :: Idx(0, row) <= i < Idx(0, row + 1) ==> Mask()[i].None?
    {
      added := created;
      next := start;
      var col := 0;
      while col < NumCols
        invariant 0 <= col <= NumCols && start <= next <= |draws|
        invariant Valid() && FilledBefore(Grid(), Mask(), Idx(col, row))
        invariant added == CookiesOf(Grid()[..Idx(col, row)]) && fresh(added - created)
        invariant next == start ==> forall i :: Idx(0, row) <= i < Idx(col, row) ==> Mask()[i].None?
      {
        IdxFacts(col, row);
        ghost var g := Grid();
        ghost var p := Idx(col, row);
        var cookie;
        ok, cookie, next := FillSquare(col, row, draws, next);
        if !ok {
          return;
        }
        CookiesOfPrefix(g, p, cookie);
        if cookie.Some? {
          added := added + {cookie.value};
        }
        col := col + 1;
      }
      ok := true;
    }

    /** One square of `createInitialCookies`: a new cookie of a non-clashing kind on a tile, nothing elsewhere. */
    method FillSquare(col: int, row: int, draws: seq<Die>, start: nat) returns (ok: bool, cookie: Option<Cookie>, next: nat)
      requires Valid() && InBoard(col, row) && FilledBefore(Grid(), Mask(), Idx(col, row)) && start <= |draws|
      modifies cookies.buf
      ensures start <= next <= |draws|
      ensures ok ==> Valid() && FilledBefore(Grid(), Mask(), Idx(col, row) + 1)
      ensures ok ==> Grid() == old(Grid())[Idx(col, row) := cookie]
      ensures ok ==> (cookie.Some? <==> Mask()[Idx(col, row)].Some?) && (cookie.Some? ==> fresh(cookie.value))
      ensures ok && next == start ==> Mask()[Idx(col, row)].None?
    {
      IdxFacts(col, row);
      ghost var g := Grid();
      next := start;
      if tiles.Get(col, row).Some? {
        var cookieType;
        ok, cookieType, next := DrawKind(col, row, draws, next);
        if !ok {
          return false, None, next;
        }
        var c := new Cookie(col, row, cookieType);
        cookies.Set(col, row, Some(c));
        FilledStep(g, Mask(), col, row, Some(c));
        PlaceWellPlaced(g, c);
        cookie := Some(c);
      } else {
        FilledStep(g, Mask(), col, row, None);
        assert g[Idx(col, row) := None] == g;
        ok, cookie := true, None;
      }
    }

    /** The `repeat ... while` draw of `createInitialCookies`: the first kind from `next` on that does not clash at (col, row). */
    method DrawKind(col: int, row: int, draws: seq<Die>, start: nat) returns (ok: bool, t: CookieType, next: nat)
      requires Shaped() && InBoard(col, row) && start <= |draws|
      ensures start <= next <= |draws|
      ensures ok ==> start < next && t == Random(draws[next - 1]) && !Clash(Grid(), col, row, t)
      ensures ok ==> forall k :: start <= k < next - 1 ==> Clash(Grid(), col, row, Random(draws[k]))
      ensures !ok ==> next == |draws| && forall k :: start <= k < |draws| ==> Clash(Grid(), col, row, Random(draws[k]))
    {
      next := start;
      if next == |draws| {
        return false, Unknown, next;
      }
      t := Random(draws[next]);
      next := next + 1;
      while ClashAt(col, row, t)
        invariant start < next <= |draws| && t == Random(draws[next - 1])
        invariant forall k :: start <= k < next - 1 ==> Clash(Grid(), col, row, Random(draws[k]))
        decreases |draws| - next
      {
        if next == |draws| {
          return false, t, next;
        }
        t := Random(draws[next]);
        next := next + 1;
      }
      ok := true;
    }
  
    /**
     * `detectPossibleSwaps`: for each cookie, tentatively exchange it with
     * the cookie on its right and then with the one above, keep the swap when
     * either square now lies in a chain, and exchange back. The board ends as
     * it began.
     */
    method DetectPossibleSwaps()
      requires Valid()
      modifies this`possibleSwaps, cookies.buf
      ensures Grid() == old(Grid()) && Valid()
      ensures possibleSwaps == PossibleSwaps(Grid())
    {
      ghost var g := Grid();
      var found: set<Swap> := {};
      var row := 0;
      while row < NumRows
        invariant 0 <= row <= NumRows && Grid() == g
        invariant found == SwapsBelow(g, row)
      {
        var inRow := RowSwapsAt(row);
        SwapsBelowNext(g, row, found, inRow);
        found := found + inRow;
        row := row + 1;
      }
      possibleSwaps := found;
    }

    /** One row of `detectPossibleSwaps`, left to right. */
    method RowSwapsAt(row: int) returns (found: set<Swap>)
      requires Shaped() && 0 <= row < NumRows
      modifies cookies.buf
      ensures Grid() == old(Grid())
      ensures found == RowSwaps(Grid(), row, NumCols)
    {
      found := {};
      var column := 0;
      while column < NumCols
        invariant 0 <= column <= NumCols && Grid() == old(Grid())
        invariant found == RowSwaps(Grid(), row, column)
      {
        var here := SwapsAt(column, row);
        RowSwapsNext(Grid(), row, column, found, here);
        found := found + here;
        column := column + 1;
      }
    }

    /** The body of `detectPossibleSwaps` for one square. */
    method SwapsAt(column: int, row: int) returns (found: set<Swap>)
      requires Shaped() && InBoard(column, row)
      modifies cookies.buf
      ensures Grid() == old(Grid())
      ensures found == CellSwaps(Grid(), column, row)
    {
      IdxFacts(column, row);
      found := {};
      var cell := cookies.Get(column, row);
      if cell.Some? {
        if column < NumCols - 1 {
          found := TrySwap(column, row, column + 1, row);
        }
        if row < NumRows - 1 {
          var up := TrySwap(column, row, column, row + 1);
          found := found + up;
        }
      }
    }

    /**
     * Exchange the cookie on (column, row) with the one on the neighbouring
     * square (col2, row2), if there is one, ask whether the neighbouring
     * square or the first one now lies in a chain, and exchange back.
     */
    method TrySwap(column: int, row: int, col2: int, row2: int) returns (found: set<Swap>)
      requires Shaped() && InBoard(column, row) && InBoard(col2, row2) && Idx(column, row) != Idx(col2, row2)
      requires Grid()[Idx(column, row)].Some?
      modifies cookies.buf
      ensures Grid() == old(Grid())
      ensures var g, p, q := Grid(), Idx(column, row), Idx(col2, row2);
        found == if g[q].Some? && (ChainAt(Exchange(g, p, q), col2, row2) || ChainAt(Exchange(g, p, q), column, row))
                 then {Swap(g[p].value, g[q].value)} else {}
    {
      ghost var g := Grid();
      IdxFacts(column, row);
      IdxFacts(col2, row2);
      var cookie := cookies.Get(column, row).value;
      found := {};
      var o := cookies.Get(col2, row2);
      if o.Some? {
        var other := o.value;
        cookies.Set(column, row, Some(other));
        cookies.Set(col2, row2, Some(cookie));
        assert Grid() == Exchange(g, Idx(column, row), Idx(col2, row2));
        var chain := HasChainAtColumn(col2, row2);
        if !chain {
          chain := HasChainAtColumn(column, row);
        }
        if chain {
          found := {Swap(cookie, other)};
        }
        cookies.Set(column, row, Some(cookie));
        cookies.Set(col2, row2, Some(other));
        assert Grid() == g;
      }
    }

    /**
     * `shuffle`: fill the board afresh until at least one swap is possible.
     * Where the game would retry forever (no tile at all), or the draws run
     * out, the result is `ok == false`.
     */
    method Shuffle(draws: seq<Die>, pos: nat) returns (ok: bool, created: set<Cookie>, next: nat)
      requires Valid() && pos <= |draws|
      modifies this`possibleSwaps, cookies.buf
      ensures pos <= next <= |draws|
      ensures ok ==> Valid() && NoChains(Grid()) && possibleSwaps == PossibleSwaps(Grid()) && possibleSwaps != {}
      ensures ok ==> forall i :: 0 <= i < NumCells ==> (Grid()[i].Some? <==> Mask()[i].Some?)
      ensures ok ==> created == CookiesOf(Grid()) && fresh(created)
    {
      ok, created, next := CreateInitialCookies(draws, pos);
      if !ok {
        return;
      }
      DetectPossibleSwaps();
      while possibleSwaps == {}
        invariant pos <= next <= |draws|
        invariant Valid() && NoChains(Grid()) && possibleSwaps == PossibleSwaps(Grid())
        invariant forall i :: 0 <= i < NumCells ==> (Grid()[i].Some? <==> Mask()[i].Some?)
        invariant created == CookiesOf(Grid()) && fresh(created)
        decreases |draws| - next
      {
        var before := next;
        ok, created, next := CreateInitialCookies(draws, next);
        if !ok || next == before {
          return false, created, next;
        }
        DetectPossibleSwaps();
      }
    }
  
    /** Cell i of line k in direction `dir`, read from the grid. */
    function CellAt(dir: Axis, k: int, i: int): (c: Option<Cookie>)
      reads cookies.buf
      requires Shaped() && 0 <= k < 9 && 0 <= i < 9
      ensures 0 <= CellOf(dir, k, i) < NumCells && c == Grid()[CellOf(dir, k, i)]
      ensures Kind(c) == LineOf(Grid(), dir, k)[i]
    {
      if dir == Horizontal then
        IdxFacts(i, k);
        cookies.Get(i, k)
      else
        IdxFacts(k, i);
        cookies.Get(k, i)
    }

    /**
     * `detectHorizontalMatches` (dir == Horizontal, lines are rows) and
     * `detectVerticalMatches` (dir == Vertical, lines are columns): one new
     * chain per run the scan finds, line by line, holding the run's cookies
     * in order, with score 0.
     */
    method DetectMatches(dir: Axis) returns (chains: seq<Chain>)
      requires Shaped()
      ensures Built(chains, Grid(), dir, Runs(Grid(), dir))
      ensures forall i :: 0 <= i < |chains| ==> fresh(chains[i])
    {
      ghost var g := Grid();
      chains := [];
      var k := 0;
      while k < 9
        invariant 0 <= k <= 9
        invariant Built(chains, g, dir, RunsBelow(g, dir, k))
        invariant forall i :: 0 <= i < |chains| ==> fresh(chains[i])
      {
        var found := LineChains(dir, k);
        BuiltAppend(chains, found, g, dir, RunsBelow(g, dir, k), Tag(k, Scan(LineOf(g, dir, k), 0)));
        chains := chains + found;
        k := k + 1;
      }
    }

    /**
     * The scan of one line: from each position before the last two, three
     * equal kinds start a chain that grows while the kind repeats, and the
     * scan resumes after it; otherwise the scan moves one square on.
     */
    method LineChains(dir: Axis, k: int) returns (chains: seq<Chain>)
      requires Shaped() && 0 <= k < 9
      ensures Built(chains, Grid(), dir, Tag(k, Scan(LineOf(Grid(), dir, k), 0)))
      ensures forall i :: 0 <= i < |chains| ==> fresh(chains[i])
    {
      ghost var g := Grid();
      ghost var l := LineOf(g, dir, k);
      ghost var done: seq<Span> := [];
      chains := [];
      var i := 0;
      while i < NumCols - 2
        invariant 0 <= i <= 9
        invariant Scan(l, 0) == done + Scan(l, i)
        invariant Built(chains, g, dir, Tag(k, done))
        invariant forall j :: 0 <= j < |chains| ==> fresh(chains[j])
        decreases 9 - i
      {
        var cell := CellAt(dir, k, i);
        if cell.Some? {
          var matchType := cell.value.cookieType;
          if Kind(CellAt(dir, k, i + 1)) == Some(matchType) && Kind(CellAt(dir, k, i + 2)) == Some(matchType) {
            ghost var start := i;
            var chain;
            chain, i := GrowChain(dir, k, i);
            MatchStep(chains, chain, g, dir, k, done, start, i);
            done := done + [Span(start, i)];
            chains := chains + [chain];
            continue;
          }
        }
        assert !Three(l, i);
        i := i + 1;
      }
    }

    /** The `repeat ... while` of a match: a new chain of the cookies from `start` on while the kind repeats. */
    method GrowChain(dir: Axis, k: int, start: int) returns (chain: Chain, end: int)
      requires Shaped() && 0 <= k < 9 && 0 <= start < 9 && LineOf(Grid(), dir, k)[start].Some?
      ensures fresh(chain) && start < end <= 9
      ensures end == RunEnd(LineOf(Grid(), dir, k), LineOf(Grid(), dir, k)[start].value, start + 1)
      ensures Built([chain], Grid(), dir, [Run(k, Span(start, end))])
    {
      ghost var g := Grid();
      ghost var l := LineOf(g, dir, k);
      var first := CellAt(dir, k, start).value;
      var matchType := first.cookieType;
      chain := new Chain(dir);
      chain.AddCookie(first);
      HoldsSnoc([], first, g, dir, Run(k, Span(start, start)));
      end := start + 1;
      while end < NumCols && Kind(CellAt(dir, k, end)) == Some(matchType)
        invariant start < end <= 9 && Grid() == g
        invariant RunEnd(l, matchType, start + 1) == RunEnd(l, matchType, end)
        invariant fresh(chain) && chain.chainType == dir && chain.score == 0
        invariant Holds(chain.cookies, g, dir, Run(k, Span(start, end)))
        decreases 9 - end
      {
        GrowNext(chain, dir, k, start, end, matchType);
        end := end + 1;
      }
    }

    /** One turn of the `repeat ... while` of a match: the cookie at `end` joins the chain. */
    method GrowNext(chain: Chain, dir: Axis, k: int, start: int, end: int, matchType: CookieType)
      requires Shaped() && 0 <= k < 9 && 0 <= start < end < 9 && LineOf(Grid(), dir, k)[end] == Some(matchType)
      requires Holds(chain.cookies, Grid(), dir, Run(k, Span(start, end)))
      requires RunEnd(LineOf(Grid(), dir, k), matchType, start + 1) == RunEnd(LineOf(Grid(), dir, k), matchType, end)
      modifies chain`cookies
      ensures Holds(chain.cookies, Grid(), dir, Run(k, Span(start, end + 1)))
      ensures RunEnd(LineOf(Grid(), dir, k), matchType, start + 1) == RunEnd(LineOf(Grid(), dir, k), matchType, end + 1)
    {
      var next := CellAt(dir, k, end).value;
      GrowStep(chain.cookies, next, Grid(), dir, k, start, end, matchType);
      chain.AddCookie(next);
    }

    /** `resetComboMultiplier`. */
    method ResetComboMultiplier()
      modifies this`comboMultiplier
      ensures comboMultiplier == 1
    {
      comboMultiplier := 1;
    }

    /**
     * `calculateScores`: the chains in turn score 60 per cookie beyond two
     * times the current multiplier, which grows by one after each.
     */
    method CalculateScores(chains: seq<Chain>)
      requires forall i, j :: 0 <= i < j < |chains| ==> chains[i] != chains[j]
      modifies this`comboMultiplier, chains`score
      ensures comboMultiplier == old(comboMultiplier) + |chains|
      ensures forall i :: 0 <= i < |chains| ==>
        chains[i].score == Score(|chains[i].cookies|, old(comboMultiplier) + i) &&
        chains[i].cookies == old(chains[i].cookies) && chains[i].chainType == old(chains[i].chainType)
    {
      var n := 0;
      while n < |chains|
        invariant 0 <= n <= |chains| && comboMultiplier == old(comboMultiplier) + n
        invariant forall i :: 0 <= i < |chains| ==>
          chains[i].cookies == old(chains[i].cookies) && chains[i].chainType == old(chains[i].chainType)
        invariant forall i :: 0 <= i < n ==> chains[i].score == Score(|chains[i].cookies|, old(comboMultiplier) + i)
      {
        var chain := chains[n];
        chain.score := 60 * (chain.Length() - 2) * comboMultiplier;
        comboMultiplier := comboMultiplier + 1;
        n := n + 1;
      }
    }

    /**
     * `removeCookies`: empty the square each cookie of each chain records.
     * The chains are those of one pass; `runs` says where their cookies
     * stand.
     */
    method RemoveCookies(chains: seq<Chain>, ghost dir: Axis, ghost runs: seq<Run>)
      requires Shaped() && |chains| == |runs|
      requires forall i :: 0 <= i < |chains| ==> Located(chains[i].cookies, dir, runs[i])
      modifies cookies.buf
      ensures forall p :: 0 <= p < NumCells ==> Grid()[p] == if p in RunCells(dir, runs) then None else old(Grid())[p]
    {
      var n := 0;
      while n < |chains|
        invariant 0 <= n <= |chains|
        invariant forall p :: 0 <= p < NumCells ==> Grid()[p] == if p in RunCells(dir, runs[..n]) then None else old(Grid())[p]
      {
        RemoveChainCookies(chains[n].cookies, dir, runs[n]);
        assert runs[..n + 1][..n] == runs[..n];
        n := n + 1;
      }
      assert runs[..n] == runs;
    }

    /** The inner loop of `removeCookies`, over the cookies of one chain. */
    method RemoveChainCookies(cs: seq<Cookie>, ghost dir: Axis, ghost run: Run)
      requires Shaped() && Located(cs, dir, run)
      modifies cookies.buf
      ensures forall p :: 0 <= p < NumCells ==> Grid()[p] == if p in SpanCells(dir, run) then None else old(Grid())[p]
    {
      var m := 0;
      while m < |cs|
        invariant 0 <= m <= |cs|
        invariant forall p :: 0 <= p < NumCells ==>
          Grid()[p] == if p in SpanCells(dir, Run(run.line, Span(run.span.start, run.span.start + m))) then None else old(Grid())[p]
      {
        var cookie := cs[m];
        ghost var q := CellOf(dir, run.line, run.span.start + m);
        assert Idx(cookie.col, cookie.row) == q && 0 <= q < NumCells;
        ghost var before := Grid();
        cookies.Set(cookie.col, cookie.row, None);
        assert Grid() == before[q := None];
        assert SpanCells(dir, Run(run.line, Span(run.span.start, run.span.start + m + 1))) ==
          SpanCells(dir, Run(run.line, Span(run.span.start, run.span.start + m))) + {CellOf(dir, run.line, run.span.start + m)};
        m := m + 1;
      }
      assert Run(run.line, Span(run.span.start, run.span.start + m)) == run;
    }

    /**
     * `removeMatches`: find the horizontal and then the vertical chains,
     * empty every square under one, and score the horizontal chains and then
     * the vertical ones. The squares emptied are exactly those lying in three
     * in a row, and nothing is found exactly when the board has no chain.
     */
    method RemoveMatches() returns (chains: seq<Chain>)
      requires Valid()
      modifies this`comboMultiplier, cookies.buf
      ensures Valid()
      ensures |Grid()| == |old(Grid())| == NumCells && Cleared(old(Grid()), Grid())
      ensures chains == [] <==> NoChains(old(Grid()))
      ensures |chains| == |Runs(old(Grid()), Horizontal)| + |Runs(old(Grid()), Vertical)|
      ensures forall i :: 0 <= i < |chains| ==> fresh(chains[i])
      ensures Scored(chains, old(Grid()), old(comboMultiplier))
      ensures comboMultiplier == old(comboMultiplier) + |chains|
      ensures forall i, j :: 0 <= i < j < |chains| ==> !ChainEq(chains[i], chains[j])
    {
      ghost var g := Grid();
      var horizontal := DetectMatches(Horizontal);
      var vertical := DetectMatches(Vertical);
      ClearChains(horizontal, vertical);
      ScoreMatches(horizontal, vertical, g);
      chains := horizontal + vertical;
      NoRunsIff(g);
      assert WellPlaced(g);
      ScoredDistinct(chains, g, old(comboMultiplier));
    }

    /** The scoring half of `removeMatches`: the horizontal chains and then the vertical ones. */
    method ScoreMatches(horizontal: seq<Chain>, vertical: seq<Chain>, ghost g: seq<Option<Cookie>>)
      requires Built(horizontal, g, Horizontal, Runs(g, Horizontal))
      requires Built(vertical, g, Vertical, Runs(g, Vertical))
      modifies this`comboMultiplier, horizontal`score, vertical`score
      ensures Scored(horizontal + vertical, g, old(comboMultiplier))
      ensures comboMultiplier == old(comboMultiplier) + |horizontal| + |vertical|
    {
      assert forall i, j :: 0 <= i < |horizontal| && 0 <= j < |vertical| ==> horizontal[i] != vertical[j];
      ghost var m := comboMultiplier;
      ScorePass(horizontal, g, Horizontal, Runs(g, Horizontal));
      ScorePass(vertical, g, Vertical, Runs(g, Vertical));
      ScoredJoin(horizontal, vertical, g, m);
    }

    /** `calculateScores` on the chains of one pass: they are scored from the current multiplier on. */
    method ScorePass(chains: seq<Chain>, ghost g: seq<Option<Cookie>>, ghost dir: Axis, ghost runs: seq<Run>)
      requires Built(chains, g, dir, runs)
      modifies this`comboMultiplier, chains`score
      ensures ScoredRuns(chains, g, dir, runs, old(comboMultiplier))
      ensures comboMultiplier == old(comboMultiplier) + |chains|
    {
      CalculateScores(chains);
    }

    /** The removal half of `removeMatches`: the squares of both passes' chains are emptied. */
    method ClearChains(horizontal: seq<Chain>, vertical: seq<Chain>)
      requires Valid()
      requires Built(horizontal, Grid(), Horizontal, Runs(Grid(), Horizontal))
      requires Built(vertical, Grid(), Vertical, Runs(Grid(), Vertical))
      modifies cookies.buf
      ensures Valid()
      ensures |Grid()| == |old(Grid())| == NumCells && Cleared(old(Grid()), Grid())
    {
      ghost var g := Grid();
      ghost var hr, vr := Runs(g, Horizontal), Runs(g, Vertical);
      LocatedFromBuilt(horizontal, g, Horizontal, hr);
      LocatedFromBuilt(vertical, g, Vertical, vr);
      RemoveCookies(horizontal, Horizontal, hr);
      RemoveCookies(vertical, Vertical, vr);
      ClearedIsChainAt(g, Grid());
      ClearKeepsValid(g, Grid(), Mask());
    }

    /**
     * `fillHoles`: column by column, bottom to top, an empty tile square
     * takes the next cookie above it, whose `row` is updated. Each column
     * becomes `Settle` of what it held, and the result lists, per column
     * where something fell, the cookies that fell, bottom to top.
     */
    method FillHoles() returns (columns: seq<seq<Cookie>>)
      requires Valid()
      modifies cookies.buf, CookiesOf(Grid())
      ensures Valid()
      ensures forall c :: 0 <= c < NumCols ==>
        Column(Grid(), c) == Settle(Column(old(Grid()), c), TileColumn(Mask(), c), 0)
      ensures columns == Fallen(old(Grid()), Grid(), NumCols)
      ensures forall c :: 0 <= c < NumCols ==>
        Compacted(Column(Grid(), c), TileColumn(Mask(), c)) && Present(Column(Grid(), c)) == Present(Column(old(Grid()), c))
    {
      ghost var g := Grid();
      columns := [];
      var column := 0;
      while column < NumCols
        invariant 0 <= column <= NumCols && Valid()
        invariant CookiesOf(Grid()) == CookiesOf(g)
        invariant SettledBefore(g, Grid(), Mask(), column)
        invariant columns == Fallen(g, Grid(), column)
      {
        columns := SettleNext(g, column, columns);
        column := column + 1;
      }
      SettledAll(g, Grid(), Mask());
    }

    /** One turn of the column loop of `fillHoles`. */
    method SettleNext(ghost g: seq<Option<Cookie>>, column: int, columns: seq<seq<Cookie>>) returns (next: seq<seq<Cookie>>)
      requires Valid() && 0 <= column < NumCols
      requires SettledBefore(g, Grid(), Mask(), column) && columns == Fallen(g, Grid(), column)
      modifies cookies.buf, CookiesOf(Grid())
      ensures Valid() && CookiesOf(Grid()) == old(CookiesOf(Grid()))
      ensures SettledBefore(g, Grid(), Mask(), column + 1) && next == Fallen(g, Grid(), column + 1)
    {
      ghost var before := Grid();
      var fallen := FillColumn(column);
      SettledStep(g, before, Grid(), Mask(), column, columns, fallen);
      next := columns;
      if fallen != [] {
        next := next + [fallen];
      }
    }

    /** One column of `fillHoles`. */
    method FillColumn(column: int) returns (fallen: seq<Cookie>)
      requires Valid() && 0 <= column < NumCols
      modifies cookies.buf, CookiesOf(Grid())
      ensures Valid() && CookiesOf(Grid()) == old(CookiesOf(Grid()))
      ensures SettledColumn(old(Grid()), Grid(), Mask(), column)
      ensures fallen == Changed(Column(old(Grid()), column), Column(Grid(), column))
    {
      ghost var g := Grid();
      WellPlacedInjective(g);
      ColumnInjective(g, column);
      fallen := [];
      var row := 0;
      while row < NumRows
        invariant 0 <= row <= NumRows && Valid() && CookiesOf(Grid()) == CookiesOf(g)
        invariant Falling(g, Grid(), Mask(), column, row, fallen)
      {
        fallen := FallNext(g, column, row, fallen);
        row := row + 1;
      }
      FallingDone(g, Grid(), Mask(), column, fallen);
    }

    /** One turn of the row loop of `fillHoles`: the cookie that moved onto the square, if any, joins the list. */
    method FallNext(ghost g: seq<Option<Cookie>>, column: int, row: int, fallen: seq<Cookie>) returns (fallen': seq<Cookie>)
      requires Valid() && 0 <= row < NumRows && Falling(g, Grid(), Mask(), column, row, fallen)
      modifies cookies.buf, CookiesOf(Grid())
      ensures Valid() && CookiesOf(Grid()) == old(CookiesOf(Grid()))
      ensures Falling(g, Grid(), Mask(), column, row + 1, fallen')
    {
      ghost var cur := Grid();
      var moved := DropCookie(column, row);
      FallingStep(g, cur, Grid(), Mask(), column, row, fallen, moved);
      fallen' := fallen;
      if moved.Some? {
        fallen' := fallen + [moved.value];
      }
    }

    /**
     * The body of `fillHoles` for square (column, row): when it is an empty
     * tile square, the first cookie above it moves down onto it and takes
     * its row.
     */
    method DropCookie(column: int, row: int) returns (moved: Option<Cookie>)
      requires Valid() && 0 <= column < NumCols && 0 <= row < NumRows
      modifies cookies.buf, CookiesOf(Grid())
      ensures Valid() && CookiesOf(Grid()) == old(CookiesOf(Grid()))
      ensures Column(Grid(), column) == DropAt(Column(old(Grid()), column), TileColumn(Mask(), column), row)
      ensures forall c :: 0 <= c < NumCols && c != column ==> Column(Grid(), c) == Column(old(Grid()), c)
      ensures moved.Some? <==> Column(Grid(), column)[row] != Column(old(Grid()), column)[row]
      ensures moved.Some? ==> Column(Grid(), column)[row] == moved
    {
      moved := None;
      if tiles.Get(column, row) != None && cookies.Get(column, row) == None {
        moved := PullDown(column, row);
      }
    }

    /** The `for lookup in (row + 1)..<NumRows` loop of `fillHoles` below an empty tile square. */
    method PullDown(column: int, row: int) returns (moved: Option<Cookie>)
      requires Valid() && 0 <= column < NumCols && 0 <= row < NumRows
      requires Mask()[Idx(column, row)].Some? && Grid()[Idx(column, row)] == None
      modifies cookies.buf, CookiesOf(Grid())
      ensures Valid() && CookiesOf(Grid()) == old(CookiesOf(Grid()))
      ensures Column(Grid(), column) == DropAt(Column(old(Grid()), column), TileColumn(Mask(), column), row)
      ensures forall c :: 0 <= c < NumCols && c != column ==> Column(Grid(), c) == Column(old(Grid()), c)
      ensures moved.Some? <==> NextCookie(Column(old(Grid()), column), row + 1) < NumRows
      ensures moved.Some? ==> Grid()[Idx(column, row)] == moved
    {
      ghost var g := Grid();
      ghost var s := Column(g, column);
      IdxFacts(column, row);
      moved := None;
      var lookup := row + 1;
      while lookup < NumRows
        invariant row < lookup <= NumRows && Grid() == g
        invariant forall q :: row + 1 <= q < lookup ==> s[q].None?
      {
        var cell := cookies.Get(column, lookup);
        if cell.Some? {
          NextCookieIs(s, row + 1, lookup);
          IdxFacts(column, lookup);
          MoveDown(column, row, lookup);
          moved := cell;
          ColumnMove(g, column, row, lookup);
          CookiesOfMove(g, Idx(column, row), Idx(column, lookup));
          return;
        }
        lookup := lookup + 1;
      }
      NextCookieIs(s, row + 1, NumRows);
      assert DropAt(s, TileColumn(Mask(), column), row) == s;
    }

    /** The move of `fillHoles`: the cookie on (column, lookup) goes to the empty tile square (column, row) and takes its row. */
    method MoveDown(column: int, row: int, lookup: int)
      requires Valid() && 0 <= column < NumCols && 0 <= row < lookup < NumRows
      requires Mask()[Idx(column, row)].Some? && Grid()[Idx(column, row)] == None && Grid()[Idx(column, lookup)].Some?
      modifies cookies.buf, Grid()[Idx(column, lookup)].value
      ensures Valid()
      ensures Grid() == old(Grid())[Idx(column, row) := old(Grid())[Idx(column, lookup)]][Idx(column, lookup) := None]
    {
      ghost var g := Grid();
      IdxFacts(column, row);
      IdxFacts(column, lookup);
      var cookie := cookies.Get(column, lookup).value;
      cookies.Set(column, lookup, None);
      cookies.Set(column, row, Some(cookie));
      cookie.row := row;
      ghost var h := Grid();
      assert h == g[Idx(column, row) := g[Idx(column, lookup)]][Idx(column, lookup) := None];
      forall i | 0 <= i < NumCells && h[i].Some?
        ensures h[i].value in CookiesOf(h) && InBoard(h[i].value.col, h[i].value.row) && Idx(h[i].value.col, h[i].value.row) == i
      {
        if i != Idx(column, row) {
          assert h[i] == g[i] && i != Idx(column, lookup);
        }
      }
    }

    /**
     * `topUpCookies`: column by column, from the top down while the squares
     * are empty, a new cookie goes on every tile square, its kind drawn
     * until it differs from the kind placed last (none, at first, across all
     * columns). The result lists per column the new cookies from the top
     * down. Running out of draws gives `ok == false`.
     */
    method TopUpCookies(draws: seq<Die>, pos: nat) returns (ok: bool, columns: seq<seq<Cookie>>, next: nat)
      requires Valid() && pos <= |draws|
      modifies cookies.buf
      ensures pos <= next <= |draws|
      ensures ok ==> Valid()
      ensures ok ==> forall c :: 0 <= c < NumCols ==> ToppedUp(Column(old(Grid()), c), Column(Grid(), c), TileColumn(Mask(), c))
      ensures ok ==> forall i :: 0 <= i < NumCells && Grid()[i] != old(Grid())[i] ==> Grid()[i].Some? && fresh(Grid()[i].value)
      ensures ok ==> columns == Added(old(Grid()), Grid(), NumCols)
      ensures ok ==> Kinds(Flatten(columns)) == Accept(draws[pos..next], Unknown)
    {
      ghost var g := Grid();
      columns := [];
      next := pos;
      var cookieType := Unknown;
      DrawnNone([], draws, pos, Unknown);
      ghost var made: set<Cookie> := {};
      var column := 0;
      while column < NumCols
        invariant 0 <= column <= NumCols && pos <= next <= |draws| && Valid()
        invariant ToppedBefore(g, Grid(), Mask(), columns, column)
        invariant MadeFrom(g, Grid(), made) && fresh(made)
        invariant Drawn(Flatten(columns), draws, pos, next, Unknown, cookieType)
      {
        ghost var before := Grid();
        ghost var added;
        ok, columns, next, cookieType, added := TopUpNext(column, draws, pos, next, cookieType, g, columns);
        if !ok {
          return false, columns, next;
        }
        MadeStep(g, before, Grid(), made, added);
        made := made + added;
        column := column + 1;
      }
      ok := true;
    }

    /** One turn of the column loop of `topUpCookies`: the column's new cookies, if any, join the list. */
    method TopUpNext(column: int, draws: seq<Die>, ghost pos: nat, start: nat, prev: CookieType, ghost g: seq<Option<Cookie>>, columns: seq<seq<Cookie>>)
      returns (ok: bool, columns': seq<seq<Cookie>>, next: nat, last: CookieType, ghost made: set<Cookie>)
      requires Valid() && 0 <= column < NumCols && pos <= start <= |draws|
      requires ToppedBefore(g, Grid(), Mask(), columns, column) && Drawn(Flatten(columns), draws, pos, start, Unknown, prev)
      modifies cookies.buf
      ensures start <= next <= |draws|
      ensures ok ==> Valid() && ToppedBefore(g, Grid(), Mask(), columns', column + 1)
      ensures ok ==> Drawn(Flatten(columns'), draws, pos, next, Unknown, last)
      ensures ok ==> MadeFrom(old(Grid()), Grid(), made) && fresh(made)
    {
      ghost var before := Grid();
      var fallen;
      ok, fallen, next, last, made := TopUpColumn(column, draws, start, prev);
      columns' := columns;
      if ok {
        ToppedStep(g, before, Grid(), Mask(), columns, fallen, column);
        DrawnColumn(columns, fallen, draws, pos, start, next, prev, last);
        if fallen != [] {
          columns' := columns + [fallen];
        }
      }
    }

    /** One column of `topUpCookies`, continuing from the kind `prev` placed last. */
    method TopUpColumn(column: int, draws: seq<Die>, pos: nat, prev: CookieType) returns (ok: bool, fallen: seq<Cookie>, next: nat, last: CookieType, ghost made: set<Cookie>)
      requires Valid() && 0 <= column < NumCols && pos <= |draws|
      modifies cookies.buf
      ensures pos <= next <= |draws|
      ensures ok ==> Valid() && ToppedColumn(old(Grid()), Grid(), Mask(), column, fallen)
      ensures ok ==> MadeFrom(old(Grid()), Grid(), made) && fresh(made)
      ensures ok ==> Drawn(fallen, draws, pos, next, prev, last)
    {
      ghost var g := Grid();
      made := {};
      fallen := [];
      next := pos;
      last := prev;
      DrawnNone(fallen, draws, pos, prev);
      var row := NumRows - 1;
      ToppingStart(g, Mask(), column);
      while row >= 0 && cookies.Get(column, row) == None
        invariant -1 <= row < NumRows && pos <= next <= |draws| && Valid()
        invariant ToppingUp(g, Grid(), Mask(), column, row, fallen)
        invariant MadeFrom(g, Grid(), made) && fresh(made)
        invariant Drawn(fallen, draws, pos, next, prev, last)
        decreases row
      {
        ghost var before := Grid();
        ghost var added;
        ok, fallen, next, last, added := TopUpRow(column, row, draws, pos, next, prev, last, g, fallen);
        if !ok {
          return false, fallen, next, last, made;
        }
        MadeStep(g, before, Grid(), made, added);
        made := made + added;
        row := row - 1;
      }
      ToppingDone(g, Grid(), Mask(), column, row, fallen);
      ok := true;
    }

    /** One turn of the row loop of `topUpCookies`: the new cookie, if any, joins the column's list and its kind becomes the last one. */
    method TopUpRow(column: int, row: int, draws: seq<Die>, ghost pos: nat, start: nat, ghost prev: CookieType, last: CookieType,
                    ghost g: seq<Option<Cookie>>, fallen: seq<Cookie>)
      returns (ok: bool, fallen': seq<Cookie>, next: nat, last': CookieType, ghost made: set<Cookie>)
      requires Valid() && 0 <= column < NumCols && 0 <= row < NumRows && Grid()[Idx(column, row)] == None
      requires ToppingUp(g, Grid(), Mask(), column, row, fallen)
      requires Drawn(fallen, draws, pos, start, prev, last)
      modifies cookies.buf
      ensures start <= next <= |draws|
      ensures ok ==> Valid() && ToppingUp(g, Grid(), Mask(), column, row - 1, fallen') && Drawn(fallen', draws, pos, next, prev, last')
      ensures ok ==> MadeFrom(old(Grid()), Grid(), made) && fresh(made)
    {
      ghost var before := Grid();
      IdxFacts(column, row);
      var added;
      ok, added, next := TopUpSquare(column, row, draws, start, last);
      fallen', last' := fallen, last;
      made := if added.Some? then {added.value} else {};
      if ok {
        ToppingStep(g, before, Grid(), Mask(), column, row, fallen, added);
        if added.Some? {
          KeptStep(draws, pos, start, next, prev, fallen, last, added.value);
          fallen' := fallen + [added.value];
          last' := added.value.cookieType;
        } else {
          assert fallen + [] == fallen;
        }
      }
    }

    /** The body of `topUpCookies` for the empty square (column, row): a new cookie of a kind other than `prev` when it is a tile square. */
    method TopUpSquare(column: int, row: int, draws: seq<Die>, start: nat, prev: CookieType) returns (ok: bool, added: Option<Cookie>, next: nat)
      requires Valid() && InBoard(column, row) && Grid()[Idx(column, row)] == None && start <= |draws|
      modifies cookies.buf
      ensures start <= next <= |draws|
      ensures ok ==> Valid() && Grid() == old(Grid())[Idx(column, row) := added]
      ensures ok ==> (added.Some? <==> Mask()[Idx(column, row)].Some?)
      ensures ok && added.Some? ==> fresh(added.value) && Accept(draws[start..next], prev) == [added.value.cookieType]
      ensures ok && added.None? ==> next == start
    {
      IdxFacts(column, row);
      next := start;
      added := None;
      ok := true;
      if tiles.Get(column, row) != None {
        var newCookieType;
        ok, newCookieType, next := DrawNew(draws, next, prev);
        if ok {
          var cookie := PlaceNew(column, row, newCookieType);
          added := Some(cookie);
        }
      } else {
        assert Grid() == Grid()[Idx(column, row) := None];
      }
    }

    /** The `repeat ... while` draw of `topUpCookies`: draws until the kind differs from `prev`. */
    method DrawNew(draws: seq<Die>, start: nat, prev: CookieType) returns (ok: bool, t: CookieType, next: nat)
      requires start <= |draws|
      ensures start <= next <= |draws|
      ensures ok ==> t != prev && Accept(draws[start..next], prev) == [t]
      ensures !ok ==> next == |draws| && Accept(draws[start..], prev) == []
    {
      next := start;
      if next == |draws| {
        return false, prev, next;
      }
      t := Random(draws[next]);
      next := next + 1;
      while t == prev
        invariant start < next <= |draws| && t == Random(draws[next - 1])
        invariant Accept(draws[start..next - 1], prev) == []
        decreases |draws| - next
      {
        DrawAgain(draws, start, next, prev);
        if next == |draws| {
          assert draws[start..] == draws[start..next];
          return false, t, next;
        }
        t := Random(draws[next]);
        next := next + 1;
      }
      DrawAgain(draws, start, next, prev);
      ok := true;
    }

    /** `Cookie(column:row:cookieType:)` put on the empty tile square (column, row). */
    method PlaceNew(column: int, row: int, kind: CookieType) returns (cookie: Cookie)
      requires Valid() && InBoard(column, row) && Mask()[Idx(column, row)].Some? && Grid()[Idx(column, row)] == None
      modifies cookies.buf
      ensures Valid() && fresh(cookie) && cookie.cookieType == kind
      ensures Grid() == old(Grid())[Idx(column, row) := Some(cookie)]
    {
      IdxFacts(column, row);
      ghost var g := Grid();
      cookie := new Cookie(column, row, kind);
      cookies.Set(column, row, Some(cookie));
      PlaceWellPlaced(g, cookie);
    }
  }

  /**
   * One square of `fillHoles` on a column that started as `before` and now
   * reads `cur`: squares from `row` up hold their old cookie or none, and
   * the cookie dropped onto `row`, if any, is the one more cookie that fell.
   */
  lemma FallStep(before: seq<Option<Cookie>>, cur: seq<Option<Cookie>>, t: seq<bool>, row: int)
    requires |before| == |cur| == |t| && 0 <= row < |cur| && Injective(before)
    requires forall r :: row <= r < |cur| ==> cur[r] == before[r] || cur[r] == None
    ensures DropAt(cur, t, row)[..row] == cur[..row]
    ensures forall r :: row + 1 <= r < |cur| ==> DropAt(cur, t, row)[r] == before[r] || DropAt(cur, t, row)[r] == None
    ensures DropAt(cur, t, row)[row] != cur[row] ==> DropAt(cur, t, row)[row].Some?
    ensures Changed(before[..row + 1], DropAt(cur, t, row)[..row + 1]) ==
      Changed(before[..row], cur[..row]) + (if DropAt(cur, t, row)[row] != cur[row] then [DropAt(cur, t, row)[row].value] else [])
  {
    var next := DropAt(cur, t, row);
    assert next[..row + 1] == cur[..row] + [next[row]] && before[..row + 1] == before[..row] + [before[row]];
    ChangedAppend(before[..row], [before[row]], cur[..row], [next[row]]);
  }

  /** One more draw after a run of rejected ones: kept exactly when it differs from `prev`. */
  lemma DrawAgain(draws: seq<Die>, start: int, next: int, prev: CookieType)
    requires 0 <= start < next <= |draws| && Accept(draws[start..next - 1], prev) == []
    ensures Accept(draws[start..next], prev) == if Random(draws[next - 1]) == prev then [] else [Random(draws[next - 1])]
  {
    assert draws[start..next] == draws[start..next - 1] + [draws[next - 1]];
    AcceptSnoc(draws[start..next - 1], draws[next - 1], prev);
  }

  /** The squares of column `s` above `row` are empty in `s` and, in `cur`, filled exactly on tiles, the new cookies being `fallen` from the top down; the rest is as in `s`. */
  predicate ToppedAbove(s: seq<Option<Cookie>>, cur: seq<Option<Cookie>>, t: seq<bool>, row: int, fallen: seq<Cookie>) {
    |s| == |cur| == |t| && -1 <= row < |s| &&
    (forall r :: row < r < |s| ==> s[r].None? && (if t[r] then cur[r].Some? else cur[r] == s[r])) &&
    (forall r :: 0 <= r <= row ==> cur[r] == s[r]) &&
    fallen == Reversed(Changed(s[row + 1..], cur[row + 1..]))
  }

  /** One square of the top-down fill: an empty square was passed, a tile square took a new cookie, which joins the list. */
  lemma TopStep(s: seq<Option<Cookie>>, cur: seq<Option<Cookie>>, next: seq<Option<Cookie>>, t: seq<bool>, row: int,
                fallen: seq<Cookie>, added: Option<Cookie>)
    requires ToppedAbove(s, cur, t, row, fallen) && 0 <= row && cur[row].None?
    requires next == cur[row := added] && (added.Some? <==> t[row])
    ensures ToppedAbove(s, next, t, row - 1, fallen + (if added.Some? then [added.value] else []))
  {
    assert s[row + 1..] == s[row..][1..] && next[row + 1..] == next[row..][1..] && cur[row + 1..] == next[row + 1..];
    if added.Some? {
      ReversedCons(added.value, Changed(s[row + 1..], cur[row + 1..]));
    }
  }

  /**
   * The new cookies `fallen` have the kinds kept from the draws from `pos`
   * to `next`, starting from `prev`; `last` is the kind placed last.
   */
  ghost predicate Drawn(fallen: seq<Cookie>, draws: seq<Die>, pos: int, next: int, prev: CookieType, last: CookieType) {
    0 <= pos <= next <= |draws| && Kinds(fallen) == Accept(draws[pos..next], prev) && last == LastOr(Kinds(fallen), prev)
  }

  /** A kept draw extends the kinds placed so far. */
  lemma KeptStep(draws: seq<Die>, pos: int, start: int, next: int, prev: CookieType, fallen: seq<Cookie>, last: CookieType, x: Cookie)
    requires Drawn(fallen, draws, pos, start, prev, last) && start <= next <= |draws|
    requires Accept(draws[start..next], last) == [x.cookieType]
    ensures Drawn(fallen + [x], draws, pos, next, prev, x.cookieType)
  {
    assert draws[pos..next] == draws[pos..start] + draws[start..next];
    AcceptConcat(draws[pos..start], draws[start..next], prev);
    KindsSnoc(fallen, x);
  }

  /** Columns 0 .. column-1 of `h` are those of `g` settled, the others are those of `g`. */
  ghost predicate SettledBefore(g: seq<Option<Cookie>>, h: seq<Option<Cookie>>, m: seq<Option<Tile>>, column: int) {
    |g| == NumCells && |h| == NumCells && |m| == NumCells && 0 <= column <= NumCols &&
    (forall c :: 0 <= c < column ==> Column(h, c) == Settle(Column(g, c), TileColumn(m, c), 0)) &&
    (forall c :: column <= c < NumCols ==> Column(h, c) == Column(g, c))
  }

  /** Column `column` of `h` is that of `b` settled; the other columns are those of `b`. */
  ghost predicate SettledColumn(b: seq<Option<Cookie>>, h: seq<Option<Cookie>>, m: seq<Option<Tile>>, column: int) {
    |b| == NumCells && |h| == NumCells && |m| == NumCells && 0 <= column < NumCols &&
    Column(h, column) == Settle(Column(b, column), TileColumn(m, column), 0) &&
    (forall c :: 0 <= c < NumCols && c != column ==> Column(h, c) == Column(b, c))
  }

  /**
   * Rows below `row` of column `column` of `h` are done: settling `h` from
   * `row` on gives the settled column of `g`; `fallen` lists the cookies
   * that moved so far; the rest of the column is as in `g` or emptied; the
   * other columns are those of `g`.
   */
  ghost predicate Falling(g: seq<Option<Cookie>>, h: seq<Option<Cookie>>, m: seq<Option<Tile>>, column: int, row: int, fallen: seq<Cookie>) {
    |g| == NumCells && |h| == NumCells && |m| == NumCells && 0 <= column < NumCols && 0 <= row <= NumRows &&
    Injective(Column(g, column)) &&
    Settle(Column(h, column), TileColumn(m, column), row) == Settle(Column(g, column), TileColumn(m, column), 0) &&
    (forall c :: 0 <= c < NumCols && c != column ==> Column(h, c) == Column(g, c)) &&
    (forall r :: row <= r < NumRows ==> Column(h, column)[r] == Column(g, column)[r] || Column(h, column)[r] == None) &&
    fallen == Changed(Column(g, column)[..row], Column(h, column)[..row])
  }

  /** One square of the column loop of `fillHoles`. */
  lemma FallingStep(g: seq<Option<Cookie>>, cur: seq<Option<Cookie>>, next: seq<Option<Cookie>>, m: seq<Option<Tile>>,
                    column: int, row: int, fallen: seq<Cookie>, moved: Option<Cookie>)
    requires Falling(g, cur, m, column, row, fallen) && row < NumRows && |next| == NumCells
    requires Column(next, column) == DropAt(Column(cur, column), TileColumn(m, column), row)
    requires forall c :: 0 <= c < NumCols && c != column ==> Column(next, c) == Column(cur, c)
    requires moved.Some? <==> Column(next, column)[row] != Column(cur, column)[row]
    requires moved.Some? ==> Column(next, column)[row] == moved
    ensures Falling(g, next, m, column, row + 1, fallen + (if moved.Some? then [moved.value] else []))
  {
    FallStep(Column(g, column), Column(cur, column), TileColumn(m, column), row);
  }

  /** The column loop of `fillHoles` done: the column is settled and `fallen` lists what moved. */
  lemma FallingDone(g: seq<Option<Cookie>>, h: seq<Option<Cookie>>, m: seq<Option<Tile>>, column: int, fallen: seq<Cookie>)
    requires Falling(g, h, m, column, NumRows, fallen)
    ensures SettledColumn(g, h, m, column) && fallen == Changed(Column(g, column), Column(h, column))
  {
    assert Column(g, column)[..NumRows] == Column(g, column) && Column(h, column)[..NumRows] == Column(h, column);
  }

  /** One more column of `fillHoles`, and the list of fallen cookies that goes with it. */
  lemma SettledStep(g: seq<Option<Cookie>>, before: seq<Option<Cookie>>, h: seq<Option<Cookie>>, m: seq<Option<Tile>>, column: int,
                    columns: seq<seq<Cookie>>, fallen: seq<Cookie>)
    requires SettledBefore(g, before, m, column) && columns == Fallen(g, before, column)
    requires SettledColumn(before, h, m, column) && fallen == Changed(Column(before, column), Column(h, column))
    ensures SettledBefore(g, h, m, column + 1)
    ensures Fallen(g, h, column + 1) == columns + (if fallen == [] then [] else [fallen])
  {
    FallenFrame(g, before, h, column);
  }

  /** Once every column is settled, each is compacted and keeps its cookies in order. */
  lemma SettledAll(g: seq<Option<Cookie>>, h: seq<Option<Cookie>>, m: seq<Option<Tile>>)
    requires SettledBefore(g, h, m, NumCols) && OnTiles(g, m)
    ensures forall c :: 0 <= c < NumCols ==> Column(h, c) == Settle(Column(g, c), TileColumn(m, c), 0)
    ensures forall c :: 0 <= c < NumCols ==>
      Compacted(Column(h, c), TileColumn(m, c)) && Present(Column(h, c)) == Present(Column(g, c))
  {
    ColumnsOnTiles(g, m);
    forall c | 0 <= c < NumCols
      ensures Compacted(Column(h, c), TileColumn(m, c)) && Present(Column(h, c)) == Present(Column(g, c))
    {
      SettleIsGravity(Column(g, c), TileColumn(m, c), Column(g, c));
    }
  }

  /** Two stretches of drawing, one after the other, as one. */
  lemma DrawnConcat(a: seq<Cookie>, b: seq<Cookie>, draws: seq<Die>, pos: int, mid: int, next: int, prev: CookieType, l1: CookieType, l2: CookieType)
    requires Drawn(a, draws, pos, mid, prev, l1) && Drawn(b, draws, mid, next, l1, l2)
    ensures Drawn(a + b, draws, pos, next, prev, l2)
  {
    var da, db := draws[pos..mid], draws[mid..next];
    assert draws[pos..next] == da + db;
    AcceptConcat(da, db, prev);
    KindsConcat(a, b);
    LastOrConcat(Kinds(a), Kinds(b), prev);
    assert Accept(da + db, prev) == Kinds(a) + Kinds(b);
  }

  /** The new cookies of one more column, when there are any, join those listed so far. */
  lemma DrawnColumn(columns: seq<seq<Cookie>>, fallen: seq<Cookie>, draws: seq<Die>, pos: int, mid: int, next: int, l1: CookieType, l2: CookieType)
    requires Drawn(Flatten(columns), draws, pos, mid, Unknown, l1) && Drawn(fallen, draws, mid, next, l1, l2)
    ensures Drawn(Flatten(if fallen == [] then columns else columns + [fallen]), draws, pos, next, Unknown, l2)
  {
    DrawnConcat(Flatten(columns), fallen, draws, pos, mid, next, Unknown, l1, l2);
    FlattenSnoc(columns, fallen);
    if fallen == [] {
      assert Flatten(columns) + fallen == Flatten(columns);
    }
  }

  /** No draw, no kind. */
  lemma DrawnNone(fallen: seq<Cookie>, draws: seq<Die>, pos: int, prev: CookieType)
    requires fallen == [] && 0 <= pos <= |draws|
    ensures Drawn(fallen, draws, pos, pos, prev, prev)
  {
    assert draws[pos..pos] == [];
  }


  /**
   * Columns 0 .. column-1 of h are those of g topped up, `columns` lists
   * their new cookies, and the other columns are as in g.
   */
  predicate ToppedBefore(g: seq<Option<Cookie>>, h: seq<Option<Cookie>>, m: seq<Option<Tile>>, columns: seq<seq<Cookie>>, column: int) {
    |g| == NumCells && |h| == NumCells && |m| == NumCells && 0 <= column <= NumCols &&
    (forall c :: 0 <= c < column ==> ToppedUp(Column(g, c), Column(h, c), TileColumn(m, c))) &&
    (forall c :: column <= c < NumCols ==> Column(h, c) == Column(g, c)) &&
    columns == Added(g, h, column)
  }

  /** Topping up one more column. */
  lemma ToppedStep(g: seq<Option<Cookie>>, before: seq<Option<Cookie>>, after: seq<Option<Cookie>>, m: seq<Option<Tile>>,
                   columns: seq<seq<Cookie>>, fallen: seq<Cookie>, column: int)
    requires ToppedBefore(g, before, m, columns, column) && column < NumCols && |after| == NumCells
    requires ToppedColumn(before, after, m, column, fallen)
    ensures ToppedBefore(g, after, m, if fallen == [] then columns else columns + [fallen], column + 1)
  {
    AddedFrame(g, before, after, column);
  }

  /** Column `column` of `h` is that of `b` topped up, `fallen` holds its new cookies from the top down, and the other columns are those of `b`. */
  ghost predicate ToppedColumn(b: seq<Option<Cookie>>, h: seq<Option<Cookie>>, m: seq<Option<Tile>>, column: int, fallen: seq<Cookie>) {
    |b| == NumCells && |h| == NumCells && |m| == NumCells && 0 <= column < NumCols &&
    (forall c :: 0 <= c < NumCols && c != column ==> Column(h, c) == Column(b, c)) &&
    ToppedUp(Column(b, column), Column(h, column), TileColumn(m, column)) &&
    fallen == Reversed(Changed(Column(b, column), Column(h, column)))
  }

  /** Every square where `h` differs from `g` holds one of the cookies `made`. */
  ghost predicate MadeFrom(g: seq<Option<Cookie>>, h: seq<Option<Cookie>>, made: set<Cookie>) {
    |g| == |h| && forall i :: 0 <= i < |h| && h[i] != g[i] ==> h[i].Some? && h[i].value in made
  }

  /** Cookies made in two stretches, one after the other. */
  lemma MadeStep(g: seq<Option<Cookie>>, mid: seq<Option<Cookie>>, h: seq<Option<Cookie>>, made: set<Cookie>, added: set<Cookie>)
    requires MadeFrom(g, mid, made) && MadeFrom(mid, h, added)
    ensures MadeFrom(g, h, made + added)
  {
  }

  /**
   * Column `column` of `h` is being topped up from the top down, rows above
   * `row` done, with `fallen` the new cookies so far; the other columns are
   * those of `g`.
   */
  ghost predicate ToppingUp(g: seq<Option<Cookie>>, h: seq<Option<Cookie>>, m: seq<Option<Tile>>, column: int, row: int, fallen: seq<Cookie>) {
    |g| == NumCells && |h| == NumCells && |m| == NumCells && 0 <= column < NumCols && -1 <= row < NumRows &&
    (forall c :: 0 <= c < NumCols && c != column ==> Column(h, c) == Column(g, c)) &&
    ToppedAbove(Column(g, column), Column(h, column), TileColumn(m, column), row, fallen)
  }

  lemma ToppingStart(g: seq<Option<Cookie>>, m: seq<Option<Tile>>, column: int)
    requires |g| == NumCells && |m| == NumCells && 0 <= column < NumCols
    ensures ToppingUp(g, g, m, column, NumRows - 1, [])
  {
    var s := Column(g, column);
    assert s[NumRows..] == [];
  }

  /** One empty square of the column, filled with `added`, a new cookie exactly on a tile square. */
  lemma ToppingStep(g: seq<Option<Cookie>>, cur: seq<Option<Cookie>>, h: seq<Option<Cookie>>, m: seq<Option<Tile>>,
                    column: int, row: int, fallen: seq<Cookie>, added: Option<Cookie>)
    requires ToppingUp(g, cur, m, column, row, fallen) && 0 <= row && cur[Idx(column, row)].None?
    requires h == cur[Idx(column, row) := added] && (added.Some? <==> m[Idx(column, row)].Some?)
    ensures ToppingUp(g, h, m, column, row - 1, fallen + (if added.Some? then [added.value] else []))
  {
    ColumnSet(cur, column, row, added);
    TopStep(Column(g, column), Column(cur, column), Column(h, column), TileColumn(m, column), row, fallen, added);
  }

  /** The top-down fill of a column, stopped at a cookie or past the top row, has topped it up. */
  lemma ToppingDone(g: seq<Option<Cookie>>, h: seq<Option<Cookie>>, m: seq<Option<Tile>>, column: int, row: int, fallen: seq<Cookie>)
    requires ToppingUp(g, h, m, column, row, fallen) && (row == -1 || h[Idx(column, row)].Some?)
    ensures ToppedColumn(g, h, m, column, fallen)
  {
    TopDone(Column(g, column), Column(h, column), TileColumn(m, column), row, fallen);
  }

  /** The top-down fill stops at the first cookie from the top, which is where `Top` puts it. */
  lemma TopDone(s: seq<Option<Cookie>>, cur: seq<Option<Cookie>>, t: seq<bool>, row: int, fallen: seq<Cookie>)
    requires ToppedAbove(s, cur, t, row, fallen) && (row == -1 || cur[row].Some?)
    ensures Top(s) == row + 1
    ensures ToppedUp(s, cur, t)
    ensures fallen == Reversed(Changed(s, cur))
  {
    TopExact(s, row + 1);
    assert Top(s) == row + 1;
    ChangedAbove(s, cur, row + 1);
  }

  /** Squares below `k` that did not change add nothing to what changed. */
  lemma ChangedAbove(s: seq<Option<Cookie>>, cur: seq<Option<Cookie>>, k: int)
    requires |s| == |cur| && 0 <= k <= |s| && s[..k] == cur[..k]
    ensures Changed(s, cur) == Changed(s[k..], cur[k..])
  {
    var low, high, high' := s[..k], s[k..], cur[k..];
    assert s == low + high;
    assert cur == low + high';
    ChangedSame(low);
    ChangedAppend(low, high, low, high');
  }

  /** The points `calculateScores` gives a chain of `length` cookies at combo multiplier `multiplier`: 60 per cookie beyond two, times the multiplier. */
  function Score(length: int, multiplier: int): int {
    60 * (length - 2) * multiplier
  }

  /**
   * A chain of three scores 60 times the multiplier and every further cookie
   * adds as much again; before the first `resetComboMultiplier` the
   * multiplier is 0 and the first chain scores nothing.
   */
  lemma ScoreFacts(length: int, multiplier: int)
    requires length >= 3
    ensures Score(3, multiplier) == 60 * multiplier
    ensures Score(length + 1, multiplier) == Score(length, multiplier) + 60 * multiplier
    ensures Score(length, 0) == 0
    ensures multiplier >= 1 ==> Score(length, multiplier) >= 60 * multiplier
  {
    assert Score(length + 1, multiplier) == 60 * (length - 2) * multiplier + 60 * multiplier;
    if multiplier >= 1 {
      assert (length - 2) * multiplier >= multiplier;
    }
  }

  /** The cookies `cs` record, in order, the squares of `run`. */
  ghost predicate Located(cs: seq<Cookie>, dir: Axis, run: Run)
    reads (set x | x in cs)`col, (set x | x in cs)`row
  {
    |cs| == run.span.end - run.span.start &&
    forall j :: 0 <= j < |cs| ==>
      0 <= Idx(cs[j].col, cs[j].row) < NumCells && Idx(cs[j].col, cs[j].row) == CellOf(dir, run.line, run.span.start + j)
  }

  /** The cookies of chains built on a board of well-placed cookies record the squares of their runs. */
  lemma LocatedFromBuilt(chains: seq<Chain>, g: seq<Option<Cookie>>, dir: Axis, runs: seq<Run>)
    requires WellPlaced(g) && Built(chains, g, dir, runs)
    ensures forall i :: 0 <= i < |chains| ==> Located(chains[i].cookies, dir, runs[i])
  {
    forall i | 0 <= i < |chains|
      ensures Located(chains[i].cookies, dir, runs[i])
    {
      var cs := chains[i].cookies;
      forall j | 0 <= j < |cs|
        ensures 0 <= Idx(cs[j].col, cs[j].row) < NumCells && Idx(cs[j].col, cs[j].row) == CellOf(dir, runs[i].line, runs[i].span.start + j)
      {
        assert g[CellOf(dir, runs[i].line, runs[i].span.start + j)] == Some(cs[j]);
      }
    }
  }

  /** Emptying squares keeps cookies on their own squares and on tiles. */
  lemma ClearKeepsValid(g: seq<Option<Cookie>>, h: seq<Option<Cookie>>, t: seq<Option<Tile>>)
    requires WellPlaced(g) && OnTiles(g, t) && |h| == |g|
    requires forall p :: 0 <= p < |h| ==> h[p] == None || h[p] == g[p]
    ensures WellPlaced(h) && OnTiles(h, t)
  {
    forall p | 0 <= p < |h| && h[p].Some?
      ensures h[p].value in CookiesOf(h)
    {
    }
  }

  /** A run's cookies followed by the cookie on the next square hold the run one longer. */
  lemma HoldsSnoc(cs: seq<Cookie>, x: Cookie, g: seq<Option<Cookie>>, dir: Axis, run: Run)
    requires Holds(cs, g, dir, run) && run.span.end < 9 && g[CellOf(dir, run.line, run.span.end)] == Some(x)
    ensures Holds(cs + [x], g, dir, Run(run.line, Span(run.span.start, run.span.end + 1)))
  {
  }

  /** One more cookie of a growing chain: it holds one more square, and the run still ends at the same place. */
  lemma GrowStep(cs: seq<Cookie>, x: Cookie, g: seq<Option<Cookie>>, dir: Axis, k: int, start: int, end: int, t: CookieType)
    requires |g| == NumCells && 0 <= k < 9 && 0 <= start < end < 9
    requires Holds(cs, g, dir, Run(k, Span(start, end)))
    requires g[CellOf(dir, k, end)] == Some(x) && LineOf(g, dir, k)[end] == Some(t)
    requires RunEnd(LineOf(g, dir, k), t, start + 1) == RunEnd(LineOf(g, dir, k), t, end)
    ensures Holds(cs + [x], g, dir, Run(k, Span(start, end + 1)))
    ensures RunEnd(LineOf(g, dir, k), t, start + 1) == RunEnd(LineOf(g, dir, k), t, end + 1)
  {
    HoldsSnoc(cs, x, g, dir, Run(k, Span(start, end)));
  }

  /**
   * What `removeMatches` returns on board `g` at multiplier `m`: one chain per
   * horizontal run and then one per vertical run, each holding its run's
   * cookies in order and scored at the multiplier it was reached at.
   */
  ghost predicate Scored(chains: seq<Chain>, g: seq<Option<Cookie>>, m: int)
    reads chains`cookies, chains`chainType, chains`score
  {
    var hr, vr := Runs(g, Horizontal), Runs(g, Vertical);
    |chains| == |hr| + |vr| &&
    forall i :: 0 <= i < |chains| ==>
      chains[i].score == Score(|chains[i].cookies|, m + i) &&
      (i < |hr| ==> chains[i].chainType == Horizontal && Holds(chains[i].cookies, g, Horizontal, hr[i])) &&
      (i >= |hr| ==> chains[i].chainType == Vertical && Holds(chains[i].cookies, g, Vertical, vr[i - |hr|]))
  }

  /** The chains of one pass, scored from multiplier `m` on, still hold the cookies of `runs` in order. */
  ghost predicate ScoredRuns(chains: seq<Chain>, g: seq<Option<Cookie>>, dir: Axis, runs: seq<Run>, m: int)
    reads chains`cookies, chains`chainType, chains`score
  {
    |chains| == |runs| &&
    forall i :: 0 <= i < |chains| ==>
      chains[i].score == Score(|chains[i].cookies|, m + i) && chains[i].chainType == dir && Holds(chains[i].cookies, g, dir, runs[i])
  }

  /** The horizontal pass's chains followed by the vertical pass's, scored in that order. */
  lemma ScoredJoin(horizontal: seq<Chain>, vertical: seq<Chain>, g: seq<Option<Cookie>>, m: int)
    requires ScoredRuns(horizontal, g, Horizontal, Runs(g, Horizontal), m)
    requires ScoredRuns(vertical, g, Vertical, Runs(g, Vertical), m + |horizontal|)
    ensures Scored(horizontal + vertical, g, m)
  {
    var chains := horizontal + vertical;
    forall i | 0 <= i < |chains|
      ensures chains[i] == if i < |horizontal| then horizontal[i] else vertical[i - |horizontal|]
    {
    }
  }

  /**
   * No two chains `removeMatches` returns are `==`, so the `union` of the
   * two passes keeps every chain of both.
   */
  lemma ScoredDistinct(chains: seq<Chain>, g: seq<Option<Cookie>>, m: int)
    requires WellPlaced(g) && Scored(chains, g, m)
    ensures forall i, j :: 0 <= i < j < |chains| ==> !ChainEq(chains[i], chains[j])
  {
    forall i, j | 0 <= i < j < |chains|
      ensures !ChainEq(chains[i], chains[j])
    {
      var d1, r1, n1 := ScoredRun(chains, g, m, i);
      var d2, r2, n2 := ScoredRun(chains, g, m, j);
      ChainShape(chains[i].cookies, g, d1, r1);
      if d1 == d2 {
        RunsOrdered(g, d1, 9);
        assert n1 < n2;
      }
      RunChainsDiffer(g, chains[i].cookies, chains[j].cookies, d1, r1, d2, r2);
    }
  }

  /** Chain i of the result holds run n of the horizontal pass, or of the vertical pass after the horizontal ones. */
  lemma ScoredRun(chains: seq<Chain>, g: seq<Option<Cookie>>, m: int, i: int) returns (d: Axis, r: Run, n: int)
    requires Scored(chains, g, m) && 0 <= i < |chains|
    ensures n == if d == Horizontal then i else i - |Runs(g, Horizontal)|
    ensures 0 <= n < |Runs(g, d)| && r == Runs(g, d)[n] && r in Runs(g, d) && Holds(chains[i].cookies, g, d, r)
  {
    var hr := Runs(g, Horizontal);
    if i < |hr| {
      d, r, n := Horizontal, hr[i], i;
    } else {
      d, r, n := Vertical, Runs(g, Vertical)[i - |hr|], i - |hr|;
    }
  }

  /** `chains` are distinct chains of orientation `dir` and score 0 holding, in order, the cookies of `runs`. */
  ghost predicate Built(chains: seq<Chain>, g: seq<Option<Cookie>>, dir: Axis, runs: seq<Run>)
    reads chains`cookies, chains`chainType, chains`score
  {
    |chains| == |runs| &&
    (forall i :: 0 <= i < |chains| ==>
      chains[i].chainType == dir && chains[i].score == 0 && Holds(chains[i].cookies, g, dir, runs[i])) &&
    (forall i, j :: 0 <= i < j < |chains| ==> chains[i] != chains[j])
  }

  /** A chain grown from `start` on line k extends the chains found so far by the next span of the scan. */
  lemma MatchStep(chains: seq<Chain>, chain: Chain, g: seq<Option<Cookie>>, dir: Axis, k: int, done: seq<Span>, start: int, end: int)
    requires |g| == NumCells && 0 <= k < 9 && 0 <= start < 9 && Three(LineOf(g, dir, k), start)
    requires end == RunEnd(LineOf(g, dir, k), LineOf(g, dir, k)[start].value, start + 1)
    requires Scan(LineOf(g, dir, k), 0) == done + Scan(LineOf(g, dir, k), start)
    requires Built(chains, g, dir, Tag(k, done)) && Built([chain], g, dir, [Run(k, Span(start, end))])
    requires chain !in chains
    ensures Scan(LineOf(g, dir, k), 0) == (done + [Span(start, end)]) + Scan(LineOf(g, dir, k), end)
    ensures Built(chains + [chain], g, dir, Tag(k, done + [Span(start, end)]))
  {
    ScanAt(LineOf(g, dir, k), start);
    TagSnoc(k, done, Span(start, end));
    BuiltSnoc(chains, chain, g, dir, Tag(k, done), Run(k, Span(start, end)));
  }

  /** A scan that finds three in a row at `start` reports the run there and goes on after it. */
  lemma ScanAt(l: Line, start: nat)
    requires start < |l| && Three(l, start)
    ensures Scan(l, start) == [Span(start, RunEnd(l, l[start].value, start + 1))] + Scan(l, RunEnd(l, l[start].value, start + 1))
  {
  }

  lemma TagSnoc(k: int, spans: seq<Span>, span: Span)
    ensures Tag(k, spans + [span]) == Tag(k, spans) + [Run(k, span)]
  {
    TagAppend(k, spans, [span]);
    assert Tag(k, [span]) == [Run(k, span)];
  }

  /** One more chain, distinct from those before it, built from one more run. */
  lemma BuiltSnoc(chains: seq<Chain>, chain: Chain, g: seq<Option<Cookie>>, dir: Axis, runs: seq<Run>, run: Run)
    requires Built(chains, g, dir, runs) && Built([chain], g, dir, [run]) && chain !in chains
    ensures Built(chains + [chain], g, dir, runs + [run])
  {
    BuiltAppend(chains, [chain], g, dir, runs, [run]);
  }

  lemma BuiltAppend(a: seq<Chain>, b: seq<Chain>, g: seq<Option<Cookie>>, dir: Axis, ra: seq<Run>, rb: seq<Run>)
    requires Built(a, g, dir, ra) && Built(b, g, dir, rb)
    requires forall i, j :: 0 <= i < |a| && 0 <= j < |b| ==> a[i] != b[j]
    ensures Built(a + b, g, dir, ra + rb)
  {
  }
}

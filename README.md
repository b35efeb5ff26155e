# CookieCrunch rules engine in Dafny

This project models the match-3 rules engine of CookieCrunch, a SpriteKit puzzle
game, and proves what the engine promises. The engine is the class `Level` together with
the small types it uses:

- `Array2D`: the row-major grid store.
- `Cookie` and `CookieType`: the game pieces.
- `Chain`: a detected match.
- `Swap`: a proposed move.

A level is a 9 x 9 board with row 0 at the bottom. It holds a mask of tiles, loaded from
a level file whose rows are listed top-down, and a grid of optional cookies. Each cookie
is an object that records its own column and row. On this board the level:

- fills the board with cookies so that no three in a row appear (`createInitialCookies`,
  `shuffle`);
- finds every swap of neighbours that makes a chain (`detectPossibleSwaps`, using
  `hasChainAtColumn`);
- exchanges two cookies (`performSwap`);
- finds the horizontal and vertical chains with a greedy scan, empties their squares and
  scores them with a growing combo multiplier (`removeMatches`);
- lets cookies fall into the holes (`fillHoles`);
- drops new cookies in from the top, never two of one kind in a row (`topUpCookies`).

The modules follow the source files:

| module | file | form |
|---|---|---|
| `Grid2D` | `Array2D.swift` | class `Array2D` over an `array` buffer, with pure index arithmetic |
| `Cookies` | `Cookie.swift` | `CookieType` datatype; `Cookie` class with mutable `col` and `row`; `==` and `hashValue` as functions |
| `Chains` | `Chain.swift` | `Chain` class with `AddCookie`; equality and the XOR hash as functions |
| `Swaps` | `Swap.swift` | immutable `Swap` datatype; symmetric equality and hash |
| `Bitwise` | - | Swift's `^` on `Int`, which both hash functions use |
| `Lines` | `Level.swift` | the chain scan on one row or column, as pure functions |
| `Board` | `Level.swift` | the rules on a snapshot of the 81 squares: chains, legal swaps, gravity, refill |
| `Levels` | `Level.swift` | class `Level` with its two `Array2D` grids, `possibleSwaps` and `comboMultiplier`; every operation a method with the source's loops |

Each method of `Level` is proved against a function or predicate of `Board` or `Lines`.
The properties the game relies on are lemmas about those definitions. Examples:

- The scan reports exactly the maximal runs of three or more.
- Gravity is the unique compacted arrangement that keeps each column's order.
- Consecutive new cookies differ in kind.

Random draws are an input. `CookieType.random()` becomes `Random(d)` for a draw `d` in
0..5. A method that draws takes the sequence of draws and the position of the next
one. It returns the position after the draws it used, and `ok == false` if the draws
ran out.

The column loop of the horizontal scan is bounded by `NumRows - 2` (Level.swift:210),
where the row length is `NumCols`. That bound is correct only because the board is
square. The vertical scan's row loop is bounded by `NumRows - 2` (Level.swift:244),
which is right on any board. The model fixes the board at 9 x 9
(`NumRows == NumCols == 9`), so both scans use the line length.

## Model

| member | source | states |
|---|---|---|
| Grid2D.IndexInRange | CookieCrunch/Array2D.swift:20-26 | an in-range (col, row) maps to a slot `row*cols + col` inside the buffer of `rows*cols` |
| Grid2D.IndexInjective | CookieCrunch/Array2D.swift:20-26 | two in-range coordinate pairs that share a slot are the same pair |
| Grid2D.Array2D.constructor | CookieCrunch/Array2D.swift:14-18 | a new grid has `rows*cols` cells, all empty, and keeps the given dimensions |
| Grid2D.Array2D.Get | CookieCrunch/Array2D.swift:20-23 | the getter returns the cell at slot `row*cols + col` |
| Grid2D.Array2D.Set | CookieCrunch/Array2D.swift:24-26 | the setter writes that one slot; reading it back gives the value; every other in-range cell is unchanged |
| Cookies.CookieType.RawValue | CookieCrunch/Cookie.swift:11-12 | raw values lie in 0..6, and 0 is exactly `Unknown` |
| Cookies.CookieType.SpriteName | CookieCrunch/Cookie.swift:14-24 | defined only for kinds other than `Unknown`, and is one of the six image names |
| Cookies.CookieType.HighlightedSpriteName | CookieCrunch/Cookie.swift:26-28 | the sprite name followed by "-Highlighted", and never itself a sprite name |
| Cookies.FromRaw | CookieCrunch/Cookie.swift:11-12 | the failable `init(rawValue:)` succeeds exactly on 0..6 and inverts `RawValue` |
| Cookies.Random | CookieCrunch/Cookie.swift:30-32 | `random()` yields a raw value in 1..6, never `Unknown` |
| Cookies.RandomCoversKinds | CookieCrunch/Cookie.swift:30-32 | each real kind comes from exactly one draw |
| Cookies.SpriteNameInjective | CookieCrunch/Cookie.swift:14-24 | distinct kinds have distinct sprite names |
| Cookies.Cookie.constructor | CookieCrunch/Cookie.swift:53-57 | a new cookie holds the given column, row and kind |
| Cookies.SameIsEquivalence | CookieCrunch/Cookie.swift:60-62 | cookie `==` is reflexive, symmetric and transitive |
| Cookies.SameIgnoresKind | CookieCrunch/Cookie.swift:60-62 | two cookies on one square are `==` whatever their kinds |
| Cookies.SameHashesEqual | CookieCrunch/Cookie.swift:49-62 | `==` cookies have equal `hashValue` |
| Cookies.HashDistinctOnBoard | CookieCrunch/Cookie.swift:49-51 | `row*10 + col` separates distinct squares when the board is at most ten columns wide |
| Swaps.SwapEqSymmetricPair | CookieCrunch/Swap.swift:27-30 | `Swap(a, b) == Swap(b, a)` |
| Swaps.SwapEqIsPairEquality | CookieCrunch/Swap.swift:27-30 | swap `==` holds exactly when the two unordered pairs of squares are equal |
| Swaps.SwapEqIsEquivalence | CookieCrunch/Swap.swift:27-30 | swap `==` is reflexive, symmetric and transitive |
| Swaps.SwapHashSymmetric | CookieCrunch/Swap.swift:22-24 | the hash does not depend on the order of the two cookies |
| Swaps.SwapEqHashesEqual | CookieCrunch/Swap.swift:22-30 | `==` swaps have equal hashes |
| Bitwise.XorCommutes | CookieCrunch/Swap.swift:22-24 | `^` is commutative |
| Bitwise.XorAssociates | CookieCrunch/Chain.swift:53-55 | `^` is associative |
| Bitwise.XorZero | CookieCrunch/Chain.swift:53-55 | 0 is the unit of `^`, the seed of the `reduce` |
| Bitwise.Xor | CookieCrunch/Swap.swift:22-24 | the lowest bit of `^` is set exactly when the operands' lowest bits differ |
| Bitwise.XorInRange | CookieCrunch/Swap.swift:22-24 | operands of k + 1 two's-complement bits give a result of k + 1 bits |
| Bitwise.XorInt64 | CookieCrunch/Swap.swift:22-24 | `^` of two 64-bit `Int` values is a 64-bit `Int`, so it never wraps |
| Chains.Chain.constructor | CookieCrunch/Chain.swift:10-31 | a new chain has no cookies, score 0 and the given type |
| Chains.Chain.AddCookie | CookieCrunch/Chain.swift:33-35 | appends at the end: one longer, the new cookie last, the first unchanged |
| Chains.Chain.Length | CookieCrunch/Chain.swift:45-47 | the number of cookies |
| Chains.Chain.FirstCookie | CookieCrunch/Chain.swift:37-39 | element 0, defined only on a non-empty chain |
| Chains.Chain.LastCookie | CookieCrunch/Chain.swift:41-43 | element `count - 1`, defined only on a non-empty chain |
| Chains.Hashes | CookieCrunch/Chain.swift:53-55 | the cookies' hashes, one per cookie and in order |
| Chains.ChainEqIsEquivalence | CookieCrunch/Chain.swift:58-60 | chain `==`, element-wise cookie `==`, is an equivalence |
| Chains.ChainEqHashesEqual | CookieCrunch/Chain.swift:53-60 | `==` chains have equal hashes |
| Chains.XorFoldAppend | CookieCrunch/Chain.swift:53-55 | folding `^` over a concatenation is the `^` of the two folds |
| Chains.XorFoldOrderInsensitive | CookieCrunch/Chain.swift:53-55 | the chain hash depends only on the multiset of cookie hashes, not their order |
| Lines.RunEnd | CookieCrunch/Level.swift:220-224 | where a chain of one kind stops growing, at or after the start and within the line |
| Lines.RunEndFacts | CookieCrunch/Level.swift:220-224 | every cell before `RunEnd` holds the kind and the cell at `RunEnd` does not |
| Lines.RunStartFacts | CookieCrunch/Level.swift:193-193 | the leftward count of `hasChainAtColumn` stops at the first cell of another kind |
| Lines.ScanSound | CookieCrunch/Level.swift:203-235 | every span the scan reports is a maximal run of three or more equal kinds |
| Lines.ScanOrdered | CookieCrunch/Level.swift:203-235 | the scan's spans come in order along the line and never overlap |
| Lines.ScanComplete | CookieCrunch/Level.swift:203-235 | every maximal run of three or more is reported |
| Lines.ScanExact | CookieCrunch/Level.swift:203-235 | a span is reported exactly when it is a maximal run of three or more |
| Lines.ScanCovers | CookieCrunch/Level.swift:203-235 | a cell is in a reported span exactly when it lies in three equal kinds in a row |
| Lines.ScanEmptyIff | CookieCrunch/Level.swift:203-235 | the scan finds nothing exactly when the line has no three equal kinds in a row |
| Lines.StretchLength | CookieCrunch/Level.swift:189-201 | the stretch through a cell is what the two counts measure, and it is at least three exactly when the cell lies in three in a row |
| Lines.InThreeByLength | CookieCrunch/Level.swift:189-201 | the count of `hasChainAtColumn` reaches three exactly when the cell lies in three equal kinds in a row |
| Board.RunsExact | CookieCrunch/Level.swift:203-268 | a pass reports, line by line, exactly the maximal runs of three or more |
| Board.RunsOrdered | CookieCrunch/Level.swift:203-268 | the runs come in scan order, by line and then along the line, without overlap |
| Board.RunsEmptyIff | CookieCrunch/Level.swift:203-268 | a pass finds nothing exactly when no line has three equal kinds in a row |
| Board.NoRunsIff | CookieCrunch/Level.swift:288-305 | both passes find nothing exactly when the board has no chain |
| Board.CoveredByIff | CookieCrunch/Level.swift:203-268 | a square lies under a run of a pass exactly when it lies in three in a row in that direction |
| Board.CoveredIffChainAt | CookieCrunch/Level.swift:189-305 | `removeMatches` empties a square exactly when `hasChainAtColumn` would report a chain there |
| Board.ChainShape | CookieCrunch/Level.swift:203-268 | every chain a pass builds holds three or more cookies, all of one kind |
| Board.ChainsDisjoint | CookieCrunch/Level.swift:203-268 | two chains of one pass never share a cookie |
| Board.HeldSame | CookieCrunch/Cookie.swift:60-62 | `==` cookies of two chains on a board of well-placed cookies are one cookie on one square |
| Board.RunChainsDiffer | CookieCrunch/Chain.swift:58-60 | chains of runs that start on different squares, or run in different directions, are never `==` |
| Board.RunsCells | CookieCrunch/Level.swift:372-378 | the squares under a pass's chains are exactly those in three in a row in that direction |
| Board.ClearedIsChainAt | CookieCrunch/Level.swift:288-305 | emptying both passes' squares empties exactly the squares in three in a row, and nothing else |
| Board.SameSquare | CookieCrunch/Cookie.swift:60-62 | on a board of cookies that know their squares, two are `==` exactly when they are on one square |
| Board.NoEndsNoChains | CookieCrunch/Level.swift:73-98 | if no square ends three in a row leftward or downward, the board has no chain at all |
| Board.FillEndsNoThree | CookieCrunch/Level.swift:80-91 | a kind that passes the redraw test ends no three in a row on its square |
| Board.FilledNoChains | CookieCrunch/Level.swift:73-98 | once the fill has visited every square, the board has no chain |
| Board.FilledStep | CookieCrunch/Level.swift:78-94 | one more square filled (a non-clashing cookie on a tile, nothing elsewhere) extends the fill's invariant |
| Board.Exchange | CookieCrunch/Level.swift:120-133 | the two squares trade contents and every other square keeps its own |
| Board.ExchangeInvolutive | CookieCrunch/Level.swift:120-133 | exchanging twice restores the board, in either order of the squares |
| Board.RowSwapsMember | CookieCrunch/Level.swift:141-184 | a row's swaps are exactly those found at one of its squares |
| Board.SwapsBelowMember | CookieCrunch/Level.swift:140-185 | the swaps of the first rows are exactly those found at one of their squares |
| Board.PossibleSwapSound | CookieCrunch/Level.swift:137-187 | every swap found names a cookie and its right or upper neighbour, and the exchange makes a chain |
| Board.PossibleSwapSquares | CookieCrunch/Level.swift:137-187 | every swap found names the cookies on two squares, the lower-numbered first |
| Board.CellSwapFacts | CookieCrunch/Level.swift:142-182 | a swap found at a square names that square's cookie first and an accepted neighbour second |
| Board.PossibleSwapRight | CookieCrunch/Level.swift:145-163 | a pair side by side is found exactly when exchanging it puts either square in a chain |
| Board.PossibleSwapUp | CookieCrunch/Level.swift:165-182 | a pair one above the other is found exactly when exchanging it puts either square in a chain |
| Board.DropKeepsPresent | CookieCrunch/Level.swift:317-326 | moving the first cookie above a hole down onto it keeps the column's cookies in order |
| Board.NextCookie | CookieCrunch/Level.swift:317-318 | the `lookup` search finds the first occupied square above, or none |
| Board.ColumnMove | CookieCrunch/Level.swift:319-321 | the move changes the one column, and there only the two squares |
| Board.CookiesOfMove | CookieCrunch/Level.swift:319-320 | the move keeps the set of cookies on the board |
| Board.SettlePresent | CookieCrunch/Level.swift:307-335 | gravity keeps each column's cookies and their bottom-to-top order |
| Board.DropAtCompacts | CookieCrunch/Level.swift:312-327 | one square of gravity extends the compacted part of the column by one and keeps cookies on tiles |
| Board.SettleCompacted | CookieCrunch/Level.swift:307-335 | after gravity no tile square is empty below a cookie, and cookies stay on tiles |
| Board.SettledUnique | CookieCrunch/Level.swift:307-335 | two compacted columns on the same tiles with the same cookies in order are equal |
| Board.SettleIsGravity | CookieCrunch/Level.swift:307-335 | what `fillHoles` makes of a column is the one compacted arrangement of its cookies, in order, on its tiles |
| Board.AcceptNoRepeat | CookieCrunch/Level.swift:350-356 | consecutive new kinds differ, the first differs from the previous kind, and none is `Unknown` |
| Board.AcceptSnoc | CookieCrunch/Level.swift:352-356 | one more draw is kept exactly when it differs from the kind kept last |
| Board.AcceptConcat | CookieCrunch/Level.swift:339-356 | the kind kept last carries over from one column's draws to the next column's |
| Board.Top | CookieCrunch/Level.swift:346-346 | the lowest row from which the column is empty up to the top |
| Board.TopExact | CookieCrunch/Level.swift:346-346 | an empty stretch up to the top starts at or above `Top` |
| Board.Holes | CookieCrunch/Level.swift:346-363 | the squares the refill fills: the tile squares of the empty top stretch, from the top down |
| Board.ToppedUpFull | CookieCrunch/Level.swift:337-370 | topping up a compacted column leaves no tile square empty |
| Board.ToppedUpHoles | CookieCrunch/Level.swift:337-370 | topping up changes a square of a column exactly when it is one of the `Holes` listed for it |
| Levels.RowCellsMember | CookieCrunch/Level.swift:41-45 | a square gets a tile from a file row exactly when that row marks its column with 1 |
| Levels.MaskCellsMember | CookieCrunch/Level.swift:36-46 | a square is in the mask exactly when some file row `r` marks it with 1 on board row `NumRows - r - 1` |
| Levels.MaskRowsReversed | CookieCrunch/Level.swift:36-46 | board square (col, row) has a tile exactly when file row `8 - row` marks column col with 1 |
| Levels.Level.constructor | CookieCrunch/Level.swift:27-51 | no cookies; tiles exactly where the file marks 1, with rows reversed; score and moves from the file, or 0 without one; multiplier 0 |
| Levels.Level.LoadTiles | CookieCrunch/Level.swift:36-46 | the tiles are exactly the mask's cells marked 1 |
| Levels.Level.LoadTileRow | CookieCrunch/Level.swift:40-45 | one file row adds exactly the tiles it marks and keeps the rest |
| Levels.Level.CookieAtColumn | CookieCrunch/Level.swift:102-106 | the cookie on an in-board square, whose kind is the board's kind there |
| Levels.Level.TileAtColumn | CookieCrunch/Level.swift:108-112 | the tile on an in-board square |
| Levels.Level.IsPossibleSwapRight | CookieCrunch/Level.swift:114-116 | after detection, a side-by-side swap, named in either order, is possible exactly when it makes a chain |
| Levels.Level.IsPossibleSwapUp | CookieCrunch/Level.swift:114-116 | after detection, a swap with the cookie above, named in either order, is possible exactly when it makes a chain |
| Levels.Level.SwapsInSquares | CookieCrunch/Level.swift:114-116 | a found swap `==` to a swap of two given squares is that swap, lower square first |
| Levels.Level.PerformSwap | CookieCrunch/Level.swift:120-133 | each cookie goes to the other's square and takes its coordinates; on a valid board the squares are exchanged and the board stays valid |
| Levels.Level.Place | CookieCrunch/Level.swift:126-132 | one half of the swap: the cookie is written to the square and records it |
| Levels.Level.SwappedPlaced | CookieCrunch/Level.swift:120-133 | after the exchange every cookie again knows its square, so the board stays valid |
| Levels.Level.HasChainAtColumn | CookieCrunch/Level.swift:189-201 | true exactly when the occupied square lies in three equal kinds in a row, horizontally or vertically |
| Levels.Level.HorzLength | CookieCrunch/Level.swift:192-195 | the horizontal count is the length of the stretch through the square, and reaches 3 exactly when the square is in a horizontal three |
| Levels.Level.VertLength | CookieCrunch/Level.swift:197-200 | the same count vertically |
| Levels.Level.ClashAt | CookieCrunch/Level.swift:83-88 | the redraw condition: the kind would complete three with the two to the left or the two below |
| Levels.Level.CreateInitialCookies | CookieCrunch/Level.swift:73-98 | a new cookie on every tile and none elsewhere, each knowing its square, no chain, and the result is the set of new cookies |
| Levels.Level.FillRow | CookieCrunch/Level.swift:77-95 | one row of the fill keeps its invariant and adds the row's new cookies to the result |
| Levels.Level.FillSquare | CookieCrunch/Level.swift:78-94 | a new non-clashing cookie on a tile square, nothing on another square |
| Levels.Level.DrawKind | CookieCrunch/Level.swift:79-89 | the first draw whose kind does not clash; every draw before it clashed |
| Levels.Level.DetectPossibleSwaps | CookieCrunch/Level.swift:137-187 | the board ends as it began, and `possibleSwaps` is exactly the set of chain-making neighbour swaps |
| Levels.Level.RowSwapsAt | CookieCrunch/Level.swift:141-184 | one row's swaps, with the board restored |
| Levels.Level.SwapsAt | CookieCrunch/Level.swift:142-183 | one square's swaps to the right and upward, with the board restored |
| Levels.Level.TrySwap | CookieCrunch/Level.swift:148-162 | the tentative exchange and its undo: a swap is found exactly when a neighbour exists and the exchange puts either square in a chain |
| Levels.Level.Shuffle | CookieCrunch/Level.swift:56-71 | refills until a swap is possible: a full board without chains, with `possibleSwaps` non-empty and exact |
| Levels.Level.CellAt | CookieCrunch/Level.swift:211-216 | the cookie at cell i of line k, whose kind is the line's kind there |
| Levels.Level.DetectMatches | CookieCrunch/Level.swift:203-268 | one new chain per run the scan finds, holding the run's cookies in order, with the pass's type and score 0 |
| Levels.Level.LineChains | CookieCrunch/Level.swift:210-232 | the chains of one line are those of the scan of that line |
| Levels.Level.GrowChain | CookieCrunch/Level.swift:219-224 | a new chain of the cookies from the start while the kind repeats, up to `RunEnd` |
| Levels.Level.GrowNext | CookieCrunch/Level.swift:220-223 | one turn of the `repeat`: the next cookie joins the chain |
| Levels.Level.ResetComboMultiplier | CookieCrunch/Level.swift:274-276 | the multiplier becomes 1 |
| Levels.Level.CalculateScores | CookieCrunch/Level.swift:278-284 | chain i scores `60*(length-2)*(m+i)` and the multiplier grows by the number of chains; cookies and types are unchanged |
| Levels.Level.RemoveCookies | CookieCrunch/Level.swift:372-378 | the squares the chains' cookies record are emptied, and no others |
| Levels.Level.RemoveChainCookies | CookieCrunch/Level.swift:374-376 | one chain's squares are emptied, and no others |
| Levels.Level.RemoveMatches | CookieCrunch/Level.swift:288-305 | empties exactly the squares in three in a row; returns the horizontal and then the vertical chains, scored in that order, no two of them `==`; empty exactly when the board had no chain |
| Levels.Level.ScoreMatches | CookieCrunch/Level.swift:300-301 | horizontal chains scored first, then vertical ones from the multiplier they left |
| Levels.Level.ScorePass | CookieCrunch/Level.swift:278-284 | one pass's chains scored from the current multiplier on |
| Levels.Level.ClearChains | CookieCrunch/Level.swift:296-297 | emptying both passes' squares keeps the board valid and empties exactly the squares in three in a row |
| Levels.Level.FillHoles | CookieCrunch/Level.swift:307-335 | each column becomes its gravity-settled self, compacted with its cookies in order; the result lists the fallen cookies per column that changed |
| Levels.Level.SettleNext | CookieCrunch/Level.swift:310-333 | one more column settled, and its list appended when non-empty |
| Levels.Level.FillColumn | CookieCrunch/Level.swift:311-332 | one column settled, other columns untouched; the result lists the cookies that moved, bottom to top |
| Levels.Level.FallNext | CookieCrunch/Level.swift:312-329 | one square of a column settled; the cookie that moved, if any, joins the list |
| Levels.Level.DropCookie | CookieCrunch/Level.swift:314-327 | an empty tile square takes the next cookie above; no other column changes |
| Levels.Level.PullDown | CookieCrunch/Level.swift:317-326 | the `lookup` loop: a cookie moves down exactly when one exists above |
| Levels.Level.MoveDown | CookieCrunch/Level.swift:318-322 | the cookie moves to the hole, records its new row, and the board stays valid |
| Levels.Level.TopUpCookies | CookieCrunch/Level.swift:337-370 | every column topped up with new cookies only on tile squares; lists per column, top down; kinds as kept from the draws, with no two consecutive equal across columns |
| Levels.Level.TopUpNext | CookieCrunch/Level.swift:342-368 | one more column topped up, and its list appended when non-empty |
| Levels.Level.TopUpColumn | CookieCrunch/Level.swift:343-367 | one column topped up from the top down, continuing from the previous kind |
| Levels.Level.TopUpRow | CookieCrunch/Level.swift:346-363 | one empty square of the column filled when it has a tile |
| Levels.Level.TopUpSquare | CookieCrunch/Level.swift:348-362 | a new cookie exactly on a tile square, of a kind other than the previous |
| Levels.Level.DrawNew | CookieCrunch/Level.swift:352-356 | draws until the kind differs from the previous; the kept kinds of those draws are exactly that one |
| Levels.Level.PlaceNew | CookieCrunch/Level.swift:359-361 | a fresh cookie of the kind on the empty tile square |
| Levels.FallStep | CookieCrunch/Level.swift:312-329 | one square of gravity adds the cookie dropped onto it, if any, to the cookies that fell |
| Levels.FallingStep | CookieCrunch/Level.swift:312-329 | one square of the column loop keeps the column loop's invariant |
| Levels.FallingDone | CookieCrunch/Level.swift:311-332 | at the top the column is settled and the list is what changed |
| Levels.SettledStep | CookieCrunch/Level.swift:310-333 | one more settled column extends the result by its non-empty list |
| Levels.SettledAll | CookieCrunch/Level.swift:307-335 | with all columns settled, each is compacted and keeps its cookies in order |
| Levels.DrawAgain | CookieCrunch/Level.swift:353-355 | after rejected draws one more draw is kept exactly when it differs from the previous kind |
| Levels.TopStep | CookieCrunch/Level.swift:346-363 | one more empty square passed on the way down, filled exactly on a tile |
| Levels.TopDone | CookieCrunch/Level.swift:346-363 | the fill stops at the first cookie from the top; the column is topped up and the list is the new cookies from the top down |
| Levels.ToppingStep | CookieCrunch/Level.swift:346-363 | one more square of the top-down fill keeps its invariant |
| Levels.ToppingDone | CookieCrunch/Level.swift:346-363 | a fill stopped at a cookie or past row 0 has topped the column up |
| Levels.ToppedStep | CookieCrunch/Level.swift:342-368 | one more topped-up column extends the result by its non-empty list |
| Levels.ScoreFacts | CookieCrunch/Level.swift:272-284 | a three-chain scores 60 times the multiplier, each extra cookie as much again, and every chain scores 0 before the first reset |
| Levels.ClearKeepsValid | CookieCrunch/Level.swift:288-305 | emptying squares keeps cookies on their own squares and on tiles |
| Levels.GrowStep | CookieCrunch/Level.swift:220-224 | one more cookie of a growing chain holds one more square of the same run |
| Levels.ScanAt | CookieCrunch/Level.swift:211-229 | three in a row at the scan position: the run is reported and the scan resumes after it |
| Levels.MatchStep | CookieCrunch/Level.swift:211-229 | a chain grown at the scan position extends the chains built so far by the scan's next span |
| Levels.ScoredDistinct | CookieCrunch/Level.swift:288-305 | no two chains of the result are `==`, so the `union` of the two passes loses none |
| Levels.ScoredJoin | CookieCrunch/Level.swift:299-304 | horizontal chains scored from m, then vertical ones from m plus their number, make the result of `removeMatches` |

## Left out

- JSON loading (Level.swift:29-35, 47-48 and Extensions.swift) is I/O. The constructor takes the parsed file, or None when the file or its "tiles" entry is missing.
- The random source is an input sequence of draws; its distribution is not modelled. When the draws run out, a method returns `ok == false`.
- Levels.Level.Shuffle: the game retries forever when no fill can offer a swap, for example on a level without tiles. The model stops with `ok == false` when a fill used no draw or the draws ran out. No bound on the number of retries is proved.
- Swift's `Set<Chain>` has no iteration order, so the scores `calculateScores` gives depend on an order the program leaves open. The model returns each pass's chains as a sequence in discovery order: by line, then along the line. The result of `removeMatches` is the horizontal chains followed by the vertical ones.
- The source's `union` of the two passes is modelled as concatenation. `Levels.ScoredDistinct` proves that no two of the chains are `==`, so the union loses none of them.
- `possibleSwaps` and the result of `createInitialCookies` are Dafny sets of values and objects, not hash sets. `isPossibleSwap` is stated as membership under swap `==`, which is what a Swift `Set` lookup decides when equal swaps hash equally. That is proved by `Swaps.SwapEqHashesEqual`.
- Cookie hashes are unbounded integers. The `Int` overflow of `row*10 + col` cannot occur on a 9 x 9 board and is not modelled.
- `Cookie.sprite`, every `description` and the SpriteKit, UIKit and sound code are presentation and are not modelled.
- L-shaped chains: the `LShaped` case exists, but nothing produces it (Level.swift:293), and the model produces none either.
- `targetScore` and `maximumMoves` are stored by the constructor and not otherwise used by the engine.
- Out-of-range subscripts and force-unwraps trap in Swift. The model turns each trap into a precondition, and no more than that: in-board squares for `cookieAtColumn`/`tileAtColumn` (their `assert`s); for `performSwap`, only that the flat index `row*9 + col` of each cookie's recorded square lies in 0..80, the range of the buffer subscript (Array2D.swift:20-26); and a cookie on the probed square for `hasChainAtColumn`.

# kotsweeper board engines in Dafny

kotsweeper is a Minesweeper game in Kotlin. This project models its two board engines and proves properties about them:

- **BoardModel** is a stateless engine over a 2-D board (`List<List<Square>>`). Each move copies the board, changes the copy and returns it.
- **text Board** is a class that holds a flat, row-major `MutableList<Square>` of `rows * cols` squares. Its methods change that list in place.

A square holds three things:
- its type: empty or mine;
- its status as the player sees it: unknown, revealed, marked, question or mismarked;
- its count of neighbouring mines.

Each engine does the following:
- It creates a board with a fixed share of mines, about 15 %, at shuffled positions, and counts each square's neighbouring mines.
- It reveals a square. When the square is an empty square with no neighbouring mines (a "zero"), it also reveals every zero reachable through touching zeros, together with the border of that region. This is the breadth-first "connected empty squares" fill.
- It toggles marks.
- It lists marked and mined squares.
- It decides a win.

The text engine also parses moves such as `m3,4`.

Modules:
- `Seqs`: Kotlin's `filter`, `distinct`, `flatMap` and `count`, with their facts.
- `Graph`: reachability through the cells a predicate accepts, plus the generic breadth-first loop invariant that both engines' fill uses.
- `Squares`: `Square`, `SquareType` and `SquareStatus`.
- `Grid`: the JVM's truncating division, the mine-count formula, and the neighbour list that both engines share.
- `BoardModel`: the 2-D engine.
- `TextBoard`: the class `Board` over a `seq<Square>` field that its methods reassign, and the move parser.

How the source's steps are modelled:
- BoardModel's copy-and-mutate steps are methods with loops. Each is proved against a function that states the whole new board, or, for the copy, against its input. These steps are copying, placing mines, setting counts, the fill, reveal, toggle, reveal-all and the index collectors.
- The text board's `reveal` and `toggleMark` are methods of the class that modify `board`, and they keep the class invariant `Valid()`.

The flood fill is proved against path reachability. The fill returns exactly:
- the squares reachable from the start through touching zero squares;
- every square that touches one of those squares.

BoardModel's fill is also proved equal to `Fill`, a recursive function that takes the loop's steps one queue entry at a time. That fixes the order of the list, and the order is worked out on the test board `mined_1_2_3x3`.

Where the source disagrees with its own comments, the model follows the code:
- Mines also get a neighbour count, because the counting loop overwrites every square.
- `revealBoard` reveals marked mines too.
- Neither `reveal` looks at the square's status.
- The text `reveal` also runs the fill on a mine, and the fill then returns nothing.
- The text fill's result can repeat indices.
- `checkForWin` only compares the number of correctly marked mines with the formula.

## Model

| member | source | states |
|---|---|---|
| Grid.Quot | src/main/kotlin/org/cliff/kotsweeper/text/Board.kt:42 | Kotlin `Int` division: the quotient's magnitude is the quotient of the magnitudes, and its sign comes from the operands' signs, rounding toward zero |
| Grid.TotalMines | src/main/kotlin/org/cliff/kotsweeper/BoardModel.kt:102 | the mine count is at most rows * cols and lies within half a mine of 15 % of the squares |
| Grid.TotalMinesExamples | src/test/kotlin/org/cliff/kotsweeper/BoardModelTest.kt:70-75 | the counts the tests expect: 0, 1, 1, 1, 1 and 94 |
| Grid.AdjIndices | src/main/kotlin/org/cliff/kotsweeper/BoardModel.kt:242-250 | the list holds exactly the in-grid squares touching (r, c), without (r, c) itself, in row-major order, with no repeats and at most 8 entries |
| Grid.BlockFacts | src/main/kotlin/org/cliff/kotsweeper/BoardModel.kt:243-247 | the 3x3 block holds exactly the squares within one row and one column of the centre, in row-major order |
| BoardModel.Rows | src/main/kotlin/org/cliff/kotsweeper/BoardModel.kt:15 | `rows` is the number of row lists; on a rectangular board it is at least 1, and every position below `rows` and `cols` is a square of the board |
| BoardModel.Cols | src/main/kotlin/org/cliff/kotsweeper/BoardModel.kt:18 | `cols` is the length of the first row; on a rectangular board the squares are exactly the positions below `rows` and `cols` |
| BoardModel.IdxTo2d | src/main/kotlin/org/cliff/kotsweeper/BoardModel.kt:24-28 | fails (IllegalArgumentException) exactly when a dimension is zero |
| BoardModel.IdxTo2dSplits | src/main/kotlin/org/cliff/kotsweeper/BoardModel.kt:24-28 | a non-negative index splits into a row and an in-range column whose row-major index is that index |
| BoardModel.IdxTo2dRoundTrip | src/main/kotlin/org/cliff/kotsweeper/BoardModel.kt:24-28 | idxTo2d inverts the row-major index r * cols + c of every in-grid square |
| BoardModel.IdxTo2dExamples | src/test/kotlin/org/cliff/kotsweeper/BoardModelTest.kt:34-41 | the six conversions on a 2x3 board and the two failures with an empty dimension that the tests expect |
| BoardModel.ToIdx1dNotRowMajor | src/main/kotlin/org/cliff/kotsweeper/BoardModel.kt:21 | on a 2x3 board toIdx1d maps both (1, 0) and (0, 2) to 2, and idxTo2d sends that 2 back to (0, 2), not to (1, 0) |
| BoardModel.ToIdx1d | src/main/kotlin/org/cliff/kotsweeper/BoardModel.kt:21 | as written it multiplies the row by `rows`, so it gives the row-major index of (r, c) exactly when r is 0 or the board has as many rows as columns; on any other board it differs at every row other than 0 |
| BoardModel.EmptyBoard | src/main/kotlin/org/cliff/kotsweeper/BoardModel.kt:33-38 | rows lists of cols default squares |
| BoardModel.GenMineLocations | src/main/kotlin/org/cliff/kotsweeper/BoardModel.kt:219-233 | TotalMines distinct in-grid positions whose row-major indices are the first entries of the shuffle, in order |
| BoardModel.AdjMineCount | src/main/kotlin/org/cliff/kotsweeper/BoardModel.kt:256-261 | the count is the number of mined squares touching (row, col), and is at most 8 |
| BoardModel.AdjMinesCounted | src/main/kotlin/org/cliff/kotsweeper/BoardModel.kt:258-260 | counting the mines of a duplicate-free neighbour list gives the number of mined neighbours |
| BoardModel.NewBoard | src/main/kotlin/org/cliff/kotsweeper/BoardModel.kt:43-59 | a rows x cols board of unknown squares; the mines are exactly the generated locations; every count is right; there are TotalMines mines |
| BoardModel.PlaceMines | src/main/kotlin/org/cliff/kotsweeper/BoardModel.kt:48-51 | the listed squares become mines with count 0, and every other square is unchanged |
| BoardModel.SetAdjCounts | src/main/kotlin/org/cliff/kotsweeper/BoardModel.kt:54-56 | every square, mines included, gets its neighbouring mine count; types and statuses are unchanged |
| BoardModel.SetAdjCount | src/main/kotlin/org/cliff/kotsweeper/BoardModel.kt:55 | only the count of (ri, ci) changes, and it becomes the number of mines around that square |
| BoardModel.MinesOfNewBoard | src/main/kotlin/org/cliff/kotsweeper/BoardModel.kt:48-51 | a board whose mines are the generated locations holds TotalMines mines |
| BoardModel.SameKindsSameMines | src/main/kotlin/org/cliff/kotsweeper/BoardModel.kt:54-56 | changing counts or statuses moves no mine and changes no square's mine neighbours |
| BoardModel.NoNeighbouringMines | src/main/kotlin/org/cliff/kotsweeper/BoardModel.kt:65-66 | on a board whose counts are right, a square is a zero iff it is not a mine and no mine touches it |
| BoardModel.ConnectedEmptySquares | src/main/kotlin/org/cliff/kotsweeper/BoardModel.kt:71-96 | empty exactly when the start is not a zero square; otherwise the start comes first; no repeats; a square is in the list iff it is reachable through touching zeros or touches such a square; the list, in its order, is `Fill` |
| BoardModel.FillWalkStep | src/main/kotlin/org/cliff/kotsweeper/BoardModel.kt:80-90 | one round of the loop (take the queue's head, mark the queue visited, queue the head's unvisited zero neighbours) keeps the queue on the board and leaves the rest of `FillWalk` unchanged |
| BoardModel.ZeroNeighbours | src/main/kotlin/org/cliff/kotsweeper/BoardModel.kt:86-87 | the touching zero squares, each once, in row-major order |
| BoardModel.Border | src/main/kotlin/org/cliff/kotsweeper/BoardModel.kt:92 | exactly the in-grid squares that touch a visited square |
| BoardModel.FillOfRegion | src/main/kotlin/org/cliff/kotsweeper/BoardModel.kt:91-95 | once the queue is empty, `distinct` of visited plus border starts at the start square and holds exactly the fill |
| BoardModel.MineFillIsEmpty | src/main/kotlin/org/cliff/kotsweeper/BoardModel.kt:75 | nothing is in the fill of a square that is not a zero |
| BoardModel.FillOfSameLayout | src/main/kotlin/org/cliff/kotsweeper/BoardModel.kt:65-66 | the fill depends only on types and counts, not on statuses |
| BoardModel.CopyBoard | src/main/kotlin/org/cliff/kotsweeper/BoardModel.kt:267-276 | the copy equals the board |
| BoardModel.Reveal | src/main/kotlin/org/cliff/kotsweeper/BoardModel.kt:114-127 | the new board is the old one with (row, col) and its whole fill revealed, and nothing else changed |
| BoardModel.RevealComposes | src/main/kotlin/org/cliff/kotsweeper/BoardModel.kt:116-124 | revealing the square and then every listed fill square gives that board |
| BoardModel.RevealSquares | src/main/kotlin/org/cliff/kotsweeper/BoardModel.kt:123 | the listed squares become revealed, and no other square changes |
| BoardModel.AfterRevealSquares | src/main/kotlin/org/cliff/kotsweeper/BoardModel.kt:114-127 | square by square: revealed iff it is the start or in the fill, otherwise unchanged |
| BoardModel.RevealKeepsLayout | src/main/kotlin/org/cliff/kotsweeper/BoardModel.kt:114-127 | reveal changes only statuses, and the board stays rectangular |
| BoardModel.RevealIdempotent | src/main/kotlin/org/cliff/kotsweeper/BoardModel.kt:114-127 | revealing the same square twice equals revealing it once |
| BoardModel.RevealMine | src/main/kotlin/org/cliff/kotsweeper/BoardModel.kt:120 | revealing a mine reveals that square alone |
| BoardModel.FillHasNoMine | src/main/kotlin/org/cliff/kotsweeper/BoardModel.kt:92-93 | on a board with correct counts, every fill square is on the board and is not a mine |
| BoardModel.RevealUncoversNoOtherMine | src/main/kotlin/org/cliff/kotsweeper/BoardModel.kt:114-127 | with correct counts, a reveal leaves every other mine untouched |
| BoardModel.ToggleMark | src/main/kotlin/org/cliff/kotsweeper/BoardModel.kt:150-161 | only (r, c) changes: Unknown to Question to Marked to Unknown; Revealed and Mismarked squares stay as they are |
| BoardModel.ToggleThrice | src/main/kotlin/org/cliff/kotsweeper/BoardModel.kt:153-157 | three toggles return the board unchanged |
| BoardModel.SetStatusTwice | src/main/kotlin/org/cliff/kotsweeper/BoardModel.kt:117 | setting a status twice keeps only the second |
| BoardModel.UnchangedStatus | src/main/kotlin/org/cliff/kotsweeper/BoardModel.kt:157 | setting a square to its own status changes nothing |
| BoardModel.SetStatusKeepsLayout | src/main/kotlin/org/cliff/kotsweeper/BoardModel.kt:117 | a status change keeps the board's shape, mines and counts |
| BoardModel.PositionsAfterSetStatus | src/main/kotlin/org/cliff/kotsweeper/BoardModel.kt:154-156 | a status change at (r, c) changes which squares satisfy a property only at (r, c) |
| BoardModel.MarkedAfterToggle | src/main/kotlin/org/cliff/kotsweeper/BoardModel.kt:150-161 | a toggle adds (r, c) to the marked squares when the square was Question, removes it when the square was Marked, and otherwise changes nothing |
| BoardModel.UnmarkedAfterToggle | src/main/kotlin/org/cliff/kotsweeper/BoardModel.kt:208-212 | after a toggle, the unmarked mine count goes down by one when Question becomes Marked, up by one when Marked becomes Unknown, and otherwise stays the same |
| BoardModel.RevealBoard | src/main/kotlin/org/cliff/kotsweeper/BoardModel.kt:129-143 | each square is disclosed: a marked empty square becomes Mismarked, a mine becomes Revealed, anything else is unchanged |
| BoardModel.DisclosedFacts | src/main/kotlin/org/cliff/kotsweeper/BoardModel.kt:135-138 | after disclosure every mine is revealed, every marked empty square is mismarked, and other empty squares are unchanged; disclosing twice equals disclosing once |
| BoardModel.DiscloseKeepsLayout | src/main/kotlin/org/cliff/kotsweeper/BoardModel.kt:129-143 | disclosure changes only statuses |
| BoardModel.LayoutKeepsCounts | src/main/kotlin/org/cliff/kotsweeper/BoardModel.kt:54-56 | boards with the same layout agree on whether their counts are right and on how many mines they hold |
| BoardModel.IndicesWhere | src/main/kotlin/org/cliff/kotsweeper/BoardModel.kt:168-175 | a loop over rows and columns that appends: the positions whose square qualifies, in row-major order |
| BoardModel.CorrectlyMarkedIndices | src/main/kotlin/org/cliff/kotsweeper/BoardModel.kt:167-176 | exactly the marked mines, in row-major order |
| BoardModel.GetMinedIndices | src/main/kotlin/org/cliff/kotsweeper/BoardModel.kt:194-203 | exactly the mines, in row-major order |
| BoardModel.CountWhereIsCard | src/main/kotlin/org/cliff/kotsweeper/BoardModel.kt:183-185 | the row-by-row fold of filter-counts is the number of qualifying positions |
| BoardModel.CheckForWin | src/main/kotlin/org/cliff/kotsweeper/BoardModel.kt:181-189 | a win iff the number of correctly marked squares equals the formula's mine count |
| BoardModel.WinIffAllMinesMarked | src/main/kotlin/org/cliff/kotsweeper/BoardModel.kt:179-189 | on a board with the formula's number of mines, a win iff every mine is marked |
| BoardModel.UnmarkedMineCount | src/main/kotlin/org/cliff/kotsweeper/BoardModel.kt:208-212 | the formula's mine count minus the number of marked squares |
| BoardModel.Mined12Zeros | src/test/kotlin/org/cliff/kotsweeper/Boards.kt:43-46 | the zero squares of the test board `mined_1_2_3x3` are its first column |
| BoardModel.Mined12Fill | src/test/kotlin/org/cliff/kotsweeper/BoardModelTest.kt:56-65 | on that board (1, 0) is a zero and (1, 1) is not; the fill from (0, 0) is the first two columns; the fill from (0, 1) is empty |
| BoardModel.Mined12FillOrder | src/test/kotlin/org/cliff/kotsweeper/BoardModelTest.kt:60-63 | the fill from (0, 0) of that board is the list the test expects: (0, 0), (1, 0), (2, 0), (0, 1), (1, 1), (2, 1) |
| BoardModel.FirstColumnFill | src/main/kotlin/org/cliff/kotsweeper/BoardModel.kt:71-96 | on a 3 x 3 board whose zero squares around the first column are that column, the fill from (0, 0) lists the first column and then the second, each top down |
| BoardModel.ColumnWalk | src/main/kotlin/org/cliff/kotsweeper/BoardModel.kt:80-90 | when y and z touch no zero squares but each other and x, the loop started at x with y queued visits x, y, z in that order |
| BoardModel.ColumnFill | src/main/kotlin/org/cliff/kotsweeper/BoardModel.kt:92-95 | on a 3 x 3 board, `distinct` of the visited first column and its border is the first column, then the second column top down |
| TextBoard.RowIndex | src/main/kotlin/org/cliff/kotsweeper/text/Board.kt:42 | for a non-negative index and positive `cols`, the row whose span of `cols` indices holds the index |
| TextBoard.ColIndex | src/main/kotlin/org/cliff/kotsweeper/text/Board.kt:44 | for a non-negative index the column lies in 0 until `cols`; for a negative index Kotlin's truncating division makes it lie in (-cols, 0] |
| TextBoard.ToIdx1d | src/main/kotlin/org/cliff/kotsweeper/text/Board.kt:46 | an in-range column c of row r maps into row r's span of `cols` indices |
| TextBoard.IdxTo2d | src/main/kotlin/org/cliff/kotsweeper/text/Board.kt:48 | a non-negative index maps to a non-negative row and an in-range column |
| TextBoard.IdxTo2dOfToIdx1d | src/main/kotlin/org/cliff/kotsweeper/text/Board.kt:41-48 | idxTo2d inverts toIdx1d on every square of the grid |
| TextBoard.ToIdx1dOfIdxTo2d | src/main/kotlin/org/cliff/kotsweeper/text/Board.kt:41-48 | toIdx1d inverts idxTo2d on every index, negative ones included |
| TextBoard.IndexOnBoard | src/main/kotlin/org/cliff/kotsweeper/text/Board.kt:48 | an index is below rows * cols iff its 2-D position lies on the grid |
| TextBoard.AdjIndices1d | src/main/kotlin/org/cliff/kotsweeper/text/Board.kt:108-111 | exactly the on-board indices whose squares touch idx, with no repeats and at most 8 entries |
| TextBoard.AdjIndices1dFacts | src/main/kotlin/org/cliff/kotsweeper/text/Board.kt:98-111 | mapping the 2-D neighbours through toIdx1d keeps them distinct and gives the touching on-board indices |
| TextBoard.AdjMineCount | src/main/kotlin/org/cliff/kotsweeper/text/Board.kt:117-120 | the number of mines touching idx, at most 8 |
| TextBoard.AdjMinesCounted | src/main/kotlin/org/cliff/kotsweeper/text/Board.kt:119 | counting mines over a duplicate-free neighbour list gives the number of mined neighbours |
| TextBoard.EmptyBoard | src/main/kotlin/org/cliff/kotsweeper/text/Board.kt:35-37 | rows * cols default squares |
| TextBoard.GenRandomMines | src/main/kotlin/org/cliff/kotsweeper/text/Board.kt:82-88 | `take`: the first totalMines entries of the shuffle, or all of them when there are fewer |
| TextBoard.NewBoard | src/main/kotlin/org/cliff/kotsweeper/text/Board.kt:60-73 | rows * cols unknown squares; a square is a mine iff its index is among the first totalMines of the shuffle; every count is right; exactly totalMines mines |
| TextBoard.PlaceMines | src/main/kotlin/org/cliff/kotsweeper/text/Board.kt:64-67 | the listed indices become mines with count 0, and every other square is unchanged |
| TextBoard.SetAdjCounts | src/main/kotlin/org/cliff/kotsweeper/text/Board.kt:70 | every square gets its neighbouring mine count; types and statuses are unchanged |
| TextBoard.SetAdjCount | src/main/kotlin/org/cliff/kotsweeper/text/Board.kt:70 | only the count at index changes, and it becomes the number of mines around that square |
| TextBoard.SameMines | src/main/kotlin/org/cliff/kotsweeper/text/Board.kt:70 | boards with the same types have the same mine neighbours and the same mines |
| TextBoard.LayoutKeepsCounts | src/main/kotlin/org/cliff/kotsweeper/text/Board.kt:70 | boards with the same layout agree on whether the counts are right and on how many mines they hold |
| TextBoard.Board.constructor | src/main/kotlin/org/cliff/kotsweeper/text/Board.kt:15-22 | a valid board: the mine count is the formula's, all squares are unknown, and the mines are the first TOTAL_MINES entries of the shuffle |
| TextBoard.Board.NoNeighbouringMines | src/main/kotlin/org/cliff/kotsweeper/text/Board.kt:126-127 | on a valid board, a square is a zero iff it is not a mine and no mine touches it |
| TextBoard.Board.ConnectedEmptySquares | src/main/kotlin/org/cliff/kotsweeper/text/Board.kt:132-156 | empty exactly when idx is not a zero; otherwise idx comes first; an index is in the list iff it is in the fill; no index is a mine; the list has no repeats iff the zero region is idx alone |
| TextBoard.ZeroNeighbours | src/main/kotlin/org/cliff/kotsweeper/text/Board.kt:147 | the adjacent zero squares, each once |
| TextBoard.Border | src/main/kotlin/org/cliff/kotsweeper/text/Board.kt:152 | exactly the on-board indices that touch a visited index |
| TextBoard.FillOfRegion | src/main/kotlin/org/cliff/kotsweeper/text/Board.kt:151-155 | once the queue is empty, visited plus the distinct border starts at the start square, holds exactly the fill, and has no repeats iff the zero region is the start alone |
| TextBoard.FillMembers | src/main/kotlin/org/cliff/kotsweeper/text/Board.kt:152-153 | the zero region together with its border is exactly the fill |
| TextBoard.LoneSquareFill | src/main/kotlin/org/cliff/kotsweeper/text/Board.kt:152-153 | a lone zero's border does not contain the zero itself |
| TextBoard.InnerSquareOnBorder | src/main/kotlin/org/cliff/kotsweeper/text/Board.kt:152-153 | a zero of the region other than the start touches the region, so it is on the border as well |
| TextBoard.VisitedBorderNoDup | src/main/kotlin/org/cliff/kotsweeper/text/Board.kt:152-153 | visited plus a border that holds every other region square has no repeats iff the region is the start alone |
| TextBoard.RegionFill | src/main/kotlin/org/cliff/kotsweeper/text/Board.kt:151-155 | from a duplicate-free list of the zero region that starts at s, visited plus the distinct border starts at s, holds exactly the fill, and has no repeats iff the region is s alone |
| TextBoard.WorkedFillRepeats | src/test/kotlin/org/cliff/kotsweeper/Boards.kt:43-46 | on `mined_1_2_3x3` flattened, the region of index 0 holds index 3, so the text fill from 0 repeats indices |
| TextBoard.NonZeroFillIsEmpty | src/main/kotlin/org/cliff/kotsweeper/text/Board.kt:136 | nothing is in the fill of a square that is not a zero |
| TextBoard.FillHasNoMine | src/main/kotlin/org/cliff/kotsweeper/text/Board.kt:152-153 | with correct counts, every fill index is on the board and is not a mine |
| TextBoard.FillOfSameLayout | src/main/kotlin/org/cliff/kotsweeper/text/Board.kt:126-127 | the fill depends only on types and counts |
| TextBoard.Board.Reveal | src/main/kotlin/org/cliff/kotsweeper/text/Board.kt:159-172 | the board stays valid and becomes the old board with idx and its fill revealed; the result starts with idx, and the rest of it holds exactly the fill |
| TextBoard.Board.RevealEach | src/main/kotlin/org/cliff/kotsweeper/text/Board.kt:166 | each listed index is revealed, and no other square changes |
| TextBoard.RevealComposes | src/main/kotlin/org/cliff/kotsweeper/text/Board.kt:162-166 | revealing idx and then each fill index gives the intended board |
| TextBoard.RevealKeepsLayout | src/main/kotlin/org/cliff/kotsweeper/text/Board.kt:159-172 | reveal changes only statuses |
| TextBoard.RevealIdempotent | src/main/kotlin/org/cliff/kotsweeper/text/Board.kt:159-172 | revealing the same index twice equals revealing it once |
| TextBoard.RevealUncoversNoOtherMine | src/main/kotlin/org/cliff/kotsweeper/text/Board.kt:159-172 | with correct counts, a reveal leaves every other mine untouched |
| TextBoard.Board.ToggleMark | src/main/kotlin/org/cliff/kotsweeper/text/Board.kt:179-189 | the board stays valid; only the toggled square's status changes, Unknown to Marked and back, and other statuses stay; the new square is returned |
| TextBoard.ToggleTwice | src/main/kotlin/org/cliff/kotsweeper/text/Board.kt:181-187 | toggling twice returns the board unchanged |
| TextBoard.MarkedAfterToggle | src/main/kotlin/org/cliff/kotsweeper/text/Board.kt:179-189 | a toggle adds idx to the marked squares when the square was Unknown, removes it when the square was Marked, and otherwise changes nothing |
| TextBoard.Board.MismarkedIndices | src/main/kotlin/org/cliff/kotsweeper/text/Board.kt:194-201 | exactly the marked empty squares, ascending |
| TextBoard.Board.MarkedIndices | src/main/kotlin/org/cliff/kotsweeper/text/Board.kt:203-208 | exactly the marked squares, ascending |
| TextBoard.TaggedAscending | src/main/kotlin/org/cliff/kotsweeper/text/Board.kt:204-207 | filtering out the -1 tags of `mapIndexed` leaves ascending indices |
| TextBoard.TaggedMembers | src/main/kotlin/org/cliff/kotsweeper/text/Board.kt:204-207 | the indices that survive the filter are exactly the marked squares |
| TextBoard.IndicesWhere | src/main/kotlin/org/cliff/kotsweeper/text/Board.kt:226-230 | a `forEachIndexed` that appends: the qualifying indices, ascending |
| TextBoard.Board.GetMinedIndices | src/main/kotlin/org/cliff/kotsweeper/text/Board.kt:226-230 | exactly the mines, ascending |
| TextBoard.Board.CheckForWin | src/main/kotlin/org/cliff/kotsweeper/text/Board.kt:215-221 | a win iff the number of correctly marked mines equals TOTAL_MINES, which on a valid board holds iff every mine is marked |
| TextBoard.WinIffAllMinesMarked | src/main/kotlin/org/cliff/kotsweeper/text/Board.kt:211-221 | when a board holds totalMines mines, that many mines are correctly marked iff every mine is marked |
| TextBoard.FirstComma | src/main/kotlin/org/cliff/kotsweeper/text/Board.kt:236 | the position of the first comma, or the length when there is no comma |
| TextBoard.MatchMove | src/main/kotlin/org/cliff/kotsweeper/text/Board.kt:236-237 | the recogniser for `([mr])?(\d+),(\d+)` is sound: its groups form a valid move and concatenate back to the input |
| TextBoard.MatchMoveComplete | src/main/kotlin/org/cliff/kotsweeper/text/Board.kt:236-237 | the recogniser is complete: every string of the move language matches, with its own groups |
| TextBoard.DecimalDigits | src/main/kotlin/org/cliff/kotsweeper/text/Board.kt:240-241 | a non-empty string of decimal digits whose `toInt` value is n |
| TextBoard.DigitsValue | src/main/kotlin/org/cliff/kotsweeper/text/Board.kt:240-241 | the `toInt` value of a string of k decimal digits is below 10^k |
| TextBoard.Board.ParseMove | src/main/kotlin/org/cliff/kotsweeper/text/Board.kt:234-248 | an accepted move has a valid mark and an in-bounds row and column that fit in an Int; the input is "not a valid move" iff it fails to match the pattern |
| TextBoard.ParseMoveOfParts | src/main/kotlin/org/cliff/kotsweeper/text/Board.kt:238-244 | on a matching string: NumberFormatException when a number exceeds Int, otherwise the move when it is in bounds, and otherwise the out-of-bounds error |
| TextBoard.ParseMoveRejects | src/main/kotlin/org/cliff/kotsweeper/text/Board.kt:245-247 | a string outside the move language is rejected as not a move |
| TextBoard.ParseFormatted | src/main/kotlin/org/cliff/kotsweeper/text/Board.kt:234-248 | printing an in-bounds move as mark, row, comma, column and parsing the text gives the move back |

## Left out

- Model limits:
  - Integers are unbounded. No Kotlin `Int` overflow is modelled: not in `rows * cols`, not in the mine formula, and not in indices. The exception is `parseMove`, where `toInt` overflow is modelled as `NotAnInt`.
  - Square identity and aliasing are not modelled: a square is a value. The text `toggleMark` returns a copy of the square, not the shared object.
- Randomness and the formula:
  - `Collections.shuffle` is not modelled: every operation that places mines takes the shuffled index list as a parameter, required to be a permutation of the board's indices.
  - Grid.TotalMines: the source rounds the double `rows * cols * 0.15` with `Math.round`. The model uses the exact integer rule, 15 % rounded half up, and does not model floating-point error.
- Messages and I/O:
  - Exception messages and the debug line on standard error in `toggleMark` are not modelled: that branch leaves the board unchanged.
  - The JavaFX and console user interface, the timer and the board printer are outside the board engines.
- Board shape:
  - BoardModel members require a rectangular board with at least one row. This is what `cols(list) = list[0].count()` needs: it throws on an empty board, and the engine only ever builds rectangular boards. Jagged boards are not modelled.
  - BoardModel.GenMineLocations and BoardModel.NewBoard also require at least one column. With no columns the source builds `rows` empty row lists and places no mine; that board is not modelled.
  - The text board's dimensions are natural numbers. With exactly one negative dimension the Kotlin constructor fails in `MutableList`. With both negative, for example `Board(-1, -1)`, it builds `rows * cols` squares, and `adjIndices` drops every neighbour because `rows` and `cols` are negative; that board is not modelled.
- Out-of-range inputs:
  - A square on the board is required by the eight members below. For any other square the source throws `IndexOutOfBoundsException`, and that error path is not modelled. The text engine indexes with `toIdx1d(r, c)` alone, so only that index needs to be in range.
  - BoardModel.Reveal: requires an on-board square.
  - BoardModel.ToggleMark: requires an on-board square.
  - BoardModel.ConnectedEmptySquares: requires an on-board start square.
  - BoardModel.NoNeighbouringMines: requires an on-board square.
  - TextBoard.Board.Reveal: requires an in-range index `toIdx1d(r, c)`.
  - TextBoard.Board.ToggleMark: requires an in-range index `toIdx1d(r, c)`.
  - TextBoard.Board.ConnectedEmptySquares: requires an on-board index.
  - TextBoard.Board.NoNeighbouringMines: requires an on-board index.
  - BoardModel.IdxTo2d treats only the two dimensions as possible failures; its Ok result agrees with the source for any index, negative ones included.
- Order of results:
  - TextBoard.Board.ConnectedEmptySquares states the first element and membership. It does not state the exact order in which the breadth-first loop appends indices after the first one; TextBoard.Board.Reveal states the same for its result after `idx`. BoardModel.ConnectedEmptySquares states its order through `Fill`.
- Not modelled at all:
  - `getSquare` and `rows`/`cols` are plain accessors; their behaviour is field access.
  - The regular-expression engine is not modelled. TextBoard.MatchMove is a recogniser for the one pattern `([mr])?(\d+),(\d+)`, and MatchMoveComplete together with its own contract proves that it accepts exactly that language, with `\d` read as ASCII digits.

## Findings

| source | as written | input that shows it | evidently intended | confidence | as-written member | corrected member |
|---|---|---|---|---|---|---|
| src/main/kotlin/org/cliff/kotsweeper/BoardModel.kt:21 | `toIdx1d` computes `rows * r + c`, which multiplies the row by the number of rows | a 2x3 board: (1, 0) and (0, 2) both map to 2, and `idxTo2d(2, 2, 3)` gives (0, 2) | the row-major index `r * cols + c` that the comment describes, which `idxTo2d` inverts | not executed | BoardModel.ToIdx1dNotRowMajor | BoardModel.IdxTo2dRoundTrip |

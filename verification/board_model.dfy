// The value-style engine of BoardModel.kt: a board is a list of rows, and
// every operation that changes it works on a fresh copy and returns that copy.
module BoardModel {
  import opened Seqs
  import Graph
  import opened Squares
  import opened Grid

  /** `List<List<Square>>`, indexed board[row][col]. */
  type Board = seq<seq<Square>>

  /** A rectangular board with at least one row (`cols` reads the first row). */
  ghost predicate IsGrid(b: Board) {
    |b| >= 1 && forall i :: 0 <= i < |b| ==> |b[i]| == |b[0]|
  }

  /**
   * `rows`: the number of row lists. On a rectangular board there is at least
   * one, and every position below `rows` and `cols` is a square.
   */
  function Rows(b: Board): (n: nat)
    ensures IsGrid(b) ==> 1 <= n && forall p :: InGrid(n, Cols(b), p) ==> InBounds(b, p)
  {
    |b|
  }

  /** `cols`: the length of the first row, which on a rectangular board is every row's. */
  function Cols(b: Board): (n: nat)
    requires |b| > 0
    ensures IsGrid(b) ==> forall p :: InBounds(b, p) <==> InGrid(|b|, n, p)
  {
    |b[0]|
  }

  predicate InBounds(b: Board, p: Pos) {
    0 <= p.0 < |b| && 0 <= p.1 < |b[p.0]|
  }

  // ---------------------------------------------------------------------------
  // Index conversions
  // ---------------------------------------------------------------------------

  /**
   * `toIdx1d` as written: it multiplies the row by the number of ROWS, so
   * it is the row-major index of (r, c) exactly when r is 0 or the board
   * has as many rows as columns.
   */
  function ToIdx1d(r: int, c: int, b: Board): (idx: int)
    ensures |b| > 0 ==> (idx == RowMajorIndex(r, c, Cols(b)) <==> r == 0 || Rows(b) == Cols(b))
  {
    Rows(b) * r + c
  }

  /** The row-major index the comment on `toIdx1d` describes: the row times the number of columns. */
  function RowMajorIndex(r: int, c: int, cols: int): int {
    r * cols + c
  }

  /** `idxTo2d`: splits a row-major index; throws when a dimension is zero. */
  function IdxTo2d(idx: int, rowSize: int, colSize: int): (r: Result<Pos>)
    ensures r.Err? <==> rowSize == 0 || colSize == 0
    ensures r.Err? ==> r.failure == EmptyDimension
  {
    if rowSize == 0 || colSize == 0 then Err(EmptyDimension)
    else
      var row := Quot(idx, colSize);
      Ok((row, idx - row * colSize))
  }

  /** Every non-negative index splits into a row and a column of a row-major layout. */
  lemma IdxTo2dSplits(idx: int, rowSize: int, colSize: int)
    requires 0 <= idx && rowSize != 0 && 0 < colSize
    ensures var r := IdxTo2d(idx, rowSize, colSize);
      && r.Ok? && 0 <= r.value.0 && 0 <= r.value.1 < colSize
      && RowMajorIndex(r.value.0, r.value.1, colSize) == idx
  {
  }

  /**
   * On a 2 x 3 board `toIdx1d` sends (1, 0) and (0, 2) to the same index 2,
   * and `idxTo2d` turns 2 back into (0, 2): the round trip from (1, 0) fails.
   */
  lemma ToIdx1dNotRowMajor(b: Board)
    requires IsGrid(b) && Rows(b) == 2 && Cols(b) == 3
    ensures ToIdx1d(1, 0, b) == 2 && ToIdx1d(0, 2, b) == 2
    ensures IdxTo2d(ToIdx1d(1, 0, b), Rows(b), Cols(b)) == Ok((0, 2))
    ensures RowMajorIndex(1, 0, Cols(b)) == 3
  {
    assert ToIdx1d(1, 0, b) == 2;
    assert IdxTo2d(2, 2, 3) == Ok((0, 2));
  }

  /** `idxTo2d` inverts the row-major index on every square of the board. */
  lemma {:induction false} IdxTo2dRoundTrip(r: int, c: int, rows: int, cols: int)
    requires 0 <= r < rows && 0 <= c < cols
    ensures IdxTo2d(RowMajorIndex(r, c, cols), rows, cols) == Ok((r, c))
  {
    DivOfRowMajor(r, c, cols);
  }

  /** The conversions the source's tests check. */
  lemma IdxTo2dExamples()
    ensures IdxTo2d(0, 2, 3) == Ok((0, 0)) && IdxTo2d(1, 2, 3) == Ok((0, 1))
    ensures IdxTo2d(2, 2, 3) == Ok((0, 2)) && IdxTo2d(3, 2, 3) == Ok((1, 0))
    ensures IdxTo2d(4, 2, 3) == Ok((1, 1)) && IdxTo2d(5, 2, 3) == Ok((1, 2))
    ensures IdxTo2d(2, 0, 1).Err? && IdxTo2d(2, 2, 0).Err?
  {
  }

  // ---------------------------------------------------------------------------
  // Board generation
  // ---------------------------------------------------------------------------

  /** `emptyBoard`: rows x cols default squares. */
  function EmptyBoard(rows: nat, cols: nat): (b: Board)
    ensures |b| == rows && forall i :: 0 <= i < rows ==> |b[i]| == cols
    ensures forall i, j :: 0 <= i < rows && 0 <= j < cols ==> b[i][j] == DEFAULT_SQUARE
  {
    seq(rows, _ => seq(cols, _ => DEFAULT_SQUARE))
  }

  /**
   * `genMineLocations`, with the shuffle passed in: the first `totalMines`
   * shuffled indices, converted to positions.
   */
  function GenMineLocations(shuffled: seq<int>, rows: nat, cols: nat): (locs: seq<Pos>)
    requires 0 < rows && 0 < cols && IsShuffle(shuffled, rows * cols)
    ensures |locs| == TotalMines(rows, cols)
    ensures forall i :: 0 <= i < |locs| ==>
      InGrid(rows, cols, locs[i]) && RowMajorIndex(locs[i].0, locs[i].1, cols) == shuffled[i]
    ensures NoDup(locs)
  {
    var k := TotalMines(rows, cols);
    var locs := seq(k, i requires 0 <= i < k => IdxTo2d(shuffled[i], rows, cols).value);
    forall i | 0 <= i < k
      ensures InGrid(rows, cols, locs[i]) && RowMajorIndex(locs[i].0, locs[i].1, cols) == shuffled[i]
    {
      assert shuffled[i] in shuffled;
      IdxTo2dSplits(shuffled[i], rows, cols);
      RowOfIndex(shuffled[i], rows, cols);
    }
    assert NoDup(locs) by {
      forall i, j | 0 <= i < j < k ensures locs[i] != locs[j] {
        assert shuffled[i] != shuffled[j];
      }
    }
    locs
  }

  /** The squares touching p that hold a mine. */
  ghost function MineNeighbours(b: Board, p: Pos): set<Pos> {
    set r, c | 0 <= r < |b| && 0 <= c < |b[r]| && Touching(p, (r, c)) && IsMine(b[r][c]) :: (r, c)
  }

  /** `adjMineCount`: the number of mines on the squares around (row, col). */
  function AdjMineCount(row: int, col: int, b: Board): (n: nat)
    requires IsGrid(b)
    ensures n == |MineNeighbours(b, (row, col))|
    ensures n <= 8
  {
    var adj := AdjIndices(row, col, Rows(b), Cols(b));
    var isMine := (p: Pos) => InBounds(b, p) && IsMine(b[p.0][p.1]);
    AdjMinesCounted(row, col, b, adj, isMine);
    CountAtMost(adj, isMine);
    Count(adj, isMine)
  }

  lemma AdjMinesCounted(row: int, col: int, b: Board, adj: seq<Pos>, isMine: Pos -> bool)
    requires IsGrid(b) && NoDup(adj)
    requires forall p :: p in adj <==> InGrid(Rows(b), Cols(b), p) && Touching((row, col), p)
    requires forall p :: isMine(p) == (InBounds(b, p) && IsMine(b[p.0][p.1]))
    ensures Count(adj, isMine) == |MineNeighbours(b, (row, col))|
  {
    CountNoDupIsCard(adj, isMine);
    AdjMinesAreMineNeighbours(row, col, b, adj, isMine);
  }

  lemma AdjMinesAreMineNeighbours(row: int, col: int, b: Board, adj: seq<Pos>, isMine: Pos -> bool)
    requires IsGrid(b) && NoDup(adj)
    requires forall p :: p in adj <==> InGrid(Rows(b), Cols(b), p) && Touching((row, col), p)
    requires forall p :: isMine(p) == (InBounds(b, p) && IsMine(b[p.0][p.1]))
    ensures ElemsWhere(adj, isMine) == MineNeighbours(b, (row, col))
  {
    forall q ensures q in adj && isMine(q) <==> q in MineNeighbours(b, (row, col)) {
      if q in MineNeighbours(b, (row, col)) {
        assert InGrid(Rows(b), Cols(b), q);
      }
    }
  }

  /** Every square's count is the number of mines around it. */
  ghost predicate CountsConsistent(b: Board) {
    forall r, c :: 0 <= r < |b| && 0 <= c < |b[r]| ==> b[r][c].adjCount == |MineNeighbours(b, (r, c))|
  }

  /** The positions whose square satisfies P. */
  ghost function PositionsWhere(b: Board, P: Square -> bool): set<Pos> {
    set r, c | 0 <= r < |b| && 0 <= c < |b[r]| && P(b[r][c]) :: (r, c)
  }

  /**
   * `newBoard`, with the shuffle passed in. The mines are the squares of
   * `genMineLocations`; every square, a mine included, ends with the number
   * of mines around it, because the second loop overwrites every count.
   */
  method NewBoard(rows: nat, cols: nat, shuffled: seq<int>) returns (board: Board)
    requires 0 < rows && 0 < cols && IsShuffle(shuffled, rows * cols)
    ensures IsGrid(board) && Rows(board) == rows && Cols(board) == cols
    ensures forall r, c :: 0 <= r < rows && 0 <= c < cols ==>
      board[r][c].status == Unknown && (IsMine(board[r][c]) <==> (r, c) in GenMineLocations(shuffled, rows, cols))
    ensures CountsConsistent(board)
    ensures |PositionsWhere(board, IsMine)| == TotalMines(rows, cols)
  {
    board := EmptyBoard(rows, cols);
    var mineIndices := GenMineLocations(shuffled, rows, cols);
    board := PlaceMines(board, mineIndices);
    ghost var placed: Board := board;
    board := SetAdjCounts(board);
    SameKindsSameMines(board, placed);
    MinesOfNewBoard(board, shuffled, rows, cols);
  }

  /** The first loop of `newBoard`: every listed square becomes a mine. */
  method PlaceMines(b: Board, mines: seq<Pos>) returns (board: Board)
    requires IsGrid(b) && forall p :: p in mines ==> InBounds(b, p)
    ensures IsGrid(board) && Rows(board) == Rows(b) && Cols(board) == Cols(b)
    ensures forall r, c :: 0 <= r < |b| && 0 <= c < |b[r]| ==>
      board[r][c] == if (r, c) in mines then b[r][c].(kind := Mine, adjCount := 0) else b[r][c]
  {
    board := b;
    for k := 0 to |mines|
      invariant |board| == |b| && forall i :: 0 <= i < |b| ==> |board[i]| == |b[i]|
      invariant forall r, c :: 0 <= r < |b| && 0 <= c < |b[r]| ==>
        board[r][c] == if (r, c) in mines[..k] then b[r][c].(kind := Mine, adjCount := 0) else b[r][c]
    {
      var (row, col) := mines[k];
      assert mines[k] in mines;
      board := board[row := board[row][col := board[row][col].(kind := Mine, adjCount := 0)]];
    }
    assert mines[..|mines|] == mines;
  }

  /** The nested loops of `newBoard`: every square, a mine included, gets the number of mines around it. */
  method SetAdjCounts(b: Board) returns (board: Board)
    requires IsGrid(b)
    ensures SameKinds(board, b) && CountsConsistent(board)
    ensures forall r, c :: 0 <= r < |b| && 0 <= c < |b[r]| ==> board[r][c].status == b[r][c].status
  {
    board := b;
    for ri := 0 to |b|
      invariant SameKinds(board, b)
      invariant forall r, c :: 0 <= r < |b| && 0 <= c < |b[r]| ==> board[r][c].status == b[r][c].status
      invariant forall r, c :: 0 <= r < ri && 0 <= c < |b[r]| ==>
        board[r][c].adjCount == |MineNeighbours(b, (r, c))|
    {
      for ci := 0 to |b[ri]|
        invariant SameKinds(board, b)
        invariant forall r, c :: 0 <= r < |b| && 0 <= c < |b[r]| ==> board[r][c].status == b[r][c].status
        invariant forall r, c :: 0 <= r < ri && 0 <= c < |b[r]| ==>
          board[r][c].adjCount == |MineNeighbours(b, (r, c))|
        invariant forall c :: 0 <= c < ci ==> board[ri][c].adjCount == |MineNeighbours(b, (ri, c))|
      {
        SameKindsSameMines(board, b);
        ghost var prev := board;
        board := SetAdjCount(board, ri, ci);
        CountUpdated(prev, board, b, ri, ci, |MineNeighbours(b, (ri, ci))|);
      }
    }
    SameKindsSameMines(board, b);
  }

  /** One step of the nested loops: `board[ri][ci].adjCount = adjMineCount(ri, ci, board)`. */
  method SetAdjCount(b: Board, ri: int, ci: int) returns (nb: Board)
    requires IsGrid(b) && InBounds(b, (ri, ci))
    ensures nb == b[ri := b[ri][ci := b[ri][ci].(adjCount := |MineNeighbours(b, (ri, ci))|)]]
  {
    nb := b[ri := b[ri][ci := b[ri][ci].(adjCount := AdjMineCount(ri, ci, b))]];
  }

  /** Replacing one square's count keeps the layout of mines and changes nothing else. */
  lemma CountUpdated(prev: Board, board: Board, b: Board, ri: int, ci: int, n: int)
    requires SameKinds(prev, b) && 0 <= ri < |prev| && 0 <= ci < |prev[ri]|
    requires board == prev[ri := prev[ri][ci := prev[ri][ci].(adjCount := n)]]
    ensures SameKinds(board, b)
    ensures forall r, c :: 0 <= r < |b| && 0 <= c < |b[r]| ==>
      board[r][c] == if (r, c) == (ri, ci) then prev[r][c].(adjCount := n) else prev[r][c]
  {
  }

  /** Boards with the same dimensions and the same mines. */
  ghost predicate SameKinds(b1: Board, b2: Board) {
    && |b1| == |b2|
    && (forall r :: 0 <= r < |b1| ==> |b1[r]| == |b2[r]|)
    && (forall r, c :: 0 <= r < |b1| && 0 <= c < |b1[r]| ==> b1[r][c].kind == b2[r][c].kind)
  }

  lemma SameKindsSameMines(b1: Board, b2: Board)
    requires SameKinds(b1, b2)
    ensures forall p :: MineNeighbours(b1, p) == MineNeighbours(b2, p)
    ensures PositionsWhere(b1, IsMine) == PositionsWhere(b2, IsMine)
  {
    forall p ensures MineNeighbours(b1, p) == MineNeighbours(b2, p) {
      assert forall q :: q in MineNeighbours(b1, p) <==> q in MineNeighbours(b2, p);
    }
    assert forall q :: q in PositionsWhere(b1, IsMine) <==> q in PositionsWhere(b2, IsMine);
  }

  /** A board whose mines are the converted first `totalMines` shuffled indices has `totalMines` mines. */
  lemma MinesOfNewBoard(b: Board, shuffled: seq<int>, rows: nat, cols: nat)
    requires 0 < rows && 0 < cols && IsShuffle(shuffled, rows * cols)
    requires IsGrid(b) && Rows(b) == rows && Cols(b) == cols
    requires forall r, c :: 0 <= r < rows && 0 <= c < cols ==>
      (IsMine(b[r][c]) <==> (r, c) in GenMineLocations(shuffled, rows, cols))
    ensures |PositionsWhere(b, IsMine)| == TotalMines(rows, cols)
  {
    var locs := GenMineLocations(shuffled, rows, cols);
    assert PositionsWhere(b, IsMine) == Elems(locs);
    NoDupCard(locs);
  }

  // ---------------------------------------------------------------------------
  // Flood fill
  // ---------------------------------------------------------------------------

  /**
   * `bNoNeigboringMines`: the square is empty and its count is zero, which on
   * a board whose counts are right means that no neighbour is a mine.
   */
  function NoNeighbouringMines(row: int, col: int, b: Board): (zero: bool)
    requires InBounds(b, (row, col))
    ensures CountsConsistent(b) ==> (zero <==> !IsMine(b[row][col]) && MineNeighbours(b, (row, col)) == {})
  {
    IsZero(b[row][col])
  }

  /** A zero square: on the board, empty, and with no neighbouring mine. */
  predicate ZeroAt(b: Board, p: Pos) {
    InBounds(b, p) && NoNeighbouringMines(p.0, p.1, b)
  }

  /** The squares the flood fill may walk through. */
  function ZeroCells(b: Board): Pos -> bool {
    p => ZeroAt(b, p)
  }

  /** p is reached from s through touching zero squares. */
  ghost predicate InRegion(b: Board, s: Pos, p: Pos) {
    Graph.Reaches(Touching, ZeroCells(b), s, p)
  }

  /** What the flood fill from s uncovers: its zero region and every square touching that region. */
  ghost predicate InFill(b: Board, s: Pos, p: Pos) {
    InRegion(b, s, p) || (InBounds(b, p) && exists v :: InRegion(b, s, v) && Touching(v, p))
  }

  /** The squares of a rows x cols board. */
  function AllCells(rows: nat, cols: nat): (cells: set<Pos>)
    ensures forall p :: p in cells <==> InGrid(rows, cols, p)
  {
    set r, c | 0 <= r < rows && 0 <= c < cols :: (r, c)
  }

  /** `adjIndices(r, c, board).filter { bNoNeigboringMines(..) }`: the zero squares touching p. */
  function ZeroNeighbours(b: Board, p: Pos): (zs: seq<Pos>)
    requires IsGrid(b)
    ensures NoDup(zs) && RowMajorSorted(zs)
    ensures forall q :: q in zs <==> Touching(p, q) && ZeroAt(b, q)
  {
    var adj := AdjIndices(p.0, p.1, Rows(b), Cols(b));
    FilterKeepsSorted(adj, ZeroCells(b));
    Filter(adj, ZeroCells(b))
  }

  /** `adjIndices` as a function of the square. */
  function Around(rows: int, cols: int): Pos -> seq<Pos> {
    (v: Pos) => AdjIndices(v.0, v.1, rows, cols)
  }

  /** `visited.flatMap { (r, c) -> adjIndices(r, c, board) }`: the squares touching some visited square. */
  function Border(b: Board, visited: seq<Pos>): (r: seq<Pos>)
    requires IsGrid(b)
    ensures forall q :: q in r <==> InBounds(b, q) && exists v :: v in visited && Touching(v, q)
  {
    var rows, cols := Rows(b), Cols(b);
    var r := FlatMap(visited, Around(rows, cols));
    assert forall q :: InGrid(rows, cols, q) <==> InBounds(b, q);
    r
  }

  /**
   * The loop of `connectedEmptySquares` as a function: a round adds the
   * queue's unvisited squares to `visited`, drops the queue's head and queues
   * the head's zero neighbours not yet visited, until the queue is empty.
   */
  function FillWalk(b: Board, visited: seq<Pos>, adjacents: seq<Pos>): seq<Pos>
    requires IsGrid(b) && forall q :: q in adjacents ==> q in AllCells(Rows(b), Cols(b))
    decreases AllCells(Rows(b), Cols(b)) - (Elems(visited) + Elems(adjacents)), |adjacents|
  {
    if adjacents == [] then visited
    else
      var visited' := visited + Unvisited(adjacents, visited);
      var next := ZeroNeighbours(b, adjacents[0]);
      ZeroNeighboursOnBoard(b, next);
      Graph.BfsShrinks(AllCells(Rows(b), Cols(b)), visited, adjacents, next);
      FillWalk(b, visited', adjacents[1..] + Unvisited(next, visited'))
  }

  /** A round of the loop is a step of `FillWalk`, and it queues squares of the board only. */
  lemma FillWalkStep(b: Board, visited: seq<Pos>, adjacents: seq<Pos>)
    requires IsGrid(b) && adjacents != [] && forall q :: q in adjacents ==> q in AllCells(Rows(b), Cols(b))
    ensures var visited' := visited + Unvisited(adjacents, visited);
      var adjacents' := adjacents[1..] + Unvisited(ZeroNeighbours(b, adjacents[0]), visited');
      && (forall q :: q in adjacents' ==> q in AllCells(Rows(b), Cols(b)))
      && FillWalk(b, visited', adjacents') == FillWalk(b, visited, adjacents)
  {
    ZeroNeighboursOnBoard(b, ZeroNeighbours(b, adjacents[0]));
  }

  /** The list `connectedEmptySquares` returns, in its order. */
  function Fill(b: Board, row: int, col: int): seq<Pos>
    requires IsGrid(b) && InBounds(b, (row, col))
  {
    if !NoNeighbouringMines(row, col, b) then []
    else
      var adjacents := ZeroNeighbours(b, (row, col));
      ZeroNeighboursOnBoard(b, adjacents);
      var visited := FillWalk(b, [(row, col)], adjacents);
      Distinct(visited + Border(b, visited))
  }

  /**
   * `connectedEmptySquares`: the breadth-first fill from (row, col). Empty
   * unless (row, col) is a zero square; otherwise it starts with (row, col)
   * and holds, once each, the zero region around it and that region's border.
   */
  method ConnectedEmptySquares(row: int, col: int, b: Board) returns (connected: seq<Pos>)
    requires IsGrid(b) && InBounds(b, (row, col))
    ensures connected == [] <==> !NoNeighbouringMines(row, col, b)
    ensures connected != [] ==> connected[0] == (row, col)
    ensures NoDup(connected)
    ensures forall p :: p in connected <==> InFill(b, (row, col), p)
    ensures connected == Fill(b, row, col)
  {
    ghost var s := (row, col);
    var visited: seq<Pos> := [];
    if NoNeighbouringMines(row, col, b) {
      visited := [(row, col)];
      var adjacents := ZeroNeighbours(b, (row, col));
      Graph.BfsStart(Touching, ZeroCells(b), s, adjacents);
      ZeroNeighboursOnBoard(b, adjacents);
      ghost var walked := FillWalk(b, visited, adjacents);
      while adjacents != []
        invariant Graph.BfsInv(Touching, ZeroCells(b), s, visited, adjacents)
        invariant forall q :: q in adjacents ==> q in AllCells(Rows(b), Cols(b))
        invariant FillWalk(b, visited, adjacents) == walked
        decreases AllCells(Rows(b), Cols(b)) - (Elems(visited) + Elems(adjacents)), |adjacents|
      {
        ghost var (visited0, adjacents0) := (visited, adjacents);
        visited := visited + Unvisited(adjacents, visited);
        var first := adjacents[0];
        adjacents := adjacents[1..];
        var nextAdjacents := ZeroNeighbours(b, first);
        adjacents := adjacents + Unvisited(nextAdjacents, visited);
        Graph.BfsStep(Touching, ZeroCells(b), s, visited0, adjacents0, nextAdjacents);
        FillWalkStep(b, visited0, adjacents0);
        ZeroNeighboursOnBoard(b, nextAdjacents);
        Graph.BfsShrinks(AllCells(Rows(b), Cols(b)), visited0, adjacents0, nextAdjacents);
      }
      assert visited == walked;
      var squaresWithCounts := Border(b, visited);
      FillOfRegion(b, s, visited);
      visited := visited + squaresWithCounts;
    } else {
      MineFillIsEmpty(b, row, col);
    }
    connected := Distinct(visited);
  }

  /** Zero squares are squares of the board. */
  lemma ZeroNeighboursOnBoard(b: Board, zs: seq<Pos>)
    requires IsGrid(b) && forall q :: q in zs ==> ZeroAt(b, q)
    ensures forall q :: q in zs ==> q in AllCells(Rows(b), Cols(b))
  {
    forall q | q in zs ensures InGrid(Rows(b), Cols(b), q) {
      assert ZeroAt(b, q) && |b[q.0]| == |b[0]|;
    }
  }

  /** The region plus its border, without duplicates, is the fill, starting at s. */
  lemma FillOfRegion(b: Board, s: Pos, visited: seq<Pos>)
    requires IsGrid(b) && Graph.BfsInv(Touching, ZeroCells(b), s, visited, [])
    ensures var connected := Distinct(visited + Border(b, visited));
      && connected != [] && connected[0] == s
      && forall p :: p in connected <==> InFill(b, s, p)
  {
    Graph.BfsDone(Touching, ZeroCells(b), s, visited);
    DistinctKeepsPrefix(visited, Border(b, visited));
  }

  /** Nothing is filled from a square that is not a zero square, a mine in particular. */
  lemma MineFillIsEmpty(b: Board, row: int, col: int)
    requires IsGrid(b) && InBounds(b, (row, col)) && !NoNeighbouringMines(row, col, b)
    ensures forall p :: !InFill(b, (row, col), p)
  {
    forall v | InRegion(b, (row, col), v) ensures false {
      Graph.ReachesOk(Touching, ZeroCells(b), (row, col), v);
    }
  }

  // ---------------------------------------------------------------------------
  // Copy, reveal, mark, disclose
  // ---------------------------------------------------------------------------

  /** `copyBoard`: a square-by-square copy into a fresh empty board; the copy equals the original. */
  method CopyBoard(b: Board) returns (nb: Board)
    requires IsGrid(b)
    ensures nb == b
  {
    nb := EmptyBoard(Rows(b), Cols(b));
    for ri := 0 to |b|
      invariant |nb| == |b| && forall i :: 0 <= i < |b| ==> |nb[i]| == |b[i]|
      invariant forall i :: 0 <= i < ri ==> nb[i] == b[i]
    {
      for ci := 0 to |b[ri]|
        invariant |nb| == |b| && forall i :: 0 <= i < |b| ==> |nb[i]| == |b[i]|
        invariant forall i :: 0 <= i < ri ==> nb[i] == b[i]
        invariant nb[ri][..ci] == b[ri][..ci]
      {
        nb := nb[ri := nb[ri][ci := b[ri][ci]]];
        assert nb[ri][..ci + 1] == b[ri][..ci + 1];
      }
      assert nb[ri] == nb[ri][..|b[ri]|];
    }
  }

  /** The board with only the status of (r, c) replaced. */
  function SetStatus(b: Board, r: int, c: int, status: SquareStatus): Board
    requires InBounds(b, (r, c))
  {
    b[r := b[r][c := b[r][c].(status := status)]]
  }

  /** `SetStatus` square by square. */
  lemma SetStatusAt(b: Board, r: int, c: int, status: SquareStatus)
    requires InBounds(b, (r, c))
    ensures forall i, j :: 0 <= i < |b| && 0 <= j < |b[i]| ==>
      SetStatus(b, r, c, status)[i][j] == if (i, j) == (r, c) then b[i][j].(status := status) else b[i][j]
  {
  }

  /** Setting a square's status to the one it has leaves the board as it is. */
  lemma UnchangedStatus(b: Board, r: int, c: int)
    requires InBounds(b, (r, c))
    ensures SetStatus(b, r, c, b[r][c].status) == b
  {
    assert b[r][c].(status := b[r][c].status) == b[r][c];
    assert b[r][c := b[r][c]] == b[r];
  }

  /** What `reveal` should produce: (row, col) and its fill revealed, nothing else changed. */
  ghost function AfterReveal(b: Board, row: int, col: int): Board
    requires IsGrid(b) && InBounds(b, (row, col))
  {
    seq(|b|, i requires 0 <= i < |b| => seq(|b[i]|, j requires 0 <= j < |b[i]| =>
      if (i, j) == (row, col) || InFill(b, (row, col), (i, j)) then b[i][j].(status := Revealed) else b[i][j]))
  }

  /** Boards with the same dimensions, mines and counts; statuses may differ. */
  ghost predicate SameLayout(b1: Board, b2: Board) {
    && SameKinds(b1, b2)
    && (forall r, c :: 0 <= r < |b1| && 0 <= c < |b1[r]| ==> b1[r][c].adjCount == b2[r][c].adjCount)
  }

  /** The fill depends only on mines and counts, not on what the player has done. */
  lemma FillOfSameLayout(b1: Board, b2: Board, s: Pos)
    requires SameLayout(b1, b2)
    ensures forall p :: InFill(b1, s, p) <==> InFill(b2, s, p)
  {
    forall p ensures ZeroCells(b1)(p) == ZeroCells(b2)(p) {
    }
    forall p | InRegion(b1, s, p) ensures InRegion(b2, s, p) {
      Graph.ReachesSameOk(Touching, ZeroCells(b1), ZeroCells(b2), s, p);
    }
    forall p | InRegion(b2, s, p) ensures InRegion(b1, s, p) {
      Graph.ReachesSameOk(Touching, ZeroCells(b2), ZeroCells(b1), s, p);
    }
  }

  /**
   * `reveal`: on a copy, (row, col) becomes revealed; unless it is a mine,
   * every square of `connectedEmptySquares` is revealed too, whatever its status.
   */
  method Reveal(row: int, col: int, b: Board) returns (nb: Board)
    requires IsGrid(b) && InBounds(b, (row, col))
    ensures nb == AfterReveal(b, row, col)
  {
    nb := CopyBoard(b);
    nb := SetStatus(nb, row, col, Revealed);
    ghost var s := (row, col);
    if !IsMine(nb[row][col]) {
      var connectedEmpties := ConnectedEmptySquares(row, col, nb);
      FillOfSameLayout(nb, b, s);
      FillInBounds(b, s);
      ghost var once := nb;
      nb := RevealSquares(nb, connectedEmpties);
      RevealComposes(b, once, nb, s, connectedEmpties);
    } else {
      MineFillIsEmpty(b, row, col);
      RevealComposes(b, nb, nb, s, []);
    }
  }

  /** Revealing (row, col), then the squares of its fill, gives `AfterReveal`. */
  lemma RevealComposes(b: Board, once: Board, nb: Board, s: Pos, squares: seq<Pos>)
    requires IsGrid(b) && InBounds(b, s) && once == SetStatus(b, s.0, s.1, Revealed)
    requires forall p :: p in squares <==> InFill(b, s, p)
    requires |nb| == |b| && forall i :: 0 <= i < |b| ==> |nb[i]| == |b[i]|
    requires forall i, j :: 0 <= i < |b| && 0 <= j < |b[i]| ==>
      nb[i][j] == if (i, j) in squares then once[i][j].(status := Revealed) else once[i][j]
    ensures nb == AfterReveal(b, s.0, s.1)
  {
    var a := AfterReveal(b, s.0, s.1);
    AfterRevealSquares(b, s.0, s.1);
    SetStatusAt(b, s.0, s.1, Revealed);
    forall i, j | 0 <= i < |b| && 0 <= j < |b[i]| ensures nb[i][j] == a[i][j] {
      var sq := b[i][j];
      var filled := (i, j) in squares;
      assert filled == InFill(b, s, (i, j));
      assert once[i][j] == if (i, j) == s then sq.(status := Revealed) else sq;
      assert a[i][j] == if (i, j) == s || filled then sq.(status := Revealed) else sq;
    }
    SameSquares(nb, a);
  }

  /** `connectedEmpties.forEach { (r, c) -> newBoard[r][c].status = REVEALED }`. */
  method RevealSquares(b: Board, squares: seq<Pos>) returns (nb: Board)
    requires forall p :: p in squares ==> InBounds(b, p)
    ensures |nb| == |b| && forall i :: 0 <= i < |b| ==> |nb[i]| == |b[i]|
    ensures forall i, j :: 0 <= i < |b| && 0 <= j < |b[i]| ==>
      nb[i][j] == if (i, j) in squares then b[i][j].(status := Revealed) else b[i][j]
  {
    nb := b;
    for k := 0 to |squares|
      invariant |nb| == |b| && forall i :: 0 <= i < |b| ==> |nb[i]| == |b[i]|
      invariant forall i, j :: 0 <= i < |b| && 0 <= j < |b[i]| ==>
        nb[i][j] == if (i, j) in squares[..k] then b[i][j].(status := Revealed) else b[i][j]
    {
      var (r, c) := squares[k];
      assert squares[k] in squares;
      nb := SetStatus(nb, r, c, Revealed);
      assert squares[..k + 1] == squares[..k] + [(r, c)];
    }
    assert squares[..|squares|] == squares;
  }

  lemma AfterRevealSquares(b: Board, row: int, col: int)
    requires IsGrid(b) && InBounds(b, (row, col))
    ensures var a := AfterReveal(b, row, col);
      && |a| == |b| && (forall i :: 0 <= i < |b| ==> |a[i]| == |b[i]|)
      && forall i, j :: 0 <= i < |b| && 0 <= j < |b[i]| ==>
        a[i][j] == if (i, j) == (row, col) || InFill(b, (row, col), (i, j)) then b[i][j].(status := Revealed) else b[i][j]
  {
  }

  /** The fill stays on the board. */
  lemma FillInBounds(b: Board, s: Pos)
    ensures forall p :: InFill(b, s, p) ==> InBounds(b, p)
  {
    forall p | InRegion(b, s, p) ensures InBounds(b, p) {
      Graph.ReachesOk(Touching, ZeroCells(b), s, p);
    }
  }

  /** Boards of the same shape with the same square everywhere are equal. */
  lemma SameSquares(b1: Board, b2: Board)
    requires |b1| == |b2| && forall i :: 0 <= i < |b1| ==> |b1[i]| == |b2[i]|
    requires forall i, j :: 0 <= i < |b1| && 0 <= j < |b1[i]| ==> b1[i][j] == b2[i][j]
    ensures b1 == b2
  {
    forall i | 0 <= i < |b1| ensures b1[i] == b2[i] {
      assert forall j :: 0 <= j < |b1[i]| ==> b1[i][j] == b2[i][j];
    }
  }

  /** The three-state mark cycle of `toggleMark`: Unknown, Question, Marked, Unknown; other statuses stay. */
  function NextMark(s: SquareStatus): SquareStatus {
    match s
    case Unknown => Question
    case Question => Marked
    case Marked => Unknown
    case _ => s
  }

  /** What `toggleMark` should produce: only the status of (r, c) moves one step along the cycle. */
  function AfterToggle(b: Board, r: int, c: int): Board
    requires InBounds(b, (r, c))
  {
    SetStatus(b, r, c, NextMark(b[r][c].status))
  }

  /**
   * `toggleMark`: on a copy, a square that is not revealed moves along the
   * cycle; any other status only prints a debug line, which is not modelled.
   */
  method ToggleMark(r: int, c: int, b: Board) returns (nb: Board)
    requires IsGrid(b) && InBounds(b, (r, c))
    ensures nb == AfterToggle(b, r, c)
  {
    nb := CopyBoard(b);
    if nb[r][c].status != Revealed {
      match nb[r][c].status {
        case Unknown => nb := SetStatus(nb, r, c, Question);
        case Question => nb := SetStatus(nb, r, c, Marked);
        case Marked => nb := SetStatus(nb, r, c, Unknown);
        case _ => UnchangedStatus(b, r, c);
      }
    } else {
      UnchangedStatus(b, r, c);
    }
  }

  /** The end-of-game change to one square: a marked empty square is mismarked, a mine is revealed. */
  function Disclose(s: Square): Square {
    if s.status == Marked && s.kind == Empty then s.(status := Mismarked)
    else if s.kind == Mine then s.(status := Revealed)
    else s
  }

  /** What `revealBoard` should produce: every square disclosed. */
  function Disclosed(b: Board): Board {
    seq(|b|, i requires 0 <= i < |b| => seq(|b[i]|, j requires 0 <= j < |b[i]| => Disclose(b[i][j])))
  }

  /** `revealBoard`: on a copy, discloses every square. */
  method RevealBoard(b: Board) returns (nb: Board)
    requires IsGrid(b)
    ensures nb == Disclosed(b)
  {
    nb := CopyBoard(b);
    for ri := 0 to |nb|
      invariant |nb| == |b| && forall i :: 0 <= i < |b| ==> |nb[i]| == |b[i]|
      invariant forall i, j :: 0 <= i < |b| && 0 <= j < |b[i]| ==>
        nb[i][j] == if i < ri then Disclose(b[i][j]) else b[i][j]
    {
      for ci := 0 to |nb[ri]|
        invariant |nb| == |b| && forall i :: 0 <= i < |b| ==> |nb[i]| == |b[i]|
        invariant forall i, j :: 0 <= i < |b| && 0 <= j < |b[i]| ==>
          nb[i][j] == if i < ri || (i == ri && j < ci) then Disclose(b[i][j]) else b[i][j]
      {
        var square := nb[ri][ci];
        if square.status == Marked && square.kind == Empty {
          nb := SetStatus(nb, ri, ci, Mismarked);
        } else if square.kind == Mine {
          nb := SetStatus(nb, ri, ci, Revealed);
        }
      }
    }
    SameSquares(nb, Disclosed(b));
  }

  // ---------------------------------------------------------------------------
  // Queries
  // ---------------------------------------------------------------------------

  /** The positions whose square satisfies `keep`, in row-major order (a nested `forEachIndexed`). */
  method IndicesWhere(b: Board, keep: Square -> bool) returns (indices: seq<Pos>)
    ensures RowMajorSorted(indices)
    ensures forall p :: p in indices <==> InBounds(b, p) && keep(b[p.0][p.1])
  {
    indices := [];
    for ridx := 0 to |b|
      invariant RowMajorSorted(indices)
      invariant forall p :: p in indices ==> p.0 < ridx
      invariant forall p :: p in indices <==> InBounds(b, p) && p.0 < ridx && keep(b[p.0][p.1])
    {
      for cidx := 0 to |b[ridx]|
        invariant RowMajorSorted(indices)
        invariant forall p :: p in indices ==> Before(p, (ridx, cidx))
        invariant forall p :: p in indices <==> InBounds(b, p) && Before(p, (ridx, cidx)) && keep(b[p.0][p.1])
      {
        if keep(b[ridx][cidx]) {
          indices := indices + [(ridx, cidx)];
        }
      }
    }
  }

  /** `correctlyMarkedIndices`: the marked mines, in row-major order. */
  method CorrectlyMarkedIndices(b: Board) returns (indices: seq<Pos>)
    ensures RowMajorSorted(indices)
    ensures forall p :: p in indices <==> InBounds(b, p) && b[p.0][p.1].status == Marked && b[p.0][p.1].kind == Mine
  {
    indices := IndicesWhere(b, IsCorrectlyMarked);
  }

  /** `getMinedIndices`: the mines, in row-major order. */
  method GetMinedIndices(b: Board) returns (indices: seq<Pos>)
    ensures RowMajorSorted(indices)
    ensures forall p :: p in indices <==> InBounds(b, p) && b[p.0][p.1].kind == Mine
  {
    indices := IndicesWhere(b, IsMine);
  }

  /** The row-by-row `fold` of `filter { .. }.count()`. */
  function CountWhere(b: Board, P: Square -> bool): nat {
    if b == [] then 0 else CountWhere(b[..|b| - 1], P) + Count(b[|b| - 1], P)
  }

  lemma {:induction false} CountWhereIsCard(b: Board, P: Square -> bool)
    ensures CountWhere(b, P) == |PositionsWhere(b, P)|
  {
    if b != [] {
      var init := b[..|b| - 1];
      var k := |b| - 1;
      CountWhereIsCard(init, P);
      CountIsRowCard(b[k], k, P);
      var lastRow := RowPositions(b[k], k, P);
      forall p | p in PositionsWhere(b, P) ensures p in PositionsWhere(init, P) + lastRow {
        if p.0 < k {
          assert b[p.0] == init[p.0];
        }
      }
      forall p | p in PositionsWhere(init, P) + lastRow ensures p in PositionsWhere(b, P) {
        if p in PositionsWhere(init, P) {
          assert b[p.0] == init[p.0];
        }
      }
      assert PositionsWhere(b, P) == PositionsWhere(init, P) + lastRow;
      assert PositionsWhere(init, P) * lastRow == {};
    }
  }

  /** `checkForWin`: the number of marked mines equals the mine count the formula gives. */
  function CheckForWin(b: Board): (win: bool)
    requires IsGrid(b)
    ensures win <==> |PositionsWhere(b, IsCorrectlyMarked)| == TotalMines(Rows(b), Cols(b))
  {
    CountWhereIsCard(b, IsCorrectlyMarked);
    CountWhere(b, IsCorrectlyMarked) == TotalMines(Rows(b), Cols(b))
  }

  /** `unmarkedMineCount`: the formula's mine count minus the marked squares; negative when over-marked. */
  function UnmarkedMineCount(b: Board): (n: int)
    requires IsGrid(b)
    ensures n == TotalMines(Rows(b), Cols(b)) - |PositionsWhere(b, IsMarked)|
  {
    CountWhereIsCard(b, IsMarked);
    TotalMines(Rows(b), Cols(b)) - CountWhere(b, IsMarked)
  }

  // ---------------------------------------------------------------------------
  // Properties of play
  // ---------------------------------------------------------------------------

  /** Setting a square's status twice keeps only the second. */
  lemma SetStatusTwice(b: Board, r: int, c: int, s1: SquareStatus, s2: SquareStatus)
    requires InBounds(b, (r, c))
    ensures SetStatus(SetStatus(b, r, c, s1), r, c, s2) == SetStatus(b, r, c, s2)
  {
    var once: Board := SetStatus(b, r, c, s1);
    assert once[r][c := once[r][c].(status := s2)] == b[r][c := b[r][c].(status := s2)];
  }

  /** Three `toggleMark`s on the same square give the board back. */
  lemma ToggleThrice(b: Board, r: int, c: int)
    requires InBounds(b, (r, c))
    ensures AfterToggle(AfterToggle(AfterToggle(b, r, c), r, c), r, c) == b
  {
    var s0 := b[r][c].status;
    var b1 := AfterToggle(b, r, c);
    var b2 := AfterToggle(b1, r, c);
    SetStatusTwice(b, r, c, NextMark(s0), NextMark(NextMark(s0)));
    assert b2 == SetStatus(b, r, c, NextMark(NextMark(s0)));
    SetStatusTwice(b, r, c, NextMark(NextMark(s0)), NextMark(NextMark(NextMark(s0))));
    assert NextMark(NextMark(NextMark(s0))) == s0;
    UnchangedStatus(b, r, c);
  }

  /** Changing statuses keeps the dimensions, the mines and the counts. */
  lemma SetStatusKeepsLayout(b: Board, r: int, c: int, status: SquareStatus)
    requires InBounds(b, (r, c))
    ensures SameLayout(SetStatus(b, r, c, status), b)
    ensures IsGrid(b) ==> IsGrid(SetStatus(b, r, c, status))
  {
  }

  /** Changing the status of (r, c) changes which positions satisfy P at (r, c) only. */
  lemma PositionsAfterSetStatus(b: Board, r: int, c: int, status: SquareStatus, P: Square -> bool)
    requires InBounds(b, (r, c))
    ensures var after := PositionsWhere(SetStatus(b, r, c, status), P);
      && (forall p :: p != (r, c) ==> (p in after <==> p in PositionsWhere(b, P)))
      && ((r, c) in after <==> P(b[r][c].(status := status)))
  {
  }

  /** Marking a square with a flag takes one from the mines left to find; unflagging gives it back. */
  lemma UnmarkedAfterToggle(b: Board, r: int, c: int)
    requires IsGrid(b) && InBounds(b, (r, c))
    ensures IsGrid(AfterToggle(b, r, c))
    ensures UnmarkedMineCount(AfterToggle(b, r, c)) == UnmarkedMineCount(b) +
      (if b[r][c].status == Question then -1 else if b[r][c].status == Marked then 1 else 0)
  {
    SetStatusKeepsLayout(b, r, c, NextMark(b[r][c].status));
    MarkedAfterToggle(b, r, c);
  }

  /** The flagged positions after `toggleMark`: (r, c) joins them from Question and leaves them from Marked. */
  lemma MarkedAfterToggle(b: Board, r: int, c: int)
    requires InBounds(b, (r, c))
    ensures var before := PositionsWhere(b, IsMarked);
      var after := PositionsWhere(AfterToggle(b, r, c), IsMarked);
      && (b[r][c].status == Question ==> after == before + {(r, c)} && (r, c) !in before)
      && (b[r][c].status == Marked ==> before == after + {(r, c)} && (r, c) !in after)
      && (b[r][c].status != Question && b[r][c].status != Marked ==> after == before)
  {
    PositionsAfterSetStatus(b, r, c, NextMark(b[r][c].status), IsMarked);
    var before := PositionsWhere(b, IsMarked);
    var after := PositionsWhere(AfterToggle(b, r, c), IsMarked);
    if b[r][c].status == Question {
      assert after == before + {(r, c)};
    } else if b[r][c].status == Marked {
      assert before == after + {(r, c)};
    } else {
      assert after == before;
    }
  }

  /** Revealing keeps the layout: only statuses change. */
  lemma RevealKeepsLayout(b: Board, row: int, col: int)
    requires IsGrid(b) && InBounds(b, (row, col))
    ensures SameLayout(AfterReveal(b, row, col), b) && IsGrid(AfterReveal(b, row, col))
  {
    AfterRevealSquares(b, row, col);
  }

  /** Disclosing keeps the layout: only statuses change. */
  lemma DiscloseKeepsLayout(b: Board)
    requires IsGrid(b)
    ensures SameLayout(Disclosed(b), b) && IsGrid(Disclosed(b))
  {
  }

  /** Boards with the same layout agree on the counts being right and on the number of mines. */
  lemma LayoutKeepsCounts(b1: Board, b2: Board)
    requires SameLayout(b1, b2)
    ensures CountsConsistent(b1) <==> CountsConsistent(b2)
    ensures |PositionsWhere(b1, IsMine)| == |PositionsWhere(b2, IsMine)|
  {
    SameKindsSameMines(b1, b2);
  }

  /** Revealing the same square twice changes nothing more. */
  lemma RevealIdempotent(b: Board, row: int, col: int)
    requires IsGrid(b) && InBounds(b, (row, col))
    ensures AfterReveal(AfterReveal(b, row, col), row, col) == AfterReveal(b, row, col)
  {
    var once := AfterReveal(b, row, col);
    RevealKeepsLayout(b, row, col);
    FillOfSameLayout(once, b, (row, col));
    AfterRevealSquares(b, row, col);
    AfterRevealSquares(once, row, col);
    var twice := AfterReveal(once, row, col);
    forall i, j | 0 <= i < |b| && 0 <= j < |b[i]| ensures twice[i][j] == once[i][j] {
      if InFill(b, (row, col), (i, j)) {
        assert InFill(once, (row, col), (i, j));
      } else {
        assert !InFill(once, (row, col), (i, j));
      }
    }
    SameSquares(twice, once);
  }

  /** Revealing a mine reveals that square and nothing else. */
  lemma RevealMine(b: Board, row: int, col: int)
    requires IsGrid(b) && InBounds(b, (row, col)) && IsMine(b[row][col])
    ensures AfterReveal(b, row, col) == SetStatus(b, row, col, Revealed)
  {
    MineFillIsEmpty(b, row, col);
    AfterRevealSquares(b, row, col);
    SameSquares(AfterReveal(b, row, col), SetStatus(b, row, col, Revealed));
  }

  /** On a board whose counts are right, the fill never holds a mine. */
  lemma FillHasNoMine(b: Board, s: Pos, p: Pos)
    requires IsGrid(b) && CountsConsistent(b) && InFill(b, s, p)
    ensures InBounds(b, p) && !IsMine(b[p.0][p.1])
  {
    FillInBounds(b, s);
    if InRegion(b, s, p) {
      Graph.ReachesOk(Touching, ZeroCells(b), s, p);
    } else {
      var v :| InRegion(b, s, v) && Touching(v, p);
      Graph.ReachesOk(Touching, ZeroCells(b), s, v);
      assert |MineNeighbours(b, v)| == 0;
      assert IsMine(b[p.0][p.1]) ==> p in MineNeighbours(b, v);
    }
  }

  /** On a board whose counts are right, `reveal` uncovers no mine but the square clicked. */
  lemma RevealUncoversNoOtherMine(b: Board, row: int, col: int)
    requires IsGrid(b) && CountsConsistent(b) && InBounds(b, (row, col))
    ensures forall i, j :: 0 <= i < |b| && 0 <= j < |b[i]| && (i, j) != (row, col) && IsMine(b[i][j]) ==>
      AfterReveal(b, row, col)[i][j] == b[i][j]
  {
    AfterRevealSquares(b, row, col);
    forall i, j | 0 <= i < |b| && 0 <= j < |b[i]| && (i, j) != (row, col) && IsMine(b[i][j])
      ensures !InFill(b, (row, col), (i, j))
    {
      if InFill(b, (row, col), (i, j)) {
        FillHasNoMine(b, (row, col), (i, j));
      }
    }
  }

  /**
   * After `revealBoard` every mine shows, no empty square still carries a
   * flag, every other square is as it was, and doing it again changes nothing.
   */
  lemma DisclosedFacts(b: Board)
    requires IsGrid(b)
    ensures forall i, j :: 0 <= i < |b| && 0 <= j < |b[i]| ==>
      && (IsMine(b[i][j]) ==> Disclosed(b)[i][j].status == Revealed)
      && (b[i][j].kind == Empty && b[i][j].status == Marked ==> Disclosed(b)[i][j].status == Mismarked)
      && (b[i][j].kind == Empty && b[i][j].status != Marked ==> Disclosed(b)[i][j] == b[i][j])
    ensures Disclosed(Disclosed(b)) == Disclosed(b)
  {
    var d := Disclosed(b);
    SameSquares(Disclosed(d), d);
  }

  /**
   * On a board with the formula's number of mines (every board `newBoard`
   * makes, and every board play leads to), `checkForWin` holds exactly when
   * every mine is flagged.
   */
  lemma WinIffAllMinesMarked(b: Board)
    requires IsGrid(b) && |PositionsWhere(b, IsMine)| == TotalMines(Rows(b), Cols(b))
    ensures CheckForWin(b) <==>
      forall i, j :: 0 <= i < |b| && 0 <= j < |b[i]| && IsMine(b[i][j]) ==> b[i][j].status == Marked
  {
    var marked := PositionsWhere(b, IsCorrectlyMarked);
    var mines := PositionsWhere(b, IsMine);
    assert marked <= mines;
    if CheckForWin(b) {
      SubsetOfSameCard(marked, mines);
      forall i, j | 0 <= i < |b| && 0 <= j < |b[i]| && IsMine(b[i][j]) ensures b[i][j].status == Marked {
        assert (i, j) in mines;
      }
    }
    if forall i, j :: 0 <= i < |b| && 0 <= j < |b[i]| && IsMine(b[i][j]) ==> b[i][j].status == Marked {
      assert mines <= marked;
      assert marked == mines;
    }
  }

  // ---------------------------------------------------------------------------
  // A worked board
  // ---------------------------------------------------------------------------

  /** A 3 x 3 board with one mine at (1, 2) and the counts around it. */
  const MINED_1_2_3X3: Board := [
    [Square(Empty, Unknown, 0), Square(Empty, Unknown, 1), Square(Empty, Unknown, 1)],
    [Square(Empty, Unknown, 0), Square(Empty, Unknown, 1), Square(Mine, Unknown, 0)],
    [Square(Empty, Unknown, 0), Square(Empty, Unknown, 1), Square(Empty, Unknown, 1)]]

  /** The zero squares of the worked board are its first column. */
  lemma Mined12Zeros()
    ensures forall p :: ZeroAt(MINED_1_2_3X3, p) <==> p == (0, 0) || p == (1, 0) || p == (2, 0)
  {
    var b := MINED_1_2_3X3;
    forall p | ZeroAt(b, p) ensures p == (0, 0) || p == (1, 0) || p == (2, 0) {
      assert InBounds(b, p);
      assert p.1 == 0;
    }
  }

  /** The zero squares reachable from (0, 0) on the worked board are its first column. */
  lemma Mined12Region()
    ensures forall p :: InRegion(MINED_1_2_3X3, (0, 0), p) <==> p == (0, 0) || p == (1, 0) || p == (2, 0)
  {
    var b := MINED_1_2_3X3;
    var s := (0, 0);
    var zero := ZeroCells(b);
    var column := {(0, 0), (1, 0), (2, 0)};
    Mined12Zeros();
    Graph.ReachesSelf(Touching, zero, s);
    Graph.ReachesStep(Touching, zero, s, (0, 0), (1, 0));
    Graph.ReachesStep(Touching, zero, s, (1, 0), (2, 0));
    assert Graph.Closed(Touching, zero, column);
    forall p | InRegion(b, s, p) ensures p in column {
      Graph.ClosedHoldsReachable(Touching, zero, column, s, p);
    }
  }

  /**
   * The fill from (0, 0) of the worked board is its first two columns, and
   * nothing is filled from (0, 1), which has a neighbouring mine.
   */
  lemma Mined12Fill()
    ensures NoNeighbouringMines(1, 0, MINED_1_2_3X3) && !NoNeighbouringMines(1, 1, MINED_1_2_3X3)
    ensures forall p: Pos :: InFill(MINED_1_2_3X3, (0, 0), p) <==> 0 <= p.0 < 3 && 0 <= p.1 < 2
    ensures forall p :: !InFill(MINED_1_2_3X3, (0, 1), p)
  {
    var b := MINED_1_2_3X3;
    var s := (0, 0);
    Mined12Region();
    forall p | InFill(b, s, p) ensures 0 <= p.0 < 3 && 0 <= p.1 < 2 {
      FillInBounds(b, s);
    }
    forall p: Pos | 0 <= p.0 < 3 && 0 <= p.1 < 2 ensures InFill(b, s, p) {
      assert InBounds(b, p) && InRegion(b, s, (p.0, 0)) && (p.1 == 0 || Touching((p.0, 0), p));
    }
    MineFillIsEmpty(b, 0, 1);
  }

  /**
   * `connectedEmptySquares(0, 0)` on the worked board returns the first
   * column top down, then the second column top down.
   */
  lemma Mined12FillOrder()
    ensures Fill(MINED_1_2_3X3, 0, 0) == [(0, 0), (1, 0), (2, 0), (0, 1), (1, 1), (2, 1)]
  {
    assert IsGrid(MINED_1_2_3X3) && Rows(MINED_1_2_3X3) == 3 && Cols(MINED_1_2_3X3) == 3;
    Mined12Zeros();
    Mined12ZerosAroundTop();
    Mined12ZerosAroundMiddle();
    Mined12ZerosAroundBottom();
    FirstColumnFill(MINED_1_2_3X3);
  }

  /**
   * On a 3 x 3 board whose zero squares around the first column are the
   * first column itself, the fill from (0, 0) is the first two columns,
   * column by column.
   */
  lemma FirstColumnFill(b: Board)
    requires IsGrid(b) && Rows(b) == 3 && Cols(b) == 3 && NoNeighbouringMines(0, 0, b)
    requires ZeroNeighbours(b, (0, 0)) == [(1, 0)]
    requires ZeroNeighbours(b, (1, 0)) == [(0, 0), (2, 0)] && ZeroNeighbours(b, (2, 0)) == [(1, 0)]
    ensures Fill(b, 0, 0) == [(0, 0), (1, 0), (2, 0), (0, 1), (1, 1), (2, 1)]
  {
    ColumnWalk(b, (0, 0), (1, 0), (2, 0));
    ColumnFill(b);
    AppendThree((0, 0), (1, 0), (2, 0), (0, 1), (1, 1), (2, 1));
  }

  /** A sorted list of the zero squares touching p is `ZeroNeighbours(b, p)`. */
  lemma ZeroNeighboursAre(b: Board, p: Pos, zs: seq<Pos>)
    requires IsGrid(b) && RowMajorSorted(zs)
    requires forall q :: q in zs <==> Touching(p, q) && ZeroAt(b, q)
    ensures ZeroNeighbours(b, p) == zs
  {
    SortedUnique(ZeroNeighbours(b, p), zs);
  }

  /** The zero squares around the corner (0, 0) of the worked board. */
  lemma Mined12ZerosAroundTop()
    ensures ZeroNeighbours(MINED_1_2_3X3, (0, 0)) == [(1, 0)]
  {
    Mined12Zeros();
    ZeroNeighboursAre(MINED_1_2_3X3, (0, 0), [(1, 0)]);
  }

  /** The zero squares around (1, 0) of the worked board. */
  lemma Mined12ZerosAroundMiddle()
    ensures ZeroNeighbours(MINED_1_2_3X3, (1, 0)) == [(0, 0), (2, 0)]
  {
    Mined12Zeros();
    ZeroNeighboursAre(MINED_1_2_3X3, (1, 0), [(0, 0), (2, 0)]);
  }

  /** The zero squares around the corner (2, 0) of the worked board. */
  lemma Mined12ZerosAroundBottom()
    ensures ZeroNeighbours(MINED_1_2_3X3, (2, 0)) == [(1, 0)]
  {
    Mined12Zeros();
    ZeroNeighboursAre(MINED_1_2_3X3, (2, 0), [(1, 0)]);
  }

  /**
   * On a board where y and z are zero squares touching no other zero square
   * than each other and x, the loop of `connectedEmptySquares` started at x
   * with y queued visits x, y, then z.
   */
  lemma ColumnWalk(b: Board, x: Pos, y: Pos, z: Pos)
    requires IsGrid(b) && x != y && y != z && x != z
    requires y in AllCells(Rows(b), Cols(b))
    requires ZeroNeighbours(b, y) == [x, z] && ZeroNeighbours(b, z) == [y]
    ensures FillWalk(b, [x], [y]) == [x, y, z]
  {
    ColumnQueues(x, y, z);
    FillWalkStep(b, [x], [y]);
    FillWalkStep(b, [x, y], [z]);
  }

  /** The visited list and the queue through the rounds of `ColumnWalk`. */
  lemma ColumnQueues(x: Pos, y: Pos, z: Pos)
    requires x != y && y != z && x != z
    ensures [x] + Unvisited([y], [x]) == [x, y]
    ensures [y][1..] + Unvisited([x, z], [x, y]) == [z]
    ensures [x, y] + Unvisited([z], [x, y]) == [x, y, z]
    ensures [z][1..] + Unvisited([y], [x, y, z]) == []
  {
    var middle := [x, y];
    UnvisitedOne(y, [x]);
    assert Unvisited([y], [x]) == [y];
    assert [x] + [y] == middle;
    FilterAppend([x], [z], NotIn(middle));
    assert [x, z] == [x] + [z];
    UnvisitedOne(x, middle);
    UnvisitedOne(z, middle);
    UnvisitedOne(y, middle + [z]);
  }

  /** The border of three visited squares, square by square. */
  lemma ColumnBorder(b: Board, x: Pos, y: Pos, z: Pos)
    requires IsGrid(b)
    ensures Border(b, [x, y, z])
      == AdjIndices(x.0, x.1, Rows(b), Cols(b)) + (AdjIndices(y.0, y.1, Rows(b), Cols(b)) + AdjIndices(z.0, z.1, Rows(b), Cols(b)))
  {
    FlatMapThree(x, y, z, Around(Rows(b), Cols(b)));
  }

  /**
   * `distinct` over visited squares and then their three neighbour lists,
   * whose squares off the visited list are [x, y], [x, y, z] and [y, z]:
   * the visited squares, then x, y, z.
   */
  lemma DistinctOfBorders(column: seq<Pos>, a0: seq<Pos>, a1: seq<Pos>, a2: seq<Pos>, x: Pos, y: Pos, z: Pos)
    requires NoDup(column) && x != y && y != z && x != z
    requires Unvisited(a0, column) == [x, y] && Unvisited(a1, column) == [x, y, z] && Unvisited(a2, column) == [y, z]
    ensures Distinct(column + (a0 + (a1 + a2))) == column + [x, y, z]
  {
    DistinctAppend(column, a0 + (a1 + a2));
    DistinctOfNoDup(column);
    FilterAppend(a0, a1 + a2, NotIn(column));
    FilterAppend(a1, a2, NotIn(column));
    DistinctOverlapping(x, y, z);
  }

  /**
   * On a 3 x 3 board the fill from a visited first column lists that column,
   * then the second column top down: `distinct` keeps the first time each
   * square of the border appears.
   */
  lemma ColumnFill(b: Board)
    requires IsGrid(b) && Rows(b) == 3 && Cols(b) == 3
    ensures var column := [(0, 0), (1, 0), (2, 0)];
      Distinct(column + Border(b, column)) == column + [(0, 1), (1, 1), (2, 1)]
  {
    var rows, cols := Rows(b), Cols(b);
    ColumnBorder(b, (0, 0), (1, 0), (2, 0));
    TopOffColumn(rows, cols);
    MiddleOffColumn(rows, cols);
    BottomOffColumn(rows, cols);
    NoDupThree((0, 0), (1, 0), (2, 0));
    DistinctOfBorders([(0, 0), (1, 0), (2, 0)], AdjIndices(0, 0, rows, cols), AdjIndices(1, 0, rows, cols),
      AdjIndices(2, 0, rows, cols), (0, 1), (1, 1), (2, 1));
  }

  /** The squares around (0, 0) of a 3 x 3 board that are not in its first column. */
  lemma TopOffColumn(rows: int, cols: int)
    requires rows == 3 && cols == 3
    ensures Unvisited(AdjIndices(0, 0, rows, cols), [(0, 0), (1, 0), (2, 0)]) == [(0, 1), (1, 1)]
  {
    assert forall i, j :: (i, j) in [(0, 1), (1, 1)] <==> 0 <= i < 3 && -1 <= i - 0 <= 1 && j == 1;
    SortedTwo((0, 1), (1, 1));
    OffFirstColumn(0, 0, rows, cols, [(0, 1), (1, 1)]);
  }

  /** The squares around (1, 0) of a 3 x 3 board that are not in its first column. */
  lemma MiddleOffColumn(rows: int, cols: int)
    requires rows == 3 && cols == 3
    ensures Unvisited(AdjIndices(1, 0, rows, cols), [(0, 0), (1, 0), (2, 0)]) == [(0, 1), (1, 1), (2, 1)]
  {
    assert forall i, j :: (i, j) in [(0, 1), (1, 1), (2, 1)] <==> 0 <= i < 3 && -1 <= i - 1 <= 1 && j == 1;
    SortedThree((0, 1), (1, 1), (2, 1));
    OffFirstColumn(1, 0, rows, cols, [(0, 1), (1, 1), (2, 1)]);
  }

  /** The squares around (2, 0) of a 3 x 3 board that are not in its first column. */
  lemma BottomOffColumn(rows: int, cols: int)
    requires rows == 3 && cols == 3
    ensures Unvisited(AdjIndices(2, 0, rows, cols), [(0, 0), (1, 0), (2, 0)]) == [(1, 1), (2, 1)]
  {
    assert forall i, j :: (i, j) in [(1, 1), (2, 1)] <==> 0 <= i < 3 && -1 <= i - 2 <= 1 && j == 1;
    SortedTwo((1, 1), (2, 1));
    OffFirstColumn(2, 0, rows, cols, [(1, 1), (2, 1)]);
  }

  lemma OffFirstColumn(r: int, c: int, rows: int, cols: int, kept: seq<Pos>)
    requires c == 0 && rows == 3 && cols == 3 && 0 <= r < 3 && RowMajorSorted(kept)
    requires forall i, j :: (i, j) in kept <==> 0 <= i < 3 && -1 <= i - r <= 1 && j == 1
    ensures Unvisited(AdjIndices(r, c, rows, cols), [(0, 0), (1, 0), (2, 0)]) == kept
  {
    var adj := AdjIndices(r, c, rows, cols);
    forall i, j ensures (i, j) in adj <==> InGrid(3, 3, (i, j)) && Touching((r, 0), (i, j)) {
      assert (i, j) in adj <==> InGrid(rows, cols, (i, j)) && Touching((r, c), (i, j));
    }
    NeighboursOffColumn(r, adj, kept);
  }

  /** The squares around (r, 0) of a 3 x 3 board and not in its first column are the sorted `kept`. */
  lemma NeighboursOffColumn(r: int, adj: seq<Pos>, kept: seq<Pos>)
    requires 0 <= r < 3 && RowMajorSorted(adj) && RowMajorSorted(kept)
    requires forall i, j :: (i, j) in adj <==> InGrid(3, 3, (i, j)) && Touching((r, 0), (i, j))
    requires forall i, j :: (i, j) in kept <==> 0 <= i < 3 && -1 <= i - r <= 1 && j == 1
    ensures Unvisited(adj, [(0, 0), (1, 0), (2, 0)]) == kept
  {
    var column := [(0, 0), (1, 0), (2, 0)];
    forall i, j ensures (i, j) in kept <==> (i, j) in adj && (i, j) !in column {
      assert (i, j) !in column <==> j != 0 || i < 0 || 2 < i;
    }
    SortedUnvisited(adj, column, kept);
  }
}

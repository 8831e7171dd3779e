// The mutable engine of text/Board.kt: a class owning a flat, row-major
// list of squares that `reveal` and `toggleMark` change in place, and a
// parser for the moves typed at the console.
module TextBoard {
  import opened Seqs
  import Graph
  import opened Squares
  import opened Grid

  // ---------------------------------------------------------------------------
  // Index conversions on a board `cols` squares wide
  // ---------------------------------------------------------------------------

  /** `rowIndex`: the row of a row-major index (Kotlin division). */
  function RowIndex(idx: int, cols: int): (row: int)
    requires cols != 0
    ensures 0 <= idx && 0 < cols ==> 0 <= row && row * cols <= idx < row * cols + cols
  {
    Quot(idx, cols)
  }

  /**
   * `colIndex`: what is left of the index after the whole rows. Like Kotlin's
   * `%` it takes the sign of the index: a column of the board for an index
   * that is not negative, and at most zero for one that is.
   */
  function ColIndex(idx: int, cols: int): (col: int)
    requires cols != 0
    ensures 0 <= idx && 0 < cols ==> 0 <= col < cols
    ensures idx < 0 && 0 < cols ==> -cols < col <= 0
  {
    idx - RowIndex(idx, cols) * cols
  }

  /** `toIdx1d`: the row-major index of (r, c), which lies in row r's stretch of `cols` indices. */
  function ToIdx1d(r: int, c: int, cols: int): (idx: int)
    ensures 0 <= r && 0 <= c < cols ==> r * cols <= idx < r * cols + cols
  {
    c + r * cols
  }

  /** `idxTo2d`: the row and column of an index; one that is not negative lands on a column of the board. */
  function IdxTo2d(idx: int, cols: int): (p: Pos)
    requires cols != 0
    ensures 0 <= idx && 0 < cols ==> 0 <= p.0 && 0 <= p.1 < cols
  {
    (RowIndex(idx, cols), ColIndex(idx, cols))
  }

  /** `idxTo2d` inverts `toIdx1d` on every column of the board. */
  lemma {:induction false} IdxTo2dOfToIdx1d(r: int, c: int, cols: int)
    requires 0 <= r && 0 <= c < cols
    ensures IdxTo2d(ToIdx1d(r, c, cols), cols) == (r, c)
  {
    DivOfRowMajor(r, c, cols);
    assert ToIdx1d(r, c, cols) == r * cols + c;
  }

  /** `toIdx1d` inverts `idxTo2d` on every index. */
  lemma ToIdx1dOfIdxTo2d(idx: int, cols: int)
    requires cols != 0
    ensures var p := IdxTo2d(idx, cols); ToIdx1d(p.0, p.1, cols) == idx
  {
  }

  /** The indices of a rows x cols board are the row-major indices of its squares. */
  lemma IndexOnBoard(idx: int, rows: int, cols: int)
    requires 0 < cols
    ensures 0 <= idx < rows * cols <==> 0 <= idx && InGrid(rows, cols, IdxTo2d(idx, cols))
  {
    if 0 <= idx < rows * cols {
      RowOfIndex(idx, rows, cols);
    }
    if 0 <= idx && InGrid(rows, cols, IdxTo2d(idx, cols)) {
      var p := IdxTo2d(idx, cols);
      ToIdx1dOfIdxTo2d(idx, cols);
      assert idx == p.0 * cols + p.1 && p.0 + 1 <= rows;
      MulMono(p.0 + 1, rows, cols);
    }
  }

  lemma MulMono(a: int, b: int, cols: int)
    requires 0 <= a <= b && 0 <= cols
    ensures a * cols <= b * cols
  {
  }

  /** A non-empty rows x cols board has at least one column. */
  lemma ColsOfNonEmpty(rows: nat, cols: nat, idx: int)
    requires 0 <= idx < rows * cols
    ensures 0 < cols
  {
  }

  /** Two indices whose squares touch. */
  predicate Adjacent(i: int, j: int, cols: int) {
    cols != 0 && Touching(IdxTo2d(i, cols), IdxTo2d(j, cols))
  }

  /** Adjacency as the step relation of the flood fill. */
  function Neighbour(cols: int): (int, int) -> bool {
    (i, j) => Adjacent(i, j, cols)
  }

  /**
   * `adjIndices(idx)`: the squares around `idx` (`adjIndices(r, c)`, the same
   * code as the other engine's, on this board's dimensions), as indices.
   */
  function AdjIndices1d(idx: int, rows: int, cols: int): (adj: seq<int>)
    requires 0 < cols
    ensures NoDup(adj) && |adj| <= 8
    ensures forall j :: j in adj <==> 0 <= j < rows * cols && Adjacent(idx, j, cols)
  {
    var p := IdxTo2d(idx, cols);
    var ais := AdjIndices(p.0, p.1, rows, cols);
    var adj := seq(|ais|, k requires 0 <= k < |ais| => ToIdx1d(ais[k].0, ais[k].1, cols));
    AdjIndices1dFacts(idx, rows, cols, ais, adj);
    adj
  }

  lemma AdjIndices1dFacts(idx: int, rows: int, cols: int, ais: seq<Pos>, adj: seq<int>)
    requires 0 < cols && NoDup(ais)
    requires forall q :: q in ais <==> InGrid(rows, cols, q) && Touching(IdxTo2d(idx, cols), q)
    requires |adj| == |ais| && forall k :: 0 <= k < |ais| ==> adj[k] == ToIdx1d(ais[k].0, ais[k].1, cols)
    ensures NoDup(adj)
    ensures forall j :: j in adj <==> 0 <= j < rows * cols && Adjacent(idx, j, cols)
  {
    forall k | 0 <= k < |ais| ensures IdxTo2d(adj[k], cols) == ais[k] && 0 <= adj[k] {
      assert ais[k] in ais;
      IdxTo2dOfToIdx1d(ais[k].0, ais[k].1, cols);
    }
    forall j | j in adj ensures 0 <= j < rows * cols && Adjacent(idx, j, cols) {
      var k :| 0 <= k < |adj| && adj[k] == j;
      assert ais[k] in ais;
      IndexOnBoard(j, rows, cols);
    }
    forall j | 0 <= j < rows * cols && Adjacent(idx, j, cols) ensures j in adj {
      IndexOnBoard(j, rows, cols);
      ToIdx1dOfIdxTo2d(j, cols);
      var q := IdxTo2d(j, cols);
      var k :| 0 <= k < |ais| && ais[k] == q;
    }
    forall k1, k2 | 0 <= k1 < k2 < |adj| ensures adj[k1] != adj[k2] {
      assert ais[k1] != ais[k2];
    }
  }

  // ---------------------------------------------------------------------------
  // Board generation
  // ---------------------------------------------------------------------------

  /** The indices touching `idx` whose square is a mine. */
  ghost function MineNeighbours(sq: seq<Square>, cols: int, idx: int): set<int> {
    set j | 0 <= j < |sq| && Adjacent(idx, j, cols) && IsMine(sq[j])
  }

  /** Every square's count is the number of mines around it. */
  ghost predicate CountsConsistent(sq: seq<Square>, cols: int) {
    forall i :: 0 <= i < |sq| ==> sq[i].adjCount == |MineNeighbours(sq, cols, i)|
  }

  /** `adjMineCount(idx, board)`: the number of mines on the squares around `idx`. */
  function AdjMineCount(idx: int, sq: seq<Square>, rows: int, cols: int): (n: nat)
    requires 0 < cols && |sq| == rows * cols
    ensures n == |MineNeighbours(sq, cols, idx)|
    ensures n <= 8
  {
    var adj := AdjIndices1d(idx, rows, cols);
    var isMine := (i: int) => 0 <= i < |sq| && IsMine(sq[i]);
    AdjMinesCounted(idx, sq, cols, adj, isMine);
    CountAtMost(adj, isMine);
    Count(adj, isMine)
  }

  lemma AdjMinesCounted(idx: int, sq: seq<Square>, cols: int, adj: seq<int>, isMine: int -> bool)
    requires NoDup(adj)
    requires forall j :: j in adj <==> 0 <= j < |sq| && Adjacent(idx, j, cols)
    requires forall i :: isMine(i) == (0 <= i < |sq| && IsMine(sq[i]))
    ensures Count(adj, isMine) == |MineNeighbours(sq, cols, idx)|
  {
    CountNoDupIsCard(adj, isMine);
    assert ElemsWhere(adj, isMine) == MineNeighbours(sq, cols, idx);
  }

  /** `emptyBoard(rows, cols)`: rows * cols default squares. */
  function EmptyBoard(rows: nat, cols: nat): (sq: seq<Square>)
    ensures |sq| == rows * cols
    ensures forall i :: 0 <= i < |sq| ==> sq[i] == DEFAULT_SQUARE
  {
    seq(rows * cols, _ => DEFAULT_SQUARE)
  }

  /** `genRandomMines`, with the shuffle passed in: `take(totalMines)`. */
  function GenRandomMines(shuffled: seq<int>, totalMines: nat): (mines: seq<int>)
    ensures |mines| == if totalMines <= |shuffled| then totalMines else |shuffled|
    ensures forall i :: 0 <= i < |mines| ==> mines[i] == shuffled[i]
  {
    if totalMines <= |shuffled| then shuffled[..totalMines] else shuffled
  }

  /** Boards of the same length with the same mines and counts; statuses may differ. */
  ghost predicate SameLayout(b1: seq<Square>, b2: seq<Square>) {
    |b1| == |b2| && forall i :: 0 <= i < |b1| ==> b1[i].kind == b2[i].kind && b1[i].adjCount == b2[i].adjCount
  }

  /** Boards with the same mines have the same mine neighbours everywhere. */
  lemma SameMines(b1: seq<Square>, b2: seq<Square>, cols: int)
    requires |b1| == |b2| && forall i :: 0 <= i < |b1| ==> b1[i].kind == b2[i].kind
    ensures forall idx :: MineNeighbours(b1, cols, idx) == MineNeighbours(b2, cols, idx)
    ensures IndicesOf(b1, IsMine) == IndicesOf(b2, IsMine)
  {
    forall idx ensures MineNeighbours(b1, cols, idx) == MineNeighbours(b2, cols, idx) {
      assert forall j :: j in MineNeighbours(b1, cols, idx) <==> j in MineNeighbours(b2, cols, idx);
    }
    assert forall j :: j in IndicesOf(b1, IsMine) <==> j in IndicesOf(b2, IsMine);
  }

  /** Boards with the same layout agree on the counts being right and on the number of mines. */
  lemma LayoutKeepsCounts(b1: seq<Square>, b2: seq<Square>, cols: int)
    requires SameLayout(b1, b2)
    ensures CountsConsistent(b1, cols) <==> CountsConsistent(b2, cols)
    ensures |IndicesOf(b1, IsMine)| == |IndicesOf(b2, IsMine)|
  {
    SameMines(b1, b2, cols);
  }

  /**
   * `newBoard`, with the shuffle passed in: the first `totalMines` shuffled
   * indices become mines, then every square, a mine included, gets the
   * number of mines around it.
   */
  method NewBoard(rows: nat, cols: nat, totalMines: nat, shuffled: seq<int>) returns (list: seq<Square>)
    requires IsShuffle(shuffled, rows * cols) && totalMines <= rows * cols
    ensures |list| == rows * cols
    ensures forall i :: 0 <= i < |list| ==>
      list[i].status == Unknown && (IsMine(list[i]) <==> i in shuffled[..totalMines])
    ensures CountsConsistent(list, cols)
    ensures |IndicesOf(list, IsMine)| == totalMines
  {
    list := EmptyBoard(rows, cols);
    var randIndices := GenRandomMines(shuffled, totalMines);
    assert randIndices == shuffled[..totalMines];
    assert forall x :: x in randIndices ==> x in shuffled;
    list := PlaceMines(list, randIndices);
    ghost var placed := list;
    list := SetAdjCounts(list, rows, cols);
    SameMines(list, placed, cols);
    assert IndicesOf(list, IsMine) == Elems(randIndices);
    NoDupCard(randIndices);
  }

  /** The first loop of `newBoard`: every listed index becomes a mine with count 0. */
  method PlaceMines(sq: seq<Square>, mines: seq<int>) returns (list: seq<Square>)
    requires forall i :: i in mines ==> 0 <= i < |sq|
    ensures |list| == |sq|
    ensures forall i :: 0 <= i < |sq| ==>
      list[i] == if i in mines then sq[i].(kind := Mine, adjCount := 0) else sq[i]
  {
    list := sq;
    for k := 0 to |mines|
      invariant |list| == |sq|
      invariant forall i :: 0 <= i < |sq| ==>
        list[i] == if i in mines[..k] then sq[i].(kind := Mine, adjCount := 0) else sq[i]
    {
      var idx := mines[k];
      assert idx in mines;
      list := list[idx := list[idx].(kind := Mine, adjCount := 0)];
      assert mines[..k + 1] == mines[..k] + [idx];
    }
    assert mines[..|mines|] == mines;
  }

  /** The `forEachIndexed` of `newBoard`: every square gets the number of mines around it. */
  method SetAdjCounts(sq: seq<Square>, rows: nat, cols: nat) returns (list: seq<Square>)
    requires |sq| == rows * cols
    ensures |list| == |sq| && CountsConsistent(list, cols)
    ensures forall i :: 0 <= i < |sq| ==> list[i].kind == sq[i].kind && list[i].status == sq[i].status
  {
    list := sq;
    for index := 0 to |sq|
      invariant |list| == |sq|
      invariant forall i :: 0 <= i < |sq| ==> list[i].kind == sq[i].kind && list[i].status == sq[i].status
      invariant forall i :: 0 <= i < index ==> list[i].adjCount == |MineNeighbours(sq, cols, i)|
    {
      ColsOfNonEmpty(rows, cols, index);
      SameMines(list, sq, cols);
      list := SetAdjCount(list, rows, cols, index);
    }
    SameMines(list, sq, cols);
  }

  /** One step of the `forEachIndexed`: `square.adjCount = adjMineCount(index, list)`. */
  method SetAdjCount(sq: seq<Square>, rows: nat, cols: nat, index: int) returns (list: seq<Square>)
    requires 0 < cols && |sq| == rows * cols && 0 <= index < |sq|
    ensures list == sq[index := sq[index].(adjCount := |MineNeighbours(sq, cols, index)|)]
  {
    list := sq[index := sq[index].(adjCount := AdjMineCount(index, sq, rows, cols))];
  }

  // ---------------------------------------------------------------------------
  // Flood fill
  // ---------------------------------------------------------------------------

  /** The squares the flood fill may walk through: empty, with no neighbouring mine. */
  function ZeroCells(sq: seq<Square>): int -> bool {
    i => 0 <= i < |sq| && IsZero(sq[i])
  }

  /** j is reached from s through adjacent zero squares. */
  ghost predicate InRegion(sq: seq<Square>, cols: int, s: int, j: int) {
    Graph.Reaches(Neighbour(cols), ZeroCells(sq), s, j)
  }

  /** What the flood fill from s uncovers: its zero region and every square touching that region. */
  ghost predicate InFill(sq: seq<Square>, cols: int, s: int, j: int) {
    InRegion(sq, cols, s, j) || (0 <= j < |sq| && exists v :: InRegion(sq, cols, s, v) && Adjacent(v, j, cols))
  }

  /** The indices of a board of n squares. */
  function AllIndices(n: nat): (r: set<int>)
    ensures forall i :: i in r <==> 0 <= i < n
  {
    var range := seq(n, k => k);
    var r := Elems(range);
    forall i ensures i in r <==> 0 <= i < n {
      if 0 <= i < n {
        assert range[i] == i;
      }
    }
    r
  }

  /** `adjIndices(idx).filter { bNoNeigboringMines(it) }`: the zero squares touching `idx`. */
  function ZeroNeighbours(sq: seq<Square>, rows: int, cols: int, idx: int): (zs: seq<int>)
    requires 0 < cols && |sq| == rows * cols
    ensures NoDup(zs)
    ensures forall j :: j in zs <==> Adjacent(idx, j, cols) && ZeroCells(sq)(j)
  {
    Filter(AdjIndices1d(idx, rows, cols), ZeroCells(sq))
  }

  /** `visited.flatMap { adjIndices(it) }`: the squares touching some visited square. */
  function Border(rows: int, cols: int, visited: seq<int>): (r: seq<int>)
    requires 0 < cols
    ensures forall j :: j in r <==> 0 <= j < rows * cols && exists v :: v in visited && Adjacent(v, j, cols)
  {
    FlatMap(visited, (v: int) => AdjIndices1d(v, rows, cols))
  }

  /**
   * The region followed by its border without repeats is the fill from s,
   * starting at s; it repeats an index exactly when the region has a square
   * other than s, because such a square also touches the region.
   */
  lemma FillOfRegion(sq: seq<Square>, rows: int, cols: int, s: int, visited: seq<int>)
    requires 0 < cols && |sq| == rows * cols
    requires Graph.BfsInv(Neighbour(cols), ZeroCells(sq), s, visited, [])
    ensures var connected := visited + Distinct(Border(rows, cols, visited));
      && connected[0] == s
      && (forall j :: j in connected <==> InFill(sq, cols, s, j))
      && (NoDup(connected) <==> forall j :: InRegion(sq, cols, s, j) ==> j == s)
  {
    Graph.BfsDone(Neighbour(cols), ZeroCells(sq), s, visited);
    RegionFill(sq, rows, cols, s, visited);
  }

  /** The fill built from a list of the zero region that starts at s. */
  lemma RegionFill(sq: seq<Square>, rows: int, cols: int, s: int, visited: seq<int>)
    requires 0 < cols && |sq| == rows * cols
    requires |visited| >= 1 && visited[0] == s && NoDup(visited)
    requires forall j :: j in visited <==> InRegion(sq, cols, s, j)
    ensures var connected := visited + Distinct(Border(rows, cols, visited));
      && connected[0] == s
      && (forall j :: j in connected <==> InFill(sq, cols, s, j))
      && (NoDup(connected) <==> forall j :: InRegion(sq, cols, s, j) ==> j == s)
  {
    var border := Distinct(Border(rows, cols, visited));
    FillMembers(sq, rows, cols, s, visited, border);
    forall j | j in visited && j != s ensures j in border {
      InnerSquareOnBorder(sq, rows, cols, s, visited, j);
    }
    VisitedBorderNoDup(cols, s, visited, border);
  }

  lemma FillMembers(sq: seq<Square>, rows: int, cols: int, s: int, visited: seq<int>, border: seq<int>)
    requires 0 < cols && |sq| == rows * cols
    requires forall j :: j in visited <==> InRegion(sq, cols, s, j)
    requires forall j :: j in border <==> 0 <= j < rows * cols && exists v :: v in visited && Adjacent(v, j, cols)
    ensures forall j :: j in visited + border <==> InFill(sq, cols, s, j)
  {
  }

  /** A region of one square has no square touching itself in its border. */
  lemma LoneSquareFill(cols: int, s: int, visited: seq<int>, border: seq<int>)
    requires |visited| >= 1 && visited[0] == s && NoDup(visited) && NoDup(border)
    requires forall v :: v in visited ==> v == s
    requires forall j :: j in border ==> exists v :: v in visited && Adjacent(v, j, cols)
    ensures NoDup(visited + border)
  {
    NoDupCard(visited);
    assert (set x | x in visited) == {s};
    assert s !in border by {
      assert forall v :: v in visited ==> !Adjacent(v, s, cols);
    }
    NoDupConcat(visited, border);
  }

  /** A square of the region other than s touches the region, so the border holds it as well. */
  lemma InnerSquareOnBorder(sq: seq<Square>, rows: int, cols: int, s: int, visited: seq<int>, j: int)
    requires 0 < cols && |sq| == rows * cols
    requires forall j :: j in visited <==> InRegion(sq, cols, s, j)
    requires InRegion(sq, cols, s, j) && j != s
    ensures 0 <= j < rows * cols && exists v :: v in visited && Adjacent(v, j, cols)
  {
    var nbr, ok := Neighbour(cols), ZeroCells(sq);
    Graph.ReachesFromNeighbour(nbr, ok, s, j);
    Graph.ReachesOk(nbr, ok, s, j);
    var u :| Graph.Reaches(nbr, ok, s, u) && nbr(u, j);
    assert u in visited && Adjacent(u, j, cols);
  }

  /**
   * A region listed from s, followed by a border that holds every region
   * square other than s, repeats nothing exactly when the region is s alone.
   */
  lemma VisitedBorderNoDup(cols: int, s: int, visited: seq<int>, border: seq<int>)
    requires |visited| >= 1 && visited[0] == s && NoDup(visited) && NoDup(border)
    requires forall j :: j in border ==> exists v :: v in visited && Adjacent(v, j, cols)
    requires forall j :: j in visited && j != s ==> j in border
    ensures NoDup(visited + border) <==> forall j :: j in visited ==> j == s
  {
    if forall j :: j in visited ==> j == s {
      LoneSquareFill(cols, s, visited, border);
    }
    if NoDup(visited + border) {
      NoDupConcatDisjoint(visited, border);
    }
  }

  /** Nothing is filled from a square that is not a zero square, a mine in particular. */
  lemma NonZeroFillIsEmpty(sq: seq<Square>, cols: int, s: int)
    requires !ZeroCells(sq)(s)
    ensures forall j :: !InFill(sq, cols, s, j)
  {
    forall v | InRegion(sq, cols, s, v) ensures false {
      Graph.ReachesOk(Neighbour(cols), ZeroCells(sq), s, v);
    }
  }

  /** On a board whose counts are right, the fill never holds a mine. */
  lemma FillHasNoMine(sq: seq<Square>, cols: int, s: int, j: int)
    requires CountsConsistent(sq, cols) && InFill(sq, cols, s, j)
    ensures 0 <= j < |sq| && !IsMine(sq[j])
  {
    if InRegion(sq, cols, s, j) {
      Graph.ReachesOk(Neighbour(cols), ZeroCells(sq), s, j);
    } else {
      var v :| InRegion(sq, cols, s, v) && Adjacent(v, j, cols);
      Graph.ReachesOk(Neighbour(cols), ZeroCells(sq), s, v);
      assert |MineNeighbours(sq, cols, v)| == 0;
      assert IsMine(sq[j]) ==> j in MineNeighbours(sq, cols, v);
    }
  }

  /** The fill depends only on mines and counts, not on what the player has done. */
  lemma FillOfSameLayout(b1: seq<Square>, b2: seq<Square>, cols: int, s: int)
    requires SameLayout(b1, b2)
    ensures forall j :: InFill(b1, cols, s, j) <==> InFill(b2, cols, s, j)
  {
    forall j ensures ZeroCells(b1)(j) == ZeroCells(b2)(j) {
    }
    forall j | InRegion(b1, cols, s, j) ensures InRegion(b2, cols, s, j) {
      Graph.ReachesSameOk(Neighbour(cols), ZeroCells(b1), ZeroCells(b2), s, j);
    }
    forall j | InRegion(b2, cols, s, j) ensures InRegion(b1, cols, s, j) {
      Graph.ReachesSameOk(Neighbour(cols), ZeroCells(b2), ZeroCells(b1), s, j);
    }
  }

  /** What `reveal` should leave: `idx` and its fill revealed, nothing else changed. */
  ghost function AfterReveal(b: seq<Square>, cols: int, idx: int): seq<Square> {
    seq(|b|, i requires 0 <= i < |b| => if i == idx || InFill(b, cols, idx, i) then b[i].(status := Revealed) else b[i])
  }

  /** The two-state mark toggle of this engine: Unknown and Marked swap; other statuses stay. */
  function NextMark(s: SquareStatus): SquareStatus {
    match s
    case Unknown => Marked
    case Marked => Unknown
    case _ => s
  }

  /** What `toggleMark` should leave: only the status of `idx` toggled. */
  function AfterToggle(b: seq<Square>, idx: int): seq<Square>
    requires 0 <= idx < |b|
  {
    b[idx := b[idx].(status := NextMark(b[idx].status))]
  }

  // ---------------------------------------------------------------------------
  // The board
  // ---------------------------------------------------------------------------

  /** A game board of `rows` x `cols` squares, kept as one row-major list. */
  class Board {
    const rows: nat
    const cols: nat
    /** `TOTAL_MINES`. */
    const totalMines: nat
    var board: seq<Square>

    /**
     * The board holds rows * cols squares, and play never moves a mine or
     * changes a count: the counts stay right and the number of mines stays
     * the formula's.
     */
    ghost predicate Valid()
      reads this
    {
      && |board| == rows * cols
      && totalMines == TotalMines(rows, cols)
      && CountsConsistent(board, cols)
      && |IndicesOf(board, IsMine)| == totalMines
    }

    /** `Board(rows, cols)`, with the shuffle of `newBoard` passed in. */
    constructor (rows: nat, cols: nat, shuffled: seq<int>)
      requires IsShuffle(shuffled, rows * cols)
      ensures this.rows == rows && this.cols == cols && Valid()
      ensures forall i :: 0 <= i < |board| ==>
        board[i].status == Unknown && (IsMine(board[i]) <==> i in shuffled[..totalMines])
    {
      this.rows := rows;
      this.cols := cols;
      totalMines := TotalMines(rows, cols);
      var list := NewBoard(rows, cols, TotalMines(rows, cols), shuffled);
      board := list;
    }

    /**
     * `bNoNeigboringMines(idx)`: the square is empty and its count is zero,
     * which on a valid board means that no neighbour is a mine.
     */
    function NoNeighbouringMines(idx: int): (zero: bool)
      reads this
      requires 0 <= idx < |board|
      ensures Valid() ==> (zero <==> !IsMine(board[idx]) && MineNeighbours(board, cols, idx) == {})
    {
      board[idx].kind == Empty && board[idx].adjCount == 0
    }

    /**
     * `connectedEmptySquares(idx)`: the breadth-first fill from `idx`. Empty
     * unless `idx` is a zero square; otherwise it starts with `idx`, holds
     * the fill and no mine, and repeats the region's squares other than `idx`.
     */
    method ConnectedEmptySquares(idx: int) returns (connected: seq<int>)
      requires Valid() && 0 <= idx < |board|
      ensures connected == [] <==> !NoNeighbouringMines(idx)
      ensures connected != [] ==> connected[0] == idx
      ensures forall j :: j in connected <==> InFill(board, cols, idx, j)
      ensures forall j :: j in connected ==> 0 <= j < |board| && !IsMine(board[j])
      ensures connected != [] ==> (NoDup(connected) <==> forall j :: InRegion(board, cols, idx, j) ==> j == idx)
    {
      ColsOfNonEmpty(rows, cols, idx);
      var visited: seq<int> := [];
      if NoNeighbouringMines(idx) {
        visited := [idx];
        var adjacents := ZeroNeighbours(board, rows, cols, idx);
        ghost var nbr, ok := Neighbour(cols), ZeroCells(board);
        Graph.BfsStart(nbr, ok, idx, adjacents);
        while adjacents != []
          invariant Graph.BfsInv(nbr, ok, idx, visited, adjacents)
          decreases AllIndices(|board|) - (Elems(visited) + Elems(adjacents)), |adjacents|
        {
          ghost var visited0, adjacents0 := visited, adjacents;
          visited := visited + Unvisited(adjacents, visited);
          var firstIdx := adjacents[0];
          adjacents := adjacents[1..];
          var nextAdjacents := ZeroNeighbours(board, rows, cols, firstIdx);
          adjacents := adjacents + Unvisited(nextAdjacents, visited);
          Graph.BfsStep(nbr, ok, idx, visited0, adjacents0, nextAdjacents);
          Graph.BfsShrinks(AllIndices(|board|), visited0, adjacents0, nextAdjacents);
        }
        var squaresWithCounts := Distinct(Border(rows, cols, visited));
        FillOfRegion(board, rows, cols, idx, visited);
        visited := visited + squaresWithCounts;
        forall j | j in visited ensures 0 <= j < |board| && !IsMine(board[j]) {
          FillHasNoMine(board, cols, idx, j);
        }
      } else {
        NonZeroFillIsEmpty(board, cols, idx);
      }
      connected := visited;
    }

    /**
     * `reveal(r, c)`: the square at (r, c) and every square of its fill
     * become revealed in place, whatever their status; the result is the
     * square's index followed by the fill as `connectedEmptySquares` lists it.
     */
    method Reveal(r: int, c: int) returns (revealed: seq<int>)
      requires Valid() && 0 <= ToIdx1d(r, c, cols) < |board|
      modifies this
      ensures Valid()
      ensures board == AfterReveal(old(board), cols, ToIdx1d(r, c, cols))
      ensures |revealed| >= 1 && revealed[0] == ToIdx1d(r, c, cols)
      ensures forall j :: j in revealed[1..] <==> InFill(old(board), cols, ToIdx1d(r, c, cols), j)
    {
      var idx := ToIdx1d(r, c, cols);
      ghost var b0 := board;
      board := board[idx := board[idx].(status := Revealed)];
      LayoutKeepsCounts(board, b0, cols);
      var connectedEmpties := ConnectedEmptySquares(idx);
      FillOfSameLayout(board, b0, cols, idx);
      ghost var once := board;
      RevealEach(connectedEmpties);
      revealed := [idx] + connectedEmpties;
      assert revealed[1..] == connectedEmpties;
      RevealComposes(b0, once, board, cols, idx, connectedEmpties);
      RevealKeepsLayout(b0, cols, idx);
      LayoutKeepsCounts(board, b0, cols);
    }

    /** `connectedEmpties.forEach { index -> board[index].status = REVEALED }`. */
    method RevealEach(indices: seq<int>)
      requires forall i :: i in indices ==> 0 <= i < |board|
      modifies this
      ensures |board| == |old(board)|
      ensures forall i :: 0 <= i < |board| ==>
        board[i] == if i in indices then old(board)[i].(status := Revealed) else old(board)[i]
    {
      for k := 0 to |indices|
        invariant |board| == |old(board)|
        invariant forall i :: 0 <= i < |board| ==>
          board[i] == if i in indices[..k] then old(board)[i].(status := Revealed) else old(board)[i]
      {
        var index := indices[k];
        assert index in indices;
        board := board[index := board[index].(status := Revealed)];
        assert indices[..k + 1] == indices[..k] + [index];
      }
      assert indices[..|indices|] == indices;
    }

    /**
     * `toggleMark(r, c)`: an unrevealed square's flag is toggled in place;
     * the other statuses only print a debug line. Returns the square.
     */
    method ToggleMark(r: int, c: int) returns (square: Square)
      requires Valid() && 0 <= ToIdx1d(r, c, cols) < |board|
      modifies this
      ensures Valid()
      ensures board == AfterToggle(old(board), ToIdx1d(r, c, cols))
      ensures square == board[ToIdx1d(r, c, cols)]
    {
      var index := ToIdx1d(r, c, cols);
      ghost var b0 := board;
      if board[index].status != Revealed {
        match board[index].status {
          case Unknown => board := board[index := board[index].(status := Marked)];
          case Marked => board := board[index := board[index].(status := Unknown)];
          case _ =>
        }
      }
      LayoutKeepsCounts(board, b0, cols);
      square := board[index];
    }

    /** `mismarkedIndices`: the flagged empty squares, in ascending order. */
    method MismarkedIndices() returns (indices: seq<int>)
      ensures Ascending(indices)
      ensures forall i :: i in indices <==> 0 <= i < |board| && board[i].status == Marked && board[i].kind != Mine
    {
      indices := IndicesWhere(board, IsWronglyMarked);
    }

    /** `markedIndices`: each index kept if flagged, else -1, then the -1s dropped. */
    function MarkedIndices(): (indices: seq<int>)
      reads this
      ensures Ascending(indices)
      ensures forall i :: i in indices <==> 0 <= i < |board| && board[i].status == Marked
    {
      var b := board;
      var tagged := seq(|b|, i requires 0 <= i < |b| => if b[i].status == Marked then i else -1);
      var keep := (x: int) => x > -1;
      TaggedAscending(tagged, 0, keep);
      TaggedMembers(b, tagged, keep);
      Filter(tagged, keep)
    }

    /**
     * `checkForWin`: the number of flagged mines equals `TOTAL_MINES`; on a
     * valid board, that is every mine flagged.
     */
    function CheckForWin(): (win: bool)
      reads this
      requires Valid()
      ensures win <==> |IndicesOf(board, IsCorrectlyMarked)| == totalMines
      ensures win <==> forall i :: 0 <= i < |board| && IsMine(board[i]) ==> board[i].status == Marked
    {
      CountIsCard(board, IsCorrectlyMarked);
      WinIffAllMinesMarked(board, totalMines);
      Count(board, IsCorrectlyMarked) == totalMines
    }

    /**
     * `parseMove`: a move is an optional `m` or `r`, a row, a comma and a
     * column; the row and column must fit an `Int` and lie on the board.
     */
    function ParseMove(move: string): (r: Result<Move>)
      ensures r.Ok? ==> IsMark(r.value.mark) && 0 <= r.value.row < rows && 0 <= r.value.col < cols
      ensures r.Ok? ==> r.value.row <= INT_MAX && r.value.col <= INT_MAX
      ensures r == Err(NotAMove) <==> MatchMove(move).None?
    {
      var parts := MatchMove(move);
      if parts.None? then Err(NotAMove)
      else
        var cmd := parts.value.0;
        var row := DigitsValue(parts.value.1);
        var col := DigitsValue(parts.value.2);
        if row > INT_MAX || col > INT_MAX then Err(NotAnInt)
        else if !(0 <= row < rows && 0 <= col < cols) then Err(OutOfBounds)
        else Ok(Move(cmd, row, col))
    }

    /** `getMinedIndices`: the mines, in ascending order. */
    method GetMinedIndices() returns (indices: seq<int>)
      ensures Ascending(indices)
      ensures forall i :: i in indices <==> 0 <= i < |board| && board[i].kind == Mine
    {
      indices := IndicesWhere(board, IsMine);
    }
  }

  /** Revealing `idx`, then the squares of its fill, gives `AfterReveal`. */
  lemma RevealComposes(b: seq<Square>, once: seq<Square>, nb: seq<Square>, cols: int, idx: int, squares: seq<int>)
    requires 0 <= idx < |b| && once == b[idx := b[idx].(status := Revealed)]
    requires forall j :: j in squares <==> InFill(b, cols, idx, j)
    requires |nb| == |b| && forall i :: 0 <= i < |b| ==>
      nb[i] == if i in squares then once[i].(status := Revealed) else once[i]
    ensures nb == AfterReveal(b, cols, idx)
  {
    var a := AfterReveal(b, cols, idx);
    forall i | 0 <= i < |b| ensures nb[i] == a[i] {
      if i in squares {
        assert InFill(b, cols, idx, i);
      } else {
        assert !InFill(b, cols, idx, i);
      }
    }
  }

  /** Strictly increasing. */
  predicate Ascending(s: seq<int>) {
    forall i, j :: 0 <= i < j < |s| ==> s[i] < s[j]
  }

  /** The indices whose square satisfies `keep`, in ascending order (a `forEachIndexed` that appends). */
  method IndicesWhere(sq: seq<Square>, keep: Square -> bool) returns (indices: seq<int>)
    ensures Ascending(indices)
    ensures forall i :: i in indices <==> 0 <= i < |sq| && keep(sq[i])
  {
    indices := [];
    for index := 0 to |sq|
      invariant Ascending(indices)
      invariant forall i :: i in indices ==> i < index
      invariant forall i :: i in indices <==> 0 <= i < index && keep(sq[i])
    {
      if keep(sq[index]) {
        assert forall k :: 0 <= k < |indices| ==> indices[k] in indices;
        indices := indices + [index];
      }
    }
  }

  /**
   * Dropping the -1s from a list whose every entry is either -1 or its own
   * position plus `offset` leaves an ascending list of entries at least `offset`.
   */
  lemma {:induction false} TaggedAscending(tagged: seq<int>, offset: nat, keep: int -> bool)
    requires forall i :: 0 <= i < |tagged| ==> tagged[i] == -1 || tagged[i] == offset + i
    requires forall x :: keep(x) == (x > -1)
    ensures Ascending(Filter(tagged, keep))
    ensures forall x :: x in Filter(tagged, keep) ==> x >= offset
  {
    if tagged != [] {
      var tail := tagged[1..];
      assert forall i :: 0 <= i < |tail| ==> tail[i] == tagged[i + 1];
      TaggedAscending(tail, offset + 1, keep);
      var rest := Filter(tail, keep);
      var r := Filter(tagged, keep);
      if keep(tagged[0]) {
        assert r == [offset] + rest;
        AscendingCons(offset, rest);
      } else {
        assert r == rest;
      }
    }
  }

  lemma AscendingCons(x: int, rest: seq<int>)
    requires Ascending(rest) && forall y :: y in rest ==> x < y
    ensures Ascending([x] + rest)
  {
    var r := [x] + rest;
    forall i, j | 0 <= i < j < |r| ensures r[i] < r[j] {
      assert r[j] == rest[j - 1] && rest[j - 1] in rest;
      if i > 0 {
        assert r[i] == rest[i - 1];
      }
    }
  }

  lemma TaggedMembers(b: seq<Square>, tagged: seq<int>, keep: int -> bool)
    requires |tagged| == |b|
    requires forall i :: 0 <= i < |b| ==> tagged[i] == if b[i].status == Marked then i else -1
    requires forall x :: keep(x) == (x > -1)
    ensures forall i :: i in Filter(tagged, keep) <==> 0 <= i < |b| && b[i].status == Marked
  {
    forall i | 0 <= i < |b| && b[i].status == Marked ensures i in tagged {
      assert tagged[i] == i;
    }
  }

  /** On a board with `totalMines` mines, exactly `totalMines` flagged mines means every mine is flagged. */
  lemma WinIffAllMinesMarked(sq: seq<Square>, totalMines: nat)
    requires |IndicesOf(sq, IsMine)| == totalMines
    ensures |IndicesOf(sq, IsCorrectlyMarked)| == totalMines <==>
      forall i :: 0 <= i < |sq| && IsMine(sq[i]) ==> sq[i].status == Marked
  {
    var marked := IndicesOf(sq, IsCorrectlyMarked);
    var mines := IndicesOf(sq, IsMine);
    assert marked <= mines;
    if |marked| == totalMines {
      SubsetOfSameCard(marked, mines);
      forall i | 0 <= i < |sq| && IsMine(sq[i]) ensures sq[i].status == Marked {
        assert i in mines;
      }
    }
    if forall i :: 0 <= i < |sq| && IsMine(sq[i]) ==> sq[i].status == Marked {
      assert mines <= marked;
      assert marked == mines;
    }
  }

  // ---------------------------------------------------------------------------
  // Properties of play
  // ---------------------------------------------------------------------------

  /** Two `toggleMark`s on the same square give the board back. */
  lemma ToggleTwice(b: seq<Square>, idx: int)
    requires 0 <= idx < |b|
    ensures AfterToggle(AfterToggle(b, idx), idx) == b
  {
    assert NextMark(NextMark(b[idx].status)) == b[idx].status;
    assert b[idx].(status := b[idx].status) == b[idx];
  }

  /** Toggling flags an unknown square and unflags a flagged one; no other flag changes. */
  lemma MarkedAfterToggle(b: seq<Square>, idx: int)
    requires 0 <= idx < |b|
    ensures var before, after := IndicesOf(b, IsMarked), IndicesOf(AfterToggle(b, idx), IsMarked);
      && (b[idx].status == Unknown ==> after == before + {idx} && |after| == |before| + 1)
      && (b[idx].status == Marked ==> before == after + {idx} && |after| == |before| - 1)
      && (b[idx].status != Unknown && b[idx].status != Marked ==> after == before)
  {
    var before, after := IndicesOf(b, IsMarked), IndicesOf(AfterToggle(b, idx), IsMarked);
    if b[idx].status == Unknown {
      assert after == before + {idx};
    } else if b[idx].status == Marked {
      assert before == after + {idx};
    } else {
      assert after == before;
    }
  }

  /** Revealing changes statuses only. */
  lemma RevealKeepsLayout(b: seq<Square>, cols: int, idx: int)
    ensures SameLayout(AfterReveal(b, cols, idx), b)
  {
  }

  /** Revealing the same square twice changes nothing more. */
  lemma RevealIdempotent(b: seq<Square>, cols: int, idx: int)
    requires 0 <= idx < |b|
    ensures AfterReveal(AfterReveal(b, cols, idx), cols, idx) == AfterReveal(b, cols, idx)
  {
    var once := AfterReveal(b, cols, idx);
    FillOfSameLayout(once, b, cols, idx);
    var twice := AfterReveal(once, cols, idx);
    forall i | 0 <= i < |b| ensures twice[i] == once[i] {
      if InFill(b, cols, idx, i) {
        assert InFill(once, cols, idx, i);
      } else {
        assert !InFill(once, cols, idx, i);
      }
    }
  }

  /** On a board whose counts are right, `reveal` uncovers no mine but the square chosen. */
  lemma RevealUncoversNoOtherMine(b: seq<Square>, cols: int, idx: int)
    requires CountsConsistent(b, cols) && 0 <= idx < |b|
    ensures forall i :: 0 <= i < |b| && i != idx && IsMine(b[i]) ==> AfterReveal(b, cols, idx)[i] == b[i]
  {
    forall i | 0 <= i < |b| && i != idx && IsMine(b[i]) ensures !InFill(b, cols, idx, i) {
      if InFill(b, cols, idx, i) {
        FillHasNoMine(b, cols, idx, i);
      }
    }
  }

  /** The worked board with one mine at (1, 2), laid out row by row. */
  const MINED_1_2_3X3: seq<Square> := [
    Square(Empty, Unknown, 0), Square(Empty, Unknown, 1), Square(Empty, Unknown, 1),
    Square(Empty, Unknown, 0), Square(Empty, Unknown, 1), Square(Mine, Unknown, 0),
    Square(Empty, Unknown, 0), Square(Empty, Unknown, 1), Square(Empty, Unknown, 1)]

  /**
   * From index 0 of the worked board the zero region holds index 3 as well,
   * so by the contract of `ConnectedEmptySquares` its result repeats an index.
   */
  lemma WorkedFillRepeats()
    ensures InRegion(MINED_1_2_3X3, 3, 0, 3) && InFill(MINED_1_2_3X3, 3, 0, 4)
  {
    var nbr, ok := Neighbour(3), ZeroCells(MINED_1_2_3X3);
    assert IdxTo2d(0, 3) == (0, 0) && IdxTo2d(3, 3) == (1, 0) && IdxTo2d(4, 3) == (1, 1);
    Graph.ReachesSelf(nbr, ok, 0);
    Graph.ReachesStep(nbr, ok, 0, 0, 3);
    assert Adjacent(3, 4, 3);
  }

  // ---------------------------------------------------------------------------
  // The move parser
  // ---------------------------------------------------------------------------

  /** `Board.Move`: the mark ("", "m" or "r"), the row and the column. */
  datatype Move = Move(mark: string, row: int, col: int)

  datatype Option<T> = None | Some(value: T)

  /** The largest Kotlin `Int`. */
  const INT_MAX: int := 0x7fff_ffff

  predicate IsDigit(ch: char) {
    '0' <= ch <= '9'
  }

  predicate AllDigits(s: string) {
    forall i :: 0 <= i < |s| ==> IsDigit(s[i])
  }

  /** What the optional group `([mr])?` captures: "" when it is absent. */
  predicate IsMark(m: string) {
    m == "" || m == "m" || m == "r"
  }

  /** The three groups of a string of the move language: a mark, then two non-empty runs of digits. */
  predicate MoveParts(m: string, rowText: string, colText: string) {
    IsMark(m) && rowText != [] && colText != [] && AllDigits(rowText) && AllDigits(colText)
  }

  /** The position of the first comma, or the length when there is none. */
  function FirstComma(s: string): (k: nat)
    ensures k <= |s| && (k < |s| ==> s[k] == ',')
    ensures forall i :: 0 <= i < k ==> s[i] != ','
  {
    if s == [] || s[0] == ',' then 0 else 1 + FirstComma(s[1..])
  }

  /** The text of a move: the mark, the row's digits, a comma, the column's digits. */
  function MoveText(m: string, rowText: string, colText: string): string {
    m + (rowText + [','] + colText)
  }

  /** `(\d+),(\d+)` matched against the whole of `rest`: the two runs of digits. */
  function MatchNumbers(rest: string): (r: Option<(string, string)>)
    ensures r.Some? ==> MoveParts("", r.value.0, r.value.1)
    ensures r.Some? ==> rest == r.value.0 + [','] + r.value.1
  {
    var k := FirstComma(rest);
    if 0 < k < |rest| - 1 && AllDigits(rest[..k]) && AllDigits(rest[k + 1..]) then
      assert rest == rest[..k] + [','] + rest[k + 1..];
      Some((rest[..k], rest[k + 1..]))
    else None
  }

  /**
   * `Regex("([mr])?(\d+),(\d+)").matchEntire(move)`: the three groups when the
   * whole string is a move, nothing otherwise.
   */
  function MatchMove(s: string): (r: Option<(string, string, string)>)
    ensures r.Some? ==> MoveParts(r.value.0, r.value.1, r.value.2)
    ensures r.Some? ==> s == MoveText(r.value.0, r.value.1, r.value.2)
  {
    var m := MarkPrefix(s);
    var rest := s[|m|..];
    var nums := MatchNumbers(rest);
    if nums.None? then None
    else
      var rowText, colText := nums.value.0, nums.value.1;
      assert s == m + rest;
      Some((m, rowText, colText))
  }

  /** What the optional group `([mr])?` takes from the front of `s`. */
  function MarkPrefix(s: string): (m: string)
    ensures IsMark(m) && |m| <= |s| && s[..|m|] == m
    ensures m == "" <==> !(|s| > 0 && (s[0] == 'm' || s[0] == 'r'))
  {
    if |s| > 0 && (s[0] == 'm' || s[0] == 'r') then [s[0]] else ""
  }

  /** Two runs of digits around a comma are matched, with their own runs. */
  lemma MatchNumbersComplete(rowText: string, colText: string)
    requires MoveParts("", rowText, colText)
    ensures MatchNumbers(rowText + [','] + colText) == Some((rowText, colText))
  {
    var rest := rowText + [','] + colText;
    var k := FirstComma(rest);
    assert rest[|rowText|] == ',';
    assert forall i :: 0 <= i < |rowText| ==> rest[i] == rowText[i];
    assert k == |rowText|;
    assert rest[..k] == rowText && rest[k + 1..] == colText;
  }

  /** Every string of the move language is matched, with its own three groups. */
  lemma MatchMoveComplete(m: string, rowText: string, colText: string)
    requires MoveParts(m, rowText, colText)
    ensures MatchMove(MoveText(m, rowText, colText)) == Some((m, rowText, colText))
  {
    var s := MoveText(m, rowText, colText);
    var rest := rowText + [','] + colText;
    if m == "" {
      assert s == rest && IsDigit(s[0]);
    } else {
      assert s[..1] == m && s[1..] == rest;
    }
    MatchNumbersComplete(rowText, colText);
  }

  /** The value of a run of decimal digits (`String.toInt` before its range check). */
  function DigitsValue(ds: string): (n: nat)
    requires AllDigits(ds)
    ensures n < Pow10(|ds|)
  {
    if ds == [] then 0 else 10 * DigitsValue(ds[..|ds| - 1]) + (ds[|ds| - 1] as int - '0' as int)
  }

  /** 10 to the power k. */
  function Pow10(k: nat): nat {
    if k == 0 then 1 else 10 * Pow10(k - 1)
  }

  /** The decimal digits of n, without leading zeros. */
  function DecimalDigits(n: nat): (ds: string)
    ensures ds != [] && AllDigits(ds)
    ensures DigitsValue(ds) == n
  {
    var last := [('0' as int + n % 10) as char];
    if n < 10 then
      assert DigitsValue(last) == DigitsValue([]) * 10 + n;
      last
    else
      var init := DecimalDigits(n / 10);
      var ds := init + last;
      assert ds[..|ds| - 1] == init;
      ds
  }

  /** How a player types a move: the mark, the row, a comma, the column. */
  function FormatMove(mv: Move): string
    requires mv.row >= 0 && mv.col >= 0
  {
    MoveText(mv.mark, DecimalDigits(mv.row), DecimalDigits(mv.col))
  }

  /**
   * A string of the move language parses to its mark and values, unless a
   * value is too large for an `Int` or lies off the board.
   */
  lemma ParseMoveOfParts(b: Board, m: string, rowText: string, colText: string)
    requires MoveParts(m, rowText, colText)
    ensures var row, col := DigitsValue(rowText), DigitsValue(colText);
      b.ParseMove(MoveText(m, rowText, colText)) ==
        if row > INT_MAX || col > INT_MAX then Err(NotAnInt)
        else if row < b.rows && col < b.cols then Ok(Move(m, row, col))
        else Err(OutOfBounds)
  {
    MatchMoveComplete(m, rowText, colText);
    var parts := MatchMove(MoveText(m, rowText, colText));
    assert parts.value == (m, rowText, colText);
  }

  /** A string outside the move language is rejected as not a move. */
  lemma ParseMoveRejects(b: Board, move: string)
    requires forall m, rowText, colText :: MoveParts(m, rowText, colText) ==> move != MoveText(m, rowText, colText)
    ensures b.ParseMove(move) == Err(NotAMove)
  {
  }

  /** Typing a move on the board gives that move back. */
  lemma ParseFormatted(b: Board, mv: Move)
    requires IsMark(mv.mark) && 0 <= mv.row < b.rows && 0 <= mv.col < b.cols
    requires mv.row <= INT_MAX && mv.col <= INT_MAX
    ensures b.ParseMove(FormatMove(mv)) == Ok(mv)
  {
    ParseMoveOfParts(b, mv.mark, DecimalDigits(mv.row), DecimalDigits(mv.col));
  }
}

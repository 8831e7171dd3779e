// Geometry shared by both board engines: positions, the JVM's integer
// division, the mine-density formula and the neighbours of a square.
module Grid {
  import opened Seqs

  /** A (row, column) pair. */
  type Pos = (int, int)

  /** Why an operation threw `IllegalArgumentException`. */
  datatype Failure =
    | EmptyDimension   // a zero row or column count in an index conversion
    | OutOfBounds      // a move whose row or column is off the board
    | NotAMove         // a move string that does not match the move pattern
    | NotAnInt         // a row or column too large for an `Int` (`NumberFormatException`)

  datatype Result<T> = Ok(value: T) | Err(failure: Failure)

  function Abs(x: int): nat {
    if x < 0 then -x else x
  }

  /** Kotlin `Int` division, which rounds toward zero (Dafny's `/` is Euclidean). */
  function Quot(a: int, b: int): (q: int)
    requires b != 0
    ensures Abs(q) == Abs(a) / Abs(b)
    ensures q < 0 ==> (a < 0) != (b < 0)
    ensures q > 0 ==> (a < 0) == (b < 0)
  {
    var x, y := Abs(a), Abs(b);
    DivOfNat(x, y);
    var m := x / y;
    if (a < 0) == (b < 0) then m else -m
  }

  lemma DivOfNat(x: nat, y: nat)
    requires y > 0
    ensures x / y >= 0
  {
  }

  /**
   * The number of mines on a rows x cols board: 15% of the squares, rounded
   * half up (the source rounds the double `rows * cols * 0.15`).
   */
  function TotalMines(rows: nat, cols: nat): (n: nat)
    ensures n <= rows * cols
    ensures 100 * n - 50 <= 15 * (rows * cols) < 100 * n + 50
  {
    (rows * cols * 15 + 50) / 100
  }

  /** Two different squares whose rows and columns differ by at most one. */
  predicate Touching(p: Pos, q: Pos) {
    p != q && -1 <= p.0 - q.0 <= 1 && -1 <= p.1 - q.1 <= 1
  }

  predicate InGrid(rows: int, cols: int, p: Pos) {
    0 <= p.0 < rows && 0 <= p.1 < cols
  }

  /** Strict row-major order. */
  predicate Before(p: Pos, q: Pos) {
    p.0 < q.0 || (p.0 == q.0 && p.1 < q.1)
  }

  predicate RowMajorSorted(ps: seq<Pos>) {
    forall i, j :: 0 <= i < j < |ps| ==> Before(ps[i], ps[j])
  }

  /** The three squares (ri, c - 1), (ri, c), (ri, c + 1): `colRanges.map { ci -> Pair(ri, ci) }`. */
  function BlockRow(ri: int, c: int): seq<Pos> {
    [(ri, c - 1), (ri, c), (ri, c + 1)]
  }

  /** The 3x3 block centred on (r, c), row by row: `rowRanges.flatMap { .. }`. */
  function Block(r: int, c: int): seq<Pos> {
    BlockRow(r - 1, c) + BlockRow(r, c) + BlockRow(r + 1, c)
  }

  lemma BlockRowFacts(ri: int, c: int)
    ensures forall p :: p in BlockRow(ri, c) <==> p.0 == ri && -1 <= p.1 - c <= 1
    ensures RowMajorSorted(BlockRow(ri, c))
  {
    var ps := BlockRow(ri, c);
    assert forall p: Pos :: p.0 == ri && p.1 == c - 1 ==> p == ps[0];
    assert forall p: Pos :: p.0 == ri && p.1 == c ==> p == ps[1];
    assert forall p: Pos :: p.0 == ri && p.1 == c + 1 ==> p == ps[2];
  }

  /** The block holds exactly the squares within one row and one column of (r, c), in row-major order. */
  lemma BlockFacts(r: int, c: int)
    ensures forall p :: p in Block(r, c) <==> -1 <= p.0 - r <= 1 && -1 <= p.1 - c <= 1
    ensures RowMajorSorted(Block(r, c))
  {
    var top, mid, bottom := BlockRow(r - 1, c), BlockRow(r, c), BlockRow(r + 1, c);
    BlockRowFacts(r - 1, c);
    BlockRowFacts(r, c);
    BlockRowFacts(r + 1, c);
    var ps := top + mid + bottom;
    forall p ensures p in ps <==> p in top || p in mid || p in bottom {
    }
    forall i, j | 0 <= i < j < |ps| ensures Before(ps[i], ps[j]) {
      if j < 3 {
        assert ps[i] == top[i] && ps[j] == top[j];
      } else if i >= 6 {
        assert ps[i] == bottom[i - 6] && ps[j] == bottom[j - 6];
      } else if 3 <= i && j < 6 {
        assert ps[i] == mid[i - 3] && ps[j] == mid[j - 3];
      }
    }
  }

  /** The filter `adjIndices` applies: on the board and not the centre (r, c). */
  predicate AroundOnBoard(r: int, c: int, rows: int, cols: int, p: Pos) {
    !(p.0 < 0 || p.0 >= rows || p.1 < 0 || p.1 >= cols || (p.0 == r && p.1 == c))
  }

  /**
   * `adjIndices(r, c)`: the in-bounds squares around (r, c), without (r, c)
   * itself, in row-major order. Both engines use this same code on their own
   * dimensions.
   */
  function AdjIndices(r: int, c: int, rows: int, cols: int): (ps: seq<Pos>)
    ensures forall p :: p in ps <==> InGrid(rows, cols, p) && Touching((r, c), p)
    ensures RowMajorSorted(ps) && NoDup(ps)
    ensures |ps| <= 8
  {
    var keep := (p: Pos) => AroundOnBoard(r, c, rows, cols, p);
    AdjIndicesFacts(r, c, rows, cols, keep);
    Filter(Block(r, c), keep)
  }

  lemma AdjIndicesFacts(r: int, c: int, rows: int, cols: int, keep: Pos -> bool)
    requires forall p :: keep(p) == AroundOnBoard(r, c, rows, cols, p)
    ensures var ps := Filter(Block(r, c), keep);
      && (forall p :: p in ps <==> InGrid(rows, cols, p) && Touching((r, c), p))
      && RowMajorSorted(ps) && NoDup(ps) && |ps| <= 8
  {
    var ps := Filter(Block(r, c), keep);
    BlockFacts(r, c);
    forall p | p in ps ensures InGrid(rows, cols, p) && Touching((r, c), p) {
      assert p in Block(r, c) && keep(p);
    }
    forall p | InGrid(rows, cols, p) && Touching((r, c), p) ensures p in ps {
      assert p in Block(r, c) && keep(p);
    }
    FilterKeepsSorted(Block(r, c), keep);
    SortedNoDup(ps);
    AdjIndicesAtMostEight(r, c, keep);
  }

  /** Two row-major sorted lists with the same squares are the same list. */
  lemma {:induction false} SortedUnique(xs: seq<Pos>, ys: seq<Pos>)
    requires RowMajorSorted(xs) && RowMajorSorted(ys)
    requires forall p :: p in xs <==> p in ys
    ensures xs == ys
  {
    if xs != [] {
      assert xs[0] in ys;
    }
    if ys != [] {
      assert ys[0] in xs;
    }
    if xs != [] && ys != [] {
      SortedHead(xs, ys[0]);
      SortedHead(ys, xs[0]);
      assert xs[0] == ys[0];
      SortedTail(xs);
      SortedTail(ys);
      SortedUnique(xs[1..], ys[1..]);
      assert xs == [xs[0]] + xs[1..] && ys == [ys[0]] + ys[1..];
    }
  }

  lemma SortedTwo(x: Pos, y: Pos)
    requires Before(x, y)
    ensures RowMajorSorted([x, y])
  {
  }

  lemma SortedThree(x: Pos, y: Pos, z: Pos)
    requires Before(x, y) && Before(y, z)
    ensures RowMajorSorted([x, y, z])
  {
    var s := [x, y, z];
    forall i, j | 0 <= i < j < 3 ensures Before(s[i], s[j]) {
      if i == 0 && j == 2 {
        assert s[i] == x && s[j] == z;
      }
    }
  }

  /** `filterNot` on a sorted list is the sorted list of the squares it keeps. */
  lemma SortedUnvisited(ps: seq<Pos>, visited: seq<Pos>, kept: seq<Pos>)
    requires RowMajorSorted(ps) && RowMajorSorted(kept)
    requires forall i, j :: (i, j) in kept <==> (i, j) in ps && (i, j) !in visited
    ensures Unvisited(ps, visited) == kept
  {
    forall p ensures p in kept <==> p in ps && p !in visited {
      var (i, j) := p;
      assert p == (i, j);
    }
    FilterKeepsSorted(ps, NotIn(visited));
    SortedUnique(Unvisited(ps, visited), kept);
  }

  /** The head of a sorted list comes before every other square of it. */
  lemma SortedHead(xs: seq<Pos>, p: Pos)
    requires RowMajorSorted(xs) && p in xs
    ensures p == xs[0] || Before(xs[0], p)
  {
  }

  /** The tail of a sorted list is sorted and holds every square but the head. */
  lemma SortedTail(xs: seq<Pos>)
    requires RowMajorSorted(xs) && xs != []
    ensures RowMajorSorted(xs[1..])
    ensures forall p :: p in xs[1..] <==> p in xs && p != xs[0]
  {
    forall p | p in xs && p != xs[0] ensures p in xs[1..] {
      var k :| 0 <= k < |xs| && xs[k] == p;
      assert xs[1..][k - 1] == p;
    }
    forall p | p in xs[1..] ensures p != xs[0] {
      var k :| 0 <= k < |xs[1..]| && xs[1..][k] == p;
      assert Before(xs[0], xs[k + 1]);
    }
  }

  lemma SortedNoDup(ps: seq<Pos>)
    requires RowMajorSorted(ps)
    ensures NoDup(ps)
  {
    forall i, j | 0 <= i < j < |ps| ensures ps[i] != ps[j] {
      assert Before(ps[i], ps[j]);
    }
  }

  lemma AdjIndicesAtMostEight(r: int, c: int, keep: Pos -> bool)
    requires !keep((r, c))
    ensures |Filter(Block(r, c), keep)| <= 8
  {
    var front := BlockRow(r - 1, c) + [(r, c - 1)];
    var back := [(r, c + 1)] + BlockRow(r + 1, c);
    assert Block(r, c) == BlockRow(r - 1, c) + BlockRow(r, c) + BlockRow(r + 1, c);
    assert Block(r, c) == front + ([(r, c)] + back);
    FilterAppend(front, [(r, c)] + back, keep);
    FilterAppend([(r, c)], back, keep);
    assert Filter([(r, c)], keep) == [];
  }

  lemma {:induction false} FilterKeepsSorted(ps: seq<Pos>, keep: Pos -> bool)
    requires RowMajorSorted(ps)
    ensures RowMajorSorted(Filter(ps, keep))
  {
    if ps != [] {
      FilterKeepsSorted(ps[1..], keep);
      var rest := Filter(ps[1..], keep);
      forall q | q in rest ensures Before(ps[0], q) {
        var j :| 0 <= j < |ps[1..]| && ps[1..][j] == q;
        assert ps[j + 1] == q;
      }
    }
  }

  /** Row-major index arithmetic: (r * cols + c) splits back into r and c. */
  lemma DivOfRowMajor(r: int, c: int, cols: int)
    requires 0 <= r && 0 <= c < cols
    ensures (r * cols + c) / cols == r && (r * cols + c) % cols == c
  {
    var idx := r * cols + c;
    var q, m := idx / cols, idx % cols;
    assert idx == q * cols + m && 0 <= m < cols;
    if q > r {
      MulSplit(r, q - r, cols);
    } else if q < r {
      MulSplit(q, r - q, cols);
    }
  }

  lemma MulSplit(a: int, k: int, cols: int)
    requires 1 <= k && 0 < cols
    ensures (a + k) * cols >= a * cols + cols
  {
    assert (a + k) * cols == a * cols + k * cols;
  }

  /** An index below rows * cols lies in one of the first `rows` rows. */
  lemma RowOfIndex(idx: int, rows: int, cols: int)
    requires 0 <= idx < rows * cols && 0 < cols
    ensures 0 <= idx / cols < rows
  {
  }

  /** `genMineLocations`/`genRandomMines` take a shuffled list of all n square indices. */
  ghost predicate IsShuffle(shuffled: seq<int>, n: nat) {
    |shuffled| == n && NoDup(shuffled) && forall i :: i in shuffled ==> 0 <= i < n
  }

  /** The mine counts the source's tests expect. */
  lemma TotalMinesExamples()
    ensures TotalMines(1, 1) == 0
    ensures TotalMines(2, 2) == 1
    ensures TotalMines(2, 3) == 1
    ensures TotalMines(2, 4) == 1
    ensures TotalMines(3, 3) == 1
    ensures TotalMines(25, 25) == 94
  {
  }
}

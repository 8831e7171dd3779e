// The cell of a board: what it holds (empty or mine), what the player sees
// of it, and how many of its neighbours are mines.
module Squares {

  /** What a square holds; fixed when the board is generated. */
  datatype SquareType = Empty | Mine

  /** What the player has done with a square. */
  datatype SquareStatus =
    | Unknown     // not visited yet
    | Revealed    // visited
    | Marked      // flagged as a probable mine
    | Question    // flagged with a question mark
    | Mismarked   // flagged as a mine but empty; set only when the game ends

  /** A square; the field `kind` is the Kotlin property `type`. */
  datatype Square = Square(kind: SquareType, status: SquareStatus, adjCount: int)

  /** `Square()` with its default arguments. */
  const DEFAULT_SQUARE: Square := Square(Empty, Unknown, 0)

  predicate IsMine(s: Square) {
    s.kind == Mine
  }

  predicate IsMarked(s: Square) {
    s.status == Marked
  }

  /** Marked by the player and really a mine. */
  predicate IsCorrectlyMarked(s: Square) {
    s.status == Marked && s.kind == Mine
  }

  /** Marked by the player but empty. */
  predicate IsWronglyMarked(s: Square) {
    s.status == Marked && s.kind != Mine
  }

  /** An empty square none of whose neighbours is a mine (`bNoNeigboringMines`). */
  predicate IsZero(s: Square) {
    s.kind == Empty && s.adjCount == 0
  }
}

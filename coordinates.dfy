/** Positions on the 9x9 Sudoku board.

    A position is addressed either as (square, row, col) -- the square 0..8
    numbered row-major over the 3x3 blocks, then the row and column inside
    that block -- or as global (x, y), the column and row on the whole board.
    The board array itself is laid out in the (square, row, col) scheme. */
module Coordinates {

  /** A position in the (square, row, col) scheme. */
  datatype Space = Space(square: int, row: int, col: int)

  predicate ValidSpace(s: Space) {
    0 <= s.square < 9 && 0 <= s.row < 3 && 0 <= s.col < 3
  }

  /** calculateGlobalXY. Python's `%` and `//` by 3 agree with Dafny's
      Euclidean ones for every integer, since the divisor is positive. */
  function CalculateGlobalXY(square: int, row: int, col: int): (xy: (int, int))
    ensures 0 <= square < 9 && 0 <= row < 3 && 0 <= col < 3 ==>
              0 <= xy.0 < 9 && 0 <= xy.1 < 9
    // x lies in the block column of the square, at offset col inside it
    ensures 0 <= col < 3 ==> xy.0 / 3 == square % 3 && xy.0 % 3 == col
    // y lies in the block row of the square, at offset row inside it
    ensures 0 <= row < 3 ==> xy.1 / 3 == square / 3 && xy.1 % 3 == row
  {
    var sqX := square % 3;
    var sqY := square / 3;
    (sqX * 3 + col, sqY * 3 + row)
  }

  /** calculateSqRowCol: the inverse of CalculateGlobalXY on the board. */
  function CalculateSqRowCol(x: int, y: int): (s: Space)
    ensures 0 <= x < 9 && 0 <= y < 9 ==>
              ValidSpace(s) && CalculateGlobalXY(s.square, s.row, s.col) == (x, y)
  {
    Space(3 * (y / 3) + x / 3, y % 3, x % 3)
  }

  /** The other direction of the bijection. */
  lemma SqRowColOfGlobalXY(s: Space)
    requires ValidSpace(s)
    ensures CalculateSqRowCol(GlobalX(s), GlobalY(s)) == s
  {
  }

  function GlobalX(s: Space): int {
    CalculateGlobalXY(s.square, s.row, s.col).0
  }

  function GlobalY(s: Space): int {
    CalculateGlobalXY(s.square, s.row, s.col).1
  }

  /** Two distinct positions constrain each other when they share a square,
      a global column (x) or a global row (y). */
  predicate Peers(s: Space, t: Space) {
    t != s && (t.square == s.square || GlobalX(t) == GlobalX(s) || GlobalY(t) == GlobalY(s))
  }

  /** Offset of board[square][row][col] in the row-major layout of the
      9x3x3 cell index space; it is also the position of the cell in the
      scans over `for square / for row / for col`. */
  function Index(s: Space): (k: int)
    ensures ValidSpace(s) ==> 0 <= k < 81
  {
    9 * s.square + 3 * s.row + s.col
  }

  /** The k-th position of a scan: the unique valid position with offset k. */
  function SpaceAt(k: int): (s: Space)
    requires 0 <= k < 81
    ensures ValidSpace(s) && Index(s) == k
    ensures forall t :: ValidSpace(t) && Index(t) == k ==> t == s
  {
    Space(k / 9, k % 9 / 3, k % 3)
  }
}

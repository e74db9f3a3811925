/** The `Sudoku` record of the program: a 9x9 `int` board indexed
    `board[i, j]`, where the first index `i` is the column and the second
    index `j` is the row of the puzzle as it is written in a file. */
module Board {

  /** The value of a board, `g[i][j] == board[i, j]`. */
  type Grid = seq<seq<int>>

  /** A value of the shape of a 9x9 board. */
  ghost predicate IsGrid(g: Grid) {
    |g| == 9 && forall i :: 0 <= i < 9 ==> |g[i]| == 9
  }

  /** The board of a `new Sudoku()`: every cell 0. */
  function EmptyGrid(): (g: Grid)
    ensures IsGrid(g)
    ensures forall i, j :: 0 <= i < 9 && 0 <= j < 9 ==> g[i][j] == 0
  {
    seq(9, i => seq(9, j => 0))
  }

  /** The value of the 2-D array `b`. */
  ghost function Cells(b: array2<int>): (g: Grid)
    reads b
    ensures |g| == b.Length0
    ensures forall i :: 0 <= i < b.Length0 ==> |g[i]| == b.Length1
    ensures forall i, j :: 0 <= i < b.Length0 && 0 <= j < b.Length1 ==> g[i][j] == b[i, j]
  {
    seq(b.Length0, i requires 0 <= i < b.Length0 reads b =>
      seq(b.Length1, j requires 0 <= j < b.Length1 reads b => b[i, j]))
  }

  /** `class Sudoku { public int[,] board = new int[9, 9]; }`. No code of the
      program assigns the field itself (only its cells), so it is `const`. */
  class Sudoku {
    const board: array2<int>

    ghost predicate Valid() {
      board.Length0 == 9 && board.Length1 == 9
    }

    /** The board of this puzzle as a value. */
    ghost function Grid(): (g: Grid)
      reads board
      requires Valid()
      ensures IsGrid(g)
    {
      Cells(board)
    }

    constructor ()
      ensures Valid() && fresh(board)
      ensures Grid() == EmptyGrid()
    {
      var b := new int[9, 9]((i, j) => 0);
      assert forall i :: 0 <= i < 9 ==> Cells(b)[i] == EmptyGrid()[i];
      board := b;
    }
  }
}

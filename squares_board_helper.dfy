/** The win check of the later (`squares`) snapshot. */
module SquaresBoardHelper {
  import Grid
  import SquaresBoard

  /**
   * The scan of every block of the backing arrays, row by row, stopping at the first block
   * whose player sum differs from its solution sum: the result is true exactly when every
   * block whose top-left peg lies in [0, Length0 - 1) x [0, Length1 - 1) of `solution` matches.
   */
  method HasMatch(solution: array2<int>, player: array2<int>) returns (matched: bool)
    requires Grid.Covers(solution, player, solution.Length0, solution.Length1)
    ensures matched <==> Grid.BlocksMatch(solution, player, solution.Length0, solution.Length1)
  {
    var row := 0;
    while row < solution.Length0 - 1
      invariant 0 <= row && (row <= solution.Length0 - 1 || row == 0)
      invariant forall r, c :: 0 <= r < row && 0 <= c < solution.Length1 - 1 ==>
        Grid.Count(player, c, r) == Grid.Count(solution, c, r)
    {
      var col := 0;
      while col < solution.Length1 - 1
        invariant 0 <= row < solution.Length0 - 1
        invariant 0 <= col && (col <= solution.Length1 - 1 || col == 0)
        invariant forall r, c :: 0 <= r < row && 0 <= c < solution.Length1 - 1 ==>
          Grid.Count(player, c, r) == Grid.Count(solution, c, r)
        invariant forall c :: 0 <= c < col ==> Grid.Count(player, c, row) == Grid.Count(solution, c, row)
      {
        if Grid.Count(player, col, row) != Grid.Count(solution, col, row) {
          return false;
        }
        col := col + 1;
      }
      row := row + 1;
    }
    return true;
  }

  /** The board is solved when its backing arrays match block for block. */
  ghost predicate Solved(board: SquaresBoard.Board)
    reads board, board.solution, board.player
    requires board.Valid()
  {
    Grid.BlocksMatch(board.solution, board.player, SquaresBoard.BackingRows, SquaresBoard.BackingCols)
  }

  /**
   * The win check of a board: the two-grid check on its backing arrays, which scans the whole
   * fixed-size arrays rather than the active rows x cols board. It writes neither grid.
   */
  method HasMatchBoard(board: SquaresBoard.Board) returns (matched: bool)
    requires board.Valid()
    ensures matched <==> Solved(board)
  {
    matched := HasMatch(board.solution, board.player);
  }
}

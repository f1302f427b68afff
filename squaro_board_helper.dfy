/** The win check of the earlier (`squaro`) snapshot. */
module SquaroBoardHelper {
  import Grid
  import SquaroBoard

  /**
   * The scan of the blocks whose top-left peg lies in [0, rows - 1) x [0, cols - 1), row by row,
   * stopping at the first block whose player sum differs from its solution sum. `rows` and
   * `cols` are what the board's getRows() and getCols() report; those accessors are not part
   * of this model. The result is true exactly when every scanned block matches.
   */
  method HasMatch(board: SquaroBoard.Board, rows: int, cols: int) returns (matched: bool)
    requires board.Valid()
    requires Grid.Covers(board.solution, board.player, rows, cols)
    ensures matched <==> Grid.BlocksMatch(board.solution, board.player, rows, cols)
  {
    var row := 0;
    while row < rows - 1
      invariant 0 <= row && (row <= rows - 1 || row == 0)
      invariant forall r, c :: 0 <= r < row && 0 <= c < cols - 1 ==>
        Grid.Count(board.player, c, r) == Grid.Count(board.solution, c, r)
    {
      var col := 0;
      while col < cols - 1
        invariant 0 <= row < rows - 1
        invariant 0 <= col && (col <= cols - 1 || col == 0)
        invariant forall r, c :: 0 <= r < row && 0 <= c < cols - 1 ==>
          Grid.Count(board.player, c, r) == Grid.Count(board.solution, c, r)
        invariant forall c :: 0 <= c < col ==> Grid.Count(board.player, c, row) == Grid.Count(board.solution, c, row)
      {
        if Grid.Count(board.player, col, row) != Grid.Count(board.solution, col, row) {
          return false;
        }
        col := col + 1;
      }
      row := row + 1;
    }
    return true;
  }
}

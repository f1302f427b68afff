/**
 * The board of the later (`squares`) snapshot: a hidden solution grid and the player's
 * grid, both kept in one fixed-size backing array each that every reset reuses.
 */
module SquaresBoard {
  import Grid
  import SquaresPeg

  /** Peg counts of the board sizes this snapshot declares. */
  const SizeSmall := 3
  const SizeMedium := 4
  const SizeVeryLarge := 6

  /** Shape of the backing arrays: rows x cols of pegs, large enough for every board. */
  const BackingRows := SizeVeryLarge + SizeMedium + 1
  const BackingCols := SizeVeryLarge + SizeSmall + 1

  class Board {
    /** The hidden key; null until the first reset allocates it. */
    var solution: array2?<int>
    /** The player's choices; null until the first reset allocates it. */
    var player: array2?<int>
    /** The active board: the pegs in [0, rows) x [0, cols). */
    var cols: int
    var rows: int
    /** The one peg object used for every position; it holds the accepted range. */
    const peg: SquaresPeg.Peg

    /** The backing arrays exist, are distinct, have the fixed shape, and hold the active board. */
    ghost predicate Valid()
      reads this
    {
      solution != null && player != null && solution != player &&
      solution.Length0 == BackingRows && solution.Length1 == BackingCols &&
      player.Length0 == BackingRows && player.Length1 == BackingCols &&
      1 <= rows <= BackingRows && 1 <= cols <= BackingCols
    }

    /** If the backing arrays exist they have the fixed shape and are distinct. */
    ghost predicate Allocated()
      reads this
    {
      (solution == null <==> player == null) &&
      (solution != null ==>
        solution != player &&
        solution.Length0 == BackingRows && solution.Length1 == BackingCols &&
        player.Length0 == BackingRows && player.Length1 == BackingCols)
    }

    /** The state the source's constructor has before its reset: a fresh peg and no arrays yet. */
    constructor Init()
      ensures solution == null && player == null && cols == 0 && rows == 0
      ensures fresh(peg) && peg.range == 0
    {
      solution, player := null, null;
      cols, rows := 0, 0;
      peg := new SquaresPeg.Peg();
    }

    /**
     * Resets the board to cols x rows pegs with range `range`. draw(r, c) is the value the
     * random source gives for peg (r, c). ok is false where the source throws: a range of at
     * most 0 fails at the first draw (the solution stays all 0), any other unsupported range
     * fails after the fill, when the peg refuses it.
     */
    method Reset(cols: int, rows: int, range: int, draw: (int, int) -> int) returns (ok: bool)
      requires Allocated()
      requires 1 <= cols <= BackingCols && 1 <= rows <= BackingRows
      requires range > 0 ==> forall r, c :: 0 <= r < rows && 0 <= c < cols ==> 0 <= draw(r, c) < range
      modifies this, solution, player, peg`range
      ensures Valid() && Allocated()
      ensures this.cols == cols && this.rows == rows
      ensures old(solution) != null ==> solution == old(solution) && player == old(player)
      ensures old(solution) == null ==> fresh(solution) && fresh(player)
      ensures forall r, c :: 0 <= r < BackingRows && 0 <= c < BackingCols ==> player[r, c] == 0
      ensures forall r, c :: 0 <= r < BackingRows && 0 <= c < BackingCols ==>
        solution[r, c] == if r < rows && c < cols && range > 0 then draw(r, c) else 0
      ensures range > 0 ==> Grid.CellsIn(solution, BackingRows, BackingCols, range)
      ensures ok == SquaresPeg.ValidRange(range)
      ensures peg.range == if ok then range else old(peg.range)
    {
      this.cols := cols;
      this.rows := rows;
      if solution == null {
        solution := new int[BackingRows, BackingCols];
      }
      if player == null {
        player := new int[BackingRows, BackingCols];
      }
      Clear();
      if range <= 0 {
        // the first draw throws
        return false;
      }
      Fill(draw);
      ok := peg.SetRange(range);
    }

    /** Sets every cell of both backing arrays to 0. */
    method Clear()
      requires Valid()
      modifies solution, player
      ensures forall r, c :: 0 <= r < BackingRows && 0 <= c < BackingCols ==> player[r, c] == 0 && solution[r, c] == 0
    {
      var row := 0;
      while row < BackingRows
        invariant 0 <= row <= BackingRows
        invariant forall r, c :: 0 <= r < row && 0 <= c < BackingCols ==> player[r, c] == 0 && solution[r, c] == 0
      {
        var col := 0;
        while col < BackingCols
          invariant 0 <= col <= BackingCols
          invariant forall r, c :: 0 <= r < row && 0 <= c < BackingCols ==> player[r, c] == 0 && solution[r, c] == 0
          invariant forall c :: 0 <= c < col ==> player[row, c] == 0 && solution[row, c] == 0
        {
          player[row, col] := 0;
          solution[row, col] := 0;
          col := col + 1;
        }
        row := row + 1;
      }
    }

    /** Draws every solution peg of the active board; the rest of the solution stays 0. */
    method Fill(draw: (int, int) -> int)
      requires Valid()
      requires forall r, c :: 0 <= r < BackingRows && 0 <= c < BackingCols ==> solution[r, c] == 0
      modifies solution
      ensures forall r, c :: 0 <= r < BackingRows && 0 <= c < BackingCols ==>
        solution[r, c] == if r < rows && c < cols then draw(r, c) else 0
    {
      var row := 0;
      while row < rows
        invariant 0 <= row <= rows
        invariant forall r, c :: 0 <= r < BackingRows && 0 <= c < BackingCols ==>
          solution[r, c] == if r < row && c < cols then draw(r, c) else 0
      {
        var col := 0;
        while col < cols
          invariant 0 <= col <= cols
          invariant forall r, c :: 0 <= r < BackingRows && 0 <= c < BackingCols ==>
            solution[r, c] == if (r < row && c < cols) || (r == row && c < col) then draw(r, c) else 0
        {
          solution[row, col] := draw(row, col);
          col := col + 1;
        }
        row := row + 1;
      }
    }

    /**
     * A touch: every active peg the touch hits (hit(r, c)) goes up by one and wraps to 0 at the
     * peg's range; every other cell, and the solution, keep their values.
     */
    method Update(hit: (int, int) -> bool)
      requires Valid()
      modifies player
      ensures forall r, c :: 0 <= r < BackingRows && 0 <= c < BackingCols ==>
        player[r, c] == if r < rows && c < cols && hit(r, c) then Grid.Cycle(old(player[r, c]), peg.range) else old(player[r, c])
      ensures old(Grid.CellsIn(player, BackingRows, BackingCols, peg.range)) ==> Grid.CellsIn(player, BackingRows, BackingCols, peg.range)
    {
      var row := 0;
      while row < rows
        invariant 0 <= row <= rows
        invariant forall r, c :: 0 <= r < BackingRows && 0 <= c < BackingCols ==>
          player[r, c] == if r < row && c < cols && hit(r, c) then Grid.Cycle(old(player[r, c]), peg.range) else old(player[r, c])
      {
        var col := 0;
        while col < cols
          invariant 0 <= col <= cols
          invariant forall r, c :: 0 <= r < BackingRows && 0 <= c < BackingCols ==>
            player[r, c] ==
              if ((r < row && c < cols) || (r == row && c < col)) && hit(r, c) then Grid.Cycle(old(player[r, c]), peg.range)
              else old(player[r, c])
        {
          if hit(row, col) {
            player[row, col] := player[row, col] + 1;
            if player[row, col] >= peg.range {
              player[row, col] := 0;
            }
          }
          col := col + 1;
        }
        row := row + 1;
      }
    }
  }

  /**
   * The three-argument constructor: a fresh board reset once, so a zero player grid and the
   * draws on the active board; null where that reset throws.
   */
  method New(cols: int, rows: int, range: int, draw: (int, int) -> int) returns (b: Board?)
    requires 1 <= cols <= BackingCols && 1 <= rows <= BackingRows
    requires range > 0 ==> forall r, c :: 0 <= r < rows && 0 <= c < cols ==> 0 <= draw(r, c) < range
    ensures b == null <==> !SquaresPeg.ValidRange(range)
    ensures b != null ==> fresh(b) && b.Valid() && b.cols == cols && b.rows == rows && b.peg.range == range
    ensures b != null ==> forall r, c :: 0 <= r < BackingRows && 0 <= c < BackingCols ==>
      b.player[r, c] == 0 && b.solution[r, c] == if r < rows && c < cols then draw(r, c) else 0
    ensures b != null ==> Grid.CellsIn(b.solution, BackingRows, BackingCols, range)
  {
    var board := new Board.Init();
    var ok := board.Reset(cols, rows, range, draw);
    b := if ok then board else null;
  }
}

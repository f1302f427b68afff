/**
 * The board of the earlier (`squaro`) snapshot: a hidden solution grid and the player's grid,
 * freshly allocated at (rows + 1) x (cols + 1) pegs on every reset.
 */
module SquaroBoard {
  import Grid
  import SquaroPeg

  /** The size the constructor resets to. */
  const DefaultDimensions := 3

  /** The block counts per side of the board sizes on offer. */
  const SizeSmall := 2
  const SizeMedium := 3
  const SizeLarge := 4
  const SizeVeryLarge := 5

  class Board {
    /** The hidden key. */
    var solution: array2<int>
    /** The player's choices. */
    var player: array2<int>
    /** The one peg object used for every position; it holds the accepted range. */
    const peg: SquaroPeg.Peg

    /** The two grids are distinct arrays of the same shape. */
    ghost predicate Valid()
      reads this
    {
      solution != player &&
      solution.Length0 == player.Length0 && solution.Length1 == player.Length1
    }

    /**
     * A new board, reset to DefaultDimensions x DefaultDimensions blocks of the hard range;
     * draw(r, c) is the value the random source gives for peg (r, c).
     */
    constructor (draw: (int, int) -> int)
      requires forall r, c :: 0 <= r <= DefaultDimensions && 0 <= c <= DefaultDimensions ==>
        0 <= draw(r, c) < SquaroPeg.RangeHard
      ensures Valid()
      ensures solution.Length0 == DefaultDimensions + 1 && solution.Length1 == DefaultDimensions + 1
      ensures forall r, c :: 0 <= r <= DefaultDimensions && 0 <= c <= DefaultDimensions ==>
        solution[r, c] == draw(r, c) && player[r, c] == 0
      ensures fresh(peg) && peg.range == SquaroPeg.RangeHard
    {
      solution := new int[1, 1];
      player := new int[1, 1];
      peg := new SquaroPeg.Peg();
      new;
      var ok := Reset(DefaultDimensions, DefaultDimensions, SquaroPeg.RangeHard, draw);
    }

    /**
     * Replaces both grids by fresh (rows + 1) x (cols + 1) arrays: every solution peg drawn
     * in [0, range), every player peg 0. ok is false where the source throws: a range of at
     * most 0 fails at the first draw (the solution stays all 0), any other unsupported range
     * fails after the fill, when the peg refuses it.
     */
    method Reset(cols: int, rows: int, range: int, draw: (int, int) -> int) returns (ok: bool)
      requires 0 <= cols && 0 <= rows
      requires range > 0 ==> forall r, c :: 0 <= r <= rows && 0 <= c <= cols ==> 0 <= draw(r, c) < range
      modifies this, peg`range
      ensures Valid() && fresh(solution) && fresh(player)
      ensures solution.Length0 == rows + 1 && solution.Length1 == cols + 1
      ensures forall r, c :: 0 <= r <= rows && 0 <= c <= cols ==>
        player[r, c] == 0 && solution[r, c] == if range > 0 then draw(r, c) else 0
      ensures range > 0 ==> Grid.CellsIn(solution, rows + 1, cols + 1, range)
      ensures ok == SquaroPeg.ValidRange(range)
      ensures peg.range == if ok then range else old(peg.range)
    {
      solution := new int[rows + 1, cols + 1]((r, c) => 0);
      player := new int[rows + 1, cols + 1]((r, c) => 0);
      if range <= 0 {
        // the first draw throws
        return false;
      }
      var row := 0;
      while row < solution.Length0
        invariant 0 <= row <= rows + 1
        invariant Valid() && fresh(solution) && fresh(player) && peg.range == old(peg.range)
        invariant solution.Length0 == rows + 1 && solution.Length1 == cols + 1
        invariant forall r, c :: 0 <= r <= rows && 0 <= c <= cols ==>
          player[r, c] == 0 && solution[r, c] == if r < row then draw(r, c) else 0
      {
        var col := 0;
        while col < solution.Length1
          invariant 0 <= col <= cols + 1
          invariant Valid() && fresh(solution) && fresh(player) && peg.range == old(peg.range)
          invariant solution.Length0 == rows + 1 && solution.Length1 == cols + 1
          invariant forall r, c :: 0 <= r <= rows && 0 <= c <= cols ==>
            player[r, c] == 0 && solution[r, c] == if r < row || (r == row && c < col) then draw(r, c) else 0
        {
          solution[row, col] := draw(row, col);
          player[row, col] := 0;
          col := col + 1;
        }
        row := row + 1;
      }
      ok := peg.SetRange(range);
    }

    /**
     * A touch: every peg of the whole grid that the touch hits (hit(r, c)) goes up by one and
     * wraps to 0 at the peg's range; every other peg, and the solution, keep their values.
     */
    method Update(hit: (int, int) -> bool)
      requires Valid()
      modifies player
      ensures forall r, c :: 0 <= r < player.Length0 && 0 <= c < player.Length1 ==>
        player[r, c] == if hit(r, c) then Grid.Cycle(old(player[r, c]), peg.range) else old(player[r, c])
      ensures old(Grid.CellsIn(player, player.Length0, player.Length1, peg.range)) ==>
        Grid.CellsIn(player, player.Length0, player.Length1, peg.range)
    {
      var row := 0;
      while row < player.Length0
        invariant 0 <= row <= player.Length0
        invariant forall r, c :: 0 <= r < player.Length0 && 0 <= c < player.Length1 ==>
          player[r, c] == if r < row && hit(r, c) then Grid.Cycle(old(player[r, c]), peg.range) else old(player[r, c])
      {
        var col := 0;
        while col < player.Length1
          invariant 0 <= col <= player.Length1
          invariant forall r, c :: 0 <= r < player.Length0 && 0 <= c < player.Length1 ==>
            player[r, c] ==
              if (r < row || (r == row && c < col)) && hit(r, c) then Grid.Cycle(old(player[r, c]), peg.range)
              else old(player[r, c])
        {
          if hit(row, col) {
            player[row, col] := player[row, col] + 1;
            if player[row, col] >= peg.range {
              player[row, col] := 0;
            }
          }
          col := col + 1;
        }
        row := row + 1;
      }
    }
  }
}

/**
 * The block arithmetic shared by both snapshots of the game (`squares` and `squaro`):
 * the four-corner sum of a 2x2 block of pegs, the "every block matches" predicate that
 * defines a solved board, and the wrap-around increment a touched peg receives.
 */
module Grid {

  /** The sum of the four pegs around the block whose top-left peg is key[row, col]. */
  function Count(key: array2<int>, col: int, row: int): int
    reads key
    requires 0 <= row && row + 1 < key.Length0
    requires 0 <= col && col + 1 < key.Length1
  {
    key[row, col] + key[row, col + 1] + key[row + 1, col] + key[row + 1, col + 1]
  }

  /** Every peg of the rows x cols corner of `key` holds a value in [0, range). */
  predicate CellsIn(key: array2<int>, rows: int, cols: int, range: int)
    reads key
    requires rows <= key.Length0 && cols <= key.Length1
  {
    forall r, c :: 0 <= r < rows && 0 <= c < cols ==> 0 <= key[r, c] < range
  }

  /** Both grids are large enough for every block the scan visits. */
  predicate Covers(solution: array2<int>, player: array2<int>, rows: int, cols: int)
  {
    rows <= solution.Length0 && rows <= player.Length0 &&
    cols <= solution.Length1 && cols <= player.Length1
  }

  /**
   * Every block whose top-left peg lies in [0, rows-1) x [0, cols-1) has the same
   * four-corner sum in `player` as in `solution`.
   */
  predicate BlocksMatch(solution: array2<int>, player: array2<int>, rows: int, cols: int)
    reads solution, player
    requires Covers(solution, player, rows, cols)
  {
    forall row, col :: 0 <= row < rows - 1 && 0 <= col < cols - 1 ==>
      Count(player, col, row) == Count(solution, col, row)
  }

  /** A block's sum lies in [0, 4 * (range - 1)] when its pegs lie in [0, range). */
  lemma CountBounds(key: array2<int>, col: int, row: int, range: int)
    requires 0 <= row && row + 1 < key.Length0
    requires 0 <= col && col + 1 < key.Length1
    requires CellsIn(key, key.Length0, key.Length1, range)
    ensures 0 <= Count(key, col, row) <= 4 * (range - 1)
  {
    assert 0 <= key[row, col] < range && 0 <= key[row, col + 1] < range;
    assert 0 <= key[row + 1, col] < range && 0 <= key[row + 1, col + 1] < range;
  }

  /** Grids that agree peg by peg agree on every block; in particular a grid matches itself. */
  lemma EqualGridsMatch(solution: array2<int>, player: array2<int>, rows: int, cols: int)
    requires Covers(solution, player, rows, cols)
    requires forall r, c :: 0 <= r < rows && 0 <= c < cols ==> player[r, c] == solution[r, c]
    ensures BlocksMatch(solution, player, rows, cols)
  {
  }

  /**
   * Matching asks only for equal block sums: a 2x2 peg grid whose single block sums to 1
   * in both grids, with the 1 on different pegs.
   */
  method SumsNotPegs() returns (solution: array2<int>, player: array2<int>)
    ensures Covers(solution, player, 2, 2)
    ensures BlocksMatch(solution, player, 2, 2)
    ensures solution[0, 0] != player[0, 0]
  {
    solution := new int[2, 2]((r, c) => if r == 0 && c == 0 then 1 else 0);
    player := new int[2, 2]((r, c) => if r == 0 && c == 1 then 1 else 0);
    assert Count(solution, 0, 0) == 1 == Count(player, 0, 0);
  }

  /** A touched peg goes up by one and wraps to 0 once it reaches `range`. */
  function Cycle(v: int, range: int): (r: int)
    ensures 0 <= v < range ==> r == (v + 1) % range
  {
    if v + 1 >= range then 0 else v + 1
  }

  /** `n` touches of one peg. */
  function CycleN(v: int, range: int, n: nat): int
  {
    if n == 0 then v else Cycle(CycleN(v, range, n - 1), range)
  }

  /** A peg in [0, range) stays in [0, range) when touched. */
  lemma CycleInRange(v: int, range: int)
    requires 0 <= v < range
    ensures 0 <= Cycle(v, range) < range
  {
  }

  /** Below the wrap point every touch adds exactly one. */
  lemma {:induction false} CycleNCounts(v: int, range: int, n: nat)
    requires 0 <= v && v + n < range
    ensures CycleN(v, range, n) == v + n
  {
    if n > 0 {
      CycleNCounts(v, range, n - 1);
    }
  }

  /** Touches compose: a + b touches are a touches followed by b touches. */
  lemma {:induction false} CycleNAdd(v: int, range: int, a: nat, b: nat)
    ensures CycleN(v, range, a + b) == CycleN(CycleN(v, range, a), range, b)
  {
    if b > 0 {
      CycleNAdd(v, range, a, b - 1);
      assert a + b - 1 == a + (b - 1);
    }
  }

  /** Touching a peg in [0, range) exactly `range` times gives back its value. */
  lemma CycleRestores(v: int, range: int)
    requires 0 <= v < range
    ensures CycleN(v, range, range) == v
  {
    var up := range - v;
    CycleNAdd(v, range, up, v);
    CycleNAdd(v, range, up - 1, 1);
    CycleNCounts(v, range, up - 1);
    assert CycleN(v, range, up) == 0;
    CycleNCounts(0, range, v);
  }
}

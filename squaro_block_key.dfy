/**
 * The per-block feedback sprite of the earlier (`squaro`) board: a numbered tile in one of
 * three colours chosen from the block's solution sum and the player's sum.
 */
module SquaroBlockKey {
  import opened Common

  /** The largest block sum with a tile: four pegs of the hard range (values up to 4). */
  const MaxCount := 16

  /**
   * The three tile families, each numbered 0..MaxCount: Start (nothing placed yet),
   * Valid (sums agree) and InValid (sums differ).
   */
  datatype Key = Start(n: nat) | Valid(n: nat) | InValid(n: nat)

  /**
   * The tile for a block; None where no case of the source's switch applies.
   * The tile carries the solution sum, never the player's; it is Valid exactly when the sums
   * agree, and Start exactly when the player has placed nothing on a block that needs something.
   */
  function KeyFor(countSolution: int, countPlayer: int): (r: Option<Key>)
    ensures r.Some? <==> 0 <= countSolution <= MaxCount
    ensures r.Some? ==> r.value.n == countSolution
    ensures r.Some? ==> (r.value.Valid? <==> countSolution == countPlayer)
    ensures r.Some? ==> (r.value.Start? <==> countPlayer == 0 && countSolution != 0)
  {
    var valid := countSolution == countPlayer;
    if countSolution < 0 || MaxCount < countSolution then None
    else if countPlayer == 0 && !valid then Some(Start(countSolution))
    else if !valid then Some(InValid(countSolution))
    else Some(Valid(countSolution))
  }

  class BlockKey {
    /** The tile currently selected on the sprite sheet (none before the first choice). */
    var key: Option<Key>

    constructor ()
      ensures key == None
    {
      key := None;
    }

    /** Selects the tile for the block; a solution sum outside 0..MaxCount keeps the previous tile. */
    method SetAnimation(countSolution: int, countPlayer: int)
      modifies this
      ensures key == if KeyFor(countSolution, countPlayer).Some? then KeyFor(countSolution, countPlayer) else old(key)
    {
      var choice := KeyFor(countSolution, countPlayer);
      if choice.Some? {
        key := choice;
      }
    }
  }

  /** An untouched block whose solution sum is also 0 shows Valid_0, not Start_0. */
  lemma EmptyBlockIsValid()
    ensures KeyFor(0, 0) == Some(Valid(0))
  {
  }
}

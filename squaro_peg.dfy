/** A peg of the earlier (`squaro`) board: its value range and the fill sprite for a value. */
module SquaroPeg {
  import opened Common

  /** The ranges the earlier board declares for its three difficulties. */
  const RangeEasy := 2
  const RangeMedium := 3
  const RangeHard := 5

  /** The fill sprites, in sprite-sheet order. */
  datatype Fill = Empty | OneQuarter | Half | ThreeQuarters | Full

  predicate ValidRange(range: int)
  {
    range == RangeEasy || range == RangeMedium || range == RangeHard
  }

  /** How many quarters of a full peg a fill shows. */
  function Quarters(f: Fill): nat
  {
    match f
    case Empty => 0
    case OneQuarter => 1
    case Half => 2
    case ThreeQuarters => 3
    case Full => 4
  }

  /**
   * The sprite for a peg holding `count` under `range`; None where the source throws.
   * Exactly the counts in [0, range) of an accepted range have a sprite, and it shows
   * count / (range - 1) of a full peg.
   */
  function FillFor(range: int, count: int): (r: Option<Fill>)
    ensures r.Some? <==> ValidRange(range) && 0 <= count < range
    ensures r.Some? ==> Quarters(r.value) * (range - 1) == 4 * count
  {
    if range == RangeEasy then
      match count
      case 0 => Some(Empty)
      case 1 => Some(Full)
      case _ => None
    else if range == RangeMedium then
      match count
      case 0 => Some(Empty)
      case 1 => Some(Half)
      case 2 => Some(Full)
      case _ => None
    else if range == RangeHard then
      match count
      case 0 => Some(Empty)
      case 1 => Some(OneQuarter)
      case 2 => Some(Half)
      case 3 => Some(ThreeQuarters)
      case 4 => Some(Full)
      case _ => None
    else None
  }

  class Peg {
    /** The number of values this peg cycles through. */
    var range: int
    /** The sprite currently selected on the peg's sprite sheet (none before the first choice). */
    var key: Option<Fill>

    /** A new peg: no range accepted yet and no sprite chosen. */
    constructor ()
      ensures range == 0 && key == None
    {
      range := 0;
      key := None;
    }

    /** Accepts only the three difficulty ranges; a refused range (ok false) leaves the old one. */
    method SetRange(range: int) returns (ok: bool)
      modifies this`range
      ensures ok == ValidRange(range)
      ensures this.range == if ok then range else old(this.range)
    {
      if range != RangeEasy && range != RangeMedium && range != RangeHard {
        return false;
      }
      this.range := range;
      ok := true;
    }

    /** Chooses the sprite for `count`; where the source throws (ok false) the sprite is unchanged. */
    method SetAnimation(count: int) returns (ok: bool)
      modifies this`key
      ensures ok == FillFor(range, count).Some?
      ensures key == if ok then FillFor(range, count) else old(key)
    {
      var fill := FillFor(range, count);
      if fill.None? {
        return false;
      }
      key := fill;
      ok := true;
    }
  }
}

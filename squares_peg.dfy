/**
 * A peg of the later (`squares`) board: the value range it accepts, its hit box and the
 * fill sprite it shows for a value, including the flag sprite.
 */
module SquaresPeg {
  import opened Common

  /**
   * The two ranges the later board accepts. The board file that should declare them is
   * not part of this model; 2 and 3 are the sizes of the two count tables in SetAnimation.
   */
  const RangeDefault := 2
  const RangeEvil := 3

  /** Hit boxes reach 0.75 of the peg's width and height either side of its position. */
  const ContainsRatio: real := 0.75

  /** The fill sprites, in sprite-sheet order. */
  datatype Fill = Empty | OneQuarter | Half | ThreeQuarters | Full | Flagged

  predicate ValidRange(range: int)
  {
    range == RangeDefault || range == RangeEvil
  }

  /** How many quarters of a full peg a fill shows (the flag shows none). */
  function Quarters(f: Fill): nat
  {
    match f
    case Empty => 0
    case OneQuarter => 1
    case Half => 2
    case ThreeQuarters => 3
    case Full => 4
    case Flagged => 0
  }

  /**
   * The sprite for a peg holding `count` under `range`; None where the source throws.
   * A flagged peg always shows the flag; otherwise the fill shows count / (range - 1)
   * of a full peg, and only counts in [0, range) of an accepted range have a sprite.
   */
  function FillFor(range: int, count: int, flagged: bool): (r: Option<Fill>)
    ensures flagged ==> r == Some(Flagged)
    ensures !flagged ==> (r.Some? <==> ValidRange(range) && 0 <= count < range)
    ensures !flagged && r.Some? ==> r.value != Flagged && Quarters(r.value) * (range - 1) == 4 * count
  {
    if flagged then Some(Flagged)
    else if range == RangeDefault then
      match count
      case 0 => Some(Empty)
      case 1 => Some(Full)
      case _ => None
    else if range == RangeEvil then
      match count
      case 0 => Some(Empty)
      case 1 => Some(Half)
      case 2 => Some(Full)
      case _ => None
    else None
  }

  function Abs(v: real): real
  {
    if v < 0.0 then -v else v
  }

  class Peg {
    /** The number of values this peg cycles through. */
    var range: int
    /** The sprite currently selected on the peg's sprite sheet (none before the first choice). */
    var key: Option<Fill>
    /** Position and size inherited from the framework's entity. */
    var x: real
    var y: real
    var width: real
    var height: real

    /** A new peg: no range accepted yet, no sprite chosen, at the origin with no size. */
    constructor ()
      ensures range == 0 && key == None
      ensures x == 0.0 && y == 0.0 && width == 0.0 && height == 0.0
    {
      range := 0;
      key := None;
      x, y, width, height := 0.0, 0.0, 0.0, 0.0;
    }

    /** Accepts only the two supported ranges; a refused range (ok false) leaves the old one. */
    method SetRange(range: int) returns (ok: bool)
      modifies this`range
      ensures ok == ValidRange(range)
      ensures this.range == if ok then range else old(this.range)
    {
      if range != RangeDefault && range != RangeEvil {
        return false;
      }
      this.range := range;
      ok := true;
    }

    /** The point lies in the box reaching ContainsRatio of the size either side of (x, y), bounds included. */
    predicate Contains(px: real, py: real)
      reads this
    {
      if x - width * ContainsRatio <= px && px <= x + width * ContainsRatio then
        y - height * ContainsRatio <= py && py <= y + height * ContainsRatio
      else
        false
    }

    /** Chooses the sprite for `count`; where the source throws (ok false) the sprite is unchanged. */
    method SetAnimation(count: int, flagged: bool) returns (ok: bool)
      modifies this`key
      ensures ok == FillFor(range, count, flagged).Some?
      ensures key == if ok then FillFor(range, count, flagged) else old(key)
    {
      if flagged {
        key := Some(Flagged);
        return true;
      }
      if range == RangeDefault {
        if count == 0 {
          key := Some(Empty);
        } else if count == 1 {
          key := Some(Full);
        } else {
          return false;
        }
      } else if range == RangeEvil {
        if count == 0 {
          key := Some(Empty);
        } else if count == 1 {
          key := Some(Half);
        } else if count == 2 {
          key := Some(Full);
        } else {
          return false;
        }
      } else {
        return false;
      }
      ok := true;
    }
  }

  /** The hit box is the set of points within ContainsRatio of the size from the peg's position, per axis. */
  lemma ContainsWithin(p: Peg, px: real, py: real)
    ensures p.Contains(px, py) <==>
      Abs(px - p.x) <= p.width * ContainsRatio && Abs(py - p.y) <= p.height * ContainsRatio
  {
  }
}

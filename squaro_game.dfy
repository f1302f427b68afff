/**
 * The game session of the earlier (`squaro`) snapshot: settings that pick the peg range and
 * the board size, a clock that counts up in Default mode and down from a budget in Timed
 * mode, an edge-triggered win, a time-out held at 0, and the m:ss:mmm clock display.
 */
module SquaroGame {
  import opened Common
  import opened Clock
  import opened Text
  import Grid
  import SquaroPeg
  import SquaroBoard
  import SquaroBoardHelper

  datatype Mode = Default | Timed
  datatype Difficulty = Easy | Normal | Hard
  datatype Size = Medium | Large | VeryLarge | VeryLong | Small

  /** What the session tells its surroundings: the game-over screen with its message and sound. */
  datatype Event = Won | TimeUp

  /** Timed mode allows this many milliseconds per block, before the difficulty multiplier. */
  const TimedBlockDuration := 5000

  /** The peg range of a difficulty: every difficulty gets a range the peg accepts. */
  function RangeOf(d: Difficulty): (range: int)
    ensures SquaroPeg.ValidRange(range)
  {
    match d
    case Easy => SquaroPeg.RangeEasy
    case Normal => SquaroPeg.RangeMedium
    case Hard => SquaroPeg.RangeHard
  }

  /** The columns and rows of blocks of a board size; every size has at least one block. */
  function Dimensions(s: Size): (dims: (int, int))
    ensures SquaroBoard.SizeSmall <= dims.0 && SquaroBoard.SizeSmall <= dims.1
  {
    match s
    case Small => (SquaroBoard.SizeSmall, SquaroBoard.SizeSmall)
    case Medium => (SquaroBoard.SizeMedium, SquaroBoard.SizeMedium)
    case Large => (SquaroBoard.SizeLarge, SquaroBoard.SizeLarge)
    case VeryLarge => (SquaroBoard.SizeVeryLarge, SquaroBoard.SizeVeryLarge)
    case VeryLong => (SquaroBoard.SizeVeryLarge + SquaroBoard.SizeSmall, SquaroBoard.SizeVeryLarge + SquaroBoard.SizeMedium)
  }

  /**
   * The Timed-mode starting total of a board whose getCols() and getRows() report `cols` and
   * `rows`: TimedBlockDuration per block, times 1, 1.5 or 2.25 by difficulty.
   */
  function Budget(cols: int, rows: int, d: Difficulty): int
  {
    var b := TimedBlockDuration * ((cols - 1) * (rows - 1));
    match d
    case Easy => b
    case Normal => b * 3 / 2
    case Hard => b * 9 / 4
  }

  /** The milliseconds per block a difficulty allows. */
  function PerBlock(d: Difficulty): int
  {
    match d
    case Easy => 5000
    case Normal => 7500
    case Hard => 11250
  }

  /**
   * The multipliers never truncate: the budget is exactly 5, 7.5 or 11.25 seconds per block,
   * so a harder difficulty never gets less time, and a board of at least one peg per side
   * never gets a negative budget.
   */
  lemma BudgetPerBlock(cols: int, rows: int, d: Difficulty)
    ensures Budget(cols, rows, d) == PerBlock(d) * ((cols - 1) * (rows - 1))
    ensures 1 <= cols && 1 <= rows ==>
      0 <= Budget(cols, rows, Easy) <= Budget(cols, rows, Normal) <= Budget(cols, rows, Hard)
  {
    var k := (cols - 1) * (rows - 1);
    assert TimedBlockDuration * k * 3 == 2 * (7500 * k);
    assert TimedBlockDuration * k * 9 == 4 * (11250 * k);
    if 1 <= cols && 1 <= rows {
      assert k >= 0;
    }
  }

  /** Java's `/` on integers: the quotient truncated toward zero. */
  function Quot(a: int, b: int): int
    requires b > 0
  {
    if a >= 0 then a / b else -((-a) / b)
  }

  /** Java's `%` on integers: the remainder takes the sign of the dividend. */
  function Rem(a: int, b: int): (r: int)
    requires b > 0
    ensures Quot(a, b) * b + r == a
    ensures a >= 0 ==> 0 <= r < b
    ensures a < 0 ==> -b < r <= 0
  {
    a - b * Quot(a, b)
  }

  /**
   * The minutes, seconds and milliseconds the clock display shows for a total of t
   * milliseconds. They add back up to t, with seconds and milliseconds below a minute and a
   * second, and none of them negative for a total that is not.
   */
  function TimeParts(t: int): (p: (int, int, int))
    ensures p.0 * 60000 + p.1 * 1000 + p.2 == t
    ensures -60 < p.1 < 60 && -1000 < p.2 < 1000
    ensures t >= 0 ==> 0 <= p.0 && 0 <= p.1 < 60 && 0 <= p.2 < 1000
  {
    var secs := Quot(t, 1000);
    var mins := Quot(secs, 60);
    var r := Rem(secs, 60);
    var millis := Rem(t, 1000);
    assert mins * 60000 + r * 1000 == (mins * 60 + r) * 1000;
    (mins, r, millis)
  }

  /** The clock display: minutes, then seconds in two digits and milliseconds in three. */
  function TimeText(t: int): string
  {
    var p := TimeParts(t);
    IntToString(p.0) + ":" + Pad(p.1, 2) + ":" + Pad(p.2, 3)
  }

  /** Reads a display back: minutes, two-digit seconds and three-digit milliseconds. */
  function ReadTime(s: string): Option<int>
  {
    var parts := Split(s, ':');
    if |parts| != 3 || |parts[1]| != 2 || |parts[2]| != 3 then None
    else
      match (ParseInt(parts[0], IntMin, IntMax), ParseInt(parts[1], 0, 59), ParseInt(parts[2], 0, 999))
      case (Some(m), Some(sec), Some(ms)) => Some(m * 60000 + sec * 1000 + ms)
      case _ => None
  }

  /** The display is its three fields joined by ':'. */
  lemma TimeTextJoin(t: int)
    ensures var p := TimeParts(t);
      TimeText(t) == Join([IntToString(p.0), Pad(p.1, 2), Pad(p.2, 3)], ':')
  {
    var p := TimeParts(t);
    var a, b, c := IntToString(p.0), Pad(p.1, 2), Pad(p.2, 3);
    assert [a, b, c][1..] == [b, c];
    assert [b, c][1..] == [c];
    assert Join([b, c], ':') == b + [':'] + c;
    assert a + ":" + b + ":" + c == a + [':'] + (b + [':'] + c);
  }

  /** Three fields that parse as minutes, seconds and milliseconds read back as their total. */
  lemma ReadJoined(a: string, b: string, c: string, m: int, sec: int, ms: int, total: int)
    requires ':' !in a && ':' !in b && ':' !in c && |b| == 2 && |c| == 3
    requires ParseInt(a, IntMin, IntMax) == Some(m)
    requires ParseInt(b, 0, 59) == Some(sec) && ParseInt(c, 0, 999) == Some(ms)
    requires total == m * 60000 + sec * 1000 + ms
    ensures ReadTime(Join([a, b, c], ':')) == Some(total)
  {
    var parts := [a, b, c];
    assert FreeOf(parts, ':') by {
      forall i | 0 <= i < 3
        ensures ':' !in parts[i]
      {
      }
    }
    SplitJoin(parts, ':');
    assert Split(Join(parts, ':'), ':') == parts;
    assert parts[0] == a && parts[1] == b && parts[2] == c;
  }

  /**
   * The display of a non-negative total is unambiguous: its fields have their fixed widths
   * and read back as the total.
   */
  lemma TimeTextReads(t: int)
    requires 0 <= t && t / 1000 <= IntMax
    ensures ReadTime(TimeText(t)) == Some(t)
  {
    var p := TimeParts(t);
    assert p.0 <= t / 1000;
    var a, b, c := IntToString(p.0), Pad(p.1, 2), Pad(p.2, 3);
    assert Pow10(2) == 100 && Pow10(3) == 1000;
    PadParses(p.1, 2, 0, 59);
    PadParses(p.2, 3, 0, 999);
    ParseRendered(p.0, IntMin, IntMax);
    assert ':' !in a by {
      assert a == NatToString(p.0);
    }
    assert ':' !in b && ':' !in c by {
      assert b[0] != ':' && b[1] != ':';
      assert c[0] != ':' && c[1] != ':' && c[2] != ':';
    }
    TimeTextJoin(t);
    ReadJoined(a, b, c, p.0, p.1, p.2, t);
  }

  class Game {
    /** The board; null until the first reset. */
    var board: SquaroBoard.Board?
    /** The settings: blocks per row and column, and the peg range. */
    var cols: int
    var rows: int
    var range: int
    var mode: Mode
    var difficulty: Difficulty
    var size: Size
    /** Elapsed time in Default mode, time left in Timed mode (milliseconds). */
    var totalTime: int
    var previousTime: int
    var stopTimer: bool
    var events: seq<Event>

    ghost predicate Valid()
      reads this, board
    {
      0 <= cols && 0 <= rows && (board != null ==> board.Valid())
    }

    function Clock(): Timer
      reads this
    {
      Timer(totalTime, previousTime, stopTimer)
    }

    /**
     * The state a successful reset leaves: a board of fresh (rows + 1) x (cols + 1) grids
     * holding the drawn solution and an all-0 player grid, the range on the peg, the total
     * at 0 (Default) or at the budget of the board (Timed), and the latch armed.
     */
    ghost predicate Started(draw: (int, int) -> int, boardCols: int, boardRows: int)
      reads this, board, if board != null then {board.solution, board.player, board.peg} else {}
    {
      board != null && board.Valid() &&
      board.solution.Length0 == rows + 1 && board.solution.Length1 == cols + 1 &&
      (forall r, c :: 0 <= r <= rows && 0 <= c <= cols ==>
        board.solution[r, c] == draw(r, c) && board.player[r, c] == 0) &&
      board.peg.range == range &&
      totalTime == (if mode == Default then 0 else Budget(boardCols, boardRows, difficulty)) &&
      stopTimer
    }

    /** A session with no board yet; the settings are chosen by the first reset. */
    constructor ()
      ensures Valid() && board == null && cols == 0 && rows == 0 && range == 0
      ensures totalTime == 0 && previousTime == 0 && !stopTimer && events == []
    {
      board := null;
      cols, rows, range := 0, 0, 0;
      mode, difficulty, size := Default, Easy, Medium;
      totalTime, previousTime, stopTimer := 0, 0, false;
      events := [];
    }

    method StopTimer()
      modifies this`stopTimer
      ensures stopTimer
    {
      stopTimer := true;
    }

    /**
     * Restarts with the current settings. A missing board is created first (its own reset
     * draws from `draw` too). The board is reset to the settings; `boardCols` and `boardRows`
     * are what its getCols() and getRows() then report. ok is false where the source throws:
     * when the range is not one the peg accepts, the session is left as the board's reset
     * leaves it.
     */
    method Reset(draw: (int, int) -> int, boardCols: int, boardRows: int) returns (ok: bool)
      requires Valid()
      requires board == null ==> forall r, c ::
        0 <= r <= SquaroBoard.DefaultDimensions && 0 <= c <= SquaroBoard.DefaultDimensions ==>
          0 <= draw(r, c) < SquaroPeg.RangeHard
      requires range > 0 ==> forall r, c :: 0 <= r <= rows && 0 <= c <= cols ==> 0 <= draw(r, c) < range
      modifies this`board, this`totalTime, this`stopTimer, if board != null then {board, board.peg} else {}
      ensures Valid() && board != null
      ensures old(board) != null ==> board == old(board)
      ensures old(board) == null ==> fresh(board)
      ensures ok == SquaroPeg.ValidRange(range)
      ensures ok ==> Started(draw, boardCols, boardRows)
      ensures !ok ==> totalTime == old(totalTime) && stopTimer == old(stopTimer)
    {
      if board == null {
        board := new SquaroBoard.Board(draw);
      }
      ok := board.Reset(cols, rows, range, draw);
      if !ok {
        return;
      }
      match mode {
        case Default =>
          totalTime := 0;
        case Timed =>
          totalTime := TimedBlockDuration * ((boardCols - 1) * (boardRows - 1));
          match difficulty {
            case Easy =>
            case Normal =>
              totalTime := totalTime * 3 / 2;
            case Hard =>
              totalTime := totalTime * 9 / 4;
          }
      }
      StopTimer();
    }

    /**
     * New settings: the peg range of the difficulty and the dimensions of the size, then a
     * restart, which always succeeds since every difficulty has an accepted range.
     */
    method ResetSettings(mode: Mode, difficulty: Difficulty, size: Size, draw: (int, int) -> int,
                         boardCols: int, boardRows: int) returns (ok: bool)
      requires Valid()
      requires board == null ==> forall r, c ::
        0 <= r <= SquaroBoard.DefaultDimensions && 0 <= c <= SquaroBoard.DefaultDimensions ==>
          0 <= draw(r, c) < SquaroPeg.RangeHard
      requires forall r, c :: 0 <= r <= Dimensions(size).1 && 0 <= c <= Dimensions(size).0 ==>
        0 <= draw(r, c) < RangeOf(difficulty)
      modifies this, if board != null then {board, board.peg} else {}
      ensures Valid() && ok
      ensures this.mode == mode && this.difficulty == difficulty && this.size == size
      ensures range == RangeOf(difficulty) && (cols, rows) == Dimensions(size)
      ensures Started(draw, boardCols, boardRows)
    {
      this.mode := mode;
      this.size := size;
      this.difficulty := difficulty;
      range := RangeOf(difficulty);
      var dims := Dimensions(size);
      cols, rows := dims.0, dims.1;
      ok := Reset(draw, boardCols, boardRows);
    }

    /**
     * The win check after a release: `before` is whether the reported blocks matched before
     * the pegs cycled; their turning from unmatched to matched wins the game.
     */
    method CheckWin(before: bool, boardRows: int, boardCols: int)
      requires Valid() && board != null && Grid.Covers(board.solution, board.player, boardRows, boardCols)
      modifies this`events
      ensures events == old(events) +
        if !before && Grid.BlocksMatch(board.solution, board.player, boardRows, boardCols) then [Won] else []
    {
      var after := SquaroBoardHelper.HasMatch(board, boardRows, boardCols);
      if !before && after {
        events := events + [Won];
      }
    }

    /**
     * A touch. Unless the on-screen controls took it (`controllerConsumed`), a release on an
     * existing board cycles the pegs it hits (`hit`), and the blocks the board reports
     * (`boardRows` x `boardCols`) turning from unmatched to matched wins the game.
     */
    method Touch(up: bool, controllerConsumed: bool, hit: (int, int) -> bool, boardRows: int, boardCols: int)
      requires Valid()
      requires board != null ==> Grid.Covers(board.solution, board.player, boardRows, boardCols)
      modifies this`events, if board != null then {board.player} else {}
      ensures Valid()
      ensures controllerConsumed || board == null || !up ==> events == old(events)
      ensures board != null && (controllerConsumed || !up) ==> unchanged(board.player)
      ensures !controllerConsumed && board != null && up ==>
        forall r, c :: 0 <= r < board.player.Length0 && 0 <= c < board.player.Length1 ==>
          board.player[r, c] ==
            if hit(r, c) then Grid.Cycle(old(board.player[r, c]), board.peg.range) else old(board.player[r, c])
      ensures !controllerConsumed && board != null && up ==>
        var won := !old(Grid.BlocksMatch(board.solution, board.player, boardRows, boardCols)) &&
          Grid.BlocksMatch(board.solution, board.player, boardRows, boardCols);
        events == old(events) + (if won then [Won] else [])
    {
      if !controllerConsumed && board != null && up {
        var before := SquaroBoardHelper.HasMatch(board, boardRows, boardCols);
        board.Update(hit);
        CheckWin(before, boardRows, boardCols);
      }
    }

    /**
     * One frame of the clock (`latchNow` and `now` are the two clock readings it takes):
     * Default mode counts the elapsed time up, Timed mode counts it down and, when the time
     * left would go below 0, holds it at 0 and the time is up.
     */
    method Tick(latchNow: int, now: int)
      modifies this`totalTime, this`previousTime, this`stopTimer, this`events
      ensures mode == Default ==> Clock() == Advance(old(Clock()), latchNow, now) && events == old(events)
      ensures mode == Timed ==> Clock() == CountDown(old(Clock()), latchNow, now) && totalTime >= 0
      ensures mode == Timed ==>
        events == old(events) + (if old(totalTime) - (now - Start(old(Clock()), latchNow)) < 0 then [TimeUp] else [])
    {
      if stopTimer {
        stopTimer := false;
        previousTime := latchNow;
      }
      var current := now;
      match mode {
        case Default =>
          totalTime := totalTime + (current - previousTime);
        case Timed =>
          totalTime := totalTime - (current - previousTime);
          if totalTime < 0 {
            totalTime := 0;
            events := events + [TimeUp];
          }
      }
      previousTime := current;
    }
  }
}

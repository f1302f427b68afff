/**
 * The game session of the later (`squares`) snapshot: level selection with completion marks,
 * a count-up clock with a latch, a Timed-mode budget, an edge-triggered win that records the
 * time on the score card, and a time-out.
 */
module SquaresGame {
  import opened Common
  import opened Clock
  import Grid
  import SquaresBoard
  import SquaresBoardHelper
  import ScoreCards

  datatype Mode = Default | Timed
  datatype Difficulty = Easy | Normal | Hard | Expert | Twisted

  /**
   * What the session tells its surroundings: a tap forwarded to the level select, the
   * game-over screen with its win or time-up message and sound.
   */
  datatype Event = LevelCheck(x: int, y: int) | Won | TimeUp

  /** Timed mode allows this many milliseconds per block. */
  const TimedBlockDuration := 10000

  /** The number of levels of each difficulty. */
  function LevelTotal(d: Difficulty): nat
  {
    match d
    case Easy => 301
    case Normal => 299
    case Hard => 225
    case Expert => 100
    case Twisted => 100
  }

  /**
   * The countdown of a level without a recorded time: TimedBlockDuration per block,
   * one and a half times that at Twisted (the truncation of the product by 1.5).
   */
  function Budget(cols: int, rows: int, d: Difficulty): int
  {
    var b := TimedBlockDuration * ((cols - 1) * (rows - 1));
    if d == Twisted then b * 3 / 2 else b
  }

  /** The budget is 10 (15 at Twisted) seconds per block exactly: the 1.5 never truncates. */
  lemma BudgetPerBlock(cols: int, rows: int, d: Difficulty)
    requires 1 <= cols && 1 <= rows
    ensures Budget(cols, rows, d) == (if d == Twisted then 15000 else 10000) * ((cols - 1) * (rows - 1))
    ensures Budget(cols, rows, d) >= 0
  {
    var k := (cols - 1) * (rows - 1);
    assert k >= 0;
    if d == Twisted {
      assert TimedBlockDuration * k * 3 == 2 * (15000 * k);
    }
  }

  /** The Timed-mode allowance of a level: its recorded best time, else the budget of the board. */
  function Allowance(entries: seq<ScoreCards.Entry>, level: int, difficultyIndex: int, cols: int, rows: int, d: Difficulty): int
  {
    match ScoreCards.BestTime(entries, level, difficultyIndex)
    case Some(t) => t
    case None => Budget(cols, rows, d)
  }

  class Game {
    var mode: Mode
    var difficulty: Difficulty
    /** The board of the level being played; null until the first level starts. */
    var board: SquaresBoard.Board?
    const scoreCard: ScoreCards.ScoreCard
    var totalTime: int
    var previousTime: int
    /** The Timed-mode allowance; the time left is countdownTime - totalTime. */
    var countdownTime: int
    var stopTimer: bool
    /** The level-select state: whether a level is chosen, which, how many, which are done. */
    var hasSelection: bool
    var levelIndex: int
    var levelTotal: int
    var completed: seq<bool>
    var events: seq<Event>

    ghost predicate Valid()
      reads this, scoreCard, scoreCard.scores, board
    {
      scoreCard.Valid() && (board != null ==> board.Valid()) &&
      0 <= levelTotal && |completed| == levelTotal
    }

    function Clock(): Timer
      reads this
    {
      Timer(totalTime, previousTime, stopTimer)
    }

    /** A session with the loaded score card, no board and no level chosen. */
    constructor (scoreCard: ScoreCards.ScoreCard)
      requires scoreCard.Valid()
      ensures Valid() && this.scoreCard == scoreCard
      ensures board == null && !hasSelection && levelTotal == 0 && events == []
      ensures totalTime == 0 && previousTime == 0 && countdownTime == 0 && !stopTimer
    {
      this.scoreCard := scoreCard;
      mode, difficulty := Default, Easy;
      board := null;
      totalTime, previousTime, countdownTime, stopTimer := 0, 0, 0, false;
      hasSelection, levelIndex, levelTotal, completed := false, 0, 0, [];
      events := [];
    }

    method StopTimer()
      modifies this`stopTimer
      ensures stopTimer
    {
      stopTimer := true;
    }

    /** Marks each level completed exactly when the score card holds a time for it. */
    method MarkCompleted(difficultyIndex: int)
      requires 0 <= levelTotal && |completed| == levelTotal
      modifies this`completed
      ensures |completed| == levelTotal
      ensures forall i :: 0 <= i < levelTotal ==>
        completed[i] == ScoreCards.HasKey(scoreCard.Entries(), i, difficultyIndex)
    {
      var i := 0;
      while i < levelTotal
        invariant 0 <= i <= levelTotal && |completed| == levelTotal
        invariant forall j :: 0 <= j < i ==>
          completed[j] == ScoreCards.HasKey(scoreCard.Entries(), j, difficultyIndex)
      {
        var score := scoreCard.GetScore(i, difficultyIndex);
        completed := completed[i := score != null];
        i := i + 1;
      }
    }

    /**
     * New settings: the level count of the difficulty, and a completion mark per level taken
     * from the score card under `difficultyIndex`, the options screen's difficulty index.
     */
    method ResetSettings(mode: Mode, difficulty: Difficulty, difficultyIndex: int)
      requires Valid()
      modifies this`mode, this`difficulty, this`levelTotal, this`completed
      ensures Valid()
      ensures this.mode == mode && this.difficulty == difficulty
      ensures levelTotal == LevelTotal(difficulty)
      ensures forall i :: 0 <= i < levelTotal ==>
        completed[i] == ScoreCards.HasKey(scoreCard.Entries(), i, difficultyIndex)
    {
      this.mode := mode;
      this.difficulty := difficulty;
      levelTotal := LevelTotal(difficulty);
      completed := seq(levelTotal, i => false);
      MarkCompleted(difficultyIndex);
    }

    /**
     * The Timed-mode allowance of the chosen level on `loaded`: the time the score card holds
     * for it, else the budget of the board.
     */
    method LevelAllowance(loaded: SquaresBoard.Board, difficultyIndex: int) returns (allowance: int)
      requires scoreCard.Valid()
      ensures allowance == Allowance(scoreCard.Entries(), levelIndex, difficultyIndex, loaded.cols, loaded.rows, difficulty)
    {
      ghost var entries := scoreCard.Entries();
      var score := scoreCard.GetScore(levelIndex, difficultyIndex);
      if score != null {
        assert entries[ScoreCards.FirstMatch(entries, levelIndex, difficultyIndex).value].time == score.time;
        allowance := score.time;
      } else {
        allowance := TimedBlockDuration * ((loaded.cols - 1) * (loaded.rows - 1));
        if difficulty == Twisted {
          allowance := allowance * 3 / 2;
        }
      }
    }

    /**
     * Starts the chosen level on `loaded`, the board as the level loader leaves it: the total
     * restarts at 0, the latch is armed, and in Timed mode the allowance is the recorded best
     * time of the level, or the budget of the board when there is none.
     */
    method Reset(loaded: SquaresBoard.Board, difficultyIndex: int)
      requires Valid() && loaded.Valid()
      modifies this`board, this`totalTime, this`countdownTime, this`stopTimer
      ensures Valid() && board == loaded
      ensures totalTime == 0 && stopTimer
      ensures mode == Timed ==>
        countdownTime == Allowance(scoreCard.Entries(), levelIndex, difficultyIndex, loaded.cols, loaded.rows, difficulty)
      ensures mode == Default ==> countdownTime == old(countdownTime)
    {
      ghost var entries := scoreCard.Entries();
      board := loaded;
      totalTime := 0;
      if mode == Timed {
        countdownTime := LevelAllowance(loaded, difficultyIndex);
      }
      stopTimer := true;
      assert scoreCard.Entries() == entries;
    }

    /**
     * One frame. Without a chosen level it only hands over to the level select, which chose
     * `selection` (None: still nothing), and starts that level on `loaded`. Otherwise the clock
     * ticks (`latchNow` and `now` are the two clock readings the frame takes); in Timed mode a
     * total past the allowance is cut back to it, leaving 0 to go, and the time is up.
     */
    method Tick(latchNow: int, now: int, selection: Option<int>, loaded: SquaresBoard.Board?, difficultyIndex: int)
      requires Valid()
      requires !hasSelection && selection.Some? ==> loaded != null && loaded.Valid()
      modifies this`hasSelection, this`levelIndex, this`board, this`totalTime, this`previousTime
      modifies this`countdownTime, this`stopTimer, this`events
      ensures Valid()
      ensures !old(hasSelection) ==>
        hasSelection == selection.Some? && events == old(events) &&
        previousTime == old(previousTime) &&
        (selection.Some? ==>
          levelIndex == selection.value && board == loaded && totalTime == 0 && stopTimer &&
          (mode == Timed ==>
            countdownTime == Allowance(scoreCard.Entries(), levelIndex, difficultyIndex, loaded.cols, loaded.rows, difficulty)) &&
          (mode == Default ==> countdownTime == old(countdownTime))) &&
        (selection.None? ==> Clock() == old(Clock()) && countdownTime == old(countdownTime))
      ensures old(hasSelection) && mode == Default ==>
        Clock() == Advance(old(Clock()), latchNow, now) && events == old(events)
      ensures old(hasSelection) && mode == Timed ==>
        var t := Advance(old(Clock()), latchNow, now);
        previousTime == now && !stopTimer && countdownTime == old(countdownTime) &&
        totalTime == (if countdownTime - t.totalTime < 0 then countdownTime else t.totalTime) &&
        events == old(events) + (if countdownTime - t.totalTime < 0 then [TimeUp] else [])
      ensures old(hasSelection) && mode == Timed ==> countdownTime - totalTime >= 0
    {
      if !hasSelection {
        if selection.Some? {
          hasSelection := true;
          levelIndex := selection.value;
          Reset(loaded, difficultyIndex);
        }
        return;
      }
      if stopTimer {
        stopTimer := false;
        previousTime := latchNow;
      }
      var current := now;
      totalTime := totalTime + (current - previousTime);
      if mode == Timed {
        if countdownTime - totalTime < 0 {
          totalTime := countdownTime;
          events := events + [TimeUp];
        }
      }
      previousTime := current;
    }

    /**
     * The win: the total is recorded on the score card under the chosen level and
     * `difficultyIndex`, the completion marks are refreshed, and the game ends as won.
     */
    method RecordWin(difficultyIndex: int)
      requires Valid()
      modifies this`events, this`completed, scoreCard, set s | s in scoreCard.scores
      ensures Valid()
      ensures scoreCard.Entries() == ScoreCards.Upsert(old(scoreCard.Entries()), levelIndex, difficultyIndex, totalTime).0
      ensures forall i :: 0 <= i < levelTotal ==>
        completed[i] == ScoreCards.HasKey(scoreCard.Entries(), i, difficultyIndex)
      ensures events == old(events) + [Won]
      ensures scoreCard.content ==
        if ScoreCards.Upsert(old(scoreCard.Entries()), levelIndex, difficultyIndex, totalTime).1
        then ScoreCards.Serialize(scoreCard.Entries()) else old(scoreCard.content)
    {
      var _ := scoreCard.Update(levelIndex, difficultyIndex, totalTime);
      ghost var entries := scoreCard.Entries();
      MarkCompleted(difficultyIndex);
      events := events + [Won];
      assert scoreCard.Entries() == entries;
    }

    /**
     * The win check after a release: `before` is whether the board was solved before the
     * pegs cycled; the board turning from unsolved to solved records the win.
     */
    method CheckWin(before: bool, difficultyIndex: int)
      requires Valid() && board != null
      modifies this`events, this`completed, scoreCard, set s | s in scoreCard.scores
      ensures Valid()
      ensures
        var won := !before && SquaresBoardHelper.Solved(board);
        events == old(events) + (if won then [Won] else []) &&
        scoreCard.Entries() ==
          (if won then ScoreCards.Upsert(old(scoreCard.Entries()), levelIndex, difficultyIndex, totalTime).0
           else old(scoreCard.Entries())) &&
        (won ==> forall i :: 0 <= i < levelTotal ==>
          completed[i] == ScoreCards.HasKey(scoreCard.Entries(), i, difficultyIndex)) &&
        (won ==>
          scoreCard.content ==
            if ScoreCards.Upsert(old(scoreCard.Entries()), levelIndex, difficultyIndex, totalTime).1
            then ScoreCards.Serialize(scoreCard.Entries()) else old(scoreCard.content)) &&
        (!won ==> completed == old(completed) && scoreCard.content == old(scoreCard.content))
    {
      var after := SquaresBoardHelper.HasMatchBoard(board);
      if !before && after {
        ghost var solved := SquaresBoardHelper.Solved(board);
        RecordWin(difficultyIndex);
        assert SquaresBoardHelper.Solved(board) == solved;
      }
    }

    /**
     * A touch. Without a chosen level a release is forwarded to the level select. Otherwise,
     * unless the on-screen controls took it (`controllerConsumed`), a release plays on the board.
     */
    method Touch(up: bool, x: int, y: int, controllerConsumed: bool, hit: (int, int) -> bool, difficultyIndex: int)
      requires Valid()
      modifies this`events, this`completed, if board != null then {board.player} else {}
      modifies scoreCard, set s | s in scoreCard.scores
      ensures Valid() && board == old(board)
      ensures !old(hasSelection) ==>
        events == old(events) + (if up then [LevelCheck(x, y)] else []) &&
        scoreCard.Entries() == old(scoreCard.Entries()) &&
        completed == old(completed) && scoreCard.content == old(scoreCard.content)
      ensures old(hasSelection) && (controllerConsumed || board == null || !up) ==>
        events == old(events) && scoreCard.Entries() == old(scoreCard.Entries()) &&
        completed == old(completed) && scoreCard.content == old(scoreCard.content)
      ensures board != null && (!old(hasSelection) || controllerConsumed || !up) ==>
        unchanged(board.player)
      ensures old(hasSelection) && !controllerConsumed && board != null && up ==>
        forall r, c :: 0 <= r < SquaresBoard.BackingRows && 0 <= c < SquaresBoard.BackingCols ==>
          board.player[r, c] ==
            if r < board.rows && c < board.cols && hit(r, c) then Grid.Cycle(old(board.player[r, c]), board.peg.range)
            else old(board.player[r, c])
      ensures old(hasSelection) && !controllerConsumed && board != null && up ==>
        var won := !old(SquaresBoardHelper.Solved(board)) && SquaresBoardHelper.Solved(board);
        events == old(events) + (if won then [Won] else []) &&
        scoreCard.Entries() ==
          (if won then ScoreCards.Upsert(old(scoreCard.Entries()), levelIndex, difficultyIndex, totalTime).0
           else old(scoreCard.Entries())) &&
        (won ==> forall i :: 0 <= i < levelTotal ==>
          completed[i] == ScoreCards.HasKey(scoreCard.Entries(), i, difficultyIndex)) &&
        (won ==>
          scoreCard.content ==
            if ScoreCards.Upsert(old(scoreCard.Entries()), levelIndex, difficultyIndex, totalTime).1
            then ScoreCards.Serialize(scoreCard.Entries()) else old(scoreCard.content)) &&
        (!won ==> completed == old(completed) && scoreCard.content == old(scoreCard.content))
    {
      if !hasSelection {
        if up {
          events := events + [LevelCheck(x, y)];
        }
        return;
      }
      if !controllerConsumed && board != null && up {
        ghost var entries := scoreCard.Entries();
        var before := SquaresBoardHelper.HasMatchBoard(board);
        board.Update(hit);
        assert scoreCard.Entries() == entries && scoreCard.Valid();
        CheckWin(before, difficultyIndex);
      }
    }
  }
}

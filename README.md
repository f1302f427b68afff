# Squares / Squaro puzzle core in Dafny

This project models the rules of the Squares puzzle game, an Android game by gamesbykevin, in two of its snapshots:

- `squaro` is the earlier one.
- `squares` is the later one.

A board is a grid of pegs. The player sets each peg to a value in `[0, range)` by touching it. A touch adds one and wraps to 0 at the range. Every 2x2 group of pegs forms a block, and the block's count is the sum of its four corners. The hidden solution grid gives each block a count, and the puzzle is solved when every block of the player's grid has the same count as the solution's.

Around the board the model covers:

- **Pegs:** which ranges each peg class accepts, and which fill sprite each value shows.
- **Block tiles:** the Start / Valid / InValid tile `squaro` shows for each block.
- **Score card:** the best-time list of `squares`.
  - Each (level, difficulty) key holds at most one time, and an update keeps the minimum.
  - The list is saved as `level-difficulty-time;…` text and loaded back from it.
- **Game sessions:** one per snapshot, covering:
  - the latch clock;
  - the Timed-mode budgets;
  - the win, which fires only on the unsolved-to-solved edge;
  - the time-out;
  - the `m:ss:mmm` display of `squaro`.

Modules follow the source files:

| module | models |
|---|---|
| `Grid` | the block count, the match predicate and the peg cycle shared by both boards |
| `SquaresPeg` / `SquaroPeg` | the peg classes |
| `SquaroBlockKey` | the block tiles |
| `SquaresBoard` / `SquaroBoard` | the boards |
| `SquaresBoardHelper` / `SquaroBoardHelper` | the win checks |
| `Scores` | `Score` |
| `ScoreCards` | `ScoreCard` |
| `Text` | Java's integer rendering, `parseInt`/`parseLong`, `String.split` and `String.format("%0Nd")` |
| `Clock` | the timer that both sessions share |
| `SquaresGame` / `SquaroGame` | the sessions |

Classes that the source updates in place are Dafny classes here:

- The boards keep their grids as `array2<int>`.
- The score card keeps a `seq<Score>` of mutable `Score` objects.
- The sessions keep their fields.

Outside influences are parameters:

- **Randomness:** `draw(r, c)` is the value the random source gives for peg (r, c).
- **Peg hit test:** `hit(r, c)` says whether the touch lands on peg (r, c).
- **Wall clock:** one tick reads the clock twice: `latchNow` is the reading taken when the latch is armed, and `now` is the reading taken for the tick itself.
- **Screen state and sounds:** they become a sequence of `events`.

Java exceptions become `ok: bool` results, `null` results or `Option` values. The state is left as Java leaves it at the throw.

## Model

All source paths are under `src/com/gamesbykevin/`.

| member | source | states |
|---|---|---|
| Grid.CountBounds | src/com/gamesbykevin/squares/board/BoardHelper.java:71-82 | a block's four-corner count lies in [0, 4·(range−1)] when its pegs lie in [0, range) |
| Grid.Count | src/com/gamesbykevin/squares/board/BoardHelper.java:71-82 | the block count: the sum of the four pegs around the block whose top-left peg is (row, col); CountBounds bounds it |
| Grid.EqualGridsMatch | src/com/gamesbykevin/squares/board/BoardHelper.java:25-40 | grids that agree peg by peg match on every block, so a grid always matches itself |
| Grid.SumsNotPegs | src/com/gamesbykevin/squares/board/BoardHelper.java:25-40 | matching asks only for equal block counts: two grids that differ at a peg can still match |
| Grid.CycleInRange | src/com/gamesbykevin/squares/board/Board.java:228-233 | a touched peg in [0, range) stays in [0, range) |
| Grid.Cycle | src/com/gamesbykevin/squares/board/Board.java:228-233 | a touch adds one and wraps to 0 at the range: for a peg in [0, range) it is (v + 1) mod range |
| Grid.CycleNCounts | src/com/gamesbykevin/squaro/board/Board.java:193-198 | below the wrap point every touch adds exactly one |
| Grid.CycleNAdd | src/com/gamesbykevin/squaro/board/Board.java:193-198 | a + b touches are a touches followed by b touches |
| Grid.CycleRestores | src/com/gamesbykevin/squaro/board/Board.java:193-198 | touching a peg in [0, range) exactly `range` times gives back its value |
| SquaresPeg.FillFor | src/com/gamesbykevin/squares/board/Peg.java:117-168 | a flagged peg always gets the Flagged sprite; otherwise a sprite exists exactly for counts in [0, range) of an accepted range, and it shows count/(range−1) of a full peg |
| SquaresPeg.Peg.constructor | src/com/gamesbykevin/squares/board/Peg.java:38-65 | a new peg has no accepted range and no sprite |
| SquaresPeg.Peg.SetRange | src/com/gamesbykevin/squares/board/Peg.java:72-78 | only the DEFAULT and EVIL ranges are accepted; a refused range leaves the old one |
| SquaresPeg.Peg.SetAnimation | src/com/gamesbykevin/squares/board/Peg.java:117-168 | succeeds exactly when FillFor has a sprite and stores it; on failure the sprite is unchanged |
| SquaresPeg.ContainsWithin | src/com/gamesbykevin/squares/board/Peg.java:97-109 | a point is in the hit box iff it lies within 0.75 of the width and height of the peg's position on each axis, bounds included |
| SquaresPeg.Peg.Contains | src/com/gamesbykevin/squares/board/Peg.java:97-109 | the hit-box test on the peg's position and size; ContainsWithin states its meaning |
| SquaroPeg.FillFor | src/com/gamesbykevin/squaro/board/Peg.java:90-161 | a sprite exists exactly for counts in [0, range) of the ranges 2, 3 and 5, and it shows count/(range−1) of a full peg |
| SquaroPeg.Peg.constructor | src/com/gamesbykevin/squaro/board/Peg.java:33-60 | a new peg has no accepted range and no sprite |
| SquaroPeg.Peg.SetRange | src/com/gamesbykevin/squaro/board/Peg.java:67-74 | only 2, 3 and 5 are accepted; a refused range leaves the old one |
| SquaroPeg.Peg.SetAnimation | src/com/gamesbykevin/squaro/board/Peg.java:90-161 | succeeds exactly when FillFor has a sprite and stores it; on failure the sprite is unchanged |
| SquaroBlockKey.KeyFor | src/com/gamesbykevin/squaro/block/BlockKey.java:73-224 | a tile exists iff the solution count is in 0..16; it carries the solution count and never the player's; it is Valid iff the counts agree, and Start iff the player count is 0 and the counts differ |
| SquaroBlockKey.BlockKey.SetAnimation | src/com/gamesbykevin/squaro/block/BlockKey.java:73-224 | selects KeyFor's tile; a solution count outside 0..16 keeps the previous tile |
| SquaroBlockKey.EmptyBlockIsValid | src/com/gamesbykevin/squaro/block/BlockKey.java:76-79 | an untouched block whose solution count is 0 shows Valid_0, not Start_0 |
| SquaresBoard.Board.Init | src/com/gamesbykevin/squares/board/Board.java:85-89 | the state before the constructor's reset: a fresh peg and no grids |
| SquaresBoard.Board.Reset | src/com/gamesbykevin/squares/board/Board.java:142-189 | see the reset notes below the table |
| SquaresBoard.Board.Clear | src/com/gamesbykevin/squares/board/Board.java:153-160 | every cell of both backing arrays becomes 0 |
| SquaresBoard.Board.Fill | src/com/gamesbykevin/squares/board/Board.java:163-170 | from a zero solution, exactly the pegs of the active board take their draws and the rest stay 0 |
| SquaresBoard.Board.Update | src/com/gamesbykevin/squares/board/Board.java:214-237 | exactly the hit pegs of the active board cycle; every other cell and the whole solution are unchanged; pegs in [0, range) stay there |
| SquaresBoard.New | src/com/gamesbykevin/squares/board/Board.java:83-93 | a fresh valid board of the given size and range, with a zero player grid and the draws on the active board (0 elsewhere), or null exactly when the range is refused |
| SquaroBoard.Board.constructor | src/com/gamesbykevin/squaro/board/Board.java:77-87 | a fresh 4x4-peg (3x3-block) board with the hard range, the solution drawn and the player grid 0 |
| SquaroBoard.Board.Reset | src/com/gamesbykevin/squaro/board/Board.java:117-154 | see the reset notes below the table |
| SquaroBoard.Board.Update | src/com/gamesbykevin/squaro/board/Board.java:179-202 | exactly the hit pegs of the whole player grid cycle; the others keep their values; pegs in [0, range) stay there |
| SquaresBoardHelper.HasMatch | src/com/gamesbykevin/squares/board/BoardHelper.java:25-40 | true iff every block of the whole backing array (not only the active board) has equal player and solution counts |
| SquaresBoardHelper.HasMatchBoard | src/com/gamesbykevin/squares/board/BoardHelper.java:14-17 | the two-grid check on the board's own grids; it writes neither |
| SquaroBoardHelper.HasMatch | src/com/gamesbykevin/squaro/board/BoardHelper.java:14-29 | true iff every block with row < getRows()−1 and col < getCols()−1 has equal player and solution counts |
| Scores.Score.constructor | src/com/gamesbykevin/squares/scorecard/Score.java:18-24 | stores the given level, difficulty and time |
| Scores.Score.SetTime | src/com/gamesbykevin/squares/scorecard/Score.java:57-60 | the time becomes the given one and nothing else changes |
| ScoreCards.FirstMatch | src/com/gamesbykevin/squares/scorecard/ScoreCard.java:106-118 | None iff no entry has the key; otherwise the index of the first entry with it |
| ScoreCards.Upsert | src/com/gamesbykevin/squares/scorecard/ScoreCard.java:128-157 | the update of the score list and its changed flag; UpsertKeepsUnique and UpsertKeepsBest state what it keeps |
| ScoreCards.UpsertKeepsUnique | src/com/gamesbykevin/squares/scorecard/ScoreCard.java:128-157 | an update keeps at most one entry per (level, difficulty) |
| ScoreCards.UpsertKeepsBest | src/com/gamesbykevin/squares/scorecard/ScoreCard.java:128-157 | after an update the key's time is the minimum of the old and the new; the result is true iff the key was absent or the time strictly improved; every other entry is kept |
| ScoreCards.EntryTextReads | src/com/gamesbykevin/squares/scorecard/ScoreCard.java:54-59 | the `level-difficulty-time` text of a storable entry parses back as that entry |
| ScoreCards.Serialize | src/com/gamesbykevin/squares/scorecard/ScoreCard.java:163-184 | the saved text of a score list; SplitSerialized and LoadSerialized state that it reads back |
| ScoreCards.ParseEntry | src/com/gamesbykevin/squares/scorecard/ScoreCard.java:54-59 | the score a saved token describes, None where reading it throws; EntryTextReads states that it inverts the entry text |
| ScoreCards.LoadEntries | src/com/gamesbykevin/squares/scorecard/ScoreCard.java:45-64 | the score list the constructor builds from stored text, None where it throws; LoadSerialized states that it inverts Serialize |
| ScoreCards.SplitSerialized | src/com/gamesbykevin/squares/scorecard/ScoreCard.java:48 | splitting saved content on `;` gives the entry texts back in order |
| ScoreCards.LoadSerialized | src/com/gamesbykevin/squares/scorecard/ScoreCard.java:45-64 | loading the saved text of a list with distinct keys and non-negative, in-bounds fields gives back exactly that list |
| ScoreCards.ScoreCard.Empty | src/com/gamesbykevin/squares/scorecard/ScoreCard.java:42-45 | a card with no scores over the stored content |
| ScoreCards.ScoreCard.Load | src/com/gamesbykevin/squares/scorecard/ScoreCard.java:34-65 | the constructor's parse loop: null exactly where parsing throws; otherwise a fresh card with distinct keys holding the entries the content loads to, whose text is the saved text of those entries unless no token was read |
| ScoreCards.ScoreCard.RecordToken | src/com/gamesbykevin/squares/scorecard/ScoreCard.java:54-62 | one token of the load loop: false exactly where reading it throws; otherwise the score list is updated as Upsert says and the text is the saved text of the list |
| ScoreCards.ScoreCard.GetScore | src/com/gamesbykevin/squares/scorecard/ScoreCard.java:106-118 | null iff no score has the key, otherwise the first score object that has it |
| ScoreCards.ScoreCard.HasScore | src/com/gamesbykevin/squares/scorecard/ScoreCard.java:74-77 | true iff some score has the key |
| ScoreCards.ScoreCard.Update | src/com/gamesbykevin/squares/scorecard/ScoreCard.java:128-157 | see the score card notes below the table |
| ScoreCards.ScoreCard.Save | src/com/gamesbykevin/squares/scorecard/ScoreCard.java:163-184 | the content becomes the entries in list order, as `level-difficulty-time` joined by `;` with no leading or trailing separator; the entries are unchanged |
| Text.ParseRendered | src/com/gamesbykevin/squares/scorecard/ScoreCard.java:57-59 | Integer.parseInt / Long.parseLong read back every in-bounds value that StringBuilder.append(int/long) wrote |
| Text.ParseInt | src/com/gamesbykevin/squares/scorecard/ScoreCard.java:57-59 | Integer.parseInt / Long.parseLong in radix 10: any result lies within the bounds of the type |
| Text.Split | src/com/gamesbykevin/squares/scorecard/ScoreCard.java:48-54 | String.split on one separator character, trailing empty pieces dropped; SplitJoin states that it undoes Join |
| Text.Join | src/com/gamesbykevin/squares/scorecard/ScoreCard.java:168-180 | the save loop's joining of texts with a separator between neighbours; SplitJoin states that Split undoes it |
| Text.SplitJoin | src/com/gamesbykevin/squares/scorecard/ScoreCard.java:48-54 | String.split on a separator undoes joining separator-free parts whose last part is not empty |
| Text.PadParses | src/com/gamesbykevin/squaro/game/Game.java:452 | `%02d` / `%03d` of a value below 10^width is exactly `width` digits and parses back as the value |
| Text.Pad | src/com/gamesbykevin/squaro/game/Game.java:452 | String.format("%0<width>d"): never shorter than the width, and for a non-negative value exactly the longer of the width and its digits |
| Clock.Advance | src/com/gamesbykevin/squares/game/Game.java:440-451 | a count-up tick adds the time since the previous reading, or since the latch reading when the latch is armed, and disarms the latch |
| Clock.RunTelescopes | src/com/gamesbykevin/squares/game/Game.java:440-485 | a run of count-up ticks adds exactly the time from its starting reading to its last reading |
| Clock.CountDown | src/com/gamesbykevin/squaro/game/Game.java:379-397 | a countdown tick takes the elapsed time off the total and holds it at 0 when it would go negative, so the total is never negative |
| Clock.RunDownClamps | src/com/gamesbykevin/squaro/game/Game.java:379-397 | with clock readings that never go back, a run of countdown ticks leaves max(0, start total − whole elapsed time) |
| SquaresGame.BudgetPerBlock | src/com/gamesbykevin/squares/game/Game.java:313-319 | the budget is exactly 10 s per block (15 s at Twisted), never negative: the ×1.5 never truncates |
| SquaresGame.Budget | src/com/gamesbykevin/squares/game/Game.java:313-319 | the Timed countdown of a level without a recorded time; BudgetPerBlock states its value |
| SquaresGame.LevelTotal | src/com/gamesbykevin/squares/game/Game.java:214-238 | the level count of each difficulty: 301, 299, 225, 100, 100 |
| SquaresGame.Allowance | src/com/gamesbykevin/squares/game/Game.java:302-319 | the level's recorded best time, else its budget; LevelAllowance and Reset are proved against it |
| SquaresGame.Game.constructor | src/com/gamesbykevin/squares/game/Game.java:132-160 | no board, no level chosen, clock at 0 |
| SquaresGame.Game.StopTimer | src/com/gamesbykevin/squares/game/Game.java:193-196 | arms the latch |
| SquaresGame.Game.MarkCompleted | src/com/gamesbykevin/squares/game/Game.java:240-248 | each level is marked completed iff the score card holds a time for it |
| SquaresGame.Game.ResetSettings | src/com/gamesbykevin/squares/game/Game.java:204-249 | sets mode and difficulty and the level count (301/299/225/100/100), and marks each level completed iff it has a score |
| SquaresGame.Game.LevelAllowance | src/com/gamesbykevin/squares/game/Game.java:300-320 | the level's recorded best time if there is one, else the budget of the board |
| SquaresGame.Game.Reset | src/com/gamesbykevin/squares/game/Game.java:256-327 | see the session notes below the table |
| SquaresGame.Game.Tick | src/com/gamesbykevin/squares/game/Game.java:425-486 | see the session notes below the table |
| SquaresGame.Game.RecordWin | src/com/gamesbykevin/squares/game/Game.java:390-415 | records the total on the score card as an update would, re-saving the text exactly when the update changed something, refreshes the completion marks and ends the game as won |
| SquaresGame.Game.CheckWin | src/com/gamesbykevin/squares/game/Game.java:388-416 | the win and its recording happen exactly when the board was unsolved before and is solved now; otherwise the completion marks and the saved text are unchanged |
| SquaresGame.Game.Touch | src/com/gamesbykevin/squares/game/Game.java:362-419 | see the session notes below the table |
| SquaroGame.RangeOf | src/com/gamesbykevin/squaro/game/Game.java:203-219 | every difficulty maps to a range the peg accepts (Easy 2, Normal 3, Hard 5) |
| SquaroGame.Dimensions | src/com/gamesbykevin/squaro/game/Game.java:222-251 | every size has at least 2 blocks per side (Small 2×2 … VeryLong 7 cols × 8 rows) |
| SquaroGame.BudgetPerBlock | src/com/gamesbykevin/squaro/game/Game.java:278-300 | the budget is exactly 5, 7.5 or 11.25 s per block with no truncation; a harder difficulty never gets less time, and none is negative |
| SquaroGame.Budget | src/com/gamesbykevin/squaro/game/Game.java:281-300 | the Timed starting total of a board; BudgetPerBlock states its value |
| SquaroGame.Rem | src/com/gamesbykevin/squaro/game/Game.java:446-449 | Java's `%`: quotient·divisor + remainder is the dividend, and the remainder takes the dividend's sign and is smaller than the divisor |
| SquaroGame.TimeParts | src/com/gamesbykevin/squaro/game/Game.java:446-449 | minutes·60000 + seconds·1000 + milliseconds is the total, with \|seconds\| < 60 and \|milliseconds\| < 1000, none negative for a non-negative total |
| SquaroGame.TimeTextReads | src/com/gamesbykevin/squaro/game/Game.java:446-452 | the `m:ss:mmm` display of a non-negative total reads back as that total |
| SquaroGame.TimeText | src/com/gamesbykevin/squaro/game/Game.java:446-452 | the `m:ss:mmm` display; TimeTextReads states that it reads back as the total |
| SquaroGame.Game.constructor | src/com/gamesbykevin/squaro/game/Game.java:148-160 | no board, zero settings, clock at 0 |
| SquaroGame.Game.StopTimer | src/com/gamesbykevin/squaro/game/Game.java:183-186 | arms the latch |
| SquaroGame.Game.Reset | src/com/gamesbykevin/squaro/game/Game.java:262-308 | see the session notes below the table |
| SquaroGame.Game.ResetSettings | src/com/gamesbykevin/squaro/game/Game.java:195-255 | sets mode, difficulty and size, the range and the dimensions they map to, and always restarts successfully |
| SquaroGame.Game.CheckWin | src/com/gamesbykevin/squaro/game/Game.java:334-350 | the win fires exactly when the reported blocks did not match before and match now |
| SquaroGame.Game.Touch | src/com/gamesbykevin/squaro/game/Game.java:325-353 | unless the controls took it, a release on a board cycles exactly the hit pegs and wins exactly on the unmatched-to-matched edge; otherwise nothing changes |
| SquaroGame.Game.Tick | src/com/gamesbykevin/squaro/game/Game.java:359-406 | Default mode counts up as Clock.Advance does; Timed mode counts down as Clock.CountDown does, never below 0, with a time-up exactly when it would have gone negative |

Notes on the longer entries:

- **SquaresBoard.Board.Reset**
  - The active size is set.
  - The fixed 11x10 grids are allocated only when missing, and reused otherwise.
  - Every player cell becomes 0.
  - The solution holds the draws inside the active board and 0 elsewhere.
  - It succeeds exactly when the peg accepts the range.
- **SquaroBoard.Board.Reset**
  - Fresh (rows+1)x(cols+1) grids are allocated.
  - The solution holds the draws, or stays 0 if the first draw throws, and the player grid is 0.
  - It succeeds exactly when the peg accepts the range.
- **ScoreCards.ScoreCard.Update**
  - It keeps distinct keys.
  - The new entries and the result flag are those of the upsert.
  - The content is re-saved exactly when the result is true.
  - Every score object is an old one or a new one.
- **SquaresGame.Game.Reset**
  - The total restarts at 0 and the latch is armed.
  - In Timed mode the countdown becomes the level's allowance.
- **SquaresGame.Game.Tick**
  - With no level chosen, it hands over to the level select and starts a chosen level as Reset does.
  - In Timed mode the countdown of that level becomes its allowance. In Default mode the countdown and the previous reading are kept.
  - Otherwise it behaves like Clock.Advance.
  - In Timed mode a total past the allowance is cut back to the allowance, leaving 0 to go, and the time is up. Exactly 0 left is not yet a loss.
- **SquaresGame.Game.Touch**
  - With no level chosen, only a release is forwarded to the level select.
  - When the controls took the touch, or it is not a release, nothing changes.
  - On these paths the player grid, the score list, its saved text and the completion marks all stay as they were.
  - Otherwise exactly the hit pegs cycle, and the win is recorded only on the unsolved-to-solved edge.
  - Without a win the completion marks and the saved text stay as they were.
- **SquaroGame.Game.Reset**
  - It creates a missing board, then resets it to the settings.
  - It succeeds exactly when the range is accepted.
  - On success the board holds the draws, the total is 0 (Default) or the budget (Timed), and the latch is armed.

## Left out

- **Rendering:** every `render`, paint and sprite-sheet setup, and the pixel geometry of the boards (`getStartX`/`getStartY`, widths, positions). Only the time display of `squaro` is modelled.
- **Screens, controllers, assets, the activity, `dispose`:** these are UI and lifecycle code. The model does not decide whether a touch was taken by the on-screen controls; that decision is a parameter (`controllerConsumed`).
- **Randomness, wall clock and peg hit test:** these are the `draw`, `latchNow`/`now` and `hit` parameters. The model says nothing about how random values or clock readings are produced.
- **Level select (`Select`) of `squares`:** it is not part of this model. It becomes abstract fields: whether a level is chosen, which one, the level count and the completion marks. Its own reset in `reset(mode, difficulty)` and its handling of a forwarded tap are not modelled; a tap becomes a `LevelCheck` event.
- **Level loading of `squares`:** `new Board()` and `Board.reset(TextKey, index)`, which the `squares` session calls, are not part of this model. `SquaresGame.Game.Reset` takes the board as the loader leaves it.
- **Board dimensions of `squaro`:** the board's `getCols()`/`getRows()` are not part of this model.
  - The session and `SquaroBoardHelper.HasMatch` take what they report as parameters.
  - The `boardCols`/`boardRows` that `Touch` and `CheckWin` receive are not tied to those given to `Reset`. The model requires only that they fit the grids.
- SquaroBoard.Board.Reset: requires 0 ≤ cols and 0 ≤ rows. For −1 the Java code allocates an empty dimension and then throws at Board.java:138, by indexing an empty array or dividing by zero. Below −1 the allocation itself throws. These error paths are not modelled.
- **The `squaro` board's three-argument constructor:** it is not part of this model. A missing board is created with the no-argument constructor, then reset.
- **Screen state, messages and sounds:** these become `Won`, `TimeUp` and `LevelCheck` events.
- **Storage I/O of the score card:** the content is a plain string, and writing it to internal storage is not modelled.
- **Options-screen difficulty index:** the index that keys the score card is a parameter (`difficultyIndex`).
- **Java `long`/`int` overflow:** the model does not wrap around. This covers the clock arithmetic, the budgets and the `(int)` casts in the time display; the display's round trip assumes the seconds fit in an `int`.
- **Floating-point budget multipliers:** 1.5 and 2.25 are applied exactly, as ×3/2 and ×9/4. `BudgetPerBlock` shows these never truncate.
- **Peg hit box:** `contains` is modelled over reals, not IEEE floats.
- **Non-ASCII digits:** `Text.ParseInt` reads only the ASCII digits `0`–`9`. Java's `Integer.parseInt` / `Long.parseLong` also accept other Unicode decimal digits, through `Character.digit`. `Text.Pad` always writes ASCII digits, so the time display is modelled for a default locale whose digits are ASCII.
- **`null` settings:**
  - The source's constructors leave mode, difficulty and size `null`; the model starts them at Default, Easy and Medium.
  - The `default:` branches that throw on a `null` or unknown enum value are not reachable in the model.
- **Unshown range constants of `squares`:** `DIFFICULTY_RANGE_DEFAULT` and `DIFFICULTY_RANGE_EVIL` are not in the board file shown. They are taken as 2 and 3, the sizes of the two count tables in `Peg.setAnimation`.
- **`Peg.getRange`:** it is the `range` field itself.
- SquaresBoard.Board.Reset: requires 1 ≤ cols ≤ 10 and 1 ≤ rows ≤ 11, and so does SquaresBoard.New.
  - Degenerate sizes that the Java code accepts without throwing are excluded: rows ≤ 0 with cols ≠ 0, and cols < 0. Both give an empty active board.
  - The Java code throws for cols = 0 (division by zero at Board.java:173). It also throws for cols > 10 or rows > 11 while the other dimension is positive (an index out of bounds in the fill loop). These error paths are not modelled.
- ScoreCards.LoadSerialized: the round trip is proved only for distinct keys and non-negative in-bounds fields. A negative field is written with a `-` that then splits as a separator, so such content does not load back.
- ScoreCards.ScoreCard.Update: requires the card's distinct-keys invariant, which every card built by `Load` and kept by `Update` has.
- SquaroGame.TimeTextReads: stated for non-negative totals only. A Timed total is never negative, but a Default total can be if the wall clock goes back.

/**
 * The session clock both snapshots share: a running total, the previous wall-clock reading,
 * and a latch that stopping the timer arms. A tick takes the elapsed time since the previous
 * reading, or since the latch reading when the latch is armed, and disarms the latch.
 */
module Clock {
  /** The clock: the total, the previous reading, and the latch armed by stopping the timer. */
  datatype Timer = Timer(totalTime: int, previousTime: int, stopped: bool)

  /** The reading a tick measures from. */
  function Start(t: Timer, latchNow: int): int
  {
    if t.stopped then latchNow else t.previousTime
  }

  function Max(a: int, b: int): int
  {
    if a < b then b else a
  }

  /**
   * One count-up tick at reading `now`; an armed latch first takes the reading `latchNow`
   * as the previous one.
   */
  function Advance(t: Timer, latchNow: int, now: int): (r: Timer)
    ensures !r.stopped && r.previousTime == now
    ensures r.totalTime - t.totalTime == now - Start(t, latchNow)
  {
    var previous := if t.stopped then latchNow else t.previousTime;
    Timer(t.totalTime + (now - previous), now, false)
  }

  /** Count-up ticks at the readings `nows` in turn; only the first can find the latch armed. */
  function Run(t: Timer, latchNow: int, nows: seq<int>): Timer
    decreases |nows|
  {
    if |nows| == 0 then t else Run(Advance(t, latchNow, nows[0]), latchNow, nows[1..])
  }

  /**
   * A run of count-up ticks adds the time from its starting point to its last reading: from
   * the latch reading after a stop, else from the previous reading.
   */
  lemma {:induction false} RunTelescopes(t: Timer, latchNow: int, nows: seq<int>)
    requires |nows| > 0
    ensures Run(t, latchNow, nows).totalTime == t.totalTime + nows[|nows| - 1] - Start(t, latchNow)
    ensures !Run(t, latchNow, nows).stopped
    decreases |nows|
  {
    if |nows| > 1 {
      RunTelescopes(Advance(t, latchNow, nows[0]), latchNow, nows[1..]);
    }
  }

  /**
   * One countdown tick at reading `now`: the elapsed time is taken off the total, and a total
   * that would go below 0 is held at 0.
   */
  function CountDown(t: Timer, latchNow: int, now: int): (r: Timer)
    ensures !r.stopped && r.previousTime == now
    ensures r.totalTime >= 0
    ensures r.totalTime == Max(0, t.totalTime - (now - Start(t, latchNow)))
  {
    var previous := if t.stopped then latchNow else t.previousTime;
    var total := t.totalTime - (now - previous);
    Timer(if total < 0 then 0 else total, now, false)
  }

  /** Countdown ticks at the readings `nows` in turn. */
  function RunDown(t: Timer, latchNow: int, nows: seq<int>): Timer
    decreases |nows|
  {
    if |nows| == 0 then t else RunDown(CountDown(t, latchNow, nows[0]), latchNow, nows[1..])
  }

  predicate Ascending(nows: seq<int>)
  {
    forall i, j :: 0 <= i <= j < |nows| ==> nows[i] <= nows[j]
  }

  /**
   * With readings that never go back, a run of countdown ticks leaves the starting total less
   * the whole elapsed time, or 0 once that is used up: holding the total at 0 on one tick
   * never loses or gains time on a later one.
   */
  lemma {:induction false} RunDownClamps(t: Timer, latchNow: int, nows: seq<int>)
    requires |nows| > 0 && Ascending(nows) && Start(t, latchNow) <= nows[0]
    ensures RunDown(t, latchNow, nows).totalTime == Max(0, t.totalTime - (nows[|nows| - 1] - Start(t, latchNow)))
    ensures !RunDown(t, latchNow, nows).stopped
    decreases |nows|
  {
    if |nows| > 1 {
      var t' := CountDown(t, latchNow, nows[0]);
      var rest := nows[1..];
      assert Ascending(rest) by {
        forall i, j | 0 <= i <= j < |rest|
          ensures rest[i] <= rest[j]
        {
          assert rest[i] == nows[i + 1] && rest[j] == nows[j + 1];
        }
      }
      assert nows[0] <= nows[1] && nows[1] <= nows[|nows| - 1];
      RunDownClamps(t', latchNow, rest);
      assert rest[|rest| - 1] == nows[|nows| - 1];
    }
  }
}

/** Elapsed play time, counted in ticks of 100 ns as DateTime and TimeSpan count them. */
module Clock {

  const TicksPerSecond: nat := 10_000_000

  /** A timestamp with its part below one second dropped. */
  function TruncateToSecond(t: nat): (r: nat)
    ensures r <= t < r + TicksPerSecond
    ensures r % TicksPerSecond == 0
  {
    t - t % TicksPerSecond
  }

  /**
   * The game time after the clock is stopped at `now`: the checkpoint
   * `startTime` (0 when no checkpoint is open) is turned into whole seconds
   * and added; without a checkpoint the game time stays as it was.
   */
  function StoppedGameTime(gameTime: int, startTime: nat, now: nat): (r: int)
    ensures startTime == 0 ==> r == gameTime
    ensures (r - gameTime) % TicksPerSecond == 0
    ensures startTime != 0 ==> now - startTime - TicksPerSecond < r - gameTime < now - startTime + TicksPerSecond
  {
    if startTime != 0 then gameTime + (TruncateToSecond(now) - TruncateToSecond(startTime)) else gameTime
  }

  /**
   * The clock fields `gameTime'` and `startTime'` after a step that stopped
   * the clock at `now` (when `stopped`) or left it alone, from `gameTime`
   * and `startTime`.
   */
  predicate ClockAfter(gameTime: int, startTime: nat, now: nat, stopped: bool, gameTime': int, startTime': nat)
  {
    if stopped then gameTime' == StoppedGameTime(gameTime, startTime, now) && startTime' == 0
    else gameTime' == gameTime && startTime' == startTime
  }

  /**
   * Two steps at the same instant are one step that stopped the clock when
   * either did: once stopped, stopping again adds nothing.
   */
  lemma ClockAfterTwice(g0: int, s0: nat, now: nat, stop1: bool, g1: int, s1: nat, stop2: bool, g2: int, s2: nat)
    requires ClockAfter(g0, s0, now, stop1, g1, s1) && ClockAfter(g1, s1, now, stop2, g2, s2)
    ensures ClockAfter(g0, s0, now, stop1 || stop2, g2, s2)
  {
  }
}

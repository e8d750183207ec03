/**
 * The fixed-timestep clock of the game loop, as pure functions of integer
 * timestamps: each frame adds the elapsed time to an accumulator and drains
 * it in whole steps, one simulation tick per step.
 */
module Timing {
  import Grid

  /** The clock fields of the game: the previous frame's timestamp and the unconsumed time. */
  datatype Clock = Clock(lastTime: int, accumulator: int)

  /** How many whole steps a drain consumed and what was left. */
  datatype Drained = Drained(steps: nat, rest: int)

  /** The result of one frame: the new clock and how many ticks it ran. */
  datatype FrameResult = FrameResult(clock: Clock, ticks: nat)

  /**
   * Subtracting `step` while at least `step` remains. Every consumed step is
   * accounted for, what remains is below one step, and for a non-negative
   * amount the count is the floor quotient; a negative amount is left alone.
   */
  function Drain(acc: int, step: int): (r: Drained)
    requires step > 0
    ensures r.steps * step + r.rest == acc
    ensures r.rest < step
    ensures acc >= 0 ==> r.steps == acc / step && r.rest == acc % step
    ensures acc < 0 ==> r.steps == 0
    decreases acc
  {
    if acc < step then Drained(0, acc)
    else
      var d := Drain(acc - step, step);
      assert (d.steps + 1) * step == d.steps * step + step;
      Grid.EuclidUnique(acc, step, d.steps + 1, d.rest);
      Drained(d.steps + 1, d.rest)
  }

  /**
   * One call of the frame callback at time `t`. A previous timestamp of 0
   * counts as "no previous frame": the clock only records `t`.
   */
  function Frame(c: Clock, t: int, step: int): (r: FrameResult)
    requires step > 0
    ensures r.clock.lastTime == t
    ensures c.lastTime == 0 ==> r.ticks == 0 && r.clock.accumulator == c.accumulator
    ensures c.lastTime != 0 ==>
              r.ticks * step + r.clock.accumulator == c.accumulator + (t - c.lastTime)
              && r.clock.accumulator < step
    ensures c.lastTime != 0 && c.accumulator + (t - c.lastTime) >= 0 ==>
              r.ticks == (c.accumulator + (t - c.lastTime)) / step
              && 0 <= r.clock.accumulator
  {
    if c.lastTime != 0 then
      var d := Drain(c.accumulator + (t - c.lastTime), step);
      FrameResult(Clock(t, d.rest), d.steps)
    else
      FrameResult(Clock(t, c.accumulator), 0)
  }

  /** A run of frame callbacks: the final clock and the ticks run in all. */
  function Run(c: Clock, times: seq<int>, step: int): (r: FrameResult)
    requires step > 0
    ensures r.clock.lastTime == if times == [] then c.lastTime else times[|times| - 1]
    decreases |times|
  {
    if times == [] then FrameResult(c, 0)
    else
      var f := Frame(c, times[0], step);
      var rest := Run(f.clock, times[1..], step);
      FrameResult(rest.clock, f.ticks + rest.ticks)
  }

  /**
   * Once the clock has a non-zero timestamp and no callback is made at time
   * 0, time is conserved: the ticks run, in steps, plus the leftover equal
   * the starting leftover plus the time elapsed since the starting timestamp.
   */
  lemma {:induction false} RunConservesTime(c: Clock, times: seq<int>, step: int)
    requires step > 0 && c.lastTime != 0 && |times| > 0
    requires forall i :: 0 <= i < |times| ==> times[i] != 0
    ensures Run(c, times, step).clock.lastTime == times[|times| - 1]
    ensures Run(c, times, step).ticks * step + Run(c, times, step).clock.accumulator
         == c.accumulator + (times[|times| - 1] - c.lastTime)
    decreases |times|
  {
    var f := Frame(c, times[0], step);
    if |times| > 1 {
      RunConservesTime(f.clock, times[1..], step);
      var rest := Run(f.clock, times[1..], step);
      assert (f.ticks + rest.ticks) * step == f.ticks * step + rest.ticks * step;
    }
  }

  /** Timestamps 0, 250, 250 run no tick at all: the first non-zero timestamp only bootstraps. */
  lemma ZeroStartBootstrapsTwice()
    ensures Run(Clock(0, 0), [0, 250, 250], 100) == FrameResult(Clock(250, 0), 0)
  {
  }

  /** Timestamps 0, 40, 80 run no tick either. */
  lemma ShortFramesRunNothing()
    ensures Run(Clock(0, 0), [0, 40, 80], 100) == FrameResult(Clock(80, 40), 0)
  {
  }

  /** From a non-zero first timestamp, 250 time units run two ticks and leave 50. */
  lemma NonZeroStartRunsTwoTicks()
    ensures Run(Clock(0, 0), [16, 266, 266], 100) == FrameResult(Clock(266, 50), 2)
  {
  }
}

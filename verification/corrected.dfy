/**
 The countdown as evidently intended: the tick that brings the display to
 00:00 also completes the run (stops it and raises the fireworks and the
 alarm). The scheduling guard is the one of the component as written; only
 the place of the completion test moves, from the captured state before the
 decrement to the state after it.
 */
module CorrectedCountdown {

  import opened Units
  import opened Iteration
  import opened Countdown

  const Completed: Timer := Timer(false, Zero, true, true)

  /**
   One second of wall-clock time with completion on reaching 00:00. An armed
   tick still takes exactly one second off a valid remaining time, and it
   stops the run exactly when nothing is left.
   */
  function CompletingTick(t: Timer): (r: Timer)
    ensures !Armed(t) ==> r == t
    ensures Armed(t) && t.timeLeft.Valid() ==>
              && r.timeLeft.Valid()
              && r.timeLeft.TotalSeconds() == t.timeLeft.TotalSeconds() - 1
              && (r.isRunning <==> r.timeLeft != Zero)
              && (r.showAlarm <==> r.timeLeft == Zero || t.showAlarm)
              && (r.showFireworks <==> r.timeLeft == Zero || t.showFireworks)
  {
    if !Armed(t) then t
    else
      var next := Tick(t);
      if !next.timeLeft.AboveZero() then next.(isRunning := false, showFireworks := true, showAlarm := true) else next
  }

  lemma {:induction false} CompletingTicksCountDown(t: Timer, n: nat)
    requires Armed(t) && t.timeLeft.Valid() && !t.showFireworks && !t.showAlarm
    requires n <= t.timeLeft.TotalSeconds()
    ensures n < t.timeLeft.TotalSeconds() ==>
              Iterate(CompletingTick, t, n) == t.(timeLeft := FromTotal(t.timeLeft.TotalSeconds() - n))
    ensures n == t.timeLeft.TotalSeconds() ==> Iterate(CompletingTick, t, n) == Completed
    decreases n
  {
    var total := t.timeLeft.TotalSeconds();
    if n == 0 {
      FromTotalOfValid(t.timeLeft);
    } else {
      var t' := CompletingTick(t);
      assert t'.timeLeft.Valid() && t'.timeLeft.TotalSeconds() == total - 1;
      assert Iterate(CompletingTick, t, n) == Iterate(CompletingTick, t', n - 1);
      ZeroIffNoSecondsLeft(t'.timeLeft);
      if total == 1 {
        assert t' == Completed;
      } else {
        assert t' == t.(timeLeft := t'.timeLeft);
        CompletingTicksCountDown(t', n - 1);
      }
    }
  }

  /**
   A run started at `mins` minutes completes on exactly the `60 * mins`-th
   tick: before it the run is still going with no alarm, at it the run has
   stopped at 00:00 with the alarm and fireworks raised, and any later ticks
   change nothing.
   */
  lemma CompletesAfterExactTicks(t: Timer, f: Form, extra: nat)
    requires ChosenMinutes(f) > 0
    ensures Iterate(CompletingTick, Start(t, f), SecondsPerMinute * ChosenMinutes(f) + extra) == Completed
    ensures forall n: nat :: n < SecondsPerMinute * ChosenMinutes(f) ==>
              Iterate(CompletingTick, Start(t, f), n).isRunning && !Iterate(CompletingTick, Start(t, f), n).showAlarm
  {
    var s := Start(t, f);
    var total := SecondsPerMinute * ChosenMinutes(f);
    CompletingTicksCountDown(s, total);
    IterateSplit(CompletingTick, s, total, extra);
    IterateFixedPoint(CompletingTick, Completed, extra);
    forall n: nat | n < total
      ensures Iterate(CompletingTick, s, n).isRunning && !Iterate(CompletingTick, s, n).showAlarm
    {
      CompletingTicksCountDown(s, n);
    }
  }
}

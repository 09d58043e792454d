/**
 The countdown engine of the timer component, as written: the
 `CountdownState` pair, the one-second interval callback with minute
 borrow, the scheduling guard that arms the interval, `startTimer` and
 `resetTimer`.

 React's re-render/effect cycle is replaced by explicit calls: after every
 state change the effect either arms a fresh one-second interval (when the
 guard holds) or arms nothing, so one `Tick` is one firing of the interval
 against the state it captured, and a `Tick` on an unarmed state changes
 nothing.
 */
module Countdown {

  import opened Options
  import opened Units
  import opened Clock
  import opened Iteration

  /**
   `CountdownState`: minutes and seconds left. The source stores them as
   JavaScript numbers; every value it stores is a whole number, and they are
   modelled as unbounded integers.
   */
  datatype Remaining = Remaining(minutes: int, seconds: int) {

    /** The shape every reachable countdown has: whole minutes and a seconds field in 0..59. */
    predicate Valid() {
      minutes >= 0 && 0 <= seconds < SecondsPerMinute
    }

    function TotalSeconds(): int {
      SecondsPerMinute * minutes + seconds
    }

    /** The display shows something other than 00:00. */
    predicate AboveZero() {
      minutes > 0 || seconds > 0
    }
  }

  const Zero: Remaining := Remaining(0, 0)

  /** The remaining time holding `k` seconds, split into minutes and seconds. */
  function FromTotal(k: nat): (r: Remaining)
    ensures r.Valid() && r.TotalSeconds() == k
  {
    Remaining(k / SecondsPerMinute, k % SecondsPerMinute)
  }

  /** The component state the engine reads and writes. */
  datatype Timer = Timer(isRunning: bool, timeLeft: Remaining, showFireworks: bool, showAlarm: bool)

  const Idle: Timer := Timer(false, Zero, false, false)

  /**
   The form fields `startTimer` reads. `duration` is None when the minutes
   field is empty and otherwise holds what `parseInt` made of it; a number
   input reports non-numeric text as empty. The clock fields are None when
   empty.
   */
  datatype Form = Form(duration: Option<int>, startTime: Option<ValidClock>, endTime: Option<ValidClock>)

  /**
   The scheduling guard of the tick effect: an interval exists only while
   this holds. For a valid remaining time it means the run is marked running
   with seconds still left, and it never holds at 00:00.
   */
  predicate Armed(t: Timer)
    ensures Armed(t) ==> t.isRunning && t.timeLeft != Zero
    ensures t.timeLeft.Valid() ==> (Armed(t) <==> t.isRunning && t.timeLeft.TotalSeconds() > 0)
  {
    t.isRunning && t.timeLeft.AboveZero()
  }

  /**
   The interval callback, run against the state it captured. Its first
   branch is the completion branch: it stops the run and raises the
   fireworks and the alarm.
   */
  function Callback(t: Timer): (r: Timer)
    ensures t.timeLeft == Zero ==> r == t.(isRunning := false, showFireworks := true, showAlarm := true)
    ensures t.timeLeft.Valid() && t.timeLeft != Zero ==>
              && r.timeLeft.Valid()
              && r.timeLeft.TotalSeconds() == t.timeLeft.TotalSeconds() - 1
              && r == t.(timeLeft := r.timeLeft)
  {
    if t.timeLeft.seconds == 0 then
      if t.timeLeft.minutes == 0 then
        t.(isRunning := false, showFireworks := true, showAlarm := true)
      else
        t.(timeLeft := Remaining(t.timeLeft.minutes - 1, SecondsPerMinute - 1))
    else
      t.(timeLeft := t.timeLeft.(seconds := t.timeLeft.seconds - 1))
  }

  /**
   One second of wall-clock time: the armed interval fires once, or nothing
   happens when no interval is armed. An armed tick never reaches the
   completion branch, because the guard and that branch ask opposite things
   of the same captured state: it leaves every flag alone.
   */
  function Tick(t: Timer): (r: Timer)
    ensures !Armed(t) ==> r == t
    ensures Armed(t) ==> r.isRunning && r.showFireworks == t.showFireworks && r.showAlarm == t.showAlarm
    ensures Armed(t) && t.timeLeft.Valid() ==>
              r.timeLeft.Valid() && r.timeLeft.TotalSeconds() == t.timeLeft.TotalSeconds() - 1
  {
    if Armed(t) then Callback(t) else t
  }

  /**
   The whole minutes `startTimer` settles on. With both clock fields set it
   is the wait, under one day, that carries the start clock to the end
   clock, zero exactly for equal clocks. Otherwise a set minutes field is
   the choice, and with neither input the choice is 0.
   */
  function ChosenMinutes(f: Form): (m: int)
    ensures f.startTime.Some? && f.endTime.Some? ==>
              && 0 <= m < MinutesPerDay
              && AddMinutes(f.startTime.value, m) == f.endTime.value
              && (m == 0 <==> f.startTime.value == f.endTime.value)
    ensures !(f.startTime.Some? && f.endTime.Some?) && f.duration.Some? ==> m == f.duration.value
    ensures !(f.startTime.Some? && f.endTime.Some?) && m > 0 ==> f.duration == Some(m)
    ensures !(f.startTime.Some? && f.endTime.Some?) && f.duration.None? ==> m == 0
  {
    if f.startTime.Some? && f.endTime.Some? then
      DurationReachesEnd(f.startTime.value, f.endTime.value);
      CalculateDuration(f.startTime.value, f.endTime.value)
    else if f.duration.Some? then
      f.duration.value
    else
      0
  }

  /**
   `startTimer`: a positive choice of minutes starts a fresh run at
   `{mins, 0}` with both completion flags cleared; anything else leaves the
   state exactly as it was.
   */
  function Start(t: Timer, f: Form): (r: Timer)
    ensures r == t || (Armed(r) && r.timeLeft.Valid() && r.timeLeft.seconds == 0 && !r.showFireworks && !r.showAlarm)
    ensures r != t ==> r.timeLeft.TotalSeconds() == SecondsPerMinute * ChosenMinutes(f)
    ensures ChosenMinutes(f) > 0 ==> r == Timer(true, Remaining(ChosenMinutes(f), 0), false, false)
    ensures ChosenMinutes(f) <= 0 ==> r == t
  {
    var mins := ChosenMinutes(f);
    if mins > 0 then Timer(true, Remaining(mins, 0), false, false) else t
  }

  /**
   `resetTimer`: back to idle from any state. Nothing is armed afterwards,
   so no further tick has any effect.
   */
  function Reset(t: Timer): (r: Timer)
    ensures !Armed(r) && Tick(r) == r
    ensures !r.isRunning && r.timeLeft == Zero && !r.showFireworks && !r.showAlarm
  {
    Idle
  }

  // ----- Tick cases -----

  /** A tick with seconds left only counts the seconds down; the minutes stay. */
  lemma TickCountsSecondsDown(t: Timer)
    requires t.isRunning && t.timeLeft.seconds > 0
    ensures Tick(t).timeLeft == Remaining(t.timeLeft.minutes, t.timeLeft.seconds - 1)
    ensures Tick(t) == t.(timeLeft := Tick(t).timeLeft)
  {
  }

  /** A tick at a whole minute borrows: one minute less and 59 seconds. */
  lemma TickBorrowsMinute(t: Timer)
    requires t.isRunning && t.timeLeft.seconds == 0 && t.timeLeft.minutes > 0
    ensures Tick(t).timeLeft == Remaining(t.timeLeft.minutes - 1, SecondsPerMinute - 1)
    ensures Tick(t) == t.(timeLeft := Tick(t).timeLeft)
  {
  }

  /** The completion branch would stop the run and raise the alarm, but it only runs on a state the guard refuses to arm. */
  lemma CompletionBranchNeedsZero(t: Timer)
    ensures Callback(t).showAlarm != t.showAlarm || Callback(t).isRunning != t.isRunning ==> t.timeLeft == Zero
    ensures t.timeLeft == Zero ==> !Armed(t)
  {
  }

  // ----- Counting ticks -----

  /** A valid remaining time is 00:00 exactly when no seconds are left. */
  lemma ZeroIffNoSecondsLeft(r: Remaining)
    requires r.Valid()
    ensures r == Zero <==> r.TotalSeconds() == 0
  {
  }

  lemma FromTotalOfValid(r: Remaining)
    requires r.Valid()
    ensures FromTotal(r.TotalSeconds()) == r
  {
    DivModSixty(r.TotalSeconds(), r.minutes, r.seconds);
  }

  /**
   While running with a valid remaining time, each tick takes exactly one
   second off the total and touches nothing else, so `n` ticks leave
   `total - n` seconds.
   */
  lemma {:induction false} TicksCountDown(t: Timer, n: nat)
    requires t.isRunning && t.timeLeft.Valid() && n <= t.timeLeft.TotalSeconds()
    ensures Iterate(Tick, t, n) == t.(timeLeft := FromTotal(t.timeLeft.TotalSeconds() - n))
    decreases n
  {
    if n == 0 {
      FromTotalOfValid(t.timeLeft);
    } else {
      TicksCountDown(Tick(t), n - 1);
      assert Iterate(Tick, t, n) == Iterate(Tick, Tick(t), n - 1);
    }
  }

  /**
   A run started at `mins` minutes shows 00:00 after exactly `60 * mins`
   ticks and not before.
   */
  lemma ReachesZeroAfterExactTicks(t: Timer, f: Form)
    requires ChosenMinutes(f) > 0
    ensures Iterate(Tick, Start(t, f), SecondsPerMinute * ChosenMinutes(f)).timeLeft == Zero
    ensures forall n: nat :: n < SecondsPerMinute * ChosenMinutes(f) ==> Iterate(Tick, Start(t, f), n).timeLeft != Zero
  {
    var s := Start(t, f);
    TicksCountDown(s, SecondsPerMinute * ChosenMinutes(f));
    forall n: nat | n < SecondsPerMinute * ChosenMinutes(f)
      ensures Iterate(Tick, s, n).timeLeft != Zero
    {
      TicksCountDown(s, n);
    }
  }

  /**
   Once the countdown reaches 00:00 it stays there for good: the run is
   still marked as running and neither the alarm nor the fireworks ever
   show. The completion branch is never taken.
   */
  lemma StuckAtZero(t: Timer, f: Form, extra: nat)
    requires ChosenMinutes(f) > 0
    ensures Iterate(Tick, Start(t, f), SecondsPerMinute * ChosenMinutes(f) + extra) == Timer(true, Zero, false, false)
  {
    var s := Start(t, f);
    TicksCountDown(s, SecondsPerMinute * ChosenMinutes(f));
    IterateSplit(Tick, s, SecondsPerMinute * ChosenMinutes(f), extra);
    IterateFixedPoint(Tick, Iterate(Tick, s, SecondsPerMinute * ChosenMinutes(f)), extra);
  }

  /**
   The interval scheduler driven to exhaustion: fire the armed interval
   until the guard no longer arms one. From a valid running state that takes
   exactly as many ticks as there are seconds left, and it stops at 00:00
   with the run still marked as running.
   */
  method RunUntilDisarmed(t: Timer) returns (ticks: nat, last: Timer)
    requires t.timeLeft.Valid()
    ensures !Armed(last) && last == Iterate(Tick, t, ticks)
    ensures t.isRunning ==> ticks == t.timeLeft.TotalSeconds() && last == t.(timeLeft := Zero)
    ensures !t.isRunning ==> ticks == 0 && last == t
  {
    ticks := 0;
    last := t;
    while Armed(last)
      invariant last.timeLeft.Valid()
      invariant last == t.(timeLeft := last.timeLeft)
      invariant ticks + last.timeLeft.TotalSeconds() == t.timeLeft.TotalSeconds()
      invariant last == Iterate(Tick, t, ticks)
      invariant !t.isRunning ==> ticks == 0
      decreases last.timeLeft.TotalSeconds()
    {
      IterateSplit(Tick, t, ticks, 1);
      last := Tick(last);
      ticks := ticks + 1;
    }
  }

  // ----- The reachable states -----

  /** What the user and the scheduler can do to the component. */
  datatype Event = StartPressed(form: Form) | SecondElapsed | ResetPressed

  function Step(t: Timer, e: Event): Timer {
    match e
    case StartPressed(f) => Start(t, f)
    case SecondElapsed => Tick(t)
    case ResetPressed => Reset(t)
  }

  function Run(t: Timer, events: seq<Event>): Timer
    decreases |events|
  {
    if |events| == 0 then t else Run(Step(t, events[0]), events[1..])
  }

  /** The invariant of every reachable state: a valid remaining time and no alarm. */
  predicate Reachable(t: Timer) {
    t.timeLeft.Valid() && !t.showFireworks && !t.showAlarm
  }

  lemma StepPreservesReachable(t: Timer, e: Event)
    requires Reachable(t)
    ensures Reachable(Step(t, e))
  {
  }

  /**
   From the idle state, no sequence of starts, seconds and resets ever
   leaves the seconds field outside 0..59 or shows the alarm or the
   fireworks.
   */
  lemma {:induction false} AlarmNeverShown(t: Timer, events: seq<Event>)
    requires Reachable(t)
    ensures Run(t, events).timeLeft.Valid()
    ensures !Run(t, events).showAlarm && !Run(t, events).showFireworks
    decreases |events|
  {
    if |events| > 0 {
      StepPreservesReachable(t, events[0]);
      AlarmNeverShown(Step(t, events[0]), events[1..]);
    }
  }

  // ----- Start and Reset -----

  /** When both clock fields are set, the minutes field plays no part. */
  lemma ClockPairTakesPrecedence(t: Timer, f: Form, d: Option<int>)
    requires f.startTime.Some? && f.endTime.Some?
    ensures Start(t, f.(duration := d)) == Start(t, f)
  {
  }

  /**
   Starting from a clock pair runs for the minutes that carry the start
   clock to the end clock; equal clocks give zero minutes and the start is
   refused.
   */
  lemma StartFromClockPair(t: Timer, f: Form)
    requires f.startTime.Some? && f.endTime.Some?
    ensures f.startTime.value != f.endTime.value ==>
              && Start(t, f) == Timer(true, Remaining(CalculateDuration(f.startTime.value, f.endTime.value), 0), false, false)
              && AddMinutes(f.startTime.value, Start(t, f).timeLeft.minutes) == f.endTime.value
              && Start(t, f).timeLeft.minutes < MinutesPerDay
    ensures f.startTime.value == f.endTime.value ==> Start(t, f) == t
  {
  }

  /** Without a complete clock pair a positive minutes field starts a run of that many minutes. */
  lemma StartFromDuration(t: Timer, f: Form)
    requires !(f.startTime.Some? && f.endTime.Some?) && f.duration.Some? && f.duration.value > 0
    ensures Start(t, f) == Timer(true, Remaining(f.duration.value, 0), false, false)
  {
  }

  /** Reset forgets everything: it is idempotent and its result does not depend on the state it was given. */
  lemma ResetIdempotent(t: Timer, u: Timer)
    ensures Reset(Reset(t)) == Reset(t)
    ensures Reset(t) == Reset(u)
  {
  }
}

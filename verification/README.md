# Countdown engine of the Cyberpunk Timer

This project is a Dafny model of the countdown engine inside the timer
component `App` (`src/App.tsx`). Without the React plumbing, the engine is a
small state machine:

- **Start** (`startTimer`) picks a whole number of minutes. A complete
  start/end clock pair wins; otherwise the minutes field is used. A run starts
  only when that number is positive.
- **Tick** is the body of the one-second interval callback. It decrements
  `{minutes, seconds}` and borrows a minute when the seconds are at zero. The
  interval is armed only while the timer is running and the display is above
  00:00.
- **Reset** (`resetTimer`) returns every field to idle.
- **Display** renders each field left-padded with '0' to at least two
  characters, as `MM:SS`.

Files:

- `options.dfy` defines `Options.Option`.
- `units.dfy` (module `Units`) names the base-60 units and the fact that splits a count by 60.
- `iteration.dfy` (module `Iteration`) applies a step function `n` times; `n` ticks are `Iterate(Tick, t, n)`.
- `clock.dfy` (module `Clock`) holds the `HH:mm` clock times and `calculateDuration`.
- `countdown.dfy` (module `Countdown`) holds the state, the guard, the callback, start, reset, tick counting and the reachable-state invariant.
- `display.dfy` (module `Display`) holds `String(n).padStart(2, '0')`, the `MM:SS` text and a reader that parses it back.
- `corrected.dfy` (module `CorrectedCountdown`) holds the tick as evidently intended (see Findings).

React's effect cycle becomes explicit calls. After each state change, the
effect either arms a fresh one-second interval (when the guard at line 36
holds) or arms none. So one `Tick` is one firing of that interval against the
state it captured. A `Tick` on an unarmed state is a second in which nothing
happens. `CountdownState`'s fields only ever hold whole numbers, and they are
modelled as unbounded `int`, not as the double-precision numbers JavaScript
uses (see Left out). Because the fields are plain integers, "seconds stay in
0..59" is a proved invariant rather than a fact of the type.

Facts about the code worth knowing:

- `calculateDuration` measures from the start time the user entered, not from the current clock.
- Equal start and end times give 0 minutes, so `startTimer` refuses to start.
- Both the minutes mode and the clock-pair mode count down by decrementing the stored pair once a second.
- The completion branch never runs (see Findings).

## Model

| member | source | states |
|---|---|---|
| Clock.CalculateDuration | src/App.tsx:66-81 | The duration is in 0..1439. It is end minus start when the end is not earlier, and one day more when it is earlier (wrap past midnight). It is 0 exactly when the two clock times are equal. |
| Clock.DurationReachesEnd | src/App.tsx:66-81 | Waiting the computed number of minutes from the start clock lands exactly on the end clock. No shorter wait does. |
| Countdown.Callback | src/App.tsx:37-59 | On 00:00 the callback stops the run and raises fireworks and alarm. On any other valid time it leaves a valid time one second smaller and changes nothing else. |
| Countdown.Tick | src/App.tsx:36-60 | Unarmed, a second changes nothing. Armed, the run stays running with both flags untouched. From a valid time, an armed tick keeps seconds in 0..59 and removes exactly one second. |
| Countdown.TickCountsSecondsDown | src/App.tsx:54-58 | A running tick with seconds left gives `{minutes, seconds-1}` and leaves everything else alone. |
| Countdown.TickBorrowsMinute | src/App.tsx:48-52 | A running tick at zero seconds with minutes left gives `{minutes-1, 59}` and leaves everything else alone. |
| Countdown.CompletionBranchNeedsZero | src/App.tsx:36-47 | The callback changes `isRunning` or `showAlarm` only on 00:00, and a state at 00:00 is never armed. |
| Countdown.Armed | src/App.tsx:36 | An interval is armed only for a running state that is not at 00:00. For a valid time, it is armed exactly when the run is marked running with seconds left. |
| Countdown.TicksCountDown | src/App.tsx:36-58 | From a running valid state, `n` ticks (up to the seconds left) leave exactly `total - n` seconds and change no flag. |
| Countdown.ReachesZeroAfterExactTicks | src/App.tsx:36-58 | A run started at `m` minutes shows 00:00 after exactly `60*m` ticks and not earlier. |
| Countdown.StuckAtZero | src/App.tsx:36-47 | After `60*m` or more ticks the state is `{0,0}` with `isRunning` still true and neither alarm nor fireworks shown. |
| Countdown.RunUntilDisarmed | src/App.tsx:33-64 | Firing the interval until the guard stops arming takes exactly as many ticks as seconds left. It ends at 00:00 with the run still marked running. A stopped timer takes zero ticks. |
| Countdown.StepPreservesReachable | src/App.tsx:33-113 | Start, a second and reset each keep the remaining time valid and both completion flags false. |
| Countdown.AlarmNeverShown | src/App.tsx:33-113 | From idle, no sequence of starts, seconds and resets leaves seconds outside 0..59 or shows the alarm or the fireworks. |
| Countdown.ChosenMinutes | src/App.tsx:84-90 | With both clocks set, the choice is the wait under one day that carries the start clock to the end clock, and it is 0 exactly for equal clocks. Otherwise a set minutes field is the choice, and with no minutes field the choice is 0. |
| Countdown.Start | src/App.tsx:83-102 | A positive choice of minutes gives exactly `{mins, 0}` running with both flags cleared: an armed, valid run holding `60 * mins` seconds. A zero or negative choice leaves the state untouched. |
| Countdown.ClockPairTakesPrecedence | src/App.tsx:86-90 | With both clock fields set, the minutes field has no influence on the start. |
| Countdown.StartFromClockPair | src/App.tsx:86-96 | With distinct clocks, the result is exactly `{CalculateDuration(start, end), 0}` running with both flags cleared. Those minutes are under one day and carry the start clock to the end clock. Equal clocks leave the state untouched. |
| Countdown.StartFromDuration | src/App.tsx:88-96 | Without a complete clock pair, a positive minutes field starts `{mins, 0}` running with both flags cleared. |
| Countdown.Reset | src/App.tsx:104-113 | After reset nothing is armed and a tick has no effect. The timer is stopped at `{0,0}` with both flags cleared. |
| Countdown.ResetIdempotent | src/App.tsx:104-108 | Reset twice equals reset once, and its result does not depend on the prior state. |
| Display.NatToString | src/App.tsx:247 | `String(n)` is a non-empty digit string with no leading zero. It is one character long exactly when `n < 10`. |
| Display.NatToStringValue | src/App.tsx:247 | The digits `String(n)` writes for a whole number `n` denote `n`. |
| Display.PadStart | src/App.tsx:247 | `padStart` has length max(len, length of `s`), ends with `s` and is filled in front. It never truncates. |
| Display.FieldRoundTrip | src/App.tsx:247 | A padded field reads back as its number. It has two characters below 10 and all the digits otherwise. |
| Display.FormatTimeLeft | src/App.tsx:247 | For a valid time, the text is the padded minutes, then ':', then exactly the seconds' tens digit and units digit. |
| Display.FormatRoundTrip | src/App.tsx:247 | The `MM:SS` text of non-negative fields parses back to the same minutes and seconds, so no digit is lost. |
| Display.ClockFaceWidth | src/App.tsx:247 | For a valid time the display is exactly five characters when minutes are below 100, and longer from 100 on. |
| CorrectedCountdown.CompletingTick | src/App.tsx:36-59 | With completion tested after the decrement, an armed tick removes one second and stops the run exactly when 00:00 is reached, raising alarm and fireworks then. |
| CorrectedCountdown.CompletesAfterExactTicks | src/App.tsx:36-59 | With the corrected tick, a run of `m` minutes completes on exactly tick `60*m`. Before that it runs with no alarm, and later ticks do not signal again. |

## Findings

| source | as written | input that shows it | evidently intended | confidence | as-written member | corrected member |
|---|---|---|---|---|---|---|
| src/App.tsx:36-47 | The completion branch tests `minutes === 0 && seconds === 0` on the same captured state that the guard at line 36 only arms when it is above 00:00. The branch is unreachable: the timer stops at 00:00 with `isRunning` true, and the alarm, fireworks and sound never fire. | Start with minutes field `1`. After 60 ticks the state is `{0,0}`, running, no alarm, and it stays so for every later second. | The second that reaches 00:00 completes the run: stop, fireworks, alarm. | high; not executed | Countdown.StuckAtZero | CorrectedCountdown.CompletesAfterExactTicks |

The rest of the model keeps the code as written, so the reachable-state
invariant (`Countdown.AlarmNeverShown`) shows the finding too. The corrected
tick keeps the same guard and moves only the completion test.

## Left out

- The alarm sound: the `Audio` element, `play()`/`pause()`, rewinding it on start and reset, and the autoplay-rejection handler. These are browser I/O.
- The YouTube alarm and `getYoutubeVideoId`. Modelling the regular expression faithfully would need a regex engine.
- Confetti, styling and JSX layout. This includes hiding the form while running and the start button's `disabled` condition (line 226). `Start` is modelled unconditionally, as `startTimer` itself is.
- The `onChange` handlers that clear the other mode's fields (lines 146-149, 169-172, 181-184). They are UI convenience. The model's `Form` holds whatever the fields contain when start is pressed.
- The title field. It takes no part in the countdown.
- React hook timing, effect cleanup, and `setInterval`/`clearInterval`. These are replaced by explicit `Tick` calls gated by the line-36 guard.
- Clock.CalculateDuration: `Date`/`setHours` wall-clock semantics are reduced to minutes after local midnight. Daylight-saving shifts and the millisecond gap between the two `new Date()` calls are not modelled.
- String parsing: `split(':').map(Number)` and `parseInt` are not modelled. A non-empty time field is a valid hour/minute pair. The minutes field is absent or holds the integer `parseInt` produced. A number input reports non-numeric text as empty, which is the absent case. A number input does accept text such as `.5` or `-.5`, for which `parseInt` returns `NaN`. The model represents that `NaN` by a non-positive value such as `Some(0)`: `NaN > 0` is false, so `startTimer` treats both alike and nothing starts.
- Display.NatToString: covers whole numbers written in plain decimal only. JavaScript's `String(n)` switches to exponent text from 1e21 (`"1e+21"`) and gives `"Infinity"` for an overflowing `parseInt`. Such values are not modelled, so the no-truncation and round-trip properties hold for the model's integers, not for those doubles. Fractional or NaN values never reach the display, because every stored value is a whole number.
- Countdown.Tick: fields are unbounded integers, not double-precision numbers. From 2^53 minutes on, the source's `timeLeft.minutes - 1` is not exact, and a minutes field of hundreds of digits parses to `Infinity`. So "each tick removes exactly one second" is proved only for the model's integers, which match the source below 2^53 minutes.

# 20-20-20 timer: a verified model of the session timer

The 20-20-20 desktop app reminds its user to look away from the screen.
Every 20 minutes of work it sends a notification and counts down a
20-second break, then starts the next work phase. A session can stop
itself after a chosen number of hours. The whole timer lives in one
React component, `src/App.jsx`. This project models that timer in
Dafny and proves properties of it.

- `JsText` (`js_text.dfy`): the JavaScript primitives the display uses, on
  integer values. These are `Math.floor` of a quotient, the truncating
  `%`, `toString` and `padStart`. It also has a decimal parser, the
  partner that the round trips are stated against.
- `Display` (`display.dfy`): `formatTime` ("MM:SS") and `formatSessionTime`
  ("Hh Mm" or "Mm"), defined on every integer. For non-negative durations
  each one is proved to read back, through a parser, as exactly the whole
  seconds or whole minutes it was given. Concrete values are proved too:
  "02:05", "20:00", "1h 30m", "2m", and the results for negative input.
- `SessionSpec` (`session_spec.dfy`): the session as a pure state machine.
  `Step(s, now)` is one firing of whichever interval callback is installed
  at time `now`. App.jsx replaces one callback by the next: work, then
  break, then work. The state records which callback is installed, which
  anchor it captured and which auto-stop cap it captured. It also records
  whether the first break, the one `startSession` created, has not ended
  yet. `Start`,
  `Stop` and the settings drop-down are functions on the same state.
- `SessionRuns` (`session_runs.dfy`): a session driven by a sequence of
  ticks. It proves that nothing drifts and proves whole-cycle scenarios.
- `Timer` (`session.dfy`): the component as a class `Session`. Its fields
  are the state variables and references. Its methods are `Start(now)`,
  `Tick(now)` (which returns whether a notification goes out), `Stop()`
  and `SetWorkDuration(hours)`. Each method is proved to perform the step
  of `SessionSpec` that corresponds to it, and to keep the invariant.
- `Wrappers` (`wrappers.dfy`): `Option`, whose `None` stands for the null
  session-start reference.

The code's behaviour matches the general description of the app, except
in these places, where the model follows the code:

- The auto-stop cap is checked on every work tick and when a break ends.
  It is not checked during a break. A session that passes its cap during
  a break runs on until the break ends (`BreakCountdown`). Meanwhile the
  "Auto-stop in" status text shows a negative duration such as "-1m"
  (`BreakPastCapShowsNegative`). When the break ends at or past the cap,
  the session stops with no notification.
- The callbacks capture the cap at the moment Start is pressed. Changing
  the setting in the middle of a session does not change when that session
  stops (`SettingIgnoredWhileRunning`). The status line, however, reads the
  current setting.
- The session start is tested for JavaScript truthiness. A session
  started at timestamp 0 never refreshes its elapsed time and never
  auto-stops (`HasSessionStart`).
- After the first break, the one created by `startSession`, the countdown
  is not reset to 20:00. It keeps its last value until the next tick. Every
  later break resets it (`FirstCycle`, `LaterBreakResetsCountdown`).

## Model

| member | source | states |
|---|---|---|
| JsText.FloorDiv | src/App.jsx:339-340 | `Math.floor(a / b)` for b > 0 is the q with q·b ≤ a < q·b + b |
| JsText.TruncDiv | src/App.jsx:341 | the quotient truncated toward zero: bounds of q·b around a, on each side of 0 |
| JsText.JsRem | src/App.jsx:341 | `a % b` is a minus the truncated quotient times b, lies strictly between -b and b, and has the sign of a |
| JsText.NatToString | src/App.jsx:342-344 | decimal digits of n: non-empty, all digits, one digit exactly when n < 10, no leading zero except for 0 |
| JsText.IntToString | src/App.jsx:342-344 | `toString` of an integer: digits for n ≥ 0, a '-' followed by digits for n < 0 |
| JsText.IntToStringValue | src/App.jsx:342-344 | the text of `toString` reads back as its integer: i itself for i ≥ 0, and -i after the '-' for i < 0 |
| JsText.PadStart | src/App.jsx:342-344 | `padStart`: length max(|s|, width), and s preceded by fill characters only |
| JsText.ParseNatToString | src/App.jsx:342-344 | the decimal text of n reads back as n |
| JsText.PaddedRoundTrip | src/App.jsx:342-344 | zero-padded decimal text is all digits and reads back as n |
| Display.Field | src/App.jsx:342-344 | a field of the countdown: `toString` padded on the left with '0' to two columns; its meaning is stated by `Display.FieldDigits` |
| Display.FieldDigits | src/App.jsx:342-344 | a non-negative field is at least two digits that read back as its value, and exactly two below 100 |
| Display.FormatTime | src/App.jsx:338-345 | formatTime on every integer: floor to whole seconds, floor minutes, truncating `%` seconds, two padded fields around ':'; its meaning is stated by the lemmas below |
| Display.FormatTimeRoundTrip | src/App.jsx:338-345 | for ms ≥ 0 the "MM:SS" text has seconds below 60 and fields of at least two digits, and it parses back to floor(ms / 1000) |
| Display.FormatTimeSameIff | src/App.jsx:338-345 | two non-negative durations display the same countdown if and only if they have the same whole seconds |
| Display.FormatTimeWidth | src/App.jsx:338-345 | below 100 minutes the text is exactly five characters with ':' in the middle |
| Display.FormatTimeExample | src/App.jsx:338-345 | 125000 ms is "02:05" |
| Display.FormatTimeFullPhase | src/App.jsx:338-345 | 20 minutes is "20:00" |
| Display.FormatTimeNegative | src/App.jsx:338-345 | -1 ms is "-1:-1" (floor for minutes, truncating `%` for seconds) |
| Display.FormatSessionTime | src/App.jsx:347-355 | formatSessionTime on every integer: floor to whole minutes, floor hours, truncating `%` minutes, the hours part only when positive; its meaning is stated by the lemmas below |
| Display.FormatSessionTimeRoundTrip | src/App.jsx:347-355 | for ms ≥ 0 the text is "Mm" or "Hh Mm" with minutes below 60, and it parses back to floor(ms / 60000) |
| Display.FormatSessionTimeHoursIff | src/App.jsx:347-355 | an hours part appears if and only if the duration is at least one hour |
| Display.FormatSessionTimeExample | src/App.jsx:347-355 | 5400000 ms is "1h 30m" |
| Display.FormatSessionTimeMinutesOnly | src/App.jsx:347-355 | 120000 ms is "2m" |
| Display.FormatSessionTimeZero | src/App.jsx:347-355 | 0 ms is "0m" |
| Display.FormatSessionTimeMinusOne | src/App.jsx:347-355 | -1 ms is "-1m" |
| SessionSpec.Initial | src/App.jsx:317-322 | the component's opening state: idle, a full countdown, no session start, auto-stop setting "never"; `SessionSpec.InitialInv` states its properties |
| SessionSpec.HasSessionStart | src/App.jsx:385 | the truthiness test of the session-start reference: present and not 0 |
| SessionSpec.CapReached | src/App.jsx:390-392 | the auto-stop test: a positive captured cap and a session at least that many hours long |
| SessionSpec.RefreshElapsed | src/App.jsx:385-387 | the first thing each callback does: session length set to now − start when the start is truthy; `SessionSpec.StepRefreshesElapsed` states it of every tick |
| SessionSpec.SetWorkDuration | src/App.jsx:678 | the drop-down: only the setting changes; `SessionSpec.SetWorkDurationInv` states its properties |
| SessionSpec.Start | src/App.jsx:376-382 | startSession after the permission request; `SessionSpec.StartInv` and `SessionSpec.StartAnchors` state its properties |
| SessionSpec.Stop | src/App.jsx:535-540 | stopSession; `SessionSpec.StopInv` and `SessionSpec.StopResets` state its properties |
| SessionSpec.AutoStopIn | src/App.jsx:626-627 | the "Auto-stop in" duration of the status line: current setting in hours minus the session length |
| SessionSpec.Step | src/App.jsx:383-533 | a tick never changes the setting or the captured cap, and never re-anchors a session it leaves running |
| SessionSpec.InitialInv | src/App.jsx:317-322 | the opening state is idle, keeps the invariant, and shows "20:00" |
| SessionSpec.StartInv | src/App.jsx:376-382 | Start gives a working session that keeps the invariant, with the session start and the work anchor both at now, a full 20-minute countdown, and the cap taken from the current setting |
| SessionSpec.StartAnchors | src/App.jsx:376-400 | after Start at `now`, a tick at t within 20 minutes and below the cap shows exactly 20 min − (t − now) and session length t − now |
| SessionSpec.StopInv | src/App.jsx:535-547 | Stop yields an idle state that keeps the invariant, from any state |
| SessionSpec.StopResets | src/App.jsx:535-547 | Stop resets the countdown to 20:00, the session length to "0m" and the session start to null, and a second Stop changes nothing |
| SessionSpec.IdleTick | src/App.jsx:535-547 | once stopped, the cleared callbacks do nothing: a tick changes nothing and notifies nobody |
| SessionSpec.StepInv | src/App.jsx:383-533 | every tick keeps the invariant: a running session has a start, an idle one shows a fresh state, the countdown is never negative |
| SessionSpec.StepClocked | src/App.jsx:383-533 | with a clock that does not go back, anchors stay in the past and the countdown stays within 20 minutes |
| SessionSpec.SetWorkDurationInv | src/App.jsx:678 | choosing a setting keeps the invariant and the phase |
| SessionSpec.NotifyIff | src/App.jsx:389-408 | a tick notifies if and only if it is a work tick that reaches the cap or ends the work phase |
| SessionSpec.AutoStopPrecedence | src/App.jsx:389-397 | on a work tick at the cap, the session stops with one notification and no break begins, even if the phase has also run out |
| SessionSpec.WorkToBreak | src/App.jsx:399-408 | a work tick at or past 20 minutes, below the cap, sets the countdown to 0, starts the break anchored at now, and notifies once |
| SessionSpec.BreakToWork | src/App.jsx:415-432 | a break tick at or past 20 seconds never notifies, stops the session if the cap is reached, and otherwise starts work anchored at now, with the countdown reset except after the first break |
| SessionSpec.WorkCountdown | src/App.jsx:399-400 | inside a work phase below the cap, the countdown is 20 min − (now − anchor), which lies in (0, 20 min] |
| SessionSpec.BreakCountdown | src/App.jsx:415-416 | inside a break, the countdown is 20 s − (now − anchor), which lies in (0, 20 s], and the cap is not consulted |
| SessionSpec.StepRefreshesElapsed | src/App.jsx:385-387 | every tick that leaves the session running sets its length to now − session start |
| SessionSpec.WorkingBelowCap | src/App.jsx:389-397 | a tick that leaves a capped session working leaves a positive auto-stop countdown, when the setting was not changed |
| SessionSpec.SettingIgnoredWhileRunning | src/App.jsx:390-392 | changing the setting changes nothing a tick does, because the callbacks captured the cap at Start |
| SessionSpec.BreakPastCapShowsNegative | src/App.jsx:489-496 | a session past its cap during a break keeps running, and the auto-stop text shows "-1m" |
| SessionSpec.CountdownDisplayWidth | src/App.jsx:616-618 | in every state a monotone clock reaches, the countdown text has five characters |
| SessionRuns.Run | src/App.jsx:383-533 | the installed interval callbacks firing at the instants of a sequence, in order; each tick sends at most one notification, so a run sends at most as many as it has ticks |
| SessionRuns.StepWithinPhase | src/App.jsx:399-400 | a tick inside a phase changes only the two displayed durations, and the next tick inside the phase overwrites both |
| SessionRuns.NoDrift | src/App.jsx:449-450 | any number of ticks inside one phase, at any instants, give the state of the last tick alone and send no notification |
| SessionRuns.RunKeepsCap | src/App.jsx:390-392 | no run of ticks changes the setting or the captured cap |
| SessionRuns.FirstCycle | src/App.jsx:402-464 | with late ticks: one notification at the first tick past 20 minutes, work again at the first tick past 20 seconds of break, anchored there; the next break comes exactly 20 minutes later; the first break leaves the countdown at 0 |
| SessionRuns.LaterBreakResetsCountdown | src/App.jsx:498-499 | after two cycles, two notifications were sent and the later break reset the countdown to 20 minutes, anchored at its last tick |
| Timer.Session.constructor | src/App.jsx:317-336 | the component opens in the initial state |
| Timer.Session.SetWorkDuration | src/App.jsx:678 | changes the setting and nothing else |
| Timer.Session.Start | src/App.jsx:368-382 | performs `SessionSpec.Start` in place and keeps the invariant |
| Timer.Session.Tick | src/App.jsx:383-533 | performs `SessionSpec.Step` in place and returns its notification flag |
| Timer.Session.Stop | src/App.jsx:535-547 | performs `SessionSpec.Stop` in place and keeps the invariant |

## Left out

- The notification and permission calls (`sendNotification`, `requestNotificationPermission`) are foreign asynchronous calls. A notification is the flag that `Tick` returns. A failed call only logs in App.jsx.
- `setInterval` and `clearInterval` scheduling is left out: `Tick(now)` is one firing of the installed callback, with the time as a parameter. Each callback reads `Date.now()` several times, and `startSession` reads it twice, once for the session start and once for the work anchor (src/App.jsx:379 and 382). The model uses one `now` per tick and one `now` for both anchors of Start.
- Start while a session is running is modelled as a reset. While running, the page makes the Start button transparent and sets `pointer-events: none` on it (src/App.jsx:634-646); the button is not disabled. Start can still be reached while a session runs in two ways: from the keyboard, since the button keeps its focus and activation; and by a second click during the awaited permission request, since `isRunning` only becomes true after it returns (src/App.jsx:370-376). Either way a second interval is installed next to the first, and `stopSession` clears only the last one. The several intervals firing side by side are not modelled.
- JavaScript numbers are modelled as unbounded integers. Millisecond timestamps and durations are integers, so floor division and `%` are exact. Floating-point rounding only matters beyond 2^53 ms, which is not modelled.
- The styled components, the JSX rendering beyond the two formatted texts, dark mode, its `localStorage` persistence and the system-theme listener are left out as presentation.
- The unmount cleanup is timer plumbing and is left out.
- main.js (the Electron window, tray and IPC glue) is not part of this model.
- 202020.go (a terminal variant built on a stopwatch library) is not part of this model.

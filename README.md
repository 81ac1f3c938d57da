# Flowtime timer: a verified model of its session state machine

Flowtime is a desktop timer for the flowtime technique: the user works for
as long as they like, then takes a break of one fifth of the work time.
This project models the `FlowtimeTimer` class of `script.js` in Dafny:

- `formatTime`, which renders a second count as `HH:MM:SS` with an
  uncapped hours field (`time_format.dfy`, on top of the JavaScript string
  built-ins `trim`, `padStart` and `toString` in `js_text.dfy`);
- the tick rule of `updateTimer` and the transitions `startWork`,
  `startBreak` and `stopTimer`, as pure functions on a snapshot of the
  `state` record plus the host's interval timers (`session.dfy`);
- the class itself, whose fields are updated in place by methods proved to
  perform those transitions (`timer.dfy`). `updateTimer`, `startBreak` and
  `stopTimer` are the code's own. `startWork` is modelled twice:
  `Session.StartWorkAsWritten` is the code as written, and
  `Session.StartWork`, which the class uses, clears the previous interval
  first (see Findings).

The clock (`Date.now()`) is the parameter `now`, in milliseconds. An
interval timer is a numbered handle: `setInterval` issues the next handle
and makes it live, and `clearInterval` makes it no longer live. A tick
(`updateTimer`) is what a live interval does when it fires.

The code has no guards on its transitions, and the model follows it:
- `startBreak` runs from any state.
- `stopTimer` keeps `isBreak`, `recommendedBreak`, `startTime` and the
  (cleared) interval handle in `state`.
- A second `stopTimer` after work overwrites `lastWorkDuration` with zero
  (`Session.StopTwice`).

## Model

| member | source | states |
|---|---|---|
| `JsText.TrimStart` | script.js:74 | the result is a suffix of the input, everything removed is whitespace, and it does not start with whitespace |
| `JsText.TrimEnd` | script.js:74 | the result is a prefix of the input, everything removed is whitespace, and it does not end with whitespace |
| `JsText.Trim` | script.js:74 | `trim()`: the result is the part of the input between a whitespace-only prefix and a whitespace-only suffix, and it neither starts nor ends with whitespace |
| `JsText.TrimEmptyIffBlank` | script.js:74-75 | the trimmed task is empty exactly when every character of the task is ECMAScript whitespace |
| `JsText.Digits` | script.js:51-53 | `toString()` of a natural number: at least one decimal digit, and a leading zero only in the numeral "0" of zero |
| `JsText.JsToString` | script.js:51-53 | `toString()` of an integer: for n >= 0 a non-empty digit string whose value is n, with a leading zero only in "0"; for n < 0 a minus sign followed by at least one digit |
| `JsText.JsToStringNegative` | script.js:51-53 | for n < 0 the digits after the minus sign spell -n and do not start with zero |
| `JsText.ValueOfDigits` | script.js:51-53 | reading the numeral back gives the number it was written from |
| `JsText.PadStart2` | script.js:51-53 | `padStart(2, '0')`: only '0' is added, on the left, up to length 2; a longer string is never cut |
| `TimeFormat.JsRem` | script.js:52-53 | JavaScript `%`: a = q*d + r for some integer q, r lies strictly between -d and d, and r is never of the opposite sign to a |
| `TimeFormat.FormatTime` | script.js:50-54 | every output, for any integer input, is at least 8 characters long |
| `TimeFormat.FormatTimeFields` | script.js:50-54 | for seconds >= 0: three colon-separated decimal fields, minutes and seconds two digits each and below 60, hours*3600 + minutes*60 + seconds equal to the input, hours exactly two digits iff below 100 hours, and a longer hours field has no leading zero |
| `TimeFormat.ParseFormatTime` | script.js:50-54 | reading the formatted string back gives the second count (round trip) |
| `TimeFormat.FormatTimeShape` | script.js:54 | every output for seconds >= 0 is at least 8 characters long and has exactly two colons |
| `TimeFormat.FormatTimeZero` | script.js:50-54 | 0 seconds display as "00:00:00" |
| `TimeFormat.FormatTimeOneOneOne` | script.js:50-54 | 3661 seconds display as "01:01:01" |
| `TimeFormat.FormatTimeHundredHours` | script.js:51 | 360000 seconds display as "100:00:00", hours field "100" |
| `TimeFormat.FormatTimeNegative` | script.js:50-54 | a negative count (clock set back) can give each field its own minus sign: for example -1 displays as "-1:-1:-1" |
| `Session.ElapsedSeconds` | script.js:59 | the whole seconds between start and now, rounded down: r*1000 <= now - start < r*1000 + 1000 |
| `Session.RecommendedBreak` | script.js:97 | one fifth of the work time rounded up: 5r - 5 < work <= 5r |
| `Session.RecommendedBreakOfWork` | script.js:64 | for work >= 0 the break is (work + 4) / 5 and never negative |
| `Session.RecommendedBreakExamples` | script.js:64 | 0 -> 0, 1 -> 1, 25 -> 5, 26 -> 6, 130 -> 26 |
| `Session.InitialState` | script.js:23-32 | `getInitialState()`: no interval, no start time, not a break, every count zero |
| `Session.Initial` | script.js:23-32 | a fresh timer is valid and no interval is live |
| `Session.Tick` | script.js:57-68 | the new elapsed time is the floor of (now - start)/1000 with a null start read as 0; during work the preview is its fifth rounded up; during a break the recommendation is kept; nothing else changes |
| `Session.TickAbsorbs` | script.js:58-59 | a tick overwrites everything an earlier tick computed |
| `Session.TicksUseLastOnly` | script.js:58-59 | after any number of ticks the state is that of one tick at the last instant: elapsed time does not accumulate |
| `Session.TicksDuringBreak` | script.js:62-68 | ticks during a break change only the elapsed time |
| `Session.BreakRecommendationFixed` | script.js:93-104 | after a break starts, any ticks keep the captured work duration and its recommended break |
| `Session.WorkPreview` | script.js:62-64 | during work, after a tick at `now`, elapsed and preview are the floor and one-fifth of the time since the start |
| `Session.StartWork` | script.js:73-81 | with `startWork` corrected (see Findings): a valid timer stays valid; last work duration and recommendation untouched |
| `Session.StartWorkAsWritten` | script.js:73-81 | `startWork` as written: a blank task changes nothing; otherwise the new handle joins the live intervals and none is cleared |
| `Session.StartWorkAsWrittenDiffers` | script.js:73-81 | as written and corrected, `startWork` leaves the same state record and issues the same handle; for a non-blank task the corrected live set is the as-written one without the previously held interval |
| `Session.StartWorkNoOpIffBlank` | script.js:74-75 | `startWork` changes nothing exactly when the task is blank |
| `Session.StartWorkSession` | script.js:77-81 | with `startWork` corrected (see Findings), for a non-blank task: clock at `now`, elapsed 0, not a break, the next handle held; last work duration and recommendation untouched; from a valid timer the new interval is fresh and the only live one |
| `Session.StartBreak` | script.js:91-106 | a valid timer stays valid; the recommendation is the elapsed time before the call divided by 5, rounded up |
| `Session.StartBreakSession` | script.js:93-106 | from any state: last work duration = elapsed before the call, recommendation its fifth rounded up, elapsed 0, break, clock at `now`; the held interval is cleared and the next handle is set and held; from a valid timer, that interval is the only live one |
| `Session.Stop` | script.js:116-126 | the live intervals only shrink; from a valid timer none is left |
| `Session.StopSession` | script.js:116-126 | elapsed 0; last work duration copied only outside a break; isBreak, recommendation, start time and handle kept; the held interval cleared; from a valid timer nothing is live |
| `Session.StopInitial` | script.js:116-126 | stopping a freshly constructed timer changes nothing |
| `Session.StopTwice` | script.js:119-126 | a second stop equals the first exactly when the timer was on a break or had zero elapsed time |
| `Session.RunValid` | script.js:73-126 | with `startWork` corrected (see Findings): every sequence of submits, clicks and ticks keeps at most the held interval live |
| `Session.NothingTicksAfterStop` | script.js:116-117 | with `startWork` corrected (see Findings): whatever happened since the page loaded, after a stop no interval is live |
| `Session.OrphanedIntervalAsWritten` | script.js:81 | as written, for any non-blank task, start work, break, start work, stop leaves the break's interval live, and its tick moves the elapsed time off zero |
| `Session.NoOrphanedInterval` | script.js:81 | with `startWork` corrected, the same clicks leave no interval live |
| `Session.WriteReportScenario` | script.js:73-106 | 130 s of work earn a 26 s break; the break clock restarts at zero and the recommendation stays |
| `Timer.IntervalScheduler.SetInterval` | script.js:81 | returns the next handle and makes it live |
| `Timer.IntervalScheduler.ClearInterval` | script.js:101 | removes the handle from the live set; `null` or a cleared handle changes nothing |
| `Timer.FlowtimeTimer.constructor` | script.js:23-32 | the fields hold `getInitialState()` and no interval is live |
| `Timer.FlowtimeTimer.UpdateTimer` | script.js:57-71 | the fields after the call are `Session.Tick` of those before |
| `Timer.FlowtimeTimer.StartWork` | script.js:73-89 | the fields after the call are `Session.StartWork` of those before (the previous interval cleared first, see Findings), and at most one interval stays live |
| `Timer.FlowtimeTimer.StartBreak` | script.js:91-114 | the fields after the call are `Session.StartBreak` of those before, and at most one interval stays live |
| `Timer.FlowtimeTimer.StopTimer` | script.js:116-135 | the fields after the call are `Session.Stop` of those before, and no interval is live |

## Findings

| source | as written | input that shows it | evidently intended | confidence | as-written member | corrected member |
|---|---|---|---|---|---|---|
| script.js:81 | `startWork` sets a new interval without clearing the one in `state.interval` | start work at 0 ms, start a break at 60000 ms (the start button is enabled during a break), start work at 120000 ms, stop: the break's interval stays live, and its tick at 125000 ms sets `elapsedSeconds` to 5 after the stop | clear `state.interval` before setting the new one, as `startBreak` does (script.js:101) | high; not executed | `Session.OrphanedIntervalAsWritten` (on `Session.StartWorkAsWritten`) | `Session.NoOrphanedInterval` and `Session.NothingTicksAfterStop` (on `Session.StartWork`, used by `Timer.FlowtimeTimer.StartWork`) |

## Left out

- DOM lookups and writes (`getElements`, `textContent`, `disabled`, `setAttribute`/`removeAttribute`, `document.title`): display sinks. The times they show are `TimeFormat.FormatTime` of the modelled fields, except the literal "00:00:00" that `startWork` and `stopTimer` write (script.js:88, script.js:124); the status and session texts are not times.
- `initializeEventListeners` and the `beforeunload` prompt: event wiring. Form submits, clicks and ticks appear only as the `Session.Event` sequences of `Session.Run`.
- The timing of ticks: `setInterval` calls are not scheduled in time. A `Session.Fire` event may arrive at any `now`, and even when no interval is live, so `Session.Run` allows more ticks than the page can see and the lemmas about it hold for every order of ticks.
- Session.RunValid: holds only with `startWork` corrected. As written, `startWork` leaves the previous interval live, and `Session.OrphanedIntervalAsWritten` shows a run after which an interval other than the held one is live.
- Session.StartWorkSession: states the corrected `startWork`. As written, the new interval is not the only live one; `Session.StartWorkAsWritten` states what it does instead.
- Session.NothingTicksAfterStop: holds only with `startWork` corrected, for the same reason as `Session.RunValid`.
- `Date.now()` is not read: every operation takes `now` as a parameter.
- JavaScript numbers are doubles, exact only up to 2^53; the model uses unbounded integers, which agree with them for every realistic clock reading.
- main.js (window, tray icon, menu, app lifecycle): pure UI glue with no timer logic.
- The noise generator (white, pink and brown noise) is not part of this model: its code is not among the source files, and it is floating-point audio work.

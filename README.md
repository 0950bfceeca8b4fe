# Hackathon timer: countdown arithmetic and deadline construction in Dafny

This project models the logic of a browser countdown display. A user picks a date and
an "HH:mm" time and confirms them. The deadline selector (`DeadlineInput`) then emits a
fresh `Date` on that day at hour:minute:00.000. The countdown renderer (`Timer`) splits
`deadline - now` into days, hours, minutes and seconds. A non-positive difference
clamps to zero. The renderer picks the colour from the remaining total: critical below
10 minutes, urgent below 1 hour, otherwise normal. It shows "time's up" at zero, shows
each field as two characters, and shows the day field only while at least one day is left.

Modules:

- `JsText` (JsText.dfy): the JavaScript built-ins the components use. These are
  `String(n)`, `padStart`, `split` on one character (with `Join` as its inverse) and
  `Number(s)`.
- `JsDates` (JsDates.dfy): the part of `Date` the selector uses. It has a time value
  (milliseconds, or NaN for an Invalid Date) and its abstract fields
  `{day, hour, minute, second, millisecond}`, with `Fields`/`Compose` proved mutually
  inverse. It also has `setHours` arithmetic and a mutable `JsDate` class with a copy
  constructor and an in-place `SetHours`.
- `Timer` (Timer.dfy): `calculateTimeRemaining`, the `isFinished`/`isUrgent`/`isCritical`
  flags, `getTimerColorClass`, `formatNumber` and the render choice. It also has the
  component's state as the class `TimerState`, which is set with a deadline, recomputed
  on each tick and reset when cleared.
- `DeadlineInput` (DeadlineInput.dfy): the `"HH:mm"` parse, the initial state and
  `handleSetDeadline`. The selector's state is the class `DeadlineSelector`.

The clock is a parameter (`now`). Instants are `getTime()` values in whole milliseconds.
`deadline - now` is modelled as exact integer subtraction, and `Math.floor(difference / k)`
as integer division. Both agree with JavaScript's floating-point arithmetic when `now` is
at or after the epoch. A valid deadline is then at most 8.64e15 ms (10^8 days) ahead.
That is below 2^53, so the subtraction is exact. It is also fewer than 2^27 days, so the
quotient floors to the integer quotient. The difference is positive where the fields are
computed, so JavaScript's `%` and Dafny's `%` agree there.

## Model

| member | source | states |
|---|---|---|
| Timer.CalculateTimeRemaining | src/components/Timer.tsx:24-38 | a deadline at or before `now` gives `{0,0,0,0}` with total 0; otherwise total is the exact difference, `days >= 0`, `hours < 24`, `minutes < 60`, `seconds < 60`, and the fields account for the difference to within the last unfinished second |
| Timer.DecompositionUnique | src/components/Timer.tsx:32-35 | for a positive difference, any in-range fields that account for it to within a second are exactly the computed ones |
| Timer.MatchesDateFields | src/components/Timer.tsx:32-35 | the source's `%` chain on the whole difference gives the day, hour, minute and second of that many milliseconds |
| Timer.TotalPositiveIffAhead | src/components/Timer.tsx:28-37 | total is never negative, and it is positive if and only if the deadline is still ahead of `now` |
| Timer.CountdownRunsDown | src/components/Timer.tsx:26-30 | as `now` advances the total never grows, and once it is 0 it stays 0 |
| Timer.CalculatedIsConsistent | src/components/Timer.tsx:24-38 | recomputing a returned value from its own total gives the same value |
| Timer.IsFinished | src/components/Timer.tsx:65 | `isFinished` holds exactly in the expired band (total <= 0), and a finished total is also critical and urgent |
| Timer.IsUrgent | src/components/Timer.tsx:66 | `isUrgent` holds exactly outside the normal band (total below one hour) |
| Timer.IsCritical | src/components/Timer.tsx:67 | `isCritical` holds exactly in the critical or expired band (total below ten minutes), and implies `isUrgent` |
| Timer.TimerColorClass | src/components/Timer.tsx:82-86 | `getTimerColorClass`: danger exactly for the critical (or expired) band, warning exactly for the urgent band, primary exactly for the normal band |
| Timer.FlagsAndColorMatchBands | src/components/Timer.tsx:65-86 | critical implies urgent; finished iff total <= 0; the colour is danger for the critical band, warning exactly for the urgent band and primary exactly for the normal band |
| Timer.ColorBoundaries | src/components/Timer.tsx:82-86 | total 600000 gives the warning colour (not danger); total 3600000 gives primary (not warning) |
| Timer.UrgencyMonotone | src/components/Timer.tsx:65-67 | less time left never gives a calmer band |
| Timer.FormatNumber | src/components/Timer.tsx:88 | at least two digit characters; below 100 exactly two that read back as the number; from 100 on exactly `String(n)` with no padding |
| Timer.CellOf | src/components/Timer.tsx:100-101 | `formatNumber(n).charAt(0)` and `.charAt(1)` are two digits; below 100 they read back as n; from 100 on they are only the first two characters of `String(n)`, which is longer |
| Timer.Cells | src/components/Timer.tsx:93-176 | four fields with days first when `days > 0`, otherwise three; the last three are always hours, minutes and seconds; each field shows `CellOf` of its own value (the days cell the days, the hours cell the hours, and so on) |
| Timer.Render | src/components/Timer.tsx:51-183 | the prompt iff there is no deadline; blank iff there is a deadline but no value yet; "time's up" iff the total is <= 0; otherwise the colour follows the urgency band, the final-countdown banner shows iff critical, and there are four fields iff days > 0; the fields shown are `Cells` of the remaining time |
| Timer.RenderCountdown | src/components/Timer.tsx:65-176 | "time's up" iff the deadline is not ahead; otherwise the colour matches the urgency band, the final-countdown banner shows iff critical, there are four fields (days first) iff days > 0, else three, ending hours, minutes, seconds |
| Timer.Scenarios | src/components/Timer.tsx:24-38 | 90,061,000 ms gives 1/1/1/1 (normal); 500,000 ms gives 0/0/8/20 (critical); 5,000 ms past gives zeros and "time's up" |
| Timer.TimerState.constructor | src/components/Timer.tsx:15-42 | mounting with a deadline computes the value at once; without one the value is null |
| Timer.TimerState.SetDeadline | src/components/Timer.tsx:39-41 | a new deadline replaces the old and the remaining time becomes `calculate(d, now)` at once |
| Timer.TimerState.Clear | src/components/Timer.tsx:19-21 | clearing the deadline sets the remaining time to null |
| Timer.TimerState.Tick | src/components/Timer.tsx:44-46 | a tick replaces the remaining time with `calculate(deadline, now)` and changes nothing else |
| Timer.TimerState.View | src/components/Timer.tsx:51-80 | the prompt shows iff there is no deadline, the blank state never shows once the effect has run, and "time's up" shows iff the total is 0 |
| JsText.NatToString | src/components/Timer.tsx:88 | `String(n)` is one or more digits with no leading zero, of length 1 below 10 and 2 from 10 to 99 |
| JsText.NatToStringRoundTrip | src/components/Timer.tsx:88 | reading back the digits of `String(n)` gives n |
| JsText.LeadingZeroValue | src/components/Timer.tsx:88 | a leading '0' added by padding does not change the value read back |
| JsText.PadStart | src/components/Timer.tsx:88 | `padStart` gives the longer of the string and the target length, keeps the string as its suffix and fills the front with the pad |
| JsText.Split | src/components/DeadlineInput.tsx:27 | `split` always yields at least one piece |
| JsText.SplitJoin | src/components/DeadlineInput.tsx:27 | joining the pieces of `split` with the separator gives the original string |
| JsText.SplitPieces | src/components/DeadlineInput.tsx:27 | there is one piece more than there are separators, and no piece contains the separator |
| JsText.SplitAtFirst | src/components/DeadlineInput.tsx:27 | splitting `a + ':' + b`, with no ':' in `a`, gives `a` followed by the pieces of `b` |
| JsText.ToNumber | src/components/DeadlineInput.tsx:27 | `Number` gives a non-negative integer exactly for digit strings, the empty string included, and NaN otherwise |
| DeadlineInput.ParseTime | src/components/DeadlineInput.tsx:27 | the hour and minute read are non-negative; a minute is read only when the string contains ':'; a string without ':' gives `Number` of the whole string as the hour and NaN as the minute (full characterisation in ParseDigitParts) |
| DeadlineInput.FormatHHmm | src/components/DeadlineInput.tsx:21 | for hour and minute below 100 the result is five characters: two digits, ':', two digits (read back by FormatParseRoundTrip) |
| DeadlineInput.InitialTimeValue | src/components/DeadlineInput.tsx:20-22 | the initial time string is always a well-formed "HH:mm" (two digits, ':', two digits) |
| DeadlineInput.DeadlineAsWritten | src/components/DeadlineInput.tsx:27-29 | as written: the emitted date is valid exactly when the selected date is valid and both the hour and the minute are numbers; a valid result has second and millisecond 0, and for an hour below 24 and a minute below 60 it keeps the selected day with that hour and minute |
| DeadlineInput.ParseDigitParts | src/components/DeadlineInput.tsx:27 | `"HH:mm"`, with digit parts and an optional further `:` piece, parses to hours = HH and minutes = mm |
| DeadlineInput.FormatParseRoundTrip | src/components/DeadlineInput.tsx:20-27 | formatting an hour and minute as "HH:mm" and parsing it back gives the same hour and minute |
| DeadlineInput.InitialTimeParsesBack | src/components/DeadlineInput.tsx:20-22 | the initial time string parses to 23:59 without a current deadline, else to the deadline's hour and minute |
| DeadlineInput.EmptyTimeEmitsInvalidDate | src/components/DeadlineInput.tsx:27-29 | as written, an emptied time field parses to hour 0 and no minute, and the emitted deadline is an Invalid Date |
| DeadlineInput.ConfirmedDeadline | src/components/DeadlineInput.tsx:24-31 | corrected (see ## Findings): nothing is emitted exactly when there is no selected date or the hour or the minute is NaN, where the source emits an Invalid Date; an emitted deadline is the as-written `setHours` result, and it is valid exactly when the selected date is |
| DeadlineInput.ConfirmedKeepsDayAndSetsTime | src/components/DeadlineInput.tsx:28-29 | for "HH:mm" with hour < 24 and minute < 60, the deadline keeps the selected day, has hour HH and minute mm, and has second and millisecond 0 |
| DeadlineInput.ConfirmedAgreesOnDigitParts | src/components/DeadlineInput.tsx:25-29 | for every time string of two digit parts, the confirmed deadline is the one the source emits |
| DeadlineInput.DeadlineSelector.constructor | src/components/DeadlineInput.tsx:17-22 | the selected date is the current deadline object itself, or none; the time string is its "HH:mm", or "23:59" |
| DeadlineInput.DeadlineSelector.SelectDate | src/components/DeadlineInput.tsx:55-58 | selecting a day, or deselecting it, changes only the selected date |
| DeadlineInput.DeadlineSelector.ChangeTime | src/components/DeadlineInput.tsx:72-76 | editing the time input changes only the time string |
| DeadlineInput.DeadlineSelector.ConfirmEnabled | src/components/DeadlineInput.tsx:84 | the button is enabled exactly when a date is selected, and while it is disabled nothing would be emitted |
| DeadlineInput.DeadlineSelector.HandleSetDeadline | src/components/DeadlineInput.tsx:24-32 | corrected (see ## Findings): nothing is emitted when the hour or the minute is NaN, where the source emits an Invalid Date; with the button disabled (no date) nothing is emitted; otherwise it returns a fresh `Date` holding the confirmed deadline, and the selected `Date` is not modified |
| JsDates.Fields | src/components/DeadlineInput.tsx:28-29 | a time value's fields are in range and compose back to the time value |
| JsDates.FieldsOfCompose | src/components/DeadlineInput.tsx:28-29 | in-range fields are recovered exactly from the time value they compose to |
| JsDates.SetHoursValue | src/components/DeadlineInput.tsx:29 | `setHours` gives a valid time value exactly when the date was valid and every argument is a number |
| JsDates.SetHoursFields | src/components/DeadlineInput.tsx:29 | setting an in-range time of day keeps the day and sets exactly hour, minute, second and millisecond |
| JsDates.WholeMinutesFields | src/components/DeadlineInput.tsx:29 | a time value that is a whole number of minutes, as `setHours(h, m, 0, 0)` yields, has second and millisecond 0 |
| JsDates.SetHoursCarries | src/components/DeadlineInput.tsx:29 | hours of 24 or more carry into the following days |
| JsDates.JsDate.Copy | src/components/DeadlineInput.tsx:28 | `new Date(d)` is a new object with the same time value |
| JsDates.JsDate.SetHours | src/components/DeadlineInput.tsx:29 | `setHours` replaces this date's time value with the `setHours` result |

## Findings

| source | as written | input that shows it | evidently intended | confidence | as-written member | corrected member |
|---|---|---|---|---|---|---|
| src/components/DeadlineInput.tsx:27-29 | the minute is taken from the second piece of `split(":")` without a check. A missing piece is `undefined`, and `setHours(0, undefined, 0, 0)` makes the copy an Invalid Date. That date is emitted as the deadline. The next render of the selector reaches `format(currentDeadline, ...)` at line 96, which throws a RangeError on an invalid date before the countdown recomputes, so no NaN field is shown and the page is torn down | a date is selected and the time field is emptied (`timeValue === ""`) before confirming | emit no deadline unless both the hour and the minute are numbers | not executed; medium (depends on the browser letting the time field be emptied) | DeadlineInput.DeadlineAsWritten, DeadlineInput.EmptyTimeEmitsInvalidDate | DeadlineInput.ConfirmedDeadline, used by DeadlineInput.DeadlineSelector.HandleSetDeadline |

Two behaviours of the code that may look unintended are modelled as the code has them:
- Every field is meant to be shown as two digits. The code shows only the first two
  characters of a day count of 100 or more (`Timer.CellOf`).
- An expired countdown could stop its timer. The code keeps ticking, and
  `Timer.TimerState.Tick` recomputes at every tick, zero included.

## Left out

- JSX markup, Tailwind class strings and the Popover, Calendar, Input and Button
  components are presentational. The colour is modelled as the enum `ColorClass`, and
  the rendered output only as the `Screen` datatype.
- `setInterval`, `clearInterval` and the `useEffect`/`useState` lifecycle are left out.
  Ticks are explicit `TimerState.Tick(now)` calls. `TimerState` models the state after
  the effect has run. The one render with a stale value, between a prop change and its
  effect, is not modelled.
- Timer.TimerState.Tick: without a deadline it changes nothing, because no interval is
  scheduled then.
- The wall-clock read `new Date()` is the parameter `now`.
- date-fns `format` with "PPP" and "PPP 'at' HH:mm" (lines 51 and 96) is a foreign
  library and locale formatting. Only the "HH:mm" pattern used for the initial time
  string is modelled.
- DeadlineInput.DeadlineSelector.constructor: requires a valid current deadline, because
  date-fns `format` throws on an Invalid Date.
- Time zones and daylight saving are left out. Local time is modelled with a zero
  offset, and the day is an abstract day number, not a calendar date.
- A clock set before the epoch is left out. There the difference could reach 2^53 ms,
  and the floating-point subtraction and quotient could round; the model computes them
  exactly.
- `TimeClip`, the ±8.64e15 ms limit of a `Date`, is left out. Dates from the calendar
  picker are far inside it.
- JsText.ToNumber: reads only digit strings. Signs, surrounding white space, decimal
  points, exponents, hexadecimal and "Infinity" are read as NaN. A time input produces
  none of them.
- The countdown of an Invalid Date deadline (NaN fields) is not modelled. The Timer takes
  integer instants. The corrected selector emits an Invalid Date only when the selected
  date is itself invalid (`DeadlineInput.ConfirmedDeadline`), which the calendar picker
  never gives.
- src/pages/Index.tsx only holds the deadline and passes it between the two components.
  vite.config.ts is build configuration. Neither is part of this model.

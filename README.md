# Ramadan 2026 countdown — a verified Dafny model

This project models the logic of the Ramadan timetable page, a static web page.
The page fetches a month of daily prayer times (Fajr, which is Sehar, and
Maghrib, which is Iftar). Once a second it then shows which of three phases
the present moment is in: waiting for Sehar, waiting for Iftar, or waiting for
tomorrow's Sehar. For that phase it shows a countdown "HH:MM:SS" to the next
event and a progress bar measured from the previous one.

The modules follow the source files:

- `Countdown` (countdown.dfy) models the pure part of js/app.js:
  - the phase classifier inside `tick`;
  - `timeToDate`;
  - the clamped progress percentage;
  - the zero-padded countdown text.
- `Timer` (timer.dfy) models what one tick leaves on the card. It also has
  the `startCountdown` ticker of js/app.js as a class. The ticker cancels the
  previous interval and replaces it, keeping the newest handle in
  `countdownInterval`.
- `Legacy` (legacy.dfy) models the older root copy, app.js:
  - its ticker, which never cancels an interval;
  - its date-stamped `getCachedTimings` check;
  - a method that restarts both tickers side by side.

  The body of `tick` in app.js (app.js:183-236) is the same code as
  js/app.js:267-320, apart from a redundant pair of parentheses at app.js:226,
  and `timeToDate` (app.js:242-247) is the same as js/app.js:326-331. So
  `Countdown.Classify` and `Timer.Render` model both copies, and every
  classifier row below holds for app.js:196-235 too. The two `startCountdown`
  functions differ in how they schedule the tick (app.js:238-239 against
  js/app.js:261 and 322-323), which is what `Legacy` models.
- `Shared` (shared.dfy) models js/shared.js: `toBnNum`, `to12h`, `getSavedLang`
  and `getSavedCity`. The `to12h` of app.js:169-175 is the same code.
- `Text` (text.dfy) and `Wrappers` (wrappers.dfy) are helpers:
  - decimal numerals;
  - `padStart(2, '0')`;
  - `split` on one separator;
  - an `Option` type.

Time is integer milliseconds with fixed 24-hour days. The clock a tick reads is
a parameter: the day of the month (`getDate()`) and the milliseconds since
local midnight. An instant counts from local midnight at the start of the 1st
of the month. A day record holds the raw Fajr and Maghrib strings
("HH:MM (TZ)"); each is parsed the way `timeToDate` parses it. Where JavaScript
produces NaN, the model says so explicitly:

- a time that does not read as numbers makes the tick `Malformed`;
- `parseInt` of a non-number gives `None`;
- a 0/0 progress ratio gives `None`.

Three behaviours of the code are modelled as written, not as one might expect:

- The progress division has no guard for an empty window. `Countdown.Progress`
  follows JavaScript's arithmetic: remaining > 0 over 0 is -Infinity and clamps
  to 0; remaining < 0 over 0 clamps to 100; 0/0 is NaN. `WellFormedBounds`
  shows the window is never empty when the calendar is well formed.
- A time that reads as NaN does not stop the tick. A NaN date compares as not
  ahead of now, so the tick falls through to a later branch. The model follows
  the branches exactly and reports `Malformed` only when the branch taken counts
  down to, or measures from, a NaN time (see Left out).
- Nothing ever stops the ticker of js/app.js. A later `startCountdown`
  replaces it, and that is the only way it ends.

## Model

| member | source | states |
|---|---|---|
| `Countdown.Instant` | js/app.js:268-269 | the instant of the clock: its whole days since the 1st are `getDate() - 1` and the rest is the time of day |
| `Countdown.DayStart` | js/app.js:328-329 | local midnight of the day holding `t`, at most `t` and less than a day before it |
| `Countdown.NumberOf` | js/app.js:327 | `Number` of a time field is a number exactly when the field is all ASCII digits; the empty field counts as 0 |
| `Countdown.ParseTime` | js/app.js:327 | computes the hour and minute `timeToDate` reads, or None for NaN; `Countdown.ParseTimeFields` and `Countdown.ParseTimeOfPadded` state what it yields |
| `Countdown.ParseTimeFields` | js/app.js:327 | the time parses exactly when the minute field exists and both fields are digits; the values are their decimal values |
| `Countdown.AnchorTime` | js/app.js:326-331 | `timeToDate` is defined (not NaN) exactly when both fields parse; `Countdown.AnchorTimeFields` states its value |
| `Countdown.AnchorTimeFields` | js/app.js:326-331 | for a well-formed time, the result is on the same calendar day as `base`, reads back the parsed hour and minute, and has zero seconds and milliseconds |
| `Countdown.ParseTimeOfPadded` | js/app.js:327 | a zero-padded "HH:MM (TZ)" parses back to its hour and minute, whatever follows the space |
| `Countdown.AnchorsOf` | js/app.js:274-301 | yesterday's record is consulted exactly when it is not the 1st; tomorrow's exactly when today is not the last record |
| `Countdown.Decide` | js/app.js:280-306 | the branches always yield an outcome, and before Sehar or Iftar the target is still ahead. A NaN time never compares as ahead, and the outcome is Malformed only when the branch taken uses a NaN time |
| `Countdown.DecideIgnoresUnusedTimes` | js/app.js:280-306 | a tick reads only the times of its branch. Before Sehar, today's Iftar and tomorrow's Sehar do not matter. Before Iftar, neither neighbour matters. After both, yesterday's Iftar and a passed or NaN Sehar do not matter. So a NaN there is harmless |
| `Countdown.MalformedNeedsNaN` | js/app.js:280-306 | a tick is Malformed only when one of the times it read is NaN |
| `Countdown.Classify` | js/app.js:267-306 | the tick yields no state (returns early) exactly when today has no record |
| `Countdown.DayStartShift` | js/app.js:284-286 | moving a date back or forward one day moves its day start by exactly one day |
| `Countdown.PreviousAnchor` | js/app.js:283-286 | yesterday's Maghrib is anchored to the previous day |
| `Countdown.NextAnchor` | js/app.js:297-300 | tomorrow's Fajr is anchored to the next day |
| `Countdown.AnchorsOfWellFormed` | js/app.js:274-301 | with well-formed times around today, the four anchors are their offsets on yesterday, today and tomorrow |
| `Countdown.BeforeSehar` | js/app.js:280-290 | before Sehar the phase is "until Sehar" and the target is Sehar, whatever today's Maghrib reads. On the 1st the origin is exactly Sehar minus 11 h. Otherwise it is yesterday's Maghrib on the previous day, at its hour and minute with zero seconds and milliseconds |
| `Countdown.BetweenSeharAndIftar` | js/app.js:291-294 | from Sehar inclusive to Iftar exclusive the state is exactly (until Iftar, Iftar, Sehar) |
| `Countdown.AfterIftar` | js/app.js:295-306 | from Iftar on, once Sehar has passed or reads as NaN, the phase is "tomorrow" and the origin is Iftar. The target is the next record's Fajr on the next day, at its hour and minute with zero seconds and milliseconds, or exactly now + 10 h on the last day |
| `Countdown.FollowsEventTimeline` | js/app.js:280-306 | on an inner day, the target is the first of the four surrounding events strictly after now and the origin is the last one at or before now; the phase names the target |
| `Countdown.DecideOnTimeline` | js/app.js:280-306 | the branch arithmetic over any ordered yesterday-Iftar < Sehar < Iftar < tomorrow-Sehar picks the next and the last event |
| `Countdown.WellFormedBounds` | js/app.js:280-310 | with a well-formed calendar, every day with a record yields a state with now < target < now + 2 days and origin < target (no division by zero); the origin has passed except in the 1st's window before Sehar |
| `Countdown.Clamp` | js/app.js:310 | the result lies in [0, 100]: it is the input when that is inside, 0 below and 100 above |
| `Countdown.Progress` | js/app.js:308-310 | the percentage is NaN exactly when now, origin and target coincide; otherwise it lies in [0, 100] |
| `Countdown.ProgressIsElapsedShare` | js/app.js:308-310 | inside the window the percentage is exactly the elapsed share of it |
| `Countdown.ProgressMonotone` | js/app.js:308-310 | within one state the bar never moves backwards as time advances |
| `Countdown.RemainingSeconds` | js/app.js:313 | the whole seconds left are never negative, are the floor of the remaining milliseconds, and are 0 once less than a second is left |
| `Countdown.SplitHms` | js/app.js:314-316 | minutes and seconds are below 60, and hours·3600 + minutes·60 + seconds is the count |
| `Countdown.FormatHms` | js/app.js:314-319 | computes the "HH:MM:SS" text of a count of seconds; `Countdown.CountdownRoundTrip` and `Countdown.CountdownWidth` state what it yields |
| `Countdown.CountdownText` | js/app.js:313-319 | computes the timer text of the time left; `Countdown.CountdownTextReadsBack` and `Countdown.TimerWidthInWindow` state what it yields |
| `Countdown.CountdownRoundTrip` | js/app.js:314-319 | for every count of seconds the "HH:MM:SS" text reads back as exactly its hours, minutes and seconds, which total the count (hours never wrap) |
| `Countdown.ParseHmsOfFields` | js/app.js:319 | three digit fields joined by ':' read back as their values |
| `Countdown.CountdownTextReadsBack` | js/app.js:313-319 | the timer text of a tick reads back as the whole seconds left |
| `Countdown.TimerWidthInWindow` | js/app.js:313-319 | with less than two days left the timer is exactly 8 characters wide |
| `Countdown.CountdownWidth` | js/app.js:314 | the text is at least 8 characters wide, and exactly 8 below 100 hours |
| `Countdown.WellFormedTimerWidth` | js/app.js:313-319 | with a well-formed calendar the timer is always exactly "HH:MM:SS" |
| `Countdown.SeventyTwoMinutes` | js/app.js:313-319 | 72 minutes left shows as "01:12:00" |
| `Countdown.ExampleTimes` | js/app.js:327 | "05:12 (+06)" and "18:03 (+06)" are well formed, with their offsets from midnight |
| `Countdown.ExampleRecord` | js/app.js:274-276 | a record with Sehar 05:12 and Iftar 18:03 gives these offsets |
| `Countdown.ExampleAnchors` | js/app.js:275-276 | on the 2nd those times anchor to that day |
| `Countdown.ExampleSeharState` | js/app.js:280-290 | at 04:00 the state is (until Sehar, 05:12, yesterday's Maghrib) |
| `Countdown.ExampleBeforeSehar` | js/app.js:280-319 | at 04:00 the phase is "until Sehar" and the timer shows "01:12:00" |
| `Countdown.ExampleAtIftar` | js/app.js:291-306 | at 18:03:00 exactly the phase has flipped to "tomorrow", not "until Iftar" |
| `Timer.Render` | js/app.js:267-320 | with no record for today the card is untouched; a branch that uses a NaN time gives an unreadable card; otherwise a phase, timer and bar are shown |
| `Timer.Show` | js/app.js:308-319 | computes what the card shows for one derived outcome; `Timer.RenderReadsBack` and `Timer.ShowInWindow` state what it yields |
| `Timer.RenderReadsBack` | js/app.js:308-319 | a tick that derives a state shows its phase, a timer that reads back as the whole seconds left to its target, and that state's progress percentage |
| `Timer.ShowInWindow` | js/app.js:308-319 | a target less than two days ahead shows an 8-character timer and a real percentage in [0, 100] |
| `Timer.RenderWellFormed` | js/app.js:308-319 | with a well-formed calendar every tick on a day of the month shows the phase, a "HH:MM:SS" timer and a percentage in [0, 100] |
| `Timer.RenderIdempotent` | js/app.js:267-320 | a second tick at the same instant changes nothing |
| `Timer.CountdownTimer.constructor` | js/app.js:21 | the page starts with no interval and an empty card |
| `Timer.CountdownTimer.Start` | js/app.js:260-324 | the previous interval is cleared, one tick runs at once, and exactly one interval stays scheduled: the new handle, over the new calendar. The handle is the next one never issued before, so earlier handles stay cleared for good |
| `Timer.CountdownTimer.Fire` | js/app.js:322-323 | a scheduled interval ticks over its own calendar; a cleared one does nothing |
| `Timer.RestartTwice` | js/app.js:261-323 | after two starts and a late firing of the first interval, one interval is live and the card shows the second calendar's tick |
| `Timer.RestartThrice` | js/app.js:261-323 | after three starts, late firings of the first two intervals leave the card as the third start drew it |
| `Legacy.LegacyTimer.constructor` | app.js:238-239 | the page starts with no interval and an empty card |
| `Legacy.LegacyTimer.Start` | app.js:178-240 | one tick runs at once and one more interval is scheduled under a new handle; all earlier intervals are kept, so the count grows by one |
| `Legacy.LegacyTimer.Fire` | app.js:239 | every interval ever started ticks, over the calendar it was started with |
| `Legacy.RestartLegacy` | app.js:238-239 | after two starts, two intervals are live and the first, firing later, redraws the card from the first calendar |
| `Legacy.RestartCountdown` | app.js:238-239 | after two starts js/app.js keeps 1 live interval and app.js 2; the stale interval of app.js redraws the card from the old calendar, while js/app.js ignores it |
| `Legacy.CachedTimings` | app.js:109-114 | the stored records are returned exactly when an entry exists and is stamped with today's date |
| `Legacy.CacheEntry` | app.js:128 | computes the entry `fetchTimings` writes; `Legacy.CacheRoundTrip` states how it reads back |
| `Legacy.CacheRoundTrip` | app.js:128 | an entry written on a day reads back that day and is stale on any other |
| `Shared.BnDigit` | js/shared.js:28 | the `d`-th character of the Bengali digit string is a Bengali digit of value `d` |
| `Shared.BnChar` | js/shared.js:28 | an ASCII digit becomes the Bengali digit of the same value; any other character is kept |
| `Shared.ToBnNum` | js/shared.js:27-29 | the length is kept and every position is replaced character by character |
| `Shared.ToBnNumHasNoAsciiDigit` | js/shared.js:28 | no ASCII digit is left |
| `Shared.BnRoundTrip` | js/shared.js:28 | on text without Bengali digits the replacement is undone exactly |
| `Shared.ToBnNumInjective` | js/shared.js:28 | distinct texts without Bengali digits give distinct results |
| `Shared.LeadingDigits` | js/shared.js:38 | the longest run of digits that starts the text |
| `Shared.ParseInt` | js/shared.js:38 | computes `parseInt` as an optional sign and the leading digits; the three lemmas below state what it yields |
| `Shared.ParseIntNaN` | js/shared.js:38 | `parseInt` is NaN exactly when no digit follows the optional sign |
| `Shared.ParseIntRoundTrip` | js/shared.js:38 | `parseInt` reads back every integer `String(n)` writes, whatever non-digit text follows it |
| `Shared.ParseIntOfDigits` | js/shared.js:38 | a non-empty run of digits, such as a zero-padded hour, parses as its decimal value |
| `Shared.TruncRem` | js/shared.js:40 | JavaScript's `%` agrees with the mathematical one on non-negative operands and stays strictly within the divisor in absolute value |
| `Shared.Hour12` | js/shared.js:40 | the 12-hour value is never 0 and lies in -11..12; for a non-negative or NaN hour it lies in 1..12 |
| `Shared.Meridiem` | js/shared.js:39 | the suffix is "AM" or "PM", and "PM" exactly when the hour is a number of at least 12 |
| `Shared.To12h` | js/shared.js:36-42 | computes "h:mm AM/PM"; `Shared.To12hFields`, `Shared.To12hMeridiem` and `Shared.To12hIgnoresAnnotation` state what it yields |
| `Shared.To12hMeridiem` | js/shared.js:39 | the output ends in "PM" exactly when the parsed hour is at least 12 |
| `Shared.Hour12Range` | js/shared.js:40 | a non-negative hour becomes 1..12: multiples of 12 become 12, the others `h mod 12` |
| `Shared.Hour12Inverse` | js/shared.js:39-40 | for an hour of the day, the 12-hour value with its meridiem gives the hour back |
| `Shared.To12hFields` | js/shared.js:37-41 | the output is the 12-hour hour, ':', the minute text copied verbatim, ' ' and the meridiem |
| `Shared.To12hIgnoresAnnotation` | js/shared.js:37 | everything after the first space is ignored |
| `Shared.MorningFields` | js/shared.js:37-38 | "05:12" splits into "05" and "12", and "05" parses as 5 |
| `Shared.To12hMorningExample` | js/shared.js:33 | "05:12 (PKT)" becomes "5:12 AM" |
| `Shared.SavedOr` | js/shared.js:49 | a missing or empty stored value gives the fallback; any other gives itself |
| `Shared.SavedLang` | js/shared.js:48-50 | the stored language when non-empty, else "bn"; never empty |
| `Shared.SavedCity` | js/shared.js:56-58 | the stored city when non-empty, else "Dhaka"; never empty |
| `Shared.SavedSettingsStable` | js/shared.js:48-58 | storing what was read and reading again gives the same setting |
| `Text.PadStart2` | js/app.js:314-316 | pads to at least two characters with leading zeros and keeps the text as the suffix |
| `Text.PaddedValue` | js/app.js:314-316 | the padded numeral has the value of the number |
| `Text.SplitSpec` | js/app.js:327 | the first `split` field is the prefix before the first separator, free of it; the rest follows the separator and is absent exactly when there is none |
| `Text.FieldsIgnoreAnnotation` | js/app.js:327 | the hour and minute fields ignore everything after the first space |

## Left out

- DOM writes, the i18n tables and the label strings: the label is the `Phase` value. The bar width and the timer are the `Display` fields.
- The network (`fetch` to the prayer-time API), `localStorage`, `initApp`, `fetchTimings` and `render`. The calendar is an input. Stored settings and the cache entry are `Option` arguments.
- `JSON.parse` of a corrupt cache entry, which throws in the source.
- `todayISO()`: today's UTC date is a string parameter of `CachedTimings`.
- js/calendar.js, sw.js and tailwind.config.js: I/O plumbing, a service worker and build configuration.
- The browser clock: `setInterval` timing, time zones, daylight-saving changes and locale formatting. Days are fixed at 24 hours, and an interval firing is an explicit `Fire` call.
- Month roll-over: the day index is `getDate() - 1` of the shown calendar. A calendar fetched for another month is used as it is, as in the source.
- Floating point: the percentage is an exact real, and NaN is `None`.
- Countdown.NumberOf: models `Number` only on ASCII digit strings and the empty string. Signs, decimals, exponents, hexadecimal and whitespace other than a space are treated as NaN.
- Shared.ParseInt: models `parseInt` as an optional sign followed by leading ASCII digits. Leading whitespace and radix prefixes are not modelled.
- Shared.ToBnNum: is stated on the text `String(n)`, not on numbers.
- Countdown.Classify: a tick whose branch uses a NaN time collapses into `Malformed`, and Timer.Render shows it as `Unreadable`. Ticks where the NaN time is never used are modelled in full. In the source such a tick still sets the phase label and sets the bar width to "NaN%". The timer shows "NaN:NaN:NaN" when the target is NaN, and the real time left when only the origin is.
- Timer.CountdownTimer.Start: handles are issued in increasing order from 1, and Legacy.LegacyTimer.Start issues them the same way. The browser guarantees only that they are positive and distinct.

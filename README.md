# Class highlighter: a verified model of its core

The page script `content.js` is a browser extension. It runs on a page
that shows a table of classes, one class per row. The label cell gives the
course, and other cells give the location, the days of the week, and the
start and end times. Every update interval the script looks at each row
scheduled today:

- it classifies the class as upcoming, ongoing or ended;
- it can append an inline status label to the course cell;
- it can request a reminder notification a configured number of minutes before the start;
- a summary banner names the nearest upcoming class, or says that all
  classes are done for the day.

A toggle button switches the highlighting on and off, and the settings
dialog restarts it with new settings.

The model has six modules:

- `Wrappers`: the `Option` type.
- `Text`: the string primitives the script relies on. These are decimal
  rendering, `trim`, ASCII `toLowerCase`, `includes`, `split`, and the first
  line of a text.
- `TimeUtils`: `utils.formatDuration`, `utils.parseTime`,
  `utils.getTodayName` and `utils.classHasToday`.
- `Status`: `highlighter.getClassStatus` and its label texts.
- `Schedule`: what `processRow` and `updateAll` decide, written as
  functions. It covers:
  - the row's times;
  - the inline label;
  - the notification key;
  - the reminder band and the notification text;
  - the entries collected in table order;
  - the stable sort by start;
  - the banner.
- `Controller`: the mutable `state` as a class, `Highlighter`. Its methods
  `ProcessRow`, `UpdateAll`, `SetEnabled`, `Toggle` and `ApplySettings` change
  the state step by step, as the script does. Each is proved against the
  `Schedule` functions.

Instants are integer milliseconds. Outside effects become state or parameters:

- **The clock.** It is a parameter (`Clock`): the instant, today's local
  midnight, and the weekday.
- **`localStorage`.** The enabled flag is the field `stored`.
- **`setInterval` and `clearInterval`.** They become a map of live interval
  handles with their periods.
- **The notification API.** It becomes an append-only log of requested
  notifications.
- **The banner element.** It becomes its content plus whether it is
  attached to the page.

## Model

| member | source | states |
|---|---|---|
| Text.TrimSpec | content.js:73 | `trim` keeps one contiguous piece of the text and drops only whitespace on either side of it. The piece neither starts nor ends with whitespace. |
| Text.SplitPiecesSeparatorFree | content.js:73 | No piece of `split(":")` contains ':'. |
| Text.JoinSplit | content.js:73 | Splitting loses nothing: joining the pieces with the separator gives back the text. |
| Text.SplitJoin | content.js:73 | Splitting is the inverse of joining separator-free pieces. |
| TimeUtils.TimeOfDay | content.js:76 | `setHours(h, m, 0, 0)` on today's midnight: h hours and m minutes in milliseconds, with no range check; used by `TimeUtils.ParseTimeSpec` and `TimeUtils.ParseTimeRollover`. |
| TimeUtils.TotalMinutes | content.js:66 | The minute count is the magnitude of the floor of ms/60000: t·60000 ≤ ms < (t+1)·60000 for ms ≥ 0, and −t·60000 ≤ ms < (1−t)·60000 below zero. |
| TimeUtils.FormatDuration | content.js:65-70 | The rendering of a duration: the text always ends in "m"; what it says is characterised by `TimeUtils.FormatDurationRoundTrip`. |
| TimeUtils.MinutesText | content.js:67-69 | The "{h}h {m}m" or "{m}m" text of a whole number of minutes; always ends in "m". |
| TimeUtils.FormatDurationRoundTrip | content.js:65-70 | The duration text reads back as exactly its whole number of minutes. It has the "{h}h {m}m" form exactly when that number reaches 60. |
| TimeUtils.FormatDurationExamples | content.js:65-70 | 0 → "0m" and 90 minutes → "1h 30m". +30 s gives "0m" but −30 s gives "1m": the text has no sign symmetry. |
| TimeUtils.NumberOf | content.js:73 | `Number` on one piece: an empty or all-whitespace piece is 0, a digit string is its value, anything else is NaN (None); used by `TimeUtils.ParseTimeSpec`. |
| TimeUtils.ParseTime | content.js:72-78 | A parsed time never lies before today's midnight. |
| TimeUtils.ParseTimeSpec | content.js:72-78 | The text parses exactly when its trimmed ":"-pieces 0 and 1 exist and are numeric. The result is then midnight plus that many hours and minutes. |
| TimeUtils.ParseTimeDigits | content.js:72-78 | Digit strings around a ':' give that hour and minute, whether or not a further ":…" part follows. |
| TimeUtils.ParseTimeNeedsColon | content.js:73-74 | A text without ':' has no minute piece and does not parse. |
| TimeUtils.ParseTimeRollover | content.js:76 | The hour is not range-checked: within the range of a JavaScript Date (at most 8.64·10^15 ms), an hour of 24 or more lands on a later day. |
| TimeUtils.ParseTimeAfternoonExample | content.js:72-78 | "14:00" is 14 hours after midnight. |
| TimeUtils.ParseTimeRolloverExample | content.js:72-78 | "25:00" is 25 hours after midnight. |
| TimeUtils.ParseTimeBareHourExample | content.js:73-74 | "14" does not parse. |
| TimeUtils.ParseTimeLettersExample | content.js:73-74 | "ab:00" does not parse. |
| TimeUtils.TodayName | content.js:80-82 | The weekday token is three lower-case letters. |
| TimeUtils.TodayNameInjective | content.js:9 | Different weekdays have different tokens. |
| TimeUtils.ClassHasToday | content.js:84-86 | `includes` on the lower-cased days text; characterised by `TimeUtils.ClassHasTodaySpec`. |
| TimeUtils.ClassHasTodaySpec | content.js:84-86 | The days cell matches exactly when the token occurs at some position of the lower-cased text. Case does not matter, and an empty cell matches no token. |
| TimeUtils.ClassHasTodayExample | content.js:84-86 | "Mon/Wed/Fri" matches "wed". |
| TimeUtils.ClassHasTodayLooseExample | content.js:84-86 | Substring matching: "Tuesday/Thursday" matches "tue". |
| Status.GetClassStatus | content.js:423-449 | Upcoming iff now < start. Ongoing iff start ≤ now ≤ end. Ended iff start ≤ now and end < now, which includes a class whose end precedes its start. The duration is start−now, end−now or now−end respectively, and the text is that kind's label. |
| Status.Label | content.js:429-445 | The label texts "Starts in …", "In Progress • … remaining" and "Ended … ago"; read back by `Status.LabelRoundTrip`. |
| Status.StatusMonotone | content.js:426-449 | As time passes a class never returns to an earlier kind. |
| Status.StatusBoundaries | content.js:426-433 | One ms before the start it is upcoming. At the start and at the end it is ongoing. One ms after the end it has ended. |
| Status.InvertedTimesNeverOngoing | content.js:433 | A class ending before it starts is never ongoing. |
| Status.LabelRoundTrip | content.js:429-445 | Each label gives back its kind and the whole minutes of its duration. |
| Schedule.Times | content.js:458-467 | The start and end of a row scheduled today, or None for a skipped row; characterised by `Schedule.RowSkipped`. |
| Schedule.RowStatus | content.js:469 | The `getClassStatus` call on the row's parsed start and end; characterised by `Status.GetClassStatus`. |
| Schedule.ShownLabel | content.js:478-481 | The label cell's text with the inline status appended when it is shown. |
| Schedule.ClassKey | content.js:487 | The key: a label text, "-", and the start instant in milliseconds. |
| Schedule.NoticeFor | content.js:494-499 | The notification: the fixed title and "{first line} starts in {rounded minutes} minutes". |
| Schedule.Remember | content.js:484-501 | The reminder step: one notice and the key are added exactly when the rule fires; characterised by `Schedule.RowNotifies` and `Schedule.RowFiresIff`. |
| Schedule.RowMemory | content.js:452-501 | The memory after one row, with the corrected key (the label cell without the inline status). |
| Schedule.RowMemoryAsWritten | content.js:478-501 | The memory after one row with the key built from the shown label, as written. |
| Schedule.RowEntry | content.js:452-514 | What `processRow` returns: None unless the row is upcoming today, otherwise the position, the start, the trimmed first line of the shown label (the label cell with the inline status appended when it is shown) and the trimmed location; characterised by `Schedule.RowEntrySpec`. |
| Schedule.InBand | content.js:485-491 | (w−1)·60000 < until ≤ w·60000: the test `minutesUntil <= w && minutesUntil > w - 1`, compared exactly in ms; used by `Schedule.RowFiresIff`. |
| Schedule.InBandMinutes | content.js:485-491 | The millisecond band test holds exactly when until/60000, as a real number, lies in (w−1, w]. |
| Schedule.Fires | content.js:484-492 | The reminder rule: reminders on, not yet started, in the band, and the key not yet remembered; characterised by `Schedule.RowFiresIff`. |
| Schedule.RoundMinutes | content.js:496-498 | The rounded minute count is within half a minute of the time until the start. |
| Schedule.NoticeMinutes | content.js:489-498 | Inside the band, the notification announces the window or one minute less. |
| Schedule.BandReached | content.js:489-491 | With an update period of at most a minute, some look falls inside the band. With a window of at least one minute, that look is before the start. |
| Schedule.BandMissed | content.js:489-491 | With a two-minute period starting at 10m50s before the start, the 10-minute band is never hit. |
| Schedule.RowSkipped | content.js:459-467 | A row is skipped when any of these holds: fewer than 9 cells; a days cell without today's token; an unparsable start or end. A skipped row returns nothing and leaves the memory untouched. |
| Schedule.RowEntrySpec | content.js:504-514 | A row returns an entry iff it is scheduled today and not yet started. The entry carries the row's position, its start, the trimmed first line of the shown label (the label cell with the inline status appended when it is shown), and the trimmed location. |
| Schedule.CourseIgnoresStatus | content.js:478-481 | A label cell that already has several lines keeps its first line as the course, whatever inline status is appended. |
| Schedule.RowNotifies | content.js:484-501 | A row either leaves the memory alone, or fires under its own key, the corrected key (the label cell without the inline status). Firing adds exactly that key to the set and exactly that notice to the log. |
| Schedule.RowFiresIff | content.js:484-501 | A notification is requested iff all of these hold: reminders are on; the row is scheduled today; now < start; the time until the start lies in the band (w−1)·60000 < start−now ≤ w·60000; the key is new. The key is the corrected key (the label cell without the inline status). |
| Schedule.RowNotifiedOnce | content.js:492 | A row whose key, the corrected key (the label cell without the inline status), is already remembered is not notified again. |
| Schedule.RowNotifiesAtMostOnce | content.js:484-501 | With the corrected key (the label cell without the inline status), two looks at the same row, at any two instants, request at most one notification. |
| Schedule.RowConsistent | content.js:492-500 | Processing a row keeps every logged key unique and remembered. |
| Schedule.Entries | content.js:522-527 | The entries collected from the first n rows, in table order; characterised by `Schedule.EntriesSpec`. |
| Schedule.Notify | content.js:522-527 | The memory after the first n rows have been processed, in table order. |
| Schedule.EntryAt | content.js:519-528 | Each collected entry is the entry of an upcoming row before n. |
| Schedule.EntriesBelow | content.js:524-527 | Every collected entry comes from one of the rows processed so far. |
| Schedule.EntriesOrdered | content.js:524-527 | Collected entries are in strictly increasing table order. |
| Schedule.EntriesComplete | content.js:524-527 | Every upcoming row processed so far has an entry. |
| Schedule.EntriesSpec | content.js:517-528 | The entries are exactly the upcoming rows, each with its own start, once each, in table order. |
| Schedule.NotifyConsistent | content.js:524-527 | Processing all rows keeps the memory consistent. |
| Schedule.NotifyGrows | content.js:36 | Processing rows only adds: no remembered key is dropped and the log is only extended. |
| Schedule.Insert | content.js:530 | One step of the stable sort; its contract states only that the result is one longer. What the insertion keeps and where the entry goes are stated by `Schedule.InsertSorted`, `Schedule.InsertPermutes` and `Schedule.InsertHead`. |
| Schedule.InsertSorted | content.js:530 | Inserting into a list sorted by start leaves it sorted by start. |
| Schedule.InsertPermutes | content.js:530 | Inserting adds exactly the one entry: the result is the old entries plus the new one, as a multiset. |
| Schedule.InsertHead | content.js:530 | The head after inserting is the new entry if it starts no later than the old head (or the list was empty), and the old head otherwise. |
| Schedule.SortByStart | content.js:530 | The stable sort by start; characterised by `Schedule.SortSpec` and `Schedule.SortHead`. |
| Schedule.SortSpec | content.js:530-531 | The sort orders the entries by start and is a permutation of them. |
| Schedule.FirstMinIndex | content.js:530-534 | The index of the first entry with the least start. |
| Schedule.SortHead | content.js:530-534 | The head of the sorted entries is the first entry with the least start. |
| Schedule.Nearest | content.js:530-534 | `upcomingClasses[0]` after the sort; characterised by `Schedule.NearestSpec`. |
| Schedule.NearestSpec | content.js:530-534 | The banner candidate exists iff some class is upcoming. It is an entry with the least start, and the earliest in table order among equal starts. |
| Schedule.BannerFor | content.js:537-570 | The banner for the next class or the all-done message. The course is the entry's course, the trimmed first line of the shown label (the label cell with the inline status appended when it is shown); then the time until its start and the location. |
| Schedule.BannerAllDone | content.js:537-570 | The banner is the all-done message exactly when nothing is upcoming. |
| Schedule.AsWrittenNotifiesTwice | content.js:478-492 | As written, with the inline status on and a 10-minute window, looks at 10m and 9m50s before the start both notify. |
| Controller.Highlighter.constructor | content.js:32-45 | Enabled unless the stored flag is "false". No timer, nothing notified, and the table's rows without the header row. |
| Controller.Highlighter.ProcessRow | content.js:452-515 | Returns the row's entry. The memory becomes the row's reminder step applied to the old memory, with the corrected key (the label cell without the inline status). |
| Controller.Highlighter.CheckReminder | content.js:484-502 | The memory after the reminder check is the old memory advanced by the notification rule. |
| Controller.Highlighter.UpdateBanner | content.js:537-570 | The banner shows the given entry, or the all-done message. |
| Controller.Highlighter.ProcessRows | content.js:524-527 | The loop returns the entries of all rows and applies every row's reminder step in table order. |
| Controller.Highlighter.UpdateAll | content.js:517-535 | When disabled, nothing changes. Otherwise all rows are processed and consistency is kept. If the banner is shown, it names the nearest upcoming class. |
| Controller.Highlighter.ClearTimer | content.js:597-601 | No interval is left running. |
| Controller.Highlighter.StartTimer | content.js:618-621 | Exactly one interval runs, under a fresh handle, at updateInterval·1000 ms. |
| Controller.Highlighter.SetEnabled | content.js:593-633 | The flag is stored as "true"/"false", and a timer runs iff enabled. The old interval is always cleared. Enabling attaches the banner if wanted, updates once and starts a fresh interval. Disabling detaches the banner and keeps the notified keys. |
| Controller.Highlighter.Start | content.js:603-621 | The enabling branch: the banner is attached if wanted, one update runs, and a fresh interval starts. |
| Controller.Highlighter.Toggle | content.js:635-637 | The flag is negated, stored, and the old interval cleared. The new state is the one `SetEnabled` leaves for the negated flag: when now enabled, a fresh interval at the settings' period, one update and the banner as wanted; when now disabled, no interval, the banner detached and the memory kept. Settings and rows are not touched. |
| Controller.Highlighter.ApplySettings | content.js:380-406 | The new settings are stored and the rows are not touched. When enabled, the script restarts: the flag is stored as "true", one interval runs at the new period under a fresh handle, one update runs under the new settings, and the banner is attached and refreshed exactly when the new settings show it. When disabled, nothing but the settings changes. |

## Left out

- The DOM effects are not modelled: row colours, transition styles, the status label element's style, the toggle button's state, the settings panel and the buttons. Only the texts the core reads back are modelled, plus whether the banner is attached.
- `highlighter.clear` (content.js:573-588) removes the added elements, which are the status labels and the banner, and resets the row styling. The model keeps no status labels in its state, because `processRow` removes the old ones before it appends a new one (content.js:456). The banner's removal is `bannerShown` becoming false.
- `DEFAULT_SETTINGS` (content.js:13-29) is not modelled: the initial settings are a parameter of the constructor.
- The colours in the settings and in `getClassStatus` are configuration data and are left out.
- Settings persistence (`loadSettings`, `saveSettings`, JSON) and the dialog's reading of its inputs are left out. `ApplySettings` takes the new settings as a value.
- The `parseInt` of the interval and window inputs is not modelled, so a NaN setting is not modelled either.
- `init` (finding the table, building the UI, the first update) is the constructor only. The first `setEnabled` or `updateAll` call is left to the caller.
- `utils.showNotification` is the log of requested notices. The permission check and the asynchronous permission request are left out.
- The timer callback is not invoked by the model. The interval is recorded with its period, and each tick is a call of `UpdateAll`.
- `UpdateBanner`: the second `new Date()` in `updateBanner` is taken to be the same instant as the one of the update.
- `Clock` is one snapshot per update. The source reads the clock separately in `parseTime` for each time cell (content.js:75), in `getTodayName` (content.js:81) and for `now` (content.js:520). The model does not capture an update that straddles midnight or a change of weekday between those readings.
- `ParseTime`: `Number` is modelled only on digit strings. Signs, decimals, exponents and hexadecimal forms make the result None or are not modelled.
- `TimeUtils.ParseTime`: the range of a JavaScript Date (±8.64·10^15 ms) and the Invalid Date are not modelled. Beyond that range `setHours` gives an Invalid Date, which the source does not skip (content.js:467), and every later comparison with it is false. The model instead returns an instant past the range, so such a row (for example a start cell "3000000000:00") counts as upcoming in the model.
- `ParseTime`: `setHours` is modelled in local time without daylight-saving shifts, as midnight plus the hours and minutes.
- `ToLower` maps only ASCII capitals. JavaScript's full Unicode lower-casing is left out.
- `Trim` removes the ECMAScript whitespace and line terminator characters.
- The row's cell texts are taken as `innerText` values. The inline status label follows the cell's own text on the same line, because the label is an inline block.
- The `Math.round(minutesUntil)` in the notification text is modelled for its only use, a positive time until the start, as round half up.
- `TimeUtils.TodayName` requires a weekday 0–6, which is what `getDay` returns.
- Controller.Highlighter.ProcessRow: the remembered key is the corrected one (`Schedule.RowMemory`, the label cell without the inline status), not the key content.js:487 builds from the shown label. So with the inline status on, `notified` holds different strings than `state.notifiedClasses`. `UpdateAll`, `SetEnabled`, `Toggle` and `ApplySettings` inherit this through `Notify`. The as-written key is `Schedule.RowMemoryAsWritten` (see Findings).
- Disabling does not clear `state.notifiedClasses`. The model follows the code here, so the keys survive a disable and enable.
- `formatDuration` floors before taking the absolute value, so it is not symmetric in the sign of its argument. The model follows the code.

## Findings

| source | as written | input that shows it | evidently intended | confidence | as-written member | corrected member |
|---|---|---|---|---|---|---|
| content.js:478-492 | The notification key is built from `cells[2].innerText` after the inline status label has been appended. The key therefore contains the current status text, such as "Starts in 10m". | Inline status on, a 10-minute window: a look exactly 10 minutes before the start, then one 10 s later. The key texts differ ("… 10m" vs "… 9m"), so the "notify once" check passes twice. | The key is the course label alone with the start instant, so a class is notified once per band. | not executed | Schedule.AsWrittenNotifiesTwice | Schedule.RowNotifiesAtMostOnce |

`Schedule.RowMemoryAsWritten` builds the key as the source does. `Schedule.RowMemory` builds it from the label cell without the status, and the `Controller` uses that one. The notification body and the course name in the model are still read from the shown label, as the source does.

# gcal-time-manager: a verified model of the dashboard's core

gcal-time-manager is a single-page React dashboard. It imports a calendar from
an `.ics` file. It then shows one selected day as busy time (the calendar's
events), planned time (tasks the user adds to that day) and free time. This
project models in Dafny the logic behind that view and proves what it promises:

- **Import** (`import_card.dfy`, `calendar.dfy`): `expandIcsToMap` groups the
  VEVENT blocks into series by UID; within a series the last non-exception
  block is the master, earlier non-exception blocks are discarded, and
  exception blocks are kept in order. It expands each master's
  occurrences inside the import window and files each occurrence day by day
  into a map from day to fragments (`push`). Each fragment is clipped to
  `[00:00, 23:59:59.999]` of its day.
- **Day arithmetic** (`intervals.dfy`, `app.dfy`): `clampToDay` turns the
  selected day's fragments into minute intervals within `[0, 1440]`.
  `mergeOverlaps` sorts them and sweeps them into disjoint intervals, and
  `totalMinutes` sums them. Together these give the busy minutes and the bars
  of the timeline. The same file covers the task list per day (`addTask`,
  `removeTask`), planned minutes, task intervals, and `groupByDate` for
  pre-parsed event arrays.
- **Tasks panel** (`tasks_panel.dfy`): the 12-hour to minute-of-day
  conversion, the `h:mm AM/PM` and `Xh Ym` renderings, the form's `canAdd`
  check and `handleAdd`. The form is a class whose fields are the six inputs.
- **Timeline labels** (`day_timeline.dfy`): `fmt12`.
- **Pie** (`allocation_pie.dfy`): the three slices, their colours and the free
  figure.
- `text.dfy` holds the JavaScript string operations these rely on: decimal
  rendering, `padStart(2, "0")`, the `/^\d+$/` test with `+s`, and `trim`.
  `wrappers.dfy` holds `Option`, `Max`/`Min` and JavaScript's truncating `%`.

Time is an integer count of milliseconds. A day `d` runs from `d * 86400000`
to `d * 86400000 + 86399999`. Local time is taken to be UTC, so a day key
(`YYYY-MM-DD`) is an integer day number. `Math.round(x / 60000)` is
`(x + 30000) / 60000` with floor division, which is exact for JavaScript's
round-half-up. Each loop in the source (`push`, the `groupByDate` and
expansion loops, the `mergeOverlaps` sweep, `toMinutesFrom12h`'s
step-by-step clamping) is a method. Each such method is proved equal to a
specification function, and the properties are proved about those functions.

Where the code and its design description disagree, the model follows the
code:

- The header's free figure (`App.jsx:115`) and the caption under the pie
  (`AllocationPie.jsx:37-38`) both show `1440 - busy - tasks`, not floored
  at zero. Only the chart's `Free` slice floors it. `HeaderFreeVsPie` states
  the difference.
- Because a day ends at `23:59:59.999`, the per-day pieces of an event do not
  partition it exactly: one millisecond is lost at each midnight crossed
  (`DayPiecesDuration`). An occurrence lasting the last millisecond before
  midnight files nothing (`DayPiecesLastMillisecond`). An occurrence that
  ends exactly at midnight files nothing for the next day
  (`DayPiecesEndAtMidnight`).
- Nothing in the expansion drops a series that lacks a start or an end.
  `import.jsx:57-58` and `:61-62` call `toJSDate()` on the start and end
  without a guard. A master without a start (DTSTART) makes that call
  throw; whether a missing end does depends on ical.js, which is not part of
  this model. Such a throw leaves `expandIcsToMap`, and `handleFile`
  (`import.jsx:80-81`) never calls `onParsed`: the whole import is lost,
  not one series. The model gives every block a start and an end (see
  "## Left out").
- `format12h`/`fmt12` show a negative hour and minute for negative input
  (`Fmt12Negative`). `toMinutesFrom12h` returns NaN when the minute is NaN
  (`MinutesFrom12hRange`).

## Model

| member | source | states |
|---|---|---|
| Calendar.DayOf | src/ImportCard/import.jsx:33-34 | the day a timestamp falls on: the instant lies between that day's 00:00 and 23:59:59.999 |
| Calendar.Push | src/ImportCard/import.jsx:32-45 | the cursor loop files exactly the day pieces of the occurrence after what each day already held, and runs once per day from the start's day to the end's day (none when the end is before the start's day) |
| Calendar.AppendAllSpec | src/ImportCard/import.jsx:42 | filing pieces only appends: each day's list becomes its old list followed by that day's pieces in order, and the keys grow by exactly the days that received a piece |
| Calendar.AppendAllConcat | src/ImportCard/import.jsx:42 | filing two runs of pieces one after the other is filing their concatenation |
| Calendar.DayPiecesPlaced | src/ImportCard/import.jsx:36-42 | every filed fragment is non-empty, lies within its day's 00:00–23:59:59.999 and within the occurrence, carries the title, and its day is between the start's day and the end's day |
| Calendar.DayPiecesOnePerDay | src/ImportCard/import.jsx:36-43 | an occurrence yields at most one fragment per day, in increasing day order |
| Calendar.DayPiecesEmpty | src/ImportCard/import.jsx:42 | an occurrence whose end is not after its start files nothing |
| Calendar.DayPiecesSingleDay | src/ImportCard/import.jsx:38-42 | an occurrence within one day files exactly itself under that day |
| Calendar.DayPiecesEndAtMidnight | src/ImportCard/import.jsx:36-42 | an occurrence ending exactly at a midnight files nothing under the day that midnight begins |
| Calendar.DayPiecesLastMillisecond | src/ImportCard/import.jsx:39-42 | an occurrence covering only the last millisecond before midnight files nothing, because the day's clip ends at 23:59:59.999 |
| Calendar.DayPiecesDuration | src/ImportCard/import.jsx:38-42 | the filed fragments add up to the occurrence's length minus one millisecond per midnight it crosses |
| ImportCard.GroupSeries | src/ImportCard/import.jsx:12-19 | the grouping loop yields the UIDs in first-seen order, one series per UID and no others; each series' master is the last non-exception block with that UID and its extras are the exceptions in order |
| ImportCard.UidOrderSpec | src/ImportCard/import.jsx:16 | the series order has no repeated UID, and a UID is in it exactly when some block carries it |
| ImportCard.LastMasterSpec | src/ImportCard/import.jsx:17-18 | a series' master is a non-exception block with that UID and no later such block exists; there is no master exactly when every block with that UID is an exception |
| ImportCard.ExceptionsSpec | src/ImportCard/import.jsx:17 | the extras of a concatenation are the extras of each part in order, and a block is an extra exactly when it has the UID and is an exception |
| ImportCard.ExpandMaster | src/ImportCard/import.jsx:49-63 | the per-master step files the occurrences the window admits (recurring) or the single occurrence when it overlaps the window (non-recurring), with the summary or "Event" as title |
| ImportCard.ExpandIcsToMap | src/ImportCard/import.jsx:7-68 | the whole import equals the specification: every series with a master, in UID order, expanded and filed into an empty map; series without a master are skipped |
| ImportCard.WindowMember | src/ImportCard/import.jsx:54-56 | an occurrence is expanded exactly when its recurrence start is within the window and no earlier occurrence starts after the window's end |
| ImportCard.WindowStopsAtEnd | src/ImportCard/import.jsx:55 | the first occurrence past the window's end stops the iteration: nothing after it is ever expanded |
| ImportCard.KeptIffOverlap | src/ImportCard/import.jsx:63 | a non-recurring event is kept exactly when it shares an instant with the window |
| ImportCard.MasterPiecesFrom | src/ImportCard/import.jsx:49-63 | every fragment of a master lies within an occurrence the window admits and carries the master's title |
| ImportCard.ExpansionPlaced | src/ImportCard/import.jsx:7-68 | every fragment in the imported map comes from the winning master of its UID, lies in an admitted occurrence and within its day's bounds |
| Intervals.ClampToDayInDay | src/App/App.jsx:202-215 | with no selected date the result is empty; every interval kept lies in [0, 1440] and is non-empty |
| Intervals.ClampToDayMember | src/App/App.jsx:206-214 | an interval is kept exactly when it is the non-empty rounded clip of some event to the day |
| Intervals.ClampToDayAppend | src/App/App.jsx:206-214 | clamping maps and filters element by element, so the kept intervals stay in input order |
| Intervals.ClampAcrossMidnight | src/App/App.jsx:204-212 | an event from 23:00 to 01:00 next day gives [1380, 1440] on its first day (23:59:59.999 rounds to 1440) and [0, 60] on the next |
| Intervals.SortByStart | src/App/App.jsx:217 | the sort returns a permutation of its input ordered by start |
| Intervals.SortSortedIsIdentity | src/App/App.jsx:217 | the sort is stable on ordered input: input already ordered by start comes back unchanged |
| Intervals.MergeOverlaps | src/App/App.jsx:216-225 | the sweep loop computes the specification: sort, then extend the last interval or push a new one |
| Intervals.MergedSortedSeparated | src/App/App.jsx:219-223 | the merged list is ordered by start and each interval starts strictly after the previous one ends, so touching intervals are joined |
| Intervals.MergedCovers | src/App/App.jsx:216-225 | a minute is covered by the merged list exactly when it is covered by the input |
| Intervals.MergedNonEmpty | src/App/App.jsx:221-222 | merging non-empty intervals yields non-empty intervals |
| Intervals.MergedWithin | src/App/App.jsx:221-222 | merging never extends the intervals beyond the bounds the inputs lie in |
| Intervals.MergedIdempotent | src/App/App.jsx:216-225 | merging a merged list changes nothing |
| Intervals.MergeTouchingExample | src/App/App.jsx:221 | [0,60] and [60,120] merge into [0,120] |
| Intervals.MergeOverlapExample | src/App/App.jsx:216-228 | [0,90], [60,120], [200,240] merge into [0,120], [200,240], totalling 160 |
| Intervals.TotalMinutesAppend | src/App/App.jsx:226-228 | the total of no intervals is 0 and totals add over concatenation |
| Intervals.TotalIsCoveredCount | src/App/App.jsx:226-228 | for separated non-empty intervals the total is the number of distinct minutes covered |
| Intervals.MergedTotal | src/App/App.jsx:21-26 | the total of the merged list is the number of distinct minutes the input covers, so overlaps are counted once |
| App.BusyMinutesBounds | src/App/App.jsx:21-26 | the busy figure is 0 with no date, otherwise the number of distinct minutes the day's events cover, and always between 0 and 1440 |
| App.DayIntervalsShape | src/App/App.jsx:28-31 | the timeline bars lie within the day, are ordered and disjoint, and add up to the busy figure |
| App.PlannedMinutesAppend | src/App/App.jsx:38-41 | the planned total adds over concatenation, a task without a number counting 0 |
| App.PlannedMinutesSplit | src/components/TasksPanel.jsx:46 | the same reduce, the panel's `totalPlanned`: a list's total is the total of the tasks with a given id plus that of the rest |
| App.AddTaskPlanned | src/App/App.jsx:61-67 | adding a task to the selected day raises that day's planned total by the task's minutes |
| App.AddTask | src/App/App.jsx:61-67 | with no date nothing changes; otherwise the task is appended to the selected day's list and every other day is untouched |
| App.RemoveTask | src/App/App.jsx:69-75 | with no date nothing changes; otherwise the selected day's list is filtered by id (in order, see `WithoutIdAppend`) and every other day is untouched |
| App.WithoutIdMember | src/App/App.jsx:73 | a task survives the filter exactly when it was in the list and its id differs; the list never grows |
| App.WithoutIdAppend | src/App/App.jsx:73 | the filter keeps the survivors' order: filtering a concatenation is the concatenation of the filtered parts |
| App.WithoutIdSingle | src/App/App.jsx:73 | a single task survives alone exactly when its id differs, and is dropped otherwise |
| App.RemoveTaskSpec | src/App/App.jsx:69-75 | after removal a task is on the selected day exactly when it was there before with a different id, and the day's planned minutes fall by exactly those of the removed tasks |
| App.TaskIntervalsMember | src/App/App.jsx:44-58 | an interval is a task interval exactly when some task has a finite start and positive minutes and its clamp to [0, 1440] is non-empty; every such interval lies within the day |
| App.TaskIntervalsAppend | src/App/App.jsx:44-58 | task intervals are computed task by task and keep the tasks' order |
| App.GroupByDate | src/App/App.jsx:178-193 | the loop files each event's day pieces, in order, into an empty map |
| App.GroupByDatePlaced | src/App/App.jsx:184-188 | every grouped fragment lies within its day and within some event, and its title is the event's title or "Event", never empty |
| Text.NatToStringValue | src/components/TasksPanel.jsx:27 | the decimal rendering is a digit string whose value is the number; it has one character exactly below 10 |
| Text.Pad2Value | src/components/TasksPanel.jsx:27 | below 100 the padded rendering has two digits whose value is the number |
| Text.TrimSpec | src/components/TasksPanel.jsx:49 | trim returns a slice of its input with only white space before and after it, and that neither begins nor ends with white space |
| Text.TrimEmpty | src/components/TasksPanel.jsx:49 | the trimmed name is empty exactly when the name is all white space |
| DayTimeline.Fmt12Parts | src/components/DayTimeline.jsx:45-52 | for non-negative minutes the label's hour is in 1..12 and congruent to the hour of the day mod 12, the minute is two digits worth m mod 60, and the meridiem is AM exactly before 720 |
| DayTimeline.ParseFmt12 | src/components/DayTimeline.jsx:45-52 | every minute 0..1439 reads back from its label; 1440 labels as noon |
| DayTimeline.Fmt12Landmarks | src/components/DayTimeline.jsx:46-51 | 0 is "12:00 AM", 720 and 1440 are "12:00 PM" |
| DayTimeline.Fmt12Negative | src/components/DayTimeline.jsx:46-51 | -30 is "-1:-30 AM": negative minutes carry JavaScript's signed remainders |
| TasksPanel.ToMinutesFrom12h | src/components/TasksPanel.jsx:7-18 | the step-by-step clamping computes the specification of the conversion |
| TasksPanel.MinutesFrom12hRange | src/components/TasksPanel.jsx:14-17 | the result is NaN exactly when the minute is NaN, otherwise a whole minute of the day in [0, 1439] |
| TasksPanel.MinutesFrom12hMeridiem | src/components/TasksPanel.jsx:15-16 | the result is in the afternoon half (>= 720) exactly when the meridiem is "PM" |
| TasksPanel.MinutesFrom12hClamps | src/components/TasksPanel.jsx:9-14 | the hour is first clamped to [0, 12] (0 then standing for 12) and the minute to [0, 59] |
| TasksPanel.MinutesFrom12hNonFiniteHour | src/components/TasksPanel.jsx:10 | a non-finite hour is read as 12 |
| TasksPanel.MinutesFrom12hLandmarks | src/components/TasksPanel.jsx:15-16 | 12 AM and 0 AM are minute 0; 12 PM is minute 720 |
| TasksPanel.Format12hShape | src/components/TasksPanel.jsx:20-28 | the dash is shown exactly for a non-finite value; otherwise a non-negative value shows its hour 1..12, padded minute and meridiem |
| TasksPanel.Format12hRoundTrip | src/components/TasksPanel.jsx:7-28 | converting a 12-hour time (hour 1..12, minute 0..59, AM/PM) to minutes and formatting it gives back that same time |
| TasksPanel.FormatDurationParts | src/components/TasksPanel.jsx:30-36 | a non-negative duration shows "Xh Ym", "Xh" or "Ym" according to which of hours and minutes are non-zero |
| TasksPanel.ParseFormatDuration | src/components/TasksPanel.jsx:30-36 | every non-negative duration reads back from its rendering |
| TasksPanel.FormatDurationExamples | src/components/TasksPanel.jsx:33-35 | 0 is "0m", 60 is "1h", 90 is "1h 30m" |
| TasksPanel.CanAddNeedsName | src/components/TasksPanel.jsx:48-56 | a name of only white space (or empty) blocks adding; an addable form's name has a visible character |
| TasksPanel.FormTaskTimed | src/components/TasksPanel.jsx:48-68 | a task the form submits has a trimmed non-empty name, positive minutes and a start in [0, 1439], so its timeline interval is non-empty and within the day |
| TasksPanel.TaskForm.constructor | src/components/TasksPanel.jsx:39-44 | every field starts empty and the meridiem starts at "AM" |
| TasksPanel.TaskForm.HandleAdd | src/components/TasksPanel.jsx:58-74 | nothing changes unless the form can be added; otherwise the task is submitted, every field but the meridiem is cleared, and the form can no longer be added |
| AllocationPie.FreeSpec | src/components/AllocationPie.jsx:6 | free is never negative: what remains of 1440 minutes, or 0 when busy and planned time overflow the day |
| AllocationPie.DataShape | src/components/AllocationPie.jsx:7-11 | three slices Busy, Tasks, Free in that order with the given figures; cell i takes colour i mod 3, so the three colours in order |
| AllocationPie.DataSum | src/components/AllocationPie.jsx:6-11 | the slices add up to exactly 1440 when the day is not overbooked, and to busy + planned when it is |
| AllocationPie.HeaderFreeVsPie | src/App/App.jsx:115 | the header's free figure (and the caption at AllocationPie.jsx:37-38) is the pie's before flooring: they agree unless the day is overbooked, when the header goes negative (1000 busy + 600 planned: -160 against 0) |

## Left out

- The calendar library's own work is not modelled: parsing the ICS text, the
  RRULE iterator, substituting exceptions, re-parenting the exception
  components (`import.jsx:23-26`) and converting its times. A block is given
  as its UID, exception flag, summary, recurrence flag, start, end and the
  occurrences the iterator would yield, in order.
- `ev.uid || v.getFirstPropertyValue("uid")`: the block's UID is an input.
- ImportCard.Block: every block and every occurrence has an integer start
  and end. The exception `toJSDate()` throws for a missing start (and, depending
  on ical.js, possibly a missing end), which abandons the whole import, is not
  modelled.
- `Date`, time zones, daylight saving and `toISOString`: local time is UTC,
  so day keys are integer day numbers and every day is 86 400 000 ms long.
- The import window (`now` ± 90 days) and the choice of today's date depend
  on the clock. They are parameters.
- File reading, `onParsed`, `isMapShape`, rendering, the header, the footer
  and `e.preventDefault` are I/O or presentation.
- `toFixed` and the percentage bars are floating-point display only.
- `uid()` draws a random id. It is `HandleAdd`'s `id` parameter.
- The inputs' `onChange` setters are not modelled. Only `name`
  (`TasksPanel.jsx:90`) and `durHours` (`:134`) store the raw text. The start
  hour (`:100-103`) is clamped to [0, 12] with a cleared or non-numeric
  field becoming "0". The start minute (`:112-115`) and the duration minutes
  (`:143-146`) are clamped to [0, 59] and padded to two characters with
  `padStart(2, "0")`, and non-numeric text becomes "NaN". The model treats
  every field as an arbitrary string, a superset of what these setters
  store, and relies on `canAdd` alone.
- App's own `fmt12(d)` (`App.jsx:194-201`) reads a `Date`'s local hours. It
  is not part of this model.
- JavaScript numbers are modelled as integers, NaN and the two infinities.
  Fractional values are left out. `Number(s)` of a form field is modelled
  only for digit strings, which are all that `canAdd` admits.
- TasksPanel.FormTaskTimed: `+durHours` and `+durMinutes` are read as their
  exact decimal value. JavaScript rounds a digit string above 2^53 to the
  nearest double and reads one above about 1.8e308 as `Infinity`; `canAdd`
  still holds for it, `handleAdd` submits `minutes: Infinity`, and
  `App.jsx:49` drops that task from the timeline, so `Timed` and the
  non-empty interval do not hold for such input.
- TasksPanel.FormatDurationParts: states the rendering only for
  non-negative whole minutes, because `formatDuration` of negative or
  non-numeric values is never reached from the form.
- Intervals.MergedTotal: requires non-empty input intervals, which is what
  `clampToDay` produces (`Intervals.ClampToDayInDay`).
- Intervals.MergeOverlaps: the result is a fresh sequence value. It does not
  model the copy `{ ...iv }` or the in-place widening of `last.endMin`,
  and it does not show that the caller's array is left unmutated.
- `Array.prototype.sort` is modelled by a stable insertion sort on start
  (`Intervals.SortByStart`), matching the stable sort ES2019 requires.
- `useMemo` caching and React's batching of state updates are not modelled.
  `addTask`/`removeTask` are the pure updater functions passed to
  `setTasksByDate`.
- `groupByDate` only runs when the parsed data is an array. The import card
  always hands over a day map, so it is not reached on the import path.

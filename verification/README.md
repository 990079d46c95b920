# Scheduling, reconciliation and watching in Sentinel: a verified model

This project models the scheduling core of the repository in Dafny 4.11 and proves what it is for:

* the cron engine: parsing and printing of five-field cron text, and the carrying search for the next
  occurrence, which is proved equal to ticking a calendar clock minute by minute;
* the scheduler built on it: timers, ticks and resyncs as a state machine, over whole runs;
* the Redis hash and the health-check sync job that keep three stores in agreement;
* the Kubernetes resource watcher as a state machine whose callbacks arrive in any order.

`dafny verify dfyconfig.toml` checks everything.

## How the files fit together

| file | content |
|---|---|
| `Calendar.dfy` | Gregorian months, weekdays, date-times, their order as fields and as ticks, the 400-year cycle |
| `Occurrence.dfy` | what a schedule matches, the minute-by-minute reference search, when a schedule is satisfiable |
| `OccurrenceSearch.dfy` | what the carrying search knows at each point and why each exit is right |
| `FieldText.dfy`, `FieldRoundTrip.dfy`, `ScheduleText.dfy` | the meaning of cron text, canonical text, round trips |
| `IntegerText.dfy`, `FieldLaws.dfy`, `ScheduleLaws.dfy` | the grammar: integers, tokens, lists, names, fields and blanks, and that there is nothing else; what is printed |
| `KnownAnswers.dfy` | texts with known meanings and occurrences, most of them from the repository's tests and comments |
| `CrontabField.dfy`, `CrontabSchedule.dfy` | the classes, with the loops of the source |
| `Resources.dfy`, `SchedulerModel.dfy`, `Reconciliation.dfy`, `SchedulerRuns.dfy` | the scheduler on values: ticks, Sync, whole runs |
| `SyncDetails.dfy`, `SharedKeys.dfy` | what a failed Sync leaves behind, in which order it works; updates when two items share a key |
| `LocalTime.dfy`, `CronRuns.dfy` | clocks that go back; the results for the cron parser |
| `TickPhases.dfy`, `Scheduler.dfy` | a tick in two phases against one pass; the classes `ScheduledTask`, `SchedulerRepository` and `BusScheduler` |
| `RedisDictionary.dfy`, `HealthCheckSync.dfy` | the Redis hash and the sync job |
| `WatcherModel.dfy`, `WatcherLiveness.dfy` | the watcher as steps: what never happens, and what always does |
| `BackoffRuns.dfy`, `ResourceWatcher.dfy` | its timed runs, its class |

## Reading notes

* A date-time is a record of fields with ticks within the minute (`Calendar.Moment`); `EarlierIsTickOrder` shows
  that comparing fields is comparing tick counts. Years after 9999 do not exist: where the source throws
  because of that, the outcome is `OutOfCalendar`.
* Exceptions are values: `None`, `OutOfCalendar`, or a `false` result, with the state that the exception leaves.
* Day of month and day of week must both allow a date. POSIX.1-2017 `crontab` joins them by "or" when both are
  restricted; the code does not.
* `CrontabField.Next` may return its argument, although its comment says "after". An empty field, which no
  schedule can contain, answers its sentinel 2147483647.
* `v/n` runs on to the maximum of the field, but `v/1` is the value alone while a step below 1 is every value from
  there on (`SteppedValueMeans`). A step that overflows 32 bits makes a bit index negative, so such a text is rejected.
* When no minute matches at all, the search ends at `endTime` only if it meets it (`MeetsEnd`); otherwise it throws.
* The gauge of the watcher is exact except after a request that throws while it replaces a live watcher that had
  stopped watching (`GaugeCanBeWrong`; `GaugeStep` and `GaugeRun` are if-and-only-ifs).
* A watcher that was started and is not stopped has a live watcher or a pending retry, as long as the client answers
  (`NeverGivesUp`). A retry for which the client throws is lost (`RetryCanBeLost`); `UpRun` says exactly what loses it.
* A comment in CrontabSchedule.cs:174-178 lists "Apr 31" among the occurrences of `0 0 15,31 * *` and leaves out
  31 March; the code does the reverse (`MiddleAndEnd`).
* `ShouldRun` compares local times. A time zone is any function from moments to local ticks, so daylight saving and
  the clamping at the ends of the calendar are covered. When clocks go back, a task can be stuck for good
  (`HourlyTaskSticks`, `StuckForever`); `DueIsPastIff` says when the test means what it is for.
* `Sync` looks the schedule text up by key, but the task to change by uid. With two resources of one key in a list,
  which a cluster never gives, that can leave a schedule that is not the parse of its text
  (`SharedKeyKeepsWrongSchedule`); `SyncIsRightIff` says exactly when.
* A schedule object is never changed after parsing, so tasks hold the five value sets, and the scheduler
  takes its parser as a parameter: `ScheduleMeaning`, which `CrontabSchedule.Parse` is proved to compute. `Increment` uses
  `NextMatch`, which `GetNextOccurrenceUnbounded` is proved to compute. `CronRuns` states the results for that parser.

## Model

| member | source | states |
|---|---|---|
| Calendar.EarlierIsTickOrder | Libs/Sentinel.Scheduler/GeneralScheduler/Cron/CrontabSchedule.cs:192-195 | Comparing date-times field by field is comparing their tick counts, and equal counts are equal date-times, on the whole calendar. |
| Calendar.NextMinuteAdvances | Libs/Sentinel.Scheduler/GeneralScheduler/Cron/CrontabSchedule.cs:181-192 | The reference clock advances the tick count by exactly one minute through every carry of hour, day, short month, leap day and year, and skips no whole minute. |
| Calendar.CycleKeepsWeekday | Libs/Sentinel.Scheduler/GeneralScheduler/Cron/CrontabSchedule.cs:201-204 | Four hundred years later a date exists again, 146097 days on, and on the same weekday. |
| Calendar.MonthStarts | Libs/Sentinel.Scheduler/GeneralScheduler/Cron/CrontabSchedule.cs:183 | The days before each month, in closed form, which fixes the length of every month of every year. |
| Calendar.LongestMonthIsReached | Libs/Sentinel.Scheduler/GeneralScheduler/Cron/CrontabSchedule.cs:183 | The longest length of a month is its length in every leap year. |
| Calendar.KnownYears | Libs/Sentinel.Scheduler/GeneralScheduler/Cron/CrontabSchedule.cs:183 | Which of 1900, 2000, 2023, 2024 and 2100 are leap years. |
| Calendar.WeekdayFormula | Libs/Sentinel.Scheduler/GeneralScheduler/Cron/CrontabSchedule.cs:201 | The day of the week of every date in closed form. |
| Calendar.KnownNewYears | Libs/Sentinel.Scheduler/GeneralScheduler/Cron/CrontabSchedule.cs:201 | The days of the week on which the calendar, the year 2000 and the year 2024 start. |
| Calendar.KnownWeekdays | Libs/Sentinel.Scheduler/GeneralScheduler/Cron/CrontabSchedule.cs:201 | Those of the leap day of 2024 and of the last day of the calendar. |
| Calendar.MidnightIsNextDay | Libs/Sentinel.Scheduler/GeneralScheduler/Cron/CrontabSchedule.cs:201 | The clock goes to the next day number and to the next day of the week exactly at midnight. |
| Calendar.KnownTicks | Libs/Sentinel.Scheduler/GeneralScheduler/Cron/CrontabSchedule.cs:192-195 | The tick counts of the first and the last moment and of the start of 1970 are those of .NET. |
| Occurrence.NextMatchIsEarliest | Libs/Sentinel.Scheduler/GeneralScheduler/Cron/CrontabSchedule.cs:73-205 | The reference search returns the earliest minute after the base that all five fields allow; none means that the rest of the calendar has none. |
| Occurrence.UnboundedOccurrence | Libs/Sentinel.Scheduler/GeneralScheduler/Cron/CrontabSchedule.cs:68-71 | With the greatest date-time as end, the outcome is the earliest match, or leaving the calendar when there is none; never the end. |
| Occurrence.OccurrenceIsEarliest | Libs/Sentinel.Scheduler/GeneralScheduler/Cron/CrontabSchedule.cs:194-204 | An occurrence is never after the end; if it is not the end, it is a match, and no match after the base is earlier; leaving the calendar means that no match is left. |
| Occurrence.PossibleDateRecurs | Libs/Sentinel.Scheduler/GeneralScheduler/Cron/CrontabSchedule.cs:126-204 | If some allowed month can have some allowed day, then for every set of weekdays there is a match within 400 years after any base up to year 9599. |
| Occurrence.YearWithWeekday | Libs/Sentinel.Scheduler/GeneralScheduler/Cron/CrontabSchedule.cs:201-204 | Any 400 consecutive years contain a leap year in which a given date falls on a given weekday. |
| Occurrence.SatisfiableIffPossibleDate | Libs/Sentinel.Scheduler/GeneralScheduler/Cron/CrontabSchedule.cs:68-205 | For base years up to 9599 and no end, a next occurrence exists if and only if some allowed month can be long enough for some allowed day; it then lies within 146097 days, and otherwise the search leaves the calendar. |
| CrontabSchedules.CrontabSchedule.GetNextOccurrence | Libs/Sentinel.Scheduler/GeneralScheduler/Cron/CrontabSchedule.cs:73-205 | The carrying search with its retry and its recursion terminates and returns the smaller of the end and the earliest match of the reference search; if nothing matches it returns the end exactly when it meets it, and leaves the calendar otherwise. |
| CrontabSchedules.CrontabSchedule.FindDate | Libs/Sentinel.Scheduler/GeneralScheduler/Cron/CrontabSchedule.cs:97-192 | Up to the construction of the next time: either the outcome is already decided, or the slot found is the first that month, day, hour and minute allow, and no month before it ends the search. |
| CrontabSchedules.CrontabSchedule.FindTime | Libs/Sentinel.Scheduler/GeneralScheduler/Cron/CrontabSchedule.cs:87-120 | The least allowed time after the base on its day, or the first of the next day when there is none. |
| CrontabSchedules.CrontabSchedule.FindSlot | Libs/Sentinel.Scheduler/GeneralScheduler/Cron/CrontabSchedule.cs:128-162 | From an exhausted month, or from the first day found, the first slot allowed by all four fields; a retry always moves to a later month. |
| OccurrenceSearch.ShortMonthSkipped | Libs/Sentinel.Scheduler/GeneralScheduler/Cron/CrontabSchedule.cs:183-190 | Retrying after a day that the month lacks skips no match. |
| OccurrenceSearch.StopsAtShortMonth | Libs/Sentinel.Scheduler/GeneralScheduler/Cron/CrontabSchedule.cs:185-186 | The component-by-component early exit never hides a match before the end. |
| OccurrenceSearch.WeekdaySkipped | Libs/Sentinel.Scheduler/GeneralScheduler/Cron/CrontabSchedule.cs:201-204 | Searching on from 23:59 of a day that the weekday rules out moves the base forward and keeps the outcome. |
| OccurrenceSearch.LeavesCalendar | Libs/Sentinel.Scheduler/GeneralScheduler/Cron/CrontabSchedule.cs:183-192 | When the carry passes year 9999, nothing matches after the base and the end is not met. |
| CrontabSchedules.CrontabSchedule.GetNextOccurrenceUnbounded | Libs/Sentinel.Scheduler/GeneralScheduler/Cron/CrontabSchedule.cs:68-71 | The next match, or leaving the calendar if there is none. |
| CrontabSchedules.CrontabSchedule.GetNextOccurrences | Libs/Sentinel.Scheduler/GeneralScheduler/Cron/CrontabSchedule.cs:58-66 | Exactly the matching minutes strictly between base and end, once each and ascending; it throws exactly when the search after the last one leaves the calendar, and never for a satisfiable schedule and years up to 9599. |
| CrontabSchedules.CrontabSchedule.Parse | Libs/Sentinel.Scheduler/GeneralScheduler/Cron/CrontabSchedule.cs:22-56 | Accepts an expression exactly if it has five fields that denote sets, and holds those five sets. |
| CrontabSchedules.CrontabSchedule.ToString | Libs/Sentinel.Scheduler/GeneralScheduler/Cron/CrontabSchedule.cs:207-222 | Writes the canonical text of the five sets. |
| ScheduleTexts.ScheduleTextRoundTrip | Libs/Sentinel.Scheduler/GeneralScheduler/Cron/CrontabSchedule.cs:207-222 | Parsing the canonical text of any valid schedule succeeds and gives the same five sets, hence the same occurrences. |
| ScheduleTexts.ParsedScheduleIsValid | Libs/Sentinel.Scheduler/GeneralScheduler/Cron/CrontabSchedule.cs:26-40 | Every accepted expression denotes five non-empty sets within their ranges. |
| ScheduleLaws.FiveFields | Libs/Sentinel.Scheduler/GeneralScheduler/Cron/CrontabSchedule.cs:26-34 | A text that does not have five fields is refused. |
| ScheduleLaws.FieldsInOrder | Libs/Sentinel.Scheduler/GeneralScheduler/Cron/CrontabSchedule.cs:36-40 | The fields are minutes, hours, days, months and days of the week, in this order; the text is accepted exactly if all five are. |
| ScheduleLaws.BlanksDoNotMatter | Libs/Sentinel.Scheduler/GeneralScheduler/Cron/CrontabSchedule.cs:26 | Blanks before, after and between the fields do not matter. |
| ScheduleLaws.ScheduleIsPrinted | Libs/Sentinel.Scheduler/GeneralScheduler/Cron/CrontabSchedule.cs:207-222 | The text is the five fields in order with one blank between each two; each is a star or its maximal runs in ascending order, in decimal digits. |
| KnownAnswers.SixStars | Libs/Sentinel.Scheduler.Tests/CrontabScheduleTests.cs:84-88 | Six fields are refused. |
| KnownAnswers.EveryThirdMinuteText | Libs/Sentinel.Scheduler.Tests/CrontabScheduleTests.cs:154-166 | The meaning of `*/3 * * * *`. |
| KnownAnswers.EveryThirdMinute | Libs/Sentinel.Scheduler.Tests/CrontabScheduleTests.cs:154-166 | After 23:58 on the last day of 2021 it fires at the start of 2022. |
| KnownAnswers.NineToFiveText | Libs/Sentinel.Scheduler.Tests/CrontabScheduleTests.cs:41-49 | The meaning of `0 9-17 * * *`. |
| KnownAnswers.NineToFivePrinted | Libs/Sentinel.Scheduler/GeneralScheduler/Cron/CrontabSchedule.cs:207-222 | It is printed as it is read. |
| KnownAnswers.NineToFive | Libs/Sentinel.Scheduler.Tests/CrontabScheduleTests.cs:41-49 | After 17:00 on a leap day it fires at 9:00 the next day. |
| KnownAnswers.MondaysText | Libs/Sentinel.Scheduler.Tests/CrontabScheduleTests.cs:53-60 | The meaning of `0 0 * * 1`. |
| KnownAnswers.Mondays | Libs/Sentinel.Scheduler/GeneralScheduler/Cron/CrontabSchedule.cs:201 | After Sunday, 31 December 2023, it fires on 1 January 2024. |
| KnownAnswers.MondayToFridayText | Libs/Sentinel.Scheduler.Tests/CrontabScheduleTests.cs:53-60 | The meaning of `0 0 * * 1-5`. |
| KnownAnswers.MondayToFriday | Libs/Sentinel.Scheduler.Tests/CrontabScheduleTests.cs:53-60 | After Friday, 5 January 2024, it fires on Monday. |
| KnownAnswers.FridayThe13th | Libs/Sentinel.Scheduler/GeneralScheduler/Cron/CrontabSchedule.cs:197-202 | Day of month and day of week must both allow a date: the first Friday the 13th of 2024 is in September. |
| KnownAnswers.LeapDay | Libs/Sentinel.Scheduler/GeneralScheduler/Cron/CrontabSchedule.cs:164-190 | 29 February comes after 1 March 2023 in 2024. |
| KnownAnswers.LastOfMay | Libs/Sentinel.Scheduler/GeneralScheduler/Cron/CrontabSchedule.cs:164-190 | After 31 March the next 31st is in May. |
| KnownAnswers.MiddleAndEnd | Libs/Sentinel.Scheduler/GeneralScheduler/Cron/CrontabSchedule.cs:164-180 | The sequence of `0 0 15,31 * *` from the year 2000 on. |
| KnownAnswers.NeverStopsAtEnd | Libs/Sentinel.Scheduler/GeneralScheduler/Cron/CrontabSchedule.cs:185-186 | Searching for 30 February stops at an end that the date passes component by component. |
| KnownAnswers.NeverLeavesCalendar | Libs/Sentinel.Scheduler/GeneralScheduler/Cron/CrontabSchedule.cs:185-186 | With an end in December, even one before the base, it leaves the calendar instead. |
| FieldRoundTrip.FieldTextRoundTrip | Libs/Sentinel.Scheduler/GeneralScheduler/Cron/CrontabFieldImpl.cs:99-144 | For every field kind and every set of values, with numbers and with full names, the canonical text parses back to exactly that set. |
| FieldRoundTrip.RunsAreMaximal | Libs/Sentinel.Scheduler/GeneralScheduler/Cron/CrontabFieldImpl.cs:110-143 | The printed runs are in range, contained in the set, separated by gaps, ascending, and cover every member. |
| FieldRoundTrip.MaximalRunsAreUnique | Libs/Sentinel.Scheduler/GeneralScheduler/Cron/CrontabFieldImpl.cs:110-143 | A set has only one list of maximal runs, so the text depends on the set alone. |
| FieldRoundTrip.SteppedValueMeans | Libs/Sentinel.Scheduler/GeneralScheduler/Cron/CrontabFieldImpl.cs:231-288 | For any text of a value and any text of a step, `v/n` runs to the maximum of the field, `v/1` is the value alone, a step below 1 counts as 1, and a step that overflows 32 bits is refused. |
| FieldRoundTrip.SteppedNumberMeans | Libs/Sentinel.Scheduler/GeneralScheduler/Cron/CrontabFieldImpl.cs:231-288 | Written as numbers with a step below 100, such a text is never refused. |
| IntegerText.IntegerMeans | Libs/Sentinel.Scheduler/GeneralScheduler/Cron/CrontabFieldImpl.cs:242 | White space, a sign, digits, white space and NUL characters are the integer of the sign and the digits, if it has 32 bits, and are refused otherwise. |
| IntegerText.IntegerShape | Libs/Sentinel.Scheduler/GeneralScheduler/Cron/CrontabFieldImpl.cs:300 | Nothing else is an integer. |
| IntegerText.DecimalRoundTrip | Libs/Sentinel.Scheduler/GeneralScheduler/Cron/CrontabFieldImpl.cs:300 | The decimal digits of every number up to 2147483647 parse to it, and those of a greater one are refused. |
| FieldLaws.TokenMeans | Libs/Sentinel.Scheduler/GeneralScheduler/Cron/CrontabFieldImpl.cs:252-286 | A star is the whole range, a value itself, and two values are the interval between them in either order; what is out of range is refused. |
| FieldLaws.SteppedTokenMeans | Libs/Sentinel.Scheduler/GeneralScheduler/Cron/CrontabFieldImpl.cs:239-286 | With any step text, a star, a value or two values are every n-th value of the range, of the rest of the field, or of the interval; or a refusal. |
| FieldLaws.StepsAccepted | Libs/Sentinel.Scheduler/GeneralScheduler/Cron/CrontabField.cs:205-232 | Within range, no step up to 2147483588 is refused. |
| FieldLaws.BigStarStep | Libs/Sentinel.Scheduler/GeneralScheduler/Cron/CrontabField.cs:205-232 | A star by a step beyond the field is the minimum alone, for every 32-bit step. |
| FieldLaws.BigValueStep | Libs/Sentinel.Scheduler/GeneralScheduler/Cron/CrontabField.cs:205-232 | A value by a step beyond the field is the value alone, and refused exactly if the sum overflows 32 bits. |
| FieldLaws.ProgressionIs | Libs/Sentinel.Scheduler/GeneralScheduler/Cron/CrontabField.cs:224-232 | The values are exactly the whole numbers of steps from the first one, as far as the last. |
| FieldLaws.TokenShape | Libs/Sentinel.Scheduler/GeneralScheduler/Cron/CrontabFieldImpl.cs:229-286 | There is no other accepted token: each is a star, a value or two values with a dash, followed by nothing or by a slash and an integer. |
| FieldLaws.ListIsUnion | Libs/Sentinel.Scheduler/GeneralScheduler/Cron/CrontabFieldImpl.cs:223-228 | A list of tokens is the union of what they mean, and is refused if one of them is, be it empty. |
| FieldLaws.AbbreviationMeans | Libs/Sentinel.Scheduler/GeneralScheduler/Cron/CrontabFieldImpl.cs:309-313 | The first three letters of a name, in any case, name its value. |
| FieldLaws.CaseDoesNotMatter | Libs/Sentinel.Scheduler/GeneralScheduler/Cron/CrontabFieldImpl.cs:309-313 | Texts that differ in case only name the same value, or none. |
| FieldLaws.KnownMonths | Libs/Sentinel.Scheduler/GeneralScheduler/Cron/CrontabFieldImpl.cs:18-23 | jan to dec are 1 to 12. |
| FieldLaws.KnownDays | Libs/Sentinel.Scheduler/GeneralScheduler/Cron/CrontabFieldImpl.cs:25-29 | SUN to SAT are 0 to 6. |
| FieldLaws.NoNames | Libs/Sentinel.Scheduler/GeneralScheduler/Cron/CrontabFieldImpl.cs:302-307 | Minutes, hours and days have no names: what does not start with a digit is refused. |
| FieldLaws.RunTextPrints | Libs/Sentinel.Scheduler/GeneralScheduler/Cron/CrontabFieldImpl.cs:129-140 | The text of a run is its one value, or its first value, a dash and its last value; each value is its decimal digits or its full name. |
| FieldLaws.TextListsRuns | Libs/Sentinel.Scheduler/GeneralScheduler/Cron/CrontabFieldImpl.cs:107-143 | A field is printed as a star exactly if it has all values; otherwise the pieces between the commas print the maximal runs, in ascending order. |
| FieldLaws.IntervalText | Libs/Sentinel.Scheduler/GeneralScheduler/Cron/CrontabFieldImpl.cs:129-140 | An interval is printed as one run. |
| FieldRoundTrip.NameIsFirst | Libs/Sentinel.Scheduler/GeneralScheduler/Cron/CrontabFieldImpl.cs:309-313 | A full name is found as itself by the search for the first name that a text abbreviates. |
| FieldRoundTrip.NumberRoundTrip | Libs/Sentinel.Scheduler/GeneralScheduler/Cron/CrontabFieldImpl.cs:168-182 | The fast digits of a value below 100 parse back to that value. |
| FieldText.SplitJoin | Libs/Sentinel.Scheduler/GeneralScheduler/Cron/CrontabFieldImpl.cs:225-228 | Splitting at a separator undoes joining with it. |
| FieldLaws.JoinSplit | Libs/Sentinel.Scheduler/GeneralScheduler/Cron/CrontabFieldImpl.cs:227 | Joining undoes splitting, for every text. |
| FieldText.UnionAllMembers | Libs/Sentinel.Scheduler/GeneralScheduler/Cron/CrontabFieldImpl.cs:223-229 | A list is accepted exactly if each of its tokens is, and denotes exactly the members of their sets. |
| FieldText.WalkVisitsAll | Libs/Sentinel.Scheduler/GeneralScheduler/Cron/CrontabField.cs:36-60 | Searching from the first value, and then from just after each one found, visits every member once in ascending order. |
| CrontabFields.CrontabField.Accumulate | Libs/Sentinel.Scheduler/GeneralScheduler/Cron/CrontabField.cs:139-247 | Adds exactly the arithmetic progression that the bounds, in either order, and the interval denote; fails exactly for bounds out of range or a counter that overflows; the cached bounds stay the least and greatest members. |
| CrontabFields.CrontabField.SetBits | Libs/Sentinel.Scheduler/GeneralScheduler/Cron/CrontabField.cs:224-232 | The stepping loop sets exactly the progression's bits, and its wrapped counter goes negative exactly if the last value plus the step exceeds 32 bits. |
| CrontabFields.XorSwap | Libs/Sentinel.Scheduler/GeneralScheduler/Cron/CrontabField.cs:191-196 | Three exclusive-or assignments exchange the bounds. |
| CrontabFields.XorCancels | Libs/Sentinel.Scheduler/GeneralScheduler/Cron/CrontabField.cs:191-196 | Exclusive or with the same value twice cancels out, bit by bit. |
| CrontabFields.LastVisit | Libs/Sentinel.Scheduler/GeneralScheduler/Cron/CrontabField.cs:231-246 | When the counter passes the end, the values visited are the whole progression and the last one visited is its greatest member. |
| CrontabFields.CrontabField.Next | Libs/Sentinel.Scheduler/GeneralScheduler/Cron/CrontabField.cs:45-60 | For any start, the least member not below it, or -1; every bit access is in range. |
| CrontabFields.CrontabField.GetFirst | Libs/Sentinel.Scheduler/GeneralScheduler/Cron/CrontabField.cs:36-39 | The least member, or -1 for the empty field. |
| CrontabFields.CrontabField.Contains | Libs/Sentinel.Scheduler/GeneralScheduler/Cron/CrontabField.cs:65-68 | Membership within the range, and an exception outside it. |
| CrontabFields.CrontabField.InternalParse | Libs/Sentinel.Scheduler/GeneralScheduler/Cron/CrontabFieldImpl.cs:211-288 | Accepts exactly the texts that denote a set, and adds exactly that set. |
| CrontabFields.CrontabField.Parse | Libs/Sentinel.Scheduler/GeneralScheduler/Cron/CrontabField.cs:19-29 | A fresh field holds exactly the values that the text denotes, with exact cached bounds. |
| CrontabFields.ParseValue | Libs/Sentinel.Scheduler/GeneralScheduler/Cron/CrontabFieldImpl.cs:290-318 | A 32-bit number, or the first name that the text abbreviates whatever its case. |
| CrontabFields.CrontabField.Format | Libs/Sentinel.Scheduler/GeneralScheduler/Cron/CrontabFieldImpl.cs:99-144 | The nested loops write the canonical text of the set: a star for the full range, the maximal runs otherwise. |
| TickPhases.TickIs | Workers/Sentinel.Worker.Core/SchedulerJobs/BusScheduler.cs:49-71 | A tick publishes exactly the due tasks, in their order, and increments each, up to the first due task that has no next run: that one only has its last run moved on, and the tasks after it are left alone. |
| SchedulerRuns.TickOfTask | Workers/Sentinel.Worker.Core/SchedulerJobs/BusScheduler.cs:54-69 | A tick publishes at most one fire time of a task, the one it was due at, and leaves a task alone that is not due. |
| SchedulerRuns.TickPublishesTasks | Workers/Sentinel.Worker.Core/SchedulerJobs/BusScheduler.cs:59-69 | Every message carries the uid, the item and the due time of a task that was due, and the time of the tick. |
| SchedulerRuns.RunOnTime | Workers/Sentinel.Worker.Core/SchedulerJobs/BusScheduler.cs:49-71 | Over any run of ticks and of resyncs, failed ones included, that leave a task's schedule text unchanged, its fire times are its creation time and then each next match, and it waits for the one after. |
| SchedulerRuns.FireTimesAreExact | Libs/Sentinel.Scheduler/GeneralScheduler/ScheduledTask[T].cs:32-48 | Over any such run, in any time zone, the published fire times are strictly increasing, contain every match up to the last one and nothing else but the creation time; none was published before it was due by the local clock, and so none early if that clock keeps the order of time. |
| SchedulerRuns.LagIsBounded | Workers/Sentinel.Worker.Core/SchedulerJobs/BusScheduler.cs:51-61 | With ticks at most 60 s apart, none of which overlooks the task because of its local clock, after every tick at T the next run is later than T - 60 s, though each tick runs at most one occurrence. |
| SchedulerRuns.SatisfiableTickSucceeds | Libs/Sentinel.Scheduler/GeneralScheduler/ScheduledTask[T].cs:32-36 | As long as every time that the local clock places before the tick lies in years up to 9599, a tick over satisfiable schedules throws no exception. |
| CronRuns.CronFireTimes | Libs/Sentinel.Scheduler/GeneralScheduler/ScheduledTask[T].cs:12-36 | For the cron parser, in any zone: from the Sync that adds a resource on, its published fire times are its creation time and then all occurrences of its cron expression up to the last. |
| CronRuns.CronLagIsBounded | Workers/Sentinel.Worker.Core/SchedulerJobs/BusScheduler.cs:51-61 | For the cron parser and a clock that keeps the order of time, with ticks at most 60 s apart, its next run is always later than 60 s before the last tick. |
| CronRuns.CanRunIffOccurrences | Libs/Sentinel.Scheduler/SchedulerRepository[T].cs:85-92 | Up to year 9599 a resource can be added and logged without an exception if and only if its text parses and some allowed month can have some allowed day. |
| Reconciliation.SyncIs | Libs/Sentinel.Scheduler/SchedulerRepository[T].cs:104-143 | Sync succeeds exactly if every item's text parses and has an occurrence left; then the listed tasks are refreshed in place and new tasks follow; in any case every schedule stays the parse of its item's text. |
| Reconciliation.SyncReconciles | Libs/Sentinel.Scheduler/SchedulerRepository[T].cs:104-143 | Afterwards there is exactly one task per item, carrying that item; its times are kept if the schedule text is unchanged, and it starts anew otherwise. |
| Reconciliation.SyncTwice | Libs/Sentinel.Scheduler/SchedulerRepository[T].cs:104-143 | A second Sync with the same items changes nothing. |
| Reconciliation.SyncKeepsTimer | Libs/Sentinel.Scheduler/SchedulerRepository[T].cs:129-141 | Even a Sync that fails half-way keeps the timer of a task whose item is listed with the same text. |
| SyncDetails.FailedSyncIs | Libs/Sentinel.Scheduler/SchedulerRepository[T].cs:104-143 | A Sync that fails either stops among the additions, with nothing removed or updated, or among the updates; the item that fails is the first that cannot run, and what was done for it before the log line threw stays. |
| SyncDetails.AddAllStops | Libs/Sentinel.Scheduler/SchedulerRepository[T].cs:85-92 | The task of an item whose log line throws stays in the list; that of one whose text does not parse was not added. |
| SyncDetails.UpdateAllStops | Libs/Sentinel.Scheduler/SchedulerRepository[T].cs:129-141 | The updates up to the failing one, and no others, have been made. |
| SyncDetails.UnknownChangesNothing | Libs/Sentinel.Scheduler/SchedulerRepository[T].cs:47-84 | An update of an item whose uid no task has changes nothing. |
| SyncDetails.ItemsByInOrder | Libs/Sentinel.Scheduler/SchedulerRepository[T].cs:112-113 | The items to add, and those to update, are exactly the unknown and the known ones, in the order of the list. |
| SyncDetails.ListedInOrder | Libs/Sentinel.Scheduler/SchedulerRepository[T].cs:114 | The tasks that remain are exactly the listed ones, in their order. |
| SharedKeys.SyncIsRightIff | Libs/Sentinel.Scheduler/SchedulerRepository[T].cs:104-143 | From schedules that are the parses of their texts, a Sync of items with distinct uids, failed or not, leads to such schedules again if and only if none of its updates finds, by key, a task with the item's text while the task of the uid has another schedule. |
| SharedKeys.UpdateOneParsed | Libs/Sentinel.Scheduler/SchedulerRepository[T].cs:132-140 | The same for one update; the schedule that it leaves wrong is that of the item's uid. |
| SharedKeys.SharedKeyKeepsWrongSchedule | Libs/Sentinel.Scheduler/SchedulerRepository[T].cs:132-140 | It happens from an empty repository: two resources with one key are added, the second then gets the text of the first, and its task carries the new text with the old schedule. |
| Reconciliation.KeyFindsUid | Libs/Sentinel.Scheduler/SchedulerRepository[T].cs:132 | When keys are distinct and never change for a uid, the lookup by key finds the task of the uid. |
| Scheduler.ScheduledTask.Create | Libs/Sentinel.Scheduler/GeneralScheduler/ScheduledTask[T].cs:12-21 | A new task is due at its reference time, or the text does not parse. |
| Scheduler.ScheduledTask.Increment | Libs/Sentinel.Scheduler/GeneralScheduler/ScheduledTask[T].cs:32-36 | The last run becomes the next one and the next becomes the next match; if there is none, only the last run changes. |
| LocalTime.DueIsPastIff | Libs/Sentinel.Scheduler/GeneralScheduler/ScheduledTask[T].cs:38-48 | The test on local times says of every task at every time whether its next run is past and not yet run, if and only if the local clock keeps the order of time. |
| LocalTime.FixedOffsetKeepsOrder | Libs/Sentinel.Scheduler/GeneralScheduler/ScheduledTask[T].cs:38-48 | Every zone with a fixed offset keeps it. |
| LocalTime.OrderKeptOverlooksNothing | Libs/Sentinel.Scheduler/GeneralScheduler/ScheduledTask[T].cs:38-48 | A clock that keeps the order of time overlooks no task in any run. |
| LocalTime.StuckForever | Libs/Sentinel.Scheduler/GeneralScheduler/ScheduledTask[T].cs:38-48 | In any zone, a task whose last and next run show the same local time publishes nothing and keeps its times over every run that leaves its text unchanged. |
| LocalTime.DueAgainIff | Libs/Sentinel.Scheduler/GeneralScheduler/ScheduledTask[T].cs:38-48 | Once the local clock can show a time after the next run, a task is due at some time if and only if its last and next run show different local times. |
| LocalTime.HourlyTaskSticks | Libs/Sentinel.Scheduler/GeneralScheduler/ScheduledTask[T].cs:38-48 | It happens in the default zone: an hourly task that runs in the hour before the clocks of Melbourne went back in 2023 is never due again. |
| Scheduler.BusScheduler.Execute | Workers/Sentinel.Worker.Core/SchedulerJobs/BusScheduler.cs:49-71 | Collecting first and then looping over task objects updated in place is one pass of the tick; the messages are appended to what was published. |
| Scheduler.BusScheduler.constructor | Workers/Sentinel.Worker.Core/SchedulerJobs/BusScheduler.cs:18-48 | A snapshot of the task objects of all registered repositories, one list after the other. |
| Scheduler.SnapshotIsDistinct | Workers/Sentinel.Worker.Core/SchedulerJobs/BusScheduler.cs:38-47 | Repositories without duplicates that share no task object give a snapshot without duplicates, which is what a tick asks for. |
| Scheduler.SnapshotHoldsAll | Workers/Sentinel.Worker.Core/SchedulerJobs/BusScheduler.cs:38-47 | The tasks of every repository are in the snapshot, in their order, behind those of the repositories before it. |
| TickPhases.TickedOneMore | Workers/Sentinel.Worker.Core/SchedulerJobs/BusScheduler.cs:59-69 | Running one more collected task is one more step of the single pass, or its end. |
| Scheduler.SchedulerRepository.Add | Libs/Sentinel.Scheduler/SchedulerRepository[T].cs:85-92 | Appends a new task; the log line throws after that if the schedule has no occurrence left. |
| Scheduler.SchedulerRepository.Remove | Libs/Sentinel.Scheduler/SchedulerRepository[T].cs:93-101 | Removes the first task of the uid, and no other. |
| Scheduler.SchedulerRepository.UpdateSchedulerRepository | Libs/Sentinel.Scheduler/SchedulerRepository[T].cs:47-65 | Replaces the first task of the uid by a new one. |
| Scheduler.SchedulerRepository.UpdateTask | Libs/Sentinel.Scheduler/SchedulerRepository[T].cs:67-84 | Gives the first task of the uid the item in place, keeping its schedule and times. |
| Scheduler.SchedulerRepository.Sync | Libs/Sentinel.Scheduler/SchedulerRepository[T].cs:104-143 | The three loops over task objects compute the reconciliation on values, with the work done so far when one throws; no list changes nothing. |
| Scheduler.MinusIsListed | Libs/Sentinel.Scheduler/SchedulerRepository[T].cs:114-127 | Removing the unlisted task objects by identity leaves exactly the listed tasks, in order. |
| RedisDictionaries.RedisDictionary.Sync | Libs/Sentinel.Redis/RedisDictionary.cs:233-260 | From any hash the keys become exactly the items' keys; overridden, each key has its last item, and otherwise keys that were present keep their value. |
| RedisDictionaries.RedisDictionary.SyncBy | Libs/Sentinel.Redis/RedisDictionary.cs:262-281 | The same without override, for keys computed by a function. |
| RedisDictionaries.RedisDictionary.Remove | Libs/Sentinel.Redis/RedisDictionary.cs:91-99 | Removes one key and says whether it was there. |
| RedisDictionaries.MergeOne | Libs/Sentinel.Redis/RedisDictionary.cs:236-250 | Adding items one by one is the merge of all of them, with the last item of a key winning. |
| RedisDictionaries.ReconciledIff | Libs/Sentinel.Redis/RedisDictionary.cs:233-281 | A hash is the reconciled one if and only if its keys are the items' keys and each holds its old value, where that is kept, or its last item; reconciling again changes nothing. |
| HealthCheckSync.HealthCheckSyncJob.Execute | Workers/Sentinel.Worker.Core/SyncJobs/HealthCheckSyncSchedulerJob.cs:81-102 | Stamps every item, then feeds the memory list, the repository and the Redis hash; if the repository throws, the hash is left as it was; otherwise the three have the same keys, provided that the items have distinct uids and so had the earlier tasks. |
| HealthCheckSync.StampedAllIs | Workers/Sentinel.Worker.Core/SyncJobs/HealthCheckSyncSchedulerJob.cs:84-87 | Every item gets the time of the sync and its related service, and keeps its uid, key and schedule. |
| HealthCheckSync.StoresAgree | Workers/Sentinel.Worker.Core/SyncJobs/HealthCheckSyncSchedulerJob.cs:99-102 | After a successful Sync of items with distinct uids, whatever the earlier tasks of distinct uids were, the task keys are the item keys. |
| HealthCheckSync.StoresAgreeAfterAnyRun | Workers/Sentinel.Worker.Core/SyncJobs/HealthCheckSyncSchedulerJob.cs:99-102 | The tasks need no hypothesis of their own: after any ticks and Syncs from an empty repository, failed ones included, of lists with distinct uids, a successful Sync leaves the task keys as the item keys. |
| HealthCheckSync.SyncKeepsDistinct | Libs/Sentinel.Scheduler/SchedulerRepository[T].cs:104-143 | A Sync of items with distinct uids, failed or not, keeps the uids of the tasks distinct. |
| HealthCheckSync.DistinctResourcesNeverMerge | Libs/Sentinel.Models/K8sDTOs/HealthCheckResourceV1.cs:13 | With namespaces that contain no dot, keys are distinct exactly if the pairs of name and namespace are. |
| Resources.KeyIsInjective | Libs/Sentinel.Models/K8sDTOs/HealthCheckResourceV1.cs:13 | Name and namespace can be read back from the key, as an RFC 1123 label contains no dot. |
| Resources.LastDot | Libs/Sentinel.Models/K8sDTOs/HealthCheckResourceV1.cs:13 | The key is the name, a dot and the namespace, which follows the last dot. |
| WatcherModel.AtMostOneWatcher | Libs/Sentinel.K8s/Watchers/ResourceWatcher.cs:70-211 | Under any interleaving of all steps at most one created watcher is undisposed; it is the one in the field, and the gauge is 1. |
| WatcherModel.SafeStep | Libs/Sentinel.K8s/Watchers/ResourceWatcher.cs:70-211 | Every step keeps the safety invariant, including that a live watcher has an active cancellation source. |
| WatcherModel.GaugeStep | Libs/Sentinel.K8s/Watchers/ResourceWatcher.cs:106-133 | A step keeps the gauge exact if and only if it is not a request that throws while replacing a watcher that stopped watching. |
| WatcherModel.GaugeCanBeWrong | Libs/Sentinel.K8s/Watchers/ResourceWatcher.cs:109-133 | A start whose watcher is not yet connected, followed by a start that throws, leaves the gauge at 1 with no live watcher. |
| WatcherModel.GaugeRun | Libs/Sentinel.K8s/Watchers/ResourceWatcher.cs:70-211 | The gauge is exact after every step of a run if and only if no request in it throws while replacing a live watcher that stopped watching. |
| WatcherModel.NoWatcherAfterStop | Libs/Sentinel.K8s/Watchers/ResourceWatcher.cs:88-107 | Once a stop or dispose has followed a start, no close, exception or timer creates a watcher, and all are disposed, until another explicit start. |
| WatcherLiveness.RequestConnects | Libs/Sentinel.K8s/Watchers/ResourceWatcher.cs:109-134 | A request creates one watcher, which is live, counted and under a new source, and disposes all others; a watcher that is watching is left alone. |
| WatcherLiveness.StartConnects | Libs/Sentinel.K8s/Watchers/ResourceWatcher.cs:70-74 | So a start connects when nothing is watching. |
| WatcherLiveness.RetryConnects | Libs/Sentinel.K8s/Watchers/ResourceWatcher.cs:61-65 | So does a pending retry, which is then no longer pending. |
| WatcherLiveness.CloseReconnects | Libs/Sentinel.K8s/Watchers/ResourceWatcher.cs:200-211 | The close of a live watcher leads to a new live one at once. |
| WatcherLiveness.IoExceptionReconnects | Libs/Sentinel.K8s/Watchers/ResourceWatcher.cs:179-186 | So does the exception of a closed connection. |
| WatcherLiveness.FailureWaits | Libs/Sentinel.K8s/Watchers/ResourceWatcher.cs:170-198 | Any other exception leads to a retry after the backoff and to a reset timer of one minute; until then a close is ignored. |
| WatcherLiveness.UpStep | Libs/Sentinel.K8s/Watchers/ResourceWatcher.cs:70-211 | From a state with a live watcher or a pending retry, a callback leads to such a state if and only if it is not one of those listed in `GoesDown`. |
| WatcherLiveness.UpRun | Libs/Sentinel.K8s/Watchers/ResourceWatcher.cs:70-211 | All through a run there is a live watcher or a pending retry if and only if none of those callbacks occurs in it. |
| WatcherLiveness.NeverGivesUp | Libs/Sentinel.K8s/Watchers/ResourceWatcher.cs:70-211 | If the client answers every request and nobody stops the watcher, this holds after every callback, in any order. |
| WatcherLiveness.EveryRequestLeadsToLive | Libs/Sentinel.K8s/Watchers/ResourceWatcher.cs:70-211 | In such a run every further start, close, closed-connection exception and pending retry leads to a live watcher. |
| WatcherLiveness.RetryCanBeLost | Libs/Sentinel.K8s/Watchers/ResourceWatcher.cs:61-65 | A retry for which the client throws is not tried again: no live watcher, no pending retry. |
| BackoffRuns.BackoffBounds | Libs/Sentinel.K8s/Watchers/ResourceWatcher.cs:213-215 | Each delay lies in the second that starts at the power of two capped at 32, so below 33 s. |
| BackoffRuns.CounterIsNeverReset | Libs/Sentinel.K8s/Watchers/ResourceWatcher.cs:188-197 | If each retry is followed by a failure within 27 s, then, whatever starts, closed connections and changes of Watching come between, until a stop the reset timer never fires and the counter counts the failures. |
| BackoffRuns.NthFailureUsesNthBackoff | Libs/Sentinel.K8s/Watchers/ResourceWatcher.cs:188-197 | In every such run the n-th consecutive failure waits with exponent n. |
| BackoffRuns.ConsecutiveFailures | Libs/Sentinel.K8s/Watchers/ResourceWatcher.cs:188-215 | From a fresh counter, the n-th failure in a row is retried after at least the capped power of two seconds and less than one second more. |
| BackoffRuns.DelayTable | Libs/Sentinel.K8s/Watchers/ResourceWatcher.cs:213-215 | The delays in milliseconds: 2000, 4000, 8000, 16000 and then 32000, and the random part. |
| BackoffRuns.QuietMinuteResets | Libs/Sentinel.K8s/Watchers/ResourceWatcher.cs:191-195 | Without a failure the counter stays as it is until the reset timer is due, and is 0 as soon as anything happens after that. |
| BackoffRuns.MinuteAfterFailure | Libs/Sentinel.K8s/Watchers/ResourceWatcher.cs:191-195 | More than 60 s after a failure that no other followed, the counter is 0. |
| BackoffRuns.FirstFailureAgain | Libs/Sentinel.K8s/Watchers/ResourceWatcher.cs:188-197 | The next failure is then retried after 2 to 3 s. |
| ResourceWatchers.ResourceWatcher.Start | Libs/Sentinel.K8s/Watchers/ResourceWatcher.cs:70-74 | The object's start is the model's start step, and keeps the safety invariant. |
| ResourceWatchers.ResourceWatcher.Stop | Libs/Sentinel.K8s/Watchers/ResourceWatcher.cs:76-81 | The object's stop is the model's stop step. |
| ResourceWatchers.ResourceWatcher.Disposing | Libs/Sentinel.K8s/Watchers/ResourceWatcher.cs:88-107 | Handler, source and watcher are disposed, the retry timer is dropped and the gauge is 0. |
| ResourceWatchers.ResourceWatcher.WatchResource | Libs/Sentinel.K8s/Watchers/ResourceWatcher.cs:109-134 | A watching watcher is left alone, any other is disposed and replaced with a new source. |
| ResourceWatchers.ResourceWatcher.OnClose | Libs/Sentinel.K8s/Watchers/ResourceWatcher.cs:200-211 | The object's close callback is the model's close step. |
| ResourceWatchers.ResourceWatcher.RestartWatcher | Libs/Sentinel.K8s/Watchers/ResourceWatcher.cs:161-168 | Source cancelled, watcher disposed and forgotten, then a new request. |
| ResourceWatchers.ResourceWatcher.OnException | Libs/Sentinel.K8s/Watchers/ResourceWatcher.cs:170-198 | The object's exception callback is the model's exception step, with the exceptions of a disposed source and of a disposed handler. |
| ResourceWatchers.ResourceWatcher.OnRetry | Libs/Sentinel.K8s/Watchers/ResourceWatcher.cs:61-65 | The retry timer's callback is the model's retry step. |
| ResourceWatchers.ResourceWatcher.OnReset | Libs/Sentinel.K8s/Watchers/ResourceWatcher.cs:192-195 | The reset timer's callback sets the counter to 0. |

## Left out

- GetNextOccurrence: models values, not the depth of the call stack; `DateTime.Kind` is dropped, as it takes no part in any comparison.
- GetNextOccurrences: the lazily produced sequence is modelled as the whole list and the exception that may end it.
- ParseValue: names are compared as ASCII letters without case, not by the invariant culture's collation; an overflow of `int.Parse` is a rejection like any other.
- Accumulate: required of its callers as they use it, -1 for both bounds or two parsed values; other negative bounds cannot occur.
- ShouldRun: one time zone serves a whole run; `DateTime.Kind`, by which a time could be taken for one of another zone, is dropped.
- Sync: one reading of the clock serves a whole call, where the source reads it once per task.
- LagIsBounded: for satisfiable schedules and years up to 9599, since an exception of one task ends the tick for the tasks after it, and for runs in which the local clock hides no task from a tick.
- OnException: the attempt counter is unbounded, where the source's would wrap after two thousand million failures; a random number of milliseconds and the client's answers are parameters.
- StoresAgree: for lists without two items of one uid, as the uids of a cluster are unique; the same is asked of the items wherever a Sync is described.
- AtMostOneWatcher: callbacks are atomic steps; races inside one callback and re-entry from a dispose are not modelled.
- Execute: publishing is an append to a list; message transport, retries and logging are left out, except for the log lines whose arguments can throw.
- Serialisation to and from Redis is the identity, and a key property is a function of the value; `Values`, enumeration and the indexer would only add easy members.
- Feeders that read items back from Redis, Quartz registration, Mongo, HTTP, mail, certificates and the dashboards are not part of this model.
- Stopping a watcher does not dispose the reset timer in the source; the model lets it fire at any time, which only clears the counter.
- Fetching and mapping the resources from the cluster and the status updates around them are parameters of the health-check job (HealthCheckSyncSchedulerJob.cs:73-81); handling of watch events (`OnWatcherEvent`) is not modelled, since it does not touch the connection's state.
- The scheduler job object is created for each firing, so every modelled tick runs over a fresh snapshot; an old snapshot that ticks after a later Sync is not modelled.

# Cycle: the period log engine and the calendar's date logic, in Dafny

This project models the core of Cycle, a menstrual-cycle tracker. The model covers two source files.

**`src/lib/period.ts`** keeps a log of period records. Each record has a start date, an optional end date and a note. The model covers:
- the log's normalisation into cycles sorted by start date;
- the status engine: whether today falls in a period, how far into it and how long until it ends, the rolling average cycle and period lengths, and the signed number of days until the next period;
- the expansion of cycles into highlighted days;
- the four edits of the log: add start, add end, delete, update.

**`src/components/ui/calendar.tsx`** is the calendar component. The model covers the six-week month grid and the click-driven date-range selection.

Modules:

| module | file | what it holds |
|---|---|---|
| `Wrappers` | `wrappers.dfy` | `Option` |
| `PeriodRecords` | `period_records.dfy` | records, cycles, the constants as `Config`, the stable sort, `ParsePeriodCycles` |
| `PeriodEdits` | `period_edits.dfy` | `AddPeriodStart`, `AddPeriodEnd`, `DeletePeriodCycle`, `UpdatePeriodCycle` |
| `PeriodStatusEngine` | `period_status.dfy` | the specification function `Status`, the method `GetPeriodStatus` proved to compute it, and the lemmas about it |
| `PeriodDays` | `period_days.dfy` | `AllPeriodDays` and the method `GetAllPeriodDays` |
| `PeriodProperties` | `period_properties.dfy` | what the edits mean for the status, the edits keeping the rule that no record ends before it starts, and the worked averaging and prediction examples |
| `LocalDate` | `local_date.dfy` | `ParseLocalDate` on "yyyy-MM-dd" strings, and the proof that string order is date order |
| `Calendar` | `calendar.dfy` | the method `MonthGrid`, `IsInRange`, `IsRangeStart`, `IsRangeEnd`, `HandleDateClick` |

## How dates are represented

- **Day numbers.** A date is an integer day number (`Day = int`), counted from 1 January 1970 as ECMAScript's `Day(t)` counts. `differenceInDays` becomes subtraction and `addDays` becomes addition.
- **Parsing.** `LocalDate.ParseLocalDate` maps a "yyyy-MM-dd" string to its day number the way `new Date(y, m - 1, d)` does (ECMA-262 `MakeDay`). This includes month carry and days past the end of a month.
- **Why day numbers are enough.** `LocalDate.IsoOrderIsDayOrder` proves two facts for valid dates from year 100 on:
  - Comparing the strings by code units is comparing their day numbers.
  - Two strings are equal exactly when their days are.

  So the source's string sorts and comparisons are sorts and comparisons of day numbers.
- **Missing ends.** An empty `endDate` string is `None`.
- **Sorting.** `Array.prototype.sort` is stable, so it is modelled as a stable insertion sort (`SortByStart`). There are two orders: the ascending comparator and the descending one.
- **Rounding.** `Math.round(sum / n)` is `(2 * sum + n) / (2 * n)`. For `n > 0` it is the integer nearest to the rational `sum / n`, a half rounding up. The source divides in floating point. The two agree while the sums stay far below 2^52, which sums of day counts always do.
- **Constants.** The constants of `src/lib/constants.ts` are a `Config` parameter; that file is not part of this model. `averagePeriodMonth` is both the window of the period-length average and the count threshold of the cycle-length average.
- **Today and the cutoff.** `today` is a day number. `subMonths(today, AVERAGE_PERIOD_MONTH)` is the parameter `cutoff`.
- **Weekdays.** The calendar's weekday of day `d` is `(d + 4) % 7`, with 0 for Sunday, because 1 January 1970 was a Thursday. A month is given by the day number of its first day and its length.

## Behaviour of the code worth knowing

- **`averagePeriodDays` is never null.** It falls back to `AVERAGE_PERIOD_DAYS`, so the branch at `period.ts:122` on `averagePeriodDays !== null` is always taken.
- **Cycle threshold.** The threshold for the cycle-length average is `AVERAGE_PERIOD_MONTH` (`period.ts:84`), not a separate constant.
- **No sort in `getPeriodStatus`.** It uses the list in the order it is given. The sorting happens in `parsePeriodCycles`, and the model keeps it there.
- **Overdue prediction.** 35 days after the last start, with a 28-day average, `daysUntilNext` is −7 (`PeriodProperties.PredictionFromOneCycle`).

## Model

| member | source | states |
|---|---|---|
| `PeriodRecords.SortByStart` | src/lib/period.ts:33 | the sort returns a permutation of its input, of the same length, sorted by start in the requested direction |
| `PeriodRecords.SortIsStable` | src/lib/period.ts:33 | records that share a start date keep their relative order through the sort |
| `PeriodRecords.SortOfSortedIsIdentity` | src/lib/period.ts:33 | an already sorted log comes back unchanged |
| `PeriodRecords.SortIsIdempotent` | src/lib/period.ts:33 | sorting twice is sorting once |
| `PeriodRecords.ToCycles` | src/lib/period.ts:34 | the `map` to cycles: one cycle per record in order, with the record's dates and without its note; `ToCyclesOfInsert` and `ToCyclesOfSort` state that sorting the records first leaves the multiset of cycles unchanged |
| `PeriodRecords.ParsePeriodCycles` | src/lib/period.ts:31-35 | the cycles have the log's length, are sorted ascending by start, and their (start, end) pairs are a permutation of the log's |
| `PeriodRecords.CyclesWithStart` | src/lib/period.ts:31-35 | no contract of its own: the cycles with a given start, in order; `ParsedCyclesOfOneStart` is stated in its terms |
| `PeriodRecords.ToCyclesOfWithStart` | src/lib/period.ts:34 | dropping the notes and picking the records of one start date can be done in either order |
| `PeriodRecords.ParsedCyclesOfOneStart` | src/lib/period.ts:31-35 | the cycles starting on a given day come out in the order their records have in the log, as the stable sort leaves them; `find` at :55-75 and `completedCycles[completedCycles.length - 1]` at :132 see that order |
| `PeriodStatusEngine.InCycle` | src/lib/period.ts:59-74 | no contract of its own: the loop's test, the three-way test for a cycle with an end and `start == today || start < today` for an open one; `InCycleIsMembership` states what it means |
| `PeriodStatusEngine.InCycleIsMembership` | src/lib/period.ts:59-74 | for a cycle not ending before its start, the loop's three-way test is `start <= today <= end`, and for an open cycle `start <= today` |
| `PeriodStatusEngine.CurrentCycle` | src/lib/period.ts:54-75 | the result is null exactly when no cycle holds today; otherwise it is a cycle that holds today with no earlier cycle holding it |
| `PeriodStatusEngine.FindCurrentCycle` | src/lib/period.ts:55-75 | the `for … of` loop with `break` computes `CurrentCycle` |
| `PeriodStatusEngine.Completed` | src/lib/period.ts:80 | no contract of its own: the `filter` of the cycles with an end, in order; `CompletedMembers`, `CompletedKeepsSorted` and `LastCompletedIsLastWithEnd` state its properties |
| `PeriodStatusEngine.CompletedMembers` | src/lib/period.ts:80 | the completed cycles are exactly the cycles with an end |
| `PeriodStatusEngine.CompletedKeepsSorted` | src/lib/period.ts:80 | the completed cycles of a sorted list are sorted |
| `PeriodStatusEngine.LastCompletedIsLastWithEnd` | src/lib/period.ts:132 | the last completed cycle is the last cycle in the list that has an end |
| `PeriodStatusEngine.Gaps` | src/lib/period.ts:86-90 | no contract of its own: the list of gaps between consecutive completed starts; `CycleLengths` is proved to push exactly these and `GapsTelescope` states their sum |
| `PeriodStatusEngine.Sum` | src/lib/period.ts:91 | no contract of its own: `reduce((a, b) => a + b, 0)` from the left; `GapsTelescope` and `SumBounds` state its value and bounds |
| `PeriodStatusEngine.CycleLengths` | src/lib/period.ts:85-90 | the index loop collects the gap between each completed start and the previous one |
| `PeriodStatusEngine.GapsTelescope` | src/lib/period.ts:86-91 | the gaps add up to the span from the first to the last completed start |
| `PeriodStatusEngine.RoundDiv` | src/lib/period.ts:91 | the result is the integer nearest to sum/n, with a half rounded up |
| `PeriodStatusEngine.RoundDivAtLeast` | src/lib/period.ts:91 | a rounded mean is never below a lower bound that every term meets |
| `PeriodStatusEngine.RoundDivAtMost` | src/lib/period.ts:109 | a rounded mean is never above an upper bound that every term meets |
| `PeriodStatusEngine.SumBounds` | src/lib/period.ts:91 | a sum of terms between lo and hi lies between count·lo and count·hi |
| `PeriodStatusEngine.AverageCycleDays` | src/lib/period.ts:83-92 | no contract of its own: the default below the threshold, otherwise the rounded mean gap; `AverageCycleIsMeanSpan`, `AverageCycleWithinGaps` and `AverageCycleOfSortedIsNonNegative` state its properties |
| `PeriodStatusEngine.AverageCycleIsMeanSpan` | src/lib/period.ts:83-92 | with enough completed cycles, the average cycle is the rounded first-to-last span divided by the number of gaps |
| `PeriodStatusEngine.AverageCycleWithinGaps` | src/lib/period.ts:83-92 | with enough completed cycles, the average cycle lies between the shortest and the longest gap |
| `PeriodStatusEngine.AverageCycleOfSortedIsNonNegative` | src/lib/period.ts:83-92 | for a list sorted by start and a non-negative default, the average cycle is not negative |
| `PeriodStatusEngine.Recent` | src/lib/period.ts:98-101 | no contract of its own: the completed cycles whose end is not before the cutoff, in order; `RecentMembers` states which they are |
| `PeriodStatusEngine.RecentMembers` | src/lib/period.ts:98-101 | the recent cycles are exactly the completed cycles that end on or after the cutoff |
| `PeriodStatusEngine.AveragePeriodDays` | src/lib/period.ts:95-110 | no contract of its own: the rounded mean inclusive length of the recent cycles, or the default when there are none; `AveragePeriodWithinLengths` and `AveragePeriodAtLeastOneDay` state its bounds |
| `PeriodStatusEngine.PeriodLength` | src/lib/period.ts:103-108 | no contract of its own: `differenceInDays(e, s) + 1`, the days of a completed cycle with both ends counted; `AveragePeriodAtLeastOneDay` relies on it being at least 1 for a cycle that does not end before it starts |
| `PeriodStatusEngine.PeriodLengths` | src/lib/period.ts:103-108 | no contract of its own: the `map` over the recent cycles; `AveragePeriodWithinLengths` and `AveragePeriodAtLeastOneDay` state the bounds of its rounded mean |
| `PeriodStatusEngine.AveragePeriodWithinLengths` | src/lib/period.ts:102-110 | with recent cycles, the average period lies between the shortest and the longest recent inclusive length |
| `PeriodStatusEngine.AveragePeriodAtLeastOneDay` | src/lib/period.ts:95-110 | when no cycle ends before its start, the average period is at least one day, provided there are recent cycles or the default is at least 1 |
| `PeriodStatusEngine.Status` | src/lib/period.ts:144-152 | `isOnPeriod` holds exactly when there is a current cycle; `averagePeriodDays` is never null; `daysSinceStart` and `daysUntilEnd` are set exactly when on a period |
| `PeriodStatusEngine.StatusCurrentCycle` | src/lib/period.ts:54-77 | on a period exactly when some cycle contains today; the current cycle is the first such cycle; a prediction is made exactly when not on a period and some cycle has an end |
| `PeriodStatusEngine.StatusDayCounts` | src/lib/period.ts:113-127 | `daysSinceStart = today - start`, never negative and 0 on the start day; `daysUntilEnd = end - today`, never negative, or `start + averagePeriodDays - 1 - today` for an open cycle |
| `PeriodStatusEngine.StatusPrediction` | src/lib/period.ts:130-142 | a prediction is the last cycle with an end, its start plus the average cycle minus today; it is signed, with both branches alike |
| `PeriodStatusEngine.StatusAverages` | src/lib/period.ts:83-110 | the default cycle length below the threshold, otherwise the mean span; the default period length when no cycle is recent |
| `PeriodStatusEngine.GetPeriodStatus` | src/lib/period.ts:48-153 | the procedure with its loops and branchwise assignments returns exactly `Status` |
| `PeriodDays.ShownEnd` | src/lib/period.ts:161 | no contract of its own: the cycle's end, or `addDays(startDate, 6)` for an open cycle; `ShownDays` and `AllPeriodDaysMembers` are stated in its terms |
| `PeriodDays.DayRun` | src/lib/period.ts:163-167 | no contract of its own: the days the `while` loop pushes, start to end inclusive, none when the end is earlier; `ShownDays` states its length and `GetAllPeriodDays`'s inner loop is proved to push it |
| `PeriodDays.ShownDays` | src/lib/period.ts:161-167 | an open cycle shows the 7 days from its start; a completed one shows `end - start + 1` days, or none when it ends before it starts |
| `PeriodDays.AllPeriodDays` | src/lib/period.ts:156-171 | no contract of its own: each cycle's run of shown days, cycles in list order; `AllPeriodDaysMembers` and `ShownDays` state which days and how many, and `GetAllPeriodDays` is proved to compute it |
| `PeriodDays.AllPeriodDaysMembers` | src/lib/period.ts:156-171 | a day is highlighted exactly when some cycle runs over it |
| `PeriodDays.GetAllPeriodDays` | src/lib/period.ts:156-171 | the nested loops produce the concatenation, in cycle order, of each cycle's ascending run of days |
| `PeriodEdits.AddPeriodStart` | src/lib/period.ts:174-179 | the log grows by one, is sorted by start, and gains exactly the record (date, date + `AVERAGE_PERIOD_DAYS`, "") |
| `PeriodEdits.OpenBy` | src/lib/period.ts:184 | no contract of its own: the `find` predicate, no end and a start not after the date; `FindOpenBy` and `AddPeriodEnd` are stated in its terms |
| `PeriodEdits.FindOpenBy` | src/lib/period.ts:184 | `find` returns the first record in list order that has no end and starts on or before the date, and returns nothing exactly when there is none |
| `PeriodEdits.FirstOpenIsLatest` | src/lib/period.ts:183-184 | after the descending sort, the record found has the latest start among all candidates |
| `PeriodEdits.CloseStart` | src/lib/period.ts:186 | the `map` of `addPeriodEnd`: same length; at every position the start and the note are kept; a record on the target's start ends on the date; any other record is unchanged. `AddPeriodEnd` is stated in its terms and `AddPeriodEndClosesTarget` states its effect |
| `PeriodEdits.AddPeriodEnd` | src/lib/period.ts:182-187 | with no candidate the log comes back unchanged; otherwise every record sharing the latest candidate's start gets the end date, and every other record and the order stay |
| `PeriodEdits.AddPeriodEndClosesTarget` | src/lib/period.ts:186 | after closing, every record with the target's start ends on the date |
| `PeriodEdits.Without` | src/lib/period.ts:195 | no contract of its own: the `filter`, in order; `WithoutCounts` and `DeletePeriodCycle` state that it keeps exactly the records with another start, each as often as before |
| `PeriodEdits.DeletePeriodCycle` | src/lib/period.ts:190-196 | the records kept are exactly those whose start differs, each as many times as before; the end argument is ignored |
| `PeriodEdits.DeleteAbsentIsIdentity` | src/lib/period.ts:195 | deleting a start no record has gives back the same log |
| `PeriodEdits.DeleteIsIdempotent` | src/lib/period.ts:195 | deleting twice is deleting once |
| `PeriodEdits.DeleteKeepsOrder` | src/lib/period.ts:195 | deletion distributes over concatenation, so the kept records stay in order |
| `PeriodEdits.UpdatePeriodCycle` | src/lib/period.ts:199-211 | sorted by start, and a rearrangement of the mapped log: every record keeps its multiplicity, those starting on the old date carrying the new dates and their note; so untouched records remain, every matched record appears edited, and nothing else appears |
| `PeriodEdits.Edit` | src/lib/period.ts:205-208 | no contract of its own: the record the `map` callback returns, a matched record with the new dates and its note, any other record as it was; `EditAll` applies it to every record |
| `PeriodEdits.EditAll` | src/lib/period.ts:204-208 | no contract of its own: the `map`, `Edit` applied record by record; `UpdatePeriodCycle`'s multiset clause is stated in its terms |
| `PeriodEdits.EditAllMembers` | src/lib/period.ts:204-208 | every record of the log appears edited in the mapped log, and every record of the mapped log is the edit of one of the log |
| `PeriodProperties.RecordBecomesCycle` | src/lib/period.ts:31-35 | every record's (start, end) pair is a cycle of the parsed log |
| `PeriodProperties.CycleComesFromRecord` | src/lib/period.ts:31-35 | every cycle of the parsed log comes from a record |
| `PeriodProperties.HeldDayIsOnPeriod` | src/lib/period.ts:55-77 | a cycle that holds today makes today a period day |
| `PeriodProperties.StartedPeriodIsCurrent` | src/lib/period.ts:174-179 | after logging a start on a date, that date is on a period in the status the engine computes; for a log with a cycle that ends before it starts the source's date library may throw instead, which the model does not represent |
| `PeriodProperties.FirstStartOfEmptyLog` | src/lib/period.ts:175 | the first start in an empty log gives, on its own day: day 0, `daysUntilEnd = AVERAGE_PERIOD_DAYS`, no prediction, the default cycle length, and a period length of `AVERAGE_PERIOD_DAYS + 1` once recent |
| `PeriodProperties.FirstStartParses` | src/lib/period.ts:31-35 | an empty log with one start logged parses to that one cycle, ending `averagePeriodDays` days later |
| `PeriodProperties.OneCycleStatus` | src/lib/period.ts:48-152 | the whole status of a log of one completed cycle seen on its first day: on a period, days to its end, no prediction, the default cycle length, and its own length as the average period when it is recent |
| `PeriodProperties.ClosedPeriodStillHoldsItsEnd` | src/lib/period.ts:182-187 | closing a period on a date keeps that date on a period |
| `PeriodProperties.DeletedCycleIsGone` | src/lib/period.ts:190-196 | after a deletion no cycle starts on the deleted date, and every remaining cycle was there before |
| `PeriodProperties.UpdatedCycleIsPresent` | src/lib/period.ts:199-211 | after updating a start that the log holds, the new (start, end) is a cycle |
| `PeriodProperties.ThreeRegularCycles` | src/lib/period.ts:83-92 | with a cycle-count threshold of at most 3, three completed cycles 28 days apart average to 28 |
| `PeriodProperties.ThreeCyclesBelowThreshold` | src/lib/period.ts:83-92 | with a threshold above 3, as at the source's six months, the same three cycles are too few and the default cycle length is reported |
| `PeriodProperties.CompletedIsNoLonger` | src/lib/period.ts:80 | the completed cycles are never more than the cycles |
| `PeriodProperties.ParsedLogEndsNotBeforeStarts` | src/lib/period.ts:31-35 | a log whose records never end before they start parses to cycles that never do, which is what the status engine requires |
| `PeriodProperties.AddPeriodStartKeepsRule` | src/lib/period.ts:174-179 | logging a start keeps that rule of the log when the default period length is not negative |
| `PeriodProperties.AddPeriodEndKeepsRule` | src/lib/period.ts:182-187 | closing a period keeps the rule, because only a record starting on or before the date is closed |
| `PeriodProperties.DeleteKeepsRule` | src/lib/period.ts:190-196 | deleting keeps the rule |
| `PeriodProperties.UpdateKeepsRule` | src/lib/period.ts:199-211 | updating keeps the rule when the new dates keep it themselves |
| `PeriodProperties.PredictionFromOneCycle` | src/lib/period.ts:130-142 | with a 28-day average and a last start on day s: on day s + 19 the next start is 9 days away; on day s + 35 it is 7 days overdue (−7) |
| `LocalDate.DecimalValue` | src/lib/period.ts:15 | `Number` on a string of `n` decimal digits is at least 0 and below 10^n |
| `LocalDate.StrLess` | src/lib/period.ts:33 | no contract of its own: code-unit string order, as `localeCompare` at :33 and `<=` at :184 are taken; `DigitStringOrder` and `StrLessOfConcat` state what it means for dates |
| `LocalDate.YearOf` | src/lib/period.ts:15 | no contract of its own: the first number of `split("-").map(Number)`; `ParseOfValidDate` and `IsoOrderIsDayOrder` state its use |
| `LocalDate.MonthOf` | src/lib/period.ts:15 | no contract of its own: the second number of `split("-").map(Number)`; `ParseOfValidDate` and `IsoOrderIsDayOrder` state its use |
| `LocalDate.DayOf` | src/lib/period.ts:15 | no contract of its own: the third number of `split("-").map(Number)`; `ParseOfValidDate` and `IsoOrderIsDayOrder` state its use |
| `LocalDate.MakeDay` | src/lib/period.ts:16 | no contract of its own: ECMAScript's `MakeDay`, the month carried into the year; `ParseOfValidDate` and `ParseIsInsideItsMonth` state its value for valid dates |
| `LocalDate.FullYear` | src/lib/period.ts:16 | no contract of its own: the constructor's 0..99 to 1900..1999 year rule; `ParseOfValidDate` states it is the identity from year 100 on and `TwoDigitYearsBreakTheOrder` shows its effect below |
| `LocalDate.DigitStringOrder` | src/lib/period.ts:15 | equal-length digit strings compare as strings as their `Number` values compare, and are equal exactly when those values are |
| `LocalDate.StrLessOfConcat` | src/lib/period.ts:33 | code-unit comparison of concatenations with equal-length heads is decided by the heads first |
| `LocalDate.IsoStringOrderIsFieldOrder` | src/lib/period.ts:33 | "yyyy-MM-dd" strings compare as their (year, month, day) triples compare lexicographically |
| `LocalDate.YearLength` | src/lib/period.ts:16 | by `DayFromYear`, a year is 366 days long in a Gregorian leap year and 365 otherwise |
| `LocalDate.MonthLengthsAddUp` | src/lib/period.ts:16 | the cumulative month table agrees with the month lengths and adds up to the year's length |
| `LocalDate.YearsFollowEachOther` | src/lib/period.ts:16 | an earlier year ends no later than a later one begins |
| `LocalDate.ParseLocalDate` | src/lib/period.ts:14-17 | no contract of its own beyond the "yyyy-MM-dd" shape it requires: `MakeDay` of the three fields after `FullYear`; `ParseOfValidDate`, `ParseIsInsideItsMonth`, `FieldOrderIsDayOrder`, `IsoOrderIsDayOrder` and `TwoDigitYearsBreakTheOrder` state what it computes |
| `LocalDate.ParseOfValidDate` | src/lib/period.ts:14-17 | for a valid date from year 100 on, `new Date(y, m - 1, d)` needs no month carry and reads the year as written |
| `LocalDate.ParseIsInsideItsMonth` | src/lib/period.ts:14-17 | a parsed valid date lies inside its year and its month, on the day the string names |
| `LocalDate.EarlierTripleIsEarlierDay` | src/lib/period.ts:16 | a lexicographically smaller real (year, month, day) comes earlier |
| `LocalDate.DateDayOrder` | src/lib/period.ts:16 | real dates compare as their triples do, and are the same day exactly when the triples are equal |
| `LocalDate.FieldOrderIsDayOrder` | src/lib/period.ts:14-17 | parsed valid dates compare as their fields do |
| `LocalDate.IsoOrderIsDayOrder` | src/lib/period.ts:31-35 | for valid dates from year 100 on, string order is day order and string equality is day equality |
| `LocalDate.TwoDigitYearsBreakTheOrder` | src/lib/period.ts:16 | below year 100 the constructor reads "0050" as 1950, so "0050-01-01" sorts before "0200-01-01" yet falls later |
| `Calendar.StartOfWeek` | src/components/ui/calendar.tsx:76 | `startOfWeek` with weeks starting on Sunday is a Sunday on or at most six days before the given day |
| `Calendar.EndOfWeek` | src/components/ui/calendar.tsx:77 | `endOfWeek` is a Saturday on or at most six days after the given day |
| `Calendar.WholeWeeks` | src/components/ui/calendar.tsx:79-89 | the unpadded days, Sunday to Saturday, are a whole number (at least one) of weeks |
| `Calendar.MonthFitsSixWeeks` | src/components/ui/calendar.tsx:90-98 | a month of at most 31 days spans at most six weeks |
| `Calendar.MonthGrid` | src/components/ui/calendar.tsx:74-98 | six weeks for any month of up to 31 days (in general the unpadded count when that is more); seven consecutive ascending days per week; the grid starts on the Sunday on or before the 1st; the unpadded part ends on the Saturday on or after the last day; every day of the month is in the grid |
| `Calendar.IsInRange` | src/components/ui/calendar.tsx:113-121 | false unless in range mode with both ends set; then true exactly for the days between the two ends, whichever end is earlier |
| `Calendar.IsInRangeIsSymmetric` | src/components/ui/calendar.tsx:117-120 | swapping `from` and `to` changes nothing |
| `Calendar.IsRangeStart` | src/components/ui/calendar.tsx:123-126 | no contract of its own: `RangeMarks` states when the start mark is set |
| `Calendar.IsRangeEnd` | src/components/ui/calendar.tsx:128-131 | no contract of its own: `RangeMarks` states when the end mark is set |
| `Calendar.RangeMarks` | src/components/ui/calendar.tsx:123-131 | the start mark is exactly on `from` and the end mark exactly on `to`, both in range mode only; with both ends set, the marked days are in range |
| `Calendar.HandleDateClick` | src/components/ui/calendar.tsx:133-150 | in range mode: a click with no range, or with a complete one, starts {date, null}; with only `from` set, it completes to the two days, ordered; otherwise the date goes to `onSelect`, if given |
| `Calendar.ClickKeepsRangeOrdered` | src/components/ui/calendar.tsx:138-146 | every range a click produces has `from <= to` when `to` is set |
| `Calendar.TwoClicksSelectSpan` | src/components/ui/calendar.tsx:133-150 | two clicks, with the range fed back between them, select from the earlier to the later day; those are the start and end marks, and exactly the days between are in range |

## Left out

- **Calendar dates at local midnight.** The calendar model takes every `Date` it receives to be a local midnight, so a date is one day number. A caller that seeds the range with `new Date("yyyy-MM-dd")` passes UTC midnight. In a time zone behind UTC, `isSameDay` (the range marks) and `isWithinInterval` (the in-range test) can then disagree about the first day, which `Calendar.RangeMarks` does not model.
- **Rendering.** The component's JSX, styling and month navigation (`handlePrevMonth`, `handleNextMonth`) are not modelled; they are presentation and `addMonths` calendar arithmetic.
- **Pages, hooks and I/O.** The pages, dialogs, hooks and API route are not part of this model: UI, Firestore and auth subscriptions, and file-system JSON I/O. This includes the date-difference display of the history list and the home page's own next-start estimate. Callers are not modelled; the signatures are those declared in `src/lib/period.ts`.
- **Date arithmetic by parameter.** The real clock, `startOfDay` and time zones are gone: `today` is a day number. `subMonths` is replaced by the `cutoff` parameter, and `startOfMonth`/`endOfMonth` by a first day and a month length. Daylight-saving effects on `differenceInDays` are not modelled.
- LocalDate.ParseLocalDate: defined only on strings of the "yyyy-MM-dd" shape; other strings (an unpadded "2024-1-5", or anything that parses to `NaN`) are not modelled.
- **String order.** `localeCompare` and `<=` on date strings are taken as code-unit order. For strings of digits and dashes in the same places, a locale's collation orders them the same way; the model does not prove this for any particular locale.
- PeriodStatusEngine.GetPeriodStatus: requires completed cycles not to end before they start, because what `isWithinInterval` does with a reversed interval depends on the date-fns version (older versions throw, newer ones may accept it), the version is not fixed by the sources, and that library behaviour is not modelled. The requirement holds for every log the edits build from a log that keeps the rule: `PeriodProperties.ParsedLogEndsNotBeforeStarts` carries the rule from records to cycles, and the `…KeepsRule` lemmas show that each edit keeps it (for `AddPeriodStart` given a non-negative default length, for `UpdatePeriodCycle` given new dates that keep it).
- PeriodStatusEngine.Status: requires a cycle-count threshold of at least 2. With a threshold of 1 and one completed cycle the source divides 0 by 0 and reports `NaN`, which the integer model does not represent.
- **Constants.** The values of `AVERAGE_PERIOD_DAYS`, `AVERAGE_CYCLE_DAYS` and `AVERAGE_PERIOD_MONTH` are parameters, because `src/lib/constants.ts` is not part of this model.
- **Record end vs projected end.** `addPeriodStart` records an end `AVERAGE_PERIOD_DAYS` days after the start, which is `AVERAGE_PERIOD_DAYS + 1` days counted inclusively. The projection for an open cycle in `getPeriodStatus` would end a day earlier. `PeriodProperties.FirstStartOfEmptyLog` states this behaviour; whether it is intended is left open.

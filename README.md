# Duty-roster engines of a nurse scheduler

This project models the duty-assignment engines of a desktop nurse scheduler. The roster is a grid: one row per worker, one cell per day of the month, and each cell holds a duty code ('D' day, 'E' evening, 'N' night, 'O'/'Off' rest, 'DH', 'MD', leave codes 'V', 'v.25', 'v.0.5', or '' for an undecided cell). The project proves what the engines promise about that grid.

Three programs are modelled, each with its own engine.

- **schedule_app_patched_fixed.py** builds the month as a pipeline.
  1. It seeds the cells the user edited by hand.
  2. It counts the seeded grid.
  3. It gives the head nurse D on weekdays and O at the weekend.
  4. It carries over a night block still running at the end of last month.
  5. It places fresh N-N-N-O-O blocks.
  6. It makes sure someone works N on the last day.
  7. It computes a fairness target.
  8. It fills the rest day by day with D, E or O, under forced-rest rules, a rotation preference, daily limits and a per-worker cap.

  Modules: `Engine`, `Counters`, `Continuity`, `NightBlocks`, `Rotation`, `Lookback`.
- **schedule_app.py** fills the head nurse's row, then every other empty cell from a shared cycle Off, Off, D, E, N. It records each worker's last-day duty for the next month and steps the displayed month. Module: `Cyclic`.
- **optimized_shift_scheduler.py** seeds the manual edits and gives the head nurse her weekday duties. It then fills the rest with D, E, N or O, with forced rest, a preference for E after D and N after E, random choice among the codes that still fit, daily limits (D 2, E 2, N 1) and a per-worker cap. Module: `Optimized`.

Shared modules:
- `Duties`: duty codes and their texts.
- `Grids`: the grid and its counts.
- `Calendar`: day columns and weekdays.
- `Summaries`: the summary tables of all three programs.
- `ManualEdits`: the set of manually edited cells.

Each engine's phases are loops over days and workers that update the grid and its counters in place. They are modelled as methods with loop invariants. What each method may change is passed in and returned as values: the grid as `seq<seq<Duty>>`, the counters as sequences.
- Each method's `ensures` ties its result to a specification function or to a named predicate (`InSync`, `RulesAt`, `FillsWith`, ...).
- Lemmas compose the phase contracts into one outcome for the whole run: `Engine.Outcome` and `Optimized.Outcome`.
- The two things the application updates in place are classes with `modifies` clauses:
  - the edited-cell set (`ManualEdits.EditTracker`);
  - the year, month and last-day store of schedule_app.py (`Cyclic.CyclicApp`).

Randomness becomes parameters:
- Every `random.shuffle` is a permutation of the roster (`IsOrder`). The engine keeps from it the workers the source would shuffle.
- `random.choice` is a function `pick(day, worker)`, used as an index modulo the number of eligible codes.

The calendar is an input: a sequence of day columns, each with its month, its day and its weekday.

## Model

| member | source | states |
|---|---|---|
| Duties.Parse | schedule_app_patched_fixed.py:18 | reading a stored text gives a code whose text is that text; only unknown texts become `Other` |
| Duties.ParseText | schedule_app_patched_fixed.py:18 | every well-formed code reads back from its own text |
| Duties.MentionsWorkOfCodes | schedule_app_patched_fixed.py:647 | the weekend test (text contains D, E or N) holds for D, E, N, DH and MD and fails for O, Off, '' and the leave codes |
| Calendar.MonthDays | schedule_app_patched_fixed.py:504-517 | `last_day` columns from day 1 in order (30 when the month is invalid), with weekdays known exactly when the month is valid, starting at the first weekday |
| Calendar.MonthDaysConsecutive | schedule_app_patched_fixed.py:510-514 | consecutive columns have consecutive weekdays, Sunday wrapping to Monday |
| Calendar.MonthDaysDistinct | schedule_app_patched_fixed.py:510-514 | the columns of a month are pairwise different, so a column label picks one day |
| Engine.SeedGrid | schedule_app_patched_fixed.py:735-744 | the seed has one row per worker and one cell per day column |
| Engine.SeedManual | schedule_app_patched_fixed.py:735-744 | the seed holds, for every worker and day, the previous table's value of an edited cell and '' elsewhere |
| Engine.HeadNurseDuty | schedule_app_patched_fixed.py:762-763 | D exactly on Monday to Friday, otherwise O |
| Engine.HeadNursePhase | schedule_app_patched_fixed.py:758-766 | when the mode is on and worker 0 is head nurse, all of row 0's empty cells are filled with D or O; no other row changes; at most one more D a day; counters stay in sync |
| Engine.NightWorkers | schedule_app_patched_fixed.py:771-772 | `workers_for_n` holds exactly the workers whose category is not head nurse, each once |
| Engine.ContinuityFills | schedule_app_patched_fixed.py:800-817 | carry-over writes only N and O into empty cells, only O from the third day, and leaves the night count of later days unchanged |
| Engine.CarryAndBlocks | schedule_app_patched_fixed.py:777-852 | steps 4-A and 4-B add only N and O and keep every carried-over cell; each worker has at most two blocks, none when unlisted, and exactly three more N's per block than continuity left |
| Engine.NightPhases | schedule_app_patched_fixed.py:777-869 | steps 4-A to 4-C add only N and O, keep the counters in sync, and from the third day on raise no day's nights above 1 that was not there already; every cell carried over from last month's tail survives; at most two blocks per worker, none for a head nurse; each worker's N count is the carried-over row's plus three per block plus the last-day night; afterwards the last day has a listed worker on N, is at the night cap, or has no listed worker left free |
| Engine.LastDayFacts | schedule_app_patched_fixed.py:855-869 | step 4-C adds one N for its worker only and leaves the last day settled as above |
| Engine.LastDayKeeps | schedule_app_patched_fixed.py:867-869 | the last-day night keeps the carried-over cells and the night bound of steps 4-A and 4-B |
| Engine.CeilDivIsCeiling | schedule_app_patched_fixed.py:876 | `CeilDiv(a, n)` is the least whole q with a <= q * n, as `math.ceil(a / n)` |
| Engine.CeilDivIsQuotient | schedule_app_patched_fixed.py:876 | `CeilDiv(a, n) == (a + n - 1) / n` |
| Engine.Target | schedule_app_patched_fixed.py:872-876 | the target is 0 exactly when no worker shares the duties |
| Engine.TargetIsCeiling | schedule_app_patched_fixed.py:872-876 | the target is 0 without workers on duty, else at least 1 and the least whole number covering three duties on each work day among n workers, with n one less in head-nurse mode whatever the category |
| Engine.Prepare | schedule_app_patched_fixed.py:728-766 | steps 1 to 3: counters in sync with the grid, which extends the seed with D and O in the head nurse's row only |
| Engine.Generate | schedule_app_patched_fixed.py:723-961 | an empty roster gives an empty table; otherwise every cell is decided, every manual cell is kept, automatic cells hold D, E, N or O, nights from the third day stay within the cap of 1, D and E stay within the day limits, no automatic D or E takes a worker past target + 1, and every automatic D or E outside the head nurse's row obeys the rest rules; every worker outside the head-nurse category keeps in the table the duties last month's tail forced on their seeded row |
| Engine.AfterPrepare | schedule_app_patched_fixed.py:771-958 | steps 4 to 6 on the grid of steps 1 to 3 give the outcome of `Generate`, carried-over cells included |
| Engine.NightsAndRotation | schedule_app_patched_fixed.py:777-958 | steps 4 and 6 on the grid of steps 1 to 3 give the outcome of `Generate`, and the carried-over cells reach the table |
| Engine.CarriedOverKept | schedule_app_patched_fixed.py:879-958 | the rotation writes only empty cells, so the carried-over cells survive it |
| Engine.CarryOverFromSeed | schedule_app_patched_fixed.py:771-817 | the listed workers are those outside the head-nurse category, whose rows step 3 left as seeded, so their carried-over cells are those of the seed |
| Engine.GenerateFacts | schedule_app_patched_fixed.py:723-961 | the phase contracts add up to the outcome of the whole run |
| Engine.DayBoundsCompose | schedule_app_patched_fixed.py:892-895 | the day limits of the run, with the head nurse's D counted against the D limit |
| Counters.Bump | schedule_app_patched_fixed.py:755-756 | `duty_counts[name][c] += 1` raises only c's count, by one, and only for a work code |
| Counters.FillKeepsSync | schedule_app_patched_fixed.py:954-958 | writing an empty cell and bumping night usage and the worker's counter as the source does keeps both counters equal to the grid's counts |
| Counters.CountDuties | schedule_app_patched_fixed.py:747-756 | step 2: `daily_n_usage[d]` is the number of N's on day d and `duty_counts[w]` the counts of D, E, N and DH in row w |
| Lookback.PreviousDuty | schedule_app_patched_fixed.py:489-502 | the duty `offset` days before `day`, read in the month or in last month's tail at index len - offset + day, '' when out of range |
| Lookback.LastCells | schedule_app_patched_fixed.py:168 | the last five cells of a row, or the whole row when shorter |
| Lookback.SavedTails | schedule_app_patched_fixed.py:164-171 | an empty table keeps the stored tails; otherwise every worker maps to the last five cells of their row |
| Lookback.PreviousDutyAcrossMonths | schedule_app_patched_fixed.py:496-500 | in the next month, looking back k days from day `day` into the saved tail gives this month's cell days - k + day |
| Lookback.PreviousDutyBeyondTail | schedule_app_patched_fixed.py:499-502 | looking back further than the tail reaches gives '' |
| Continuity.TrailingNights | schedule_app_patched_fixed.py:785-788 | the number of N's ending the tail: all of them N and the one before not N |
| Continuity.CountTrailingNights | schedule_app_patched_fixed.py:785-788 | the loop over `reversed(last_5)` computes that number |
| Continuity.ForcedByTail | schedule_app_patched_fixed.py:790-797 | a tail ending in exactly 1, 2 or 3 N's forces N,N,O,O / N,O,O / O,O; one ending N,N,N,O forces O; four N's or any other end forces nothing |
| Continuity.ForcedNightsEarly | schedule_app_patched_fixed.py:793-797 | at most four forced duties, all N or O, and a forced N only on the first two days and always followed by a forced duty |
| Continuity.Stop | schedule_app_patched_fixed.py:800-811 | the forced run stops at the month's end, at the end of the sequence, or at the first decided cell that differs; cells before it are empty or already match |
| Continuity.ContinueRow | schedule_app_patched_fixed.py:800-814 | the row after the forced run: forced duties in empty cells before the stop, every other cell unchanged |
| Continuity.ContinueRowExtends | schedule_app_patched_fixed.py:805-814 | the forced run never overwrites a decided cell |
| Continuity.ContinueRowUnobstructed | schedule_app_patched_fixed.py:800-801 | without a conflicting cell the whole sequence is written, cut at the month's end |
| Continuity.ForcedDuties | schedule_app_patched_fixed.py:781-797 | `duties_to_continue` as computed equals the forced sequence of the tail |
| Continuity.ContinueWorker | schedule_app_patched_fixed.py:800-817 | one worker's forced run changes only that worker's row, as `ContinueRow`, with counters in sync |
| Continuity.ContinuityPhase | schedule_app_patched_fixed.py:780-817 | step 4-A: every listed worker's row continued from their own tail, every other row unchanged, counters in sync |
| Continuity.TwoNightsCarryOver | schedule_app_patched_fixed.py:164-171 | a month ending in exactly two nights forces N, O, O at the start of the next |
| Continuity.RestedBlockForcesNothing | schedule_app_patched_fixed.py:796-797 | a tail ending in N,N,N,O,O forces nothing |
| NightBlocks.WithBlock | schedule_app_patched_fixed.py:842-850 | a row with a block at s keeps its length |
| NightBlocks.FewestBlocks | schedule_app_patched_fixed.py:840 | `min(..., key=n_set_counts)`: a candidate with the fewest blocks, the first one on a tie |
| NightBlocks.AvailableWorkers | schedule_app_patched_fixed.py:829-836 | exactly the listed workers eligible at the start day, in the shuffled order |
| NightBlocks.PlaceNights | schedule_app_patched_fixed.py:842-846 | N on the three days from s and nowhere else, usage and the worker's N count up by exactly those |
| NightBlocks.PlaceOffs | schedule_app_patched_fixed.py:848-850 | O on the off days and nowhere else, counters unchanged in N |
| NightBlocks.PlaceBlock | schedule_app_patched_fixed.py:842-850 | the worker's row becomes `WithBlock`, usage up by one on the three night days, three more N's for the worker |
| NightBlocks.TryBlock | schedule_app_patched_fixed.py:820-852 | either nothing changes, or the block goes to an eligible listed worker with the fewest blocks, the first of them in the shuffled order, whose block count goes up by one |
| NightBlocks.BlockTurn | schedule_app_patched_fixed.py:820-852 | one start day keeps the phase invariant |
| NightBlocks.PhaseInvFacts | schedule_app_patched_fixed.py:820-852 | at the end of 4-B: three N's per block for each worker, only N and O added, no day's nights raised above 1 |
| NightBlocks.BlocksGiveNights | schedule_app_patched_fixed.py:846 | each worker holds exactly three more N's per block |
| NightBlocks.NightsWithinCap | schedule_app_patched_fixed.py:821-835 | 4-B never lifts a day's nights above 1 unless the seed already had more |
| NightBlocks.NightBlockPhase | schedule_app_patched_fixed.py:819-852 | step 4-B over every start day, with those three facts |
| NightBlocks.FindNightOn | schedule_app_patched_fixed.py:857 | `n_on_last_day` is true exactly when a listed worker holds N that day |
| NightBlocks.EmptyOn | schedule_app_patched_fixed.py:860-863 | exactly the listed workers whose cell that day is empty |
| NightBlocks.NightBelowCap | schedule_app_patched_fixed.py:859-869 | one N on an empty cell of a day with no night keeps every day at most at the cap |
| NightBlocks.PlaceNight | schedule_app_patched_fixed.py:867-869 | the worker's cell becomes N and that day's usage goes up by one, counters in sync |
| NightBlocks.ChooseLastNight | schedule_app_patched_fixed.py:856-866 | a night is placed exactly when no listed worker is on N, usage is below 1 and an empty candidate exists; it goes to one with the fewest blocks |
| NightBlocks.LastDayPhase | schedule_app_patched_fixed.py:855-869 | step 4-C: at most one N, on an empty last-day cell, only when the conditions hold, nights never above the cap |
| Rotation.MustRest | schedule_app_patched_fixed.py:914-921 | O is forced after N, after O preceded by three N's, or after five in-month work days |
| Rotation.Preferred | schedule_app_patched_fixed.py:928-936 | E after E or D, else D exactly when the worker has no more D's than E's |
| Rotation.Decide | schedule_app_patched_fixed.py:904-952 | D, E or O; O when rest is forced; a D or E is never forbidden and always fits the day's limit and the cap; the preferred code when it is allowed; O without forced rest only when neither code is allowed |
| Rotation.RulesFrame | schedule_app_patched_fixed.py:908-921 | the rules at a cell only read the worker's row up to that cell |
| Rotation.CountDay | schedule_app_patched_fixed.py:888-900 | the day's counts equal the grid's, and the pending list holds exactly the empty cells' workers, in order, without the skipped head nurse |
| Rotation.Shuffled | schedule_app_patched_fixed.py:902 | the day's order lists every pending worker once |
| Rotation.RotateWorker | schedule_app_patched_fixed.py:904-958 | one decision written into the cell, both counters bumped, the rules holding at the cell |
| Rotation.RotateNext | schedule_app_patched_fixed.py:904-958 | one worker's turn keeps the day's invariant |
| Rotation.RotateDay | schedule_app_patched_fixed.py:882-958 | one day: every pending worker's cell filled under the rules, nothing else changed, day limits and worker caps kept |
| Rotation.RotationTurn | schedule_app_patched_fixed.py:882-958 | one day keeps the invariant of the loop over days |
| Rotation.RotationPhase | schedule_app_patched_fixed.py:879-958 | step 6: every empty cell except the skipped head nurse's filled under the rules, decided cells kept, limits and caps held |
| Summaries.CountsPartition | schedule_app_patched_fixed.py:636-641 | the count columns and the cells no column shows add up to the row's length |
| Summaries.WeekendWorkBound | schedule_app_patched_fixed.py:646-647 | weekend work never exceeds total work plus the unknown cells |
| Summaries.LeaveUsedZero | schedule_app_patched_fixed.py:652 | leave used is never negative and is zero exactly when the row holds no leave code |
| Summaries.LeaveSpent | schedule_app_patched_fixed.py:650-652 | writing a leave code over a non-work cell adds its weight to leave used and keeps total work |
| Summaries.PatchedRow | schedule_app_patched_fixed.py:636-652 | a row reports the worker's counts and total work, the weekend work of the row it is given, 2.0 carried over, and a remaining 21.5 less leave, equal to 21.5 exactly when no leave was taken |
| Summaries.PatchedSummaryAsWritten | schedule_app_patched_fixed.py:645-647 | the table as written has one row per worker, or none for an empty table |
| Summaries.PatchedSummary | schedule_app_patched_fixed.py:631-655 | one row per worker, sorted by name, or none for an empty table |
| Summaries.PatchedSummaryDescribes | schedule_app_patched_fixed.py:636-652 | every worker has a row under their name with their counts, Off = O + Off, total work D+E+MD+N+DH, their own weekend work, 2.0 carried over and 21.5 less leave used |
| Summaries.PatchedWeekendMisplaced | schedule_app_patched_fixed.py:647 | with roster "b", "a" the row of "a" shows the weekend work of "b" |
| Summaries.AppRow | schedule_app.py:594-624 | a row reports the worker's counts, the weekend work of the row it is given, the year's balance, and a remaining balance never above it and equal exactly when no leave was taken |
| Summaries.AppSummaryAsWritten | schedule_app.py:604-605 | one row per worker, or none for an empty table |
| Summaries.AppSummary | schedule_app.py:588-627 | one row per worker, sorted by name, or none for an empty table |
| Summaries.AppSummaryDescribes | schedule_app.py:594-624 | every worker's row reports their counts and weekend work, with the initial balance of the year (default 21.5), and remaining leave at most that balance, equal exactly when no leave was taken |
| Summaries.AppWeekendMisplaced | schedule_app.py:605 | the same misplaced weekend column in schedule_app.py |
| Summaries.LeaveColumns | schedule_app.py:609-624 | the loop gives each row the year's balance of its worker, or 21.5, and that balance less the row's leave |
| Summaries.OptimizedRow | optimized_shift_scheduler.py:279-287 | a row reports the worker's counts and total work, no weekend column, and the constant leave columns 2 and 21.5 |
| Summaries.OptimizedSummary | optimized_shift_scheduler.py:275-288 | one row per worker, sorted by name, or none for an empty table |
| Summaries.OptimizedSummaryDescribes | optimized_shift_scheduler.py:279-287 | every worker's row reports their counts, total work D+DH+E+MD+N, and the constant leave columns 2 and 21.5 |
| ManualEdits.Edited | schedule_app_patched_fixed.py:663-669 | after an edit the key is in the set exactly when the new value is non-empty; no other key changes |
| ManualEdits.LastEditDecides | schedule_app_patched_fixed.py:663-669 | after a run of edits a key is in the set exactly when its last edit gave a value, or, never edited, when it was there before |
| ManualEdits.EditTracker.Record | optimized_shift_scheduler.py:294-299 | the set becomes `Edited` of the old set |
| ManualEdits.EditTracker.UpdateCell | schedule_app_patched_fixed.py:659-669 | an edit on the name column changes nothing; any other edit is recorded |
| ManualEdits.EditedCellSurvives | schedule_app_patched_fixed.py:735-744 | a cell whose last edit gave it a value the previous table holds is in every grid that extends the seed |
| Cyclic.HeadNurseCode | schedule_app.py:717-722 | 'Off' exactly on a weekend column, else 'D' |
| Cyclic.HeadNurseFilledFacts | schedule_app.py:716-722 | step 3 writes only the head nurse's empty cells, with D or Off, and leaves none of them empty |
| Cyclic.HeadNurseFill | schedule_app.py:711-722 | the loop over the head nurse's days computes `HeadNurseFilled` |
| Cyclic.CycleCode | schedule_app.py:727 | the cycle hands out only Off, D, E and N |
| Cyclic.CycleRow | schedule_app.py:736-743 | one visited row: its empty cells take the cycle codes from the shared index on, and the index advances by their number |
| Cyclic.CycleFill | schedule_app.py:727-743 | step 4: every empty cell outside the skipped row takes the code of its position in worker-then-day order |
| Cyclic.PositionWithinRow | schedule_app.py:740-742 | an empty cell's cycle position is below the number of empty cells up to the end of its row |
| Cyclic.PositionsInVisitOrder | schedule_app.py:730-742 | positions strictly increase in worker-then-day order, and `cycle_index` is never reset between workers |
| Cyclic.CycleFollowsOrder | schedule_app.py:741 | two neighbouring empty cells take consecutive codes: Off, then Off or D; D then E; E then N; N then Off |
| Cyclic.GeneratedComplete | schedule_app.py:711-743 | after generation no cell is empty, decided cells are kept, and new cells hold D, E, N or Off |
| Cyclic.CompleteUnchanged | schedule_app.py:719-740 | a grid without empty cells is returned unchanged |
| Cyclic.GenerateIdempotent | schedule_app.py:701-753 | generating again from the generated grid gives the same grid |
| Cyclic.LastDayRecord | schedule_app.py:746-749 | every worker maps to their last-day duty, and only workers are keys |
| Cyclic.RecordLastDay | schedule_app.py:746-749 | the loop builds that record |
| Cyclic.RecordKeyAsWritten | schedule_app.py:750 | the key as written agrees with the rolled-over key for January to November and is no valid month for December |
| Cyclic.RecordKey | schedule_app.py:928-931 | the rolled-over key is a valid month, one month after the given one |
| Cyclic.DecemberRecordLost | schedule_app.py:750 | December's record is filed under month 13, and the January lookup returns 'Off' even though December ended on N |
| Cyclic.RecordFoundNextMonth | schedule_app.py:474-477 | with the rollover key, the next month's lookup returns the worker's last-day duty |
| Cyclic.Stepped | schedule_app.py:928-933 | a step keeps a valid month valid, a month step moves the year by at most one, and a year step keeps the month |
| Cyclic.SteppedMoves | schedule_app.py:928-933 | a month step keeps the month within 1..12 and moves one month either way for ±1; a year step moves by twelve months a year |
| Cyclic.SteppedRoundTrip | schedule_app.py:928-931 | one month forward then back, or back then forward, returns to the start |
| Cyclic.CyclicApp.constructor | schedule_app.py:921-936 | the window starts at the given month with an empty store |
| Cyclic.CyclicApp.AdjustDate | schedule_app.py:921-936 | the displayed year and month become `Stepped` of the old ones; the store is unchanged |
| Cyclic.CyclicApp.GenerateMonthlySchedule | schedule_app.py:701-753 | returns `Generated` of the grid and adds the last-day record under the key as written, `(year, month + 1)` |
| Optimized.ColumnIndex | optimized_shift_scheduler.py:342-344 | `day_columns.index(col)`: the first index holding the column, or none exactly when it is absent |
| Optimized.SeedAdd | optimized_shift_scheduler.py:338-344 | taking one more edited key into the seed writes at most its own cell, with the previous table's value |
| Optimized.SeedManual | optimized_shift_scheduler.py:335-344 | the loop over the edited set gives the seed: each edited cell the previous table holds, at its column's day, '' elsewhere; unknown columns are ignored |
| Optimized.HeadNurseFilledFacts | optimized_shift_scheduler.py:346-351 | in head-nurse mode only row 0's empty cells are written, with D or O, and none stays empty; no category check |
| Optimized.HeadNurseFill | optimized_shift_scheduler.py:346-351 | the loop over the days computes `HeadNurseFilled` |
| Optimized.Target | optimized_shift_scheduler.py:352-353 | the target is 0 exactly when no worker is on duty |
| Optimized.TargetIsCeiling | optimized_shift_scheduler.py:352-353 | the target is 0 without workers on duty, else at least 1 and the least whole t with 15 · last_day <= t · 7 · n |
| Optimized.Preferred | optimized_shift_scheduler.py:375-378 | E after D, N after E, otherwise a code of least count, with ties going D, E, N |
| Optimized.UnderLimit | optimized_shift_scheduler.py:379-383 | `under_limit` holds exactly the codes below the day's limit and below target + 1 for the worker |
| Optimized.ThreeWork | optimized_shift_scheduler.py:370-373 | the three days before are all D, E or N, which rules out O, leave and '' there, as the source's first test does |
| Optimized.MustRest | optimized_shift_scheduler.py:368-373 | never on the first day; always after a night; otherwise only from the fourth day after three days none of which is O |
| Optimized.Decide | optimized_shift_scheduler.py:368-386 | D, E, N or O; O when rest is forced; a work code always fits; the preferred code whenever it fits; O without forced rest only when no code fits |
| Optimized.RulesKept | optimized_shift_scheduler.py:368-386 | the facts at a filled cell survive later writes that keep its row's prefix and only raise counts |
| Optimized.RotateWorker | optimized_shift_scheduler.py:367-390 | one decision written, both counters bumped, and at the cell: D/E/N/O, O when rest is due, and a passed-over code full |
| Optimized.RotateNext | optimized_shift_scheduler.py:367-390 | one worker's turn keeps the day's invariant |
| Optimized.RotateDay | optimized_shift_scheduler.py:355-390 | one day: exactly the pending cells filled under the rules, day limits and worker caps kept |
| Optimized.RotationTurn | optimized_shift_scheduler.py:355-390 | one day keeps the invariant of the loop over days |
| Optimized.RotationPhase | optimized_shift_scheduler.py:354-390 | the rotation over every day, with that invariant at the end |
| Optimized.Generate | optimized_shift_scheduler.py:330-392 | an empty roster gives an empty table; otherwise every cell is decided, manual cells are kept, automatic cells hold D, E, N or O, the head nurse's row is as the head-nurse step left it, the rotation's rules hold at every cell it filled, and the day limits and worker caps hold against the grid after the head-nurse step |
| Optimized.OutcomeFacts | optimized_shift_scheduler.py:346-390 | the head-nurse step and the rotation's invariant give that outcome |

## Left out

- The Tkinter interface (windows, tables, comboboxes, dialogs), the worker add/rename/delete dialogs, logging, JSON persistence and Excel export are not modelled. The previous table, the edited set, last month's tails and the leave balances are inputs.
- pandas frames are grids indexed by roster position. A worker is identified by position, and names are taken to be unique and non-empty. A key of a cell whose worker is no longer on the roster is excluded by precondition, because the source raises `KeyError` there.
- `random.shuffle` and `random.choice` are parameters: roster permutations and a `pick` function. Proofs hold for every shuffle and every choice.
- `calendar.monthrange` and `datetime` are inputs: `Calendar.MonthRange` and a weekday per column. The engines require known weekdays, because `datetime.date(year, month, 1)` raises for an invalid month.
- Leave balances are exact `real`s. The rounding `round(..., 2)` of schedule_app.py:621 is not modelled.
- Engine.TargetIsCeiling, Optimized.TargetIsCeiling: `math.ceil` of a float quotient is modelled as the exact integer ceiling. For 28 to 31 days the quotient is either whole and computed exactly, or not within rounding error of a whole number.
- schedule_app.py's summary lists `'초기 연차'`/`'잔여 연차'` from a `worker_v_map` taken as a map from year to name to balance. How that map is loaded is left out.
- The first-day head-nurse O of schedule_app.py:546-552 only changes a displayed copy and is not modelled.
- The rest of `update_schedule_cell` only touches the display, the in-memory copy and the saved tail: setting the cell text, refreshing the summary, saving the last five days. Only the edited-set bookkeeping is modelled.
- `generate_monthly_schedule` also returns the year and month it worked on. The model returns only the grid.
- Month keys of schedule_app.py's store are pairs `(year, month)` rather than the text `f"{year}-{month:02d}"`.
- Cyclic.SteppedMoves: the move of exactly one calendar month is stated for ±1, the only steps the date bar makes. Any step keeps the month in 1..12. A larger step that overflows lands on January of the next year, or on December of the year before, rather than moving `delta` months; the source does the same.
- Engine.Generate: the block facts (at most two blocks per worker, three nights each) and the last-day night of step 4-C are stated at the end of step 4 by Engine.NightPhases, not on the finished table. Stated there, they describe the grid between steps 4 and 6, which the finished table only extends.
- Engine.Generate: the outcome is stated against the seed, with D and E limits relative to the seed and to the head nurse's weekday D. The two nights that carry-over may write on days 0 and 1 are not capped, and neither is a seed that already breaks a limit, because the source writes them without checking.
- Where the description of the system and the code disagree, the model follows the code:
  - The second forced rest after a night block needs N, N, N before the O (schedule_app_patched_fixed.py:916).
  - The five-work-day check looks only inside the month (918-921).
  - The head nurse's weekday D counts against the D limit of the day (892-895).
  - Carry-over writes N without checking the night cap (814-817).

## Findings

| source | as written | input that shows it | evidently intended | confidence | as-written member | corrected member |
|---|---|---|---|---|---|---|
| schedule_app.py:750 | the last-day record of year y, month m is stored under `f"{y}-{m+1:02d}"`, so December's goes to month 13 | any December: the January lookup `_get_previous_duty(y + 1, 1)` finds no record and returns 'Off' even when December ended on N | roll over to January of the next year | not executed | Cyclic.RecordKeyAsWritten, Cyclic.DecemberRecordLost, Cyclic.CyclicApp.GenerateMonthlySchedule | Cyclic.RecordKey, Cyclic.RecordFoundNextMonth |
| schedule_app_patched_fixed.py:647 | the weekend-work column is computed in roster order and pasted by position (`.values`) into summary rows sorted by name | roster "b", "a" where "b" works the Saturday and "a" is off: the row of "a" shows weekend work 1 | each row shows its own worker's weekend work | not executed | Summaries.PatchedSummaryAsWritten, Summaries.PatchedWeekendMisplaced | Summaries.PatchedSummary, Summaries.PatchedSummaryDescribes |
| schedule_app.py:605 | the same positional weekend column | the same roster | each row shows its own worker's weekend work | not executed | Summaries.AppSummaryAsWritten, Summaries.AppWeekendMisplaced | Summaries.AppSummary, Summaries.AppSummaryDescribes |

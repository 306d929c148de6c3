# Production scheduling: calendar, cascade, stock matching and lots

A Dafny model of the deterministic core of a cable plant's scheduler, in four parts.

- **Calendar.** `CalculateEndDatetime` walks a duration forward through shift windows, breaks,
  weekends and holidays, `CalculateStartDatetime` walks it backward, and
  `ComputeWorkingMinutesBetween` measures a stretch by dates. The reference is a set: the worked
  minutes of a calendar, counted by `Count`. All three loops are tied to it, and the laws between
  them (inverse, refinement, composition, monotonicity, the 1000-turn cap) follow from it.
- **Cascade preview.** A snapshot of tasks is pushed wave by wave until nothing that was moved
  overlaps, then pulls are proposed. The methods work on a `Snap` object and are proved against a
  functional run, whose invariant gives safety, anchoring, an exact journal and the conditions for
  a cycle report. The two overlap checks of the validators are compared as well.
- **Stock matching.** Pools of stock choose the orders they serve by exhaustive search or by an
  in-place knapsack table, spread them over their items, and leave the rest; the run over all
  pools is proved to conserve stock, never to serve an order twice, and to use each pool as well
  as its free candidates allow where the choice is exact.
- **Lots.** Strand groups get headers made of whole lots, overloaded groups are packed on drums
  and split in two, and a repair pass restores one header per group and one row per order line.
  The pass is proved idempotent; for created and for split headers the exact condition is given
  under which the pass leaves them alone.

Time is a whole number of minutes, day 0 a Monday. Lengths, quantities and durations of lots are
reals. Objects that the program updates in place are objects here too (`Snap`, `Table`, arrays of
orders and stock); rows and tasks are values in them. Where a promise of the code or its comments
fails, the model keeps the code and a theorem says exactly when the promise holds:

- The backward walk is documented as the inverse of the forward walk
  (`backend/app/infrastructure/calendar_engine.py:372-382`). It is one way round only under the
  conditions of `ForwardUndoesBackward` and `BackwardUndoesForward`: ends before 08:00, after the
  close of a Friday or on the weekend after it are misread, and high-voltage insulation runs out
  of turns at its short Monday.
- Walks that enter a night look at the date and not at the shift, so an early morning of a holiday
  is skipped and a Monday morning is worked; `Seamless` is the condition. A later start can end
  earlier for that reason, and `EndsNoLaterExactly` says for which pairs of starts.
- A safety lesson takes two hours off a day, but no walk takes notice.
- The reason for a push by another task of the same equipment is never given, and the check for
  tasks pushed too often never fires.
- A converged cascade is free of overlaps but may still break precedence between two moved tasks.
  Here the condition goes one way only: precedence is kept except towards a successor that had been
  pushed in the same wave before the task's last turn (`OnlyTheGuardBreaksOrder`).
- Pulls keep every snapshot free of overlaps for exactly those backward nudges that stay within the
  slack (`NeverClashesExactly`). The calendar's own never does so everywhere
  (`CalendarLeavesTheSlack`); where it does, `SlackKeptExactly` says.
- The check of neighbours and the check of all pairs differ on tasks without duration, in exactly
  the order of rows that `ChecksExactly` names.
- The knapsack with a granularity of one metre is exact for whole metres only
  (`ExactForWholeMetresOnly`).
- The repair pass takes the allowance for defects off a header, reads all rows with the cores of
  the first line, merges groups whose cross-sections differ in the fraction only, changes the
  durations of halves whose split costs a lot, and can report nothing although it changed a header
  (`AllowanceExactly`, `HeaderAmong`, `SameNameExactly`, `LeftAloneExactly`,
  `ZerosHideAChangeExactly`).

Methods are proved equal to functions, and what those compute is said once more on the inputs alone,
without them: the moves of a turn and the cause of each push (`TurnIsOneMove`, `PushesAreCaused`), the
verdict and the pulls of a preview (`VerdictMeans`, `PullsExactly`), the choice and the candidates of a
pool (`ChoiceExactly`, `CandidateExactly`), the rows after a repair, a split and the creation of groups
(`PassExactly`, `SplitExactly`, `GroupRowsExactly`), and every order in which something is sorted.

`dafny verify dfyconfig.toml` checks everything.

## Model

| member | source | states |
|---|---|---|
| `WorkCalendar.GetWorkingWindow` | backend/app/infrastructure/calendar_engine.py:209-248 | The window of every date and category: 08:00 to 08:00 of the next day, the 18 hours of a high-voltage Monday, the Friday closing hours, nothing at weekends. |
| `WorkCalendar.SeamlessMeans` | backend/app/infrastructure/calendar_engine.py:270-276 | The forward walk reads a night by the date it falls on; this agrees with the shift that runs into that night, from `s` on, if and only if `s` is seamless: at or after 08:00, or in a night whose two readings coincide. |
| `WorkCalendar.WorkedExactly` | backend/app/infrastructure/calendar_engine.py:209-248 | For every calendar a minute belongs to a shift if and only if the clock hours of its day or of the day before, written out by category and weekday with their breaks, contain it and that day is a working day. |
| `ForwardWalk.CalculateEndDatetime` | backend/app/infrastructure/calendar_engine.py:251-327 | The loop with its breaks, weekends, holidays and 1000-turn cap. If it arrives, the end is the one instant after exactly `dur` worked minutes, the last of them worked; if not, it is `start + dur`. |
| `ForwardWalk.WalkMeasure` | backend/app/infrastructure/calendar_engine.py:266-324 | Whatever instant on its way a walk has reached, the turns that are left take off exactly the worked minutes of the stretch they pass over. |
| `ForwardWalk.EndIsUnique` | backend/app/infrastructure/calendar_engine.py:251-261 | At most one instant ends a duration: there is only one with so many worked minutes before it, the last one worked. |
| `ForwardWalk.EndCharacterised` | backend/app/infrastructure/calendar_engine.py:251-327 | For every start, duration, category and set of holidays, an instant is the computed end if and only if it is that one instant. |
| `BackwardWalk.CalculateStartDatetime` | backend/app/infrastructure/calendar_engine.py:372-452 | The backward loop. From an end it reads correctly it returns the latest instant from which the shifts hold `dur` worked minutes, the first of them worked; if its turns run out, `end - dur`. |
| `BackwardWalk.BackWalkMeasure` | backend/app/infrastructure/calendar_engine.py:390-449 | From an end it reads correctly, the walk goes back over exactly the minutes worked by the shifts. |
| `BackwardWalk.StartCharacterised` | backend/app/infrastructure/calendar_engine.py:372-452 | For ends it reads correctly, an instant is the computed start if and only if it is the one from which the shifts hold `dur` minutes. |
| `BackwardWalk.StuckAtShortMonday` | backend/app/infrastructure/calendar_engine.py:350-354 | High-voltage insulation: from Tuesday 02:00, the close of the short Monday, the backward walk jumps to where it stands and uses up its turns, for any duration. |
| `WorkingMinutes.ComputeWorkingMinutesBetween` | backend/app/application/_shared/calendar_ops.py:71-118 | The loop over dates, windows and breaks returns the number of worked minutes between the two instants, each first put off to 08:00 of its date. |
| `WorkingMinutes.SegmentIsCount` | backend/app/application/_shared/calendar_ops.py:103-113 | The minutes of a stretch of a window less its overlap with the breaks are its worked minutes, whatever the overlap. |
| `WorkingMinutes.MeasureIsExact` | backend/app/application/_shared/calendar_ops.py:89-97 | The loop returns the worked minutes between two instants if and only if the nights before 08:00 of the two dates hold equally many. |
| `CalendarLaws.WalkAgainstMeasure` | backend/app/infrastructure/calendar_engine.py:251-327 | The two independent calendars compared on any start and duration: the measure of the walk is `dur`, less the early minutes before 08:00 of the start, plus what the night of the end still holds. |
| `CalendarLaws.WalkRefinesMeasure` | backend/app/application/_shared/calendar_ops.py:71-118 | For a start at or after 08:00: the measured minutes from the start to the computed end are `dur` if and only if the night of the end is over. |
| `CalendarLaws.Composition` | backend/app/infrastructure/calendar_engine.py:266-324 | Walking `a` and then `b` minutes ends where walking `a + b` does, with any holidays, if the first end is on the date of the start or seamless. |
| `CalendarLaws.CompositionExactly` | backend/app/infrastructure/calendar_engine.py:270-276 | All second legs compose if and only if the first end is on the date of the start or seamless. |
| `CalendarLaws.LegsPartWays` | backend/app/infrastructure/calendar_engine.py:270-276 | Where that fails, a second leg that ends somewhere else. |
| `CalendarLaws.LongerEndsLater` | backend/app/infrastructure/calendar_engine.py:251-327 | A longer duration never ends earlier, and none ends before `start + dur`. |
| `CalendarLaws.EndsNoLaterExactly` | backend/app/infrastructure/calendar_engine.py:251-327 | For every pair of starts: every duration ends from the earlier one no later than from the later one if and only if the earlier one keeps up, that is, unless the later one is on a later date, before 08:00 of an open day that does not continue the shift before it, and by that 08:00 the earlier one has worked less than what is left of the night. |
| `CalendarLaws.LaterStartsEndLater` | backend/app/infrastructure/calendar_engine.py:251-327 | So the later of two starts never has the earlier computed end where the earlier one keeps up: whatever the holidays, from a night that is off or on one date it always does. |
| `CalendarLaws.GainsOverTheNight` | backend/app/infrastructure/calendar_engine.py:270-276 | Where that fails, the night up to 08:00 is itself the duration that ends strictly earlier from the later start. |
| `CalendarLaws.MondayNightOvertakes` | backend/app/infrastructure/calendar_engine.py:270-282 | An instance without holidays: an hour from Monday 03:00 ends before an hour from Sunday 08:00. |
| `CalendarLaws.SafetyDaysDoNotMatterForward` | backend/app/infrastructure/calendar_engine.py:202-204 | Which days have a safety lesson never changes a forward walk, although the lesson takes two hours off the day. |
| `CalendarLaws.SafetyDaysDoNotMatterBackward` | backend/app/infrastructure/calendar_engine.py:202-204 | The same for the backward walk. |
| `RoundTrips.TuesdayFloor` | backend/app/infrastructure/calendar_engine.py:350-354 | High-voltage insulation never gets back past a Tuesday 08:00. |
| `RoundTrips.LateEndIsMisread` | backend/app/infrastructure/calendar_engine.py:431-440 | From an end past the close of its open date the backward walk takes idle minutes for worked ones: the shifts hold fewer than `dur`. |
| `RoundTrips.WeekendIsMisread` | backend/app/infrastructure/calendar_engine.py:398-401 | From a weekend after an open Friday the backward walk starts at Saturday 08:00 and takes that for the close of the Friday shift: again too few worked minutes. |
| `RoundTrips.StartIsTrueExactly` | backend/app/infrastructure/calendar_engine.py:372-452 | For every calendar and end: the start that is returned holds `dur` worked minutes up to the end if and only if the end is a good one, which a caller can check beforehand. |
| `RoundTrips.ForwardUndoesBackward` | backend/app/infrastructure/calendar_engine.py:372-382 | Forward after backward returns to the end if and only if the end is at or after 08:00, closes a worked minute and the start is seamless, or the one gap of the short Monday is met. |
| `RoundTrips.ForwardFromTheStart` | backend/app/infrastructure/calendar_engine.py:372-452 | The same said of the true start and without calling the backward walk: from the instant that holds `dur` minutes up to an end that is read correctly, the forward walk meets that end if and only if the end is at or after 08:00, closes a worked minute and that instant is seamless, or at the gap of the short Monday. |
| `RoundTrips.BackwardUndoesForward` | backend/app/infrastructure/calendar_engine.py:372-382 | Backward after forward returns to the start if and only if the computed end is at or after 08:00, the start begins a worked minute and is seamless, or the same gap is met. |
| `RoundTrips.BackwardFromTheEnd` | backend/app/infrastructure/calendar_engine.py:251-327 | The same said of the instant at which the duration has passed, without calling the forward walk. |
| `RoundTrips.HvReturnsExactly` | backend/app/infrastructure/calendar_engine.py:350-354 | High-voltage insulation: the backward walk ends by itself if and only if the duration fits between the last Tuesday 08:00 and the end. |
| `TurnBound.ArrivesWithinDays` | backend/app/infrastructure/calendar_engine.py:266-327 | What is held up to 08:00 of the 250th day after the start is walked within the cap; what is not held up to that of the 1000th is not. |
| `TurnBound.WeekHolds` | backend/app/infrastructure/calendar_engine.py:117-160 | Without holidays any seven days hold 6120 minutes (stranding, default) or the category's own total, and take 19 or 7 turns. |
| `TurnBound.WeeksArrive` | backend/app/infrastructure/calendar_engine.py:266-327 | Without holidays, up to 52 weeks of work (142 for categories without breaks) are walked within the cap from any start. |
| `TurnBound.ReturnsWithinDays` | backend/app/infrastructure/calendar_engine.py:390-452 | The backward walk ends by itself for all that the last 249 days hold, with any holidays, except for high-voltage insulation. |
| `TurnBound.InverseWithoutHolidays` | backend/app/infrastructure/calendar_engine.py:372-382 | The inverse that the code promises: without holidays, for every category but high-voltage insulation, ends at or after 08:00 that close a worked minute, and up to 52 weeks (142 for categories without breaks). |
| `TurnBound.ReturnWithoutHolidays` | backend/app/infrastructure/calendar_engine.py:372-382 | The other way round: without holidays, for every category but high-voltage insulation, from every start that begins a worked minute and whose end is not in a night, up to the same weeks. |
| `TurnBound.CompositionWithoutHolidays` | backend/app/infrastructure/calendar_engine.py:266-324 | Composition from every start whatever, without holidays, for every category but high-voltage insulation and up to the same weeks together. |
| `Snapshot.Snap.constructor` | backend/app/application/cascade/snap.py:99-126 | A snapshot has one task per id, the last row given for it, in the order the ids first came. |
| `Snapshot.Snap.Apply` | backend/app/application/cascade/snap.py:53-83 | Refuses exactly the calls that would change nothing, moves the one task otherwise, and remembers only where it first stood. |
| `Snapshot.ByEquipmentMeans` | backend/app/application/cascade/snap.py:88-92 | Exactly the tasks of the equipment, each once, by start. |
| `Snapshot.OverlappingMeans` | backend/app/application/cascade/bfs.py:4-18 | Exactly the other tasks that overlap on the same equipment, whichever starts first. |
| `Snapshot.PrevEndMeans` | backend/app/application/cascade/bfs.py:21-33 | The latest end among the other tasks of the equipment that are over when the task starts, if there is one. |
| `Snapshot.SuccessorTasksMeans` | backend/app/application/cascade/bfs.py:36-60 | Exactly the other tasks of the order line that start once the task is over, by start. |
| `Snapshot.FindOverlapMeans` | backend/app/application/validation/schedule_validators.py:20-29 | Finds nothing if and only if no task that was ever moved overlaps another one. |
| `SnapshotOrder.FindsFirst` | backend/app/application/validation/schedule_validators.py:20-29 | It returns the first listed task that was moved and overlaps another. |
| `SnapshotOrder.LoadedExactly` | backend/app/application/cascade/snap.py:111-126 | What is loaded: for each id the last row with it, the ids in the order of their first rows. |
| `SnapshotOrder.OverlappingRanked` | backend/app/application/cascade/bfs.py:12-18 | The overlapping tasks come by start, and as listed where starts are equal. |
| `SnapshotOrder.SuccessorTasksRanked` | backend/app/application/cascade/bfs.py:51-60 | The later tasks of an order line come by start, and as listed where starts are equal. |
| `Cascade.SuccessorsMean` | backend/app/application/cascade/service.py:177-201 | Exactly the other tasks of the order line that originally started after the task originally ended, by original start. |
| `CascadePlan.PushOverlappingTasks` | backend/app/application/cascade/service.py:84-105 | The loop over overlapping tasks, on the snapshot object: new snapshot, journal, counters and frontier are those of the specified run, to which `TurnIsOneMove` gives its meaning. |
| `CascadePlan.PushSuccessorTasks` | backend/app/application/cascade/service.py:107-133 | The same for the loop over successors. |
| `CascadePlan.RunWave` | backend/app/application/cascade/service.py:78-139 | One wave: a fresh set of processed tasks, both loops for each task of the frontier. |
| `CascadePlan.RunWaves` | backend/app/application/cascade/service.py:59-139 | The bounded loop over waves with the limit on the journal; the snapshot ends as the specified run leaves it. |
| `CascadeTurns.TurnIsOneMove` | backend/app/application/cascade/service.py:84-133 | What one task of a frontier does, both loops together, is one move: all that overlaps it and all later tasks of its order line that start before it is over, unless pushed in this wave already, are put where it ends or working time begins after that; journal and counters tell of each, the overlapping ones first, by start, then the others by original start. It is refused if and only if one of them starts there already. |
| `CascadeWaves.RunIsWaves` | backend/app/application/cascade/service.py:59-139 | A run is a row of waves, each a turn for every task that the wave before pushed: at most four, none after more than 500 pushes, none without a frontier; the last frontier, the number of waves and whether the run was cut off follow from that. |
| `CascadeUnique.RunIsUnique` | backend/app/application/cascade/service.py:59-139 | This description determines the run: two runs that meet it on the same tasks agree in the tasks, the journal, the frontier, the number of waves, and whether they were cut off or refused. |
| `CascadePlan.PlanCascadePreviewOnSnap` | backend/app/application/cascade/service.py:41-174 | The whole preview: unknown task, refused push, or journal, pulls and complaints of the run, with the snapshot left as the run leaves it. |
| `CascadeInvariant.PushKeeps` | backend/app/application/cascade/service.py:89-105 | A push keeps the invariant of a run (truthful journal, exact counters, safety, order, anchoring) and, if the nudge never goes back, is never refused. |
| `CascadeInvariant.PrevNeverWins` | backend/app/application/cascade/service.py:107-129 | The end of the task before it on its equipment never decides where a task is pushed to, so that a push is never put down to another task of its own equipment. |
| `CascadeInvariant.ProcessKeeps` | backend/app/application/cascade/service.py:84-133 | Processing one task of the frontier keeps the invariant and takes the task off what is still to be looked at. |
| `CascadeInvariant.FrontierKeeps` | backend/app/application/cascade/service.py:84-133 | Processing a whole frontier keeps the invariant with nothing left to be looked at. |
| `CascadeLaws.CascadeKeeps` | backend/app/application/cascade/service.py:59-152 | Every run, converged or not, truncated or not, ends in a state in which every overlap of a moved task has a member in the last frontier, and in which the rest of the invariant holds. |
| `CascadeLaws.ConvergedIsSafe` | backend/app/application/cascade/service.py:59-152 | When a run converges, no task that was changed or pushed overlaps any other and the later check for overlaps finds nothing, for any nudge at all. |
| `CascadeLaws.ConvergedIsClear` | backend/app/application/cascade/service.py:59-152 | If all overlaps of the input involve the changed task, a converged run leaves none. |
| `CascadeLaws.ConvergedOrder` | backend/app/application/cascade/service.py:107-133 | What convergence does say of precedence: a moved task ends before its successor starts, or that successor was pushed after it was. |
| `CascadeOrder.OnlyTheGuardBreaksOrder` | backend/app/application/cascade/service.py:107-133 | For a nudge that never goes back, as the program's own: in a converged run a moved task ends before each of its successors starts, except for those that had been pushed, in the wave of the task's last turn, before that turn came. Only the guard against a second push in one wave breaks precedence. |
| `CascadeExample.PrecedenceCanBreak` | backend/app/application/cascade/service.py:112-113 | A run that converges although a successor starts before the end of the task it follows: it had been pushed earlier in the same wave. |
| `CascadeLaws.ChangedTaskStays` | backend/app/application/cascade/service.py:84-133 | If the nudge never goes back, durations are not negative and nothing on its order line came before it, the changed task is never moved, and every pushed task and every successor of it ends up starting at or after its end. |
| `CascadeLaws.JournalIsExact` | backend/app/application/cascade/service.py:97-104 | Replaying the journal on the input gives the final snapshot; the counters count the journal; no task is pushed more often than there are waves. |
| `CascadeLaws.EntryIsTrue` | backend/app/application/cascade/service.py:204-214 | Each journal entry tells where its task stood at that point, keeps its duration and equipment, and strictly delays it if the nudge never goes back; where to and why, `PushesAreCaused` says. |
| `CascadeCauses.PushesAreCaused` | backend/app/application/cascade/service.py:84-133 | Every push has a cause: in the schedule that the journal before it leads to, the changed task or one pushed earlier is not over when the pushed task starts, and overlaps it or precedes it on its order line; the push goes to the nudged end of that task, keeps the duration, and its reason is an overlap if and only if the two overlap. |
| `CascadeCauses.ReplayMeans` | backend/app/application/cascade/snap.py:53-83 | A task stands where its last push put it and remembers where it first stood; nothing else about it changes. |
| `CascadePlan.ComplainsExactly` | backend/app/application/cascade/service.py:141-156 | The check for tasks pushed too often never finds one, and a cycle is reported if and only if the run ends with a frontier. |
| `CascadeVerdict.VerdictMeans` | backend/app/application/cascade/validators.py:18-50 | The complaints of a preview are exactly: a due-date violation for each moved task that ends after its due date, no space for each that ends after the horizon, and a cycle for each task of the last frontier and for the changed task if the run was cut off; each with the equipment and batch of its task, the first two kinds once. |
| `CascadeVerdict.ResolvesExactly` | backend/app/application/cascade/service.py:154-174 | A preview resolves by itself if and only if the run leaves no frontier and no moved task ends after its due date or the horizon; its journal, pulls, number of waves and cut-off are those of the run. |
| `CascadePlan.PreviewIsClear` | backend/app/application/cascade/service.py:41-174 | End to end: no cycle reported, and a backward nudge that stays within the slacks it is asked for, mean that the final snapshot with all proposed pulls carried out has no overlap at all. |
| `Pull.ProposeForSuccessors` | backend/app/application/cascade/pull.py:6-52 | No proposals unless the changed task was moved and shortened; otherwise those of the chain, each successor fed with the end of the one before it. |
| `PullChain.PullsExactly` | backend/app/application/cascade/pull.py:18-51 | None unless the changed task was moved and ends earlier. Else a later task of its order line is pulled if and only if it starts after both the member before it, as pulled, and the task before it on its equipment are over; it goes back by all of that slack and keeps its length. Nothing else is proposed, and nothing twice. |
| `PullChain.EntryOfMeans` | backend/app/application/cascade/pull.py:36-48 | Looking a proposal up finds the one for the task, if there is one. |
| `Pull.ProposalsFit` | backend/app/application/cascade/pull.py:26-51 | Where the backward nudge stays within the slack along the chain: each proposal is for a chain member, keeps its length, moves it no later and starts neither before its equipment is free nor before the chain member before it is over. |
| `Pull.PullsStayClear` | backend/app/application/cascade/pull.py:23-52 | Under the same condition a snapshot without overlaps has none after all proposals are carried out at once. |
| `PullSlack.NeverClashesExactly` | backend/app/application/cascade/pull.py:23-52 | This holds of every snapshot if and only if the backward nudge over a positive distance never goes further than that distance nor forward. |
| `CalendarPulls.SlackKeptExactly` | backend/app/infrastructure/calendar_engine.py:455-485 | The nudge that the program uses, for every calendar, instant and positive distance: it stays within the slack if and only if it falls back, or, at or after 08:00, all minutes of the slack are worked or read as such, or, before 08:00, the slack and the night that is left hold the minutes and that night alone does not. |
| `CalendarPulls.CalendarLeavesTheSlack` | backend/app/application/cascade/service.py:322-332 | No calendar, whatever its category and holidays, keeps the slack everywhere: two hours of slack before some Monday 09:00 lead back to the Friday, and in some snapshot without overlaps the proposal makes one. |
| `WiredPreview.KeptForExactly` | backend/app/application/cascade/pull.py:23-52 | The calendar stays within all slacks that a changed task opens along its chain if and only if each of them holds as stated there. |
| `WiredPreview.WiredPreviewIsClear` | backend/app/application/cascade/service.py:316-336 | The preview with the nudges the program gives it, none forward and the calendar's backward: no push is ever refused, and without a cycle reported and with slacks that hold, the snapshot it leads to has no overlap, pulls included. |
| `Pull.ChainInOrder` | backend/app/application/cascade/pull.py:23-52 | Under the same condition no chain member that is pulled starts before the (possibly pulled) end of the member before it. |
| `OverlapChecks.CheckOverlap` | backend/app/application/validation/_checks_hard.py:8-27 | Buckets by equipment, sorts, compares neighbours: the list of violations in order. |
| `OverlapReports.NeighboursNamedExactly` | backend/app/application/validation/_checks_hard.py:8-27 | Which pairs it names: on some equipment, by start and else as listed, a task and the one in front of it that is not over when it starts. |
| `OverlapChecks.PairViolationsMean` | backend/app/domain/constraints.py:16-39 | The check of one task against all finds nothing if and only if nothing else on its equipment overlaps it. |
| `OverlapReports.PairsExactly` | backend/app/domain/constraints.py:16-39 | It names each other task on the equipment that overlaps, once and in the order of the list, and no other. |
| `OverlapChecks.NeighboursExactly` | backend/app/application/validation/_checks_hard.py:16-18 | Tasks sorted by start, none ending before it starts: the comparison of neighbours reports something if and only if some pair overlaps or an empty task comes after one that starts with it and takes time. |
| `OverlapChecks.ChecksExactly` | backend/app/application/validation/_checks_hard.py:8-27 | For any list with distinct ids and no negative duration, on any number of machines: the check of neighbours reports something if and only if the check of all pairs does or an empty task comes after a task of positive duration with the same equipment and start. |
| `OverlapChecks.ChecksAgreeExactly` | backend/app/application/validation/_checks_hard.py:8-27 | So the two checks agree on a list if and only if the check of all pairs reports something or there is no such empty task, in particular where every task takes time. |
| `OverlapChecks.EmptyTaskTellsThemApart` | backend/app/domain/constraints.py:16-39 | Any such pair in the one order is reported by neighbours only; in the other order, by neither. |
| `WipMatching.BuildPools` | backend/app/application/ingest/wip_matching.py:95-135 | The usable stock is divided by key: every usable item in exactly the pool of its key, the pools in the order of their first items, each knowing its items in order, their sum, the largest drum and the greatest age. |
| `WipRules.PoolsShareExactly` | backend/app/application/ingest/wip_matching.py:101-127 | An item is in a pool if and only if it has a cross-section, metres and a drum; two are in the same pool if and only if they agree in cross-section, stage and voltage and, where the stage tells of insulation, in colours and product. |
| `WipUnique.PoolsAreUnique` | backend/app/application/ingest/wip_matching.py:95-135 | The stock determines the pools and their order. |
| `WipKnapsack.SearchAll` | backend/app/application/ingest/wip_matching.py:324-332 | The search over all bit masks returns the first selection in the order of the masks whose total no selection that fits exceeds. |
| `WipKnapsack.FillTable` | backend/app/application/ingest/wip_matching.py:339-351 | The one-row table, updated in place from the right for one order after the other, leaves in `kept` exactly the decisions of the two-dimensional recurrence. |
| `WipKnapsack.TracedReachesBest` | backend/app/application/ingest/wip_matching.py:353-360 | Tracing the decisions back gives a selection within the capacity whose total is the value of the table. |
| `WipKnapsack.BestIsBest` | backend/app/application/ingest/wip_matching.py:339-351 | No selection within the discretised capacity has a larger total than the value of the table. |
| `WipCombo.Trim` | backend/app/application/ingest/wip_matching.py:362-371 | The trimming loop removes smallest orders first, the earliest of equals, no more than it must, and nothing from a selection that fits; the result is a function of the selection. |
| `WipCombo.TableIsOptimal` | backend/app/application/ingest/wip_matching.py:334-360 | For whole quantities the traced selection is optimal for the undiscretised problem. |
| `WipCombo.FindBestCombo` | backend/app/application/ingest/wip_matching.py:297-373 | The first best mask or the trimmed trace of the table, and no other selection: distinct candidates that fit; up to 22 of them, or with whole quantities, none that fits has a larger total. |
| `WipChoice.ChoiceExactly` | backend/app/application/ingest/wip_matching.py:297-373 | The same without masks and tables, both ways round. Up to 22 candidates: of the selections that fit none has a larger total, and of those with the same total it is the one that leaves out the last candidate on which they differ. More: the same among the selections whose metres fit when rounded to the nearest, ties to even and at least one; then cut down from the smallest, the earliest of equals, by the least number that makes the true metres fit. |
| `WipChoice.TracedIsFirst` | backend/app/application/ingest/wip_matching.py:334-360 | The walk back through the table finds the selection that comes first among the best in the same sense as the search over masks. |
| `WipRounding.ExactForWholeMetresOnly` | backend/app/application/ingest/wip_matching.py:334-373 | For every quantity above zero: the table leads to a best selection for every capacity and every list of more than 22 candidates that has this quantity among whole ones if and only if the quantity is whole and at least one metre. |
| `WipRounding.RoundedUpIsLeftOut` | backend/app/application/ingest/wip_matching.py:335-351 | An order whose metres round up, in a pool of just its size, is left out although it fits and nothing else does. |
| `WipRounding.RoundedDownIsDropped` | backend/app/application/ingest/wip_matching.py:335-371 | An order of at least one metre whose metres round down displaces one that fits exactly and is then trimmed away, so that nothing is chosen. |
| `WipMatching.ChooseDrum` | backend/app/application/ingest/wip_matching.py:213-223 | The first item that holds the order, else the first of the fullest. |
| `WipMatching.SpreadOrders` | backend/app/application/ingest/wip_matching.py:209-225 | Each order in turn goes to the item that rule names; what is left on the items is their stock less the orders. |
| `WipMatching.NoneOverdrawnExactly` | backend/app/application/ingest/wip_matching.py:209-225 | No item ends below zero if and only if each order found an item that held it. |
| `WipMatching.StockIsConserved` | backend/app/application/ingest/wip_matching.py:209-225 | Over a pool the remainders add up to the stock less the orders, whatever happens on single items. |
| `WipPool.MatchPool` | backend/app/application/ingest/wip_matching.py:137-231 | One pool on the live orders: all free candidates are considered, that choice is made among them, the largest served first on the items fullest first by the rule of placing; only served orders change, their sum is within the pool, and the remainders are the rest. |
| `WipRules.CandidateExactly` | backend/app/application/ingest/wip_matching.py:137-189 | An order is a candidate if and only if it is free, goes with the pool, asks for metres, and asks for no drum length or some item of the pool has a drum of that length less the loss allowed: the limit, and the bonus on top if some item is older than the threshold. |
| `WipRules.ServedBecome` | backend/app/application/ingest/wip_matching.py:215-236 | A served order is marked with the stage and the key of the item of the pool it was put on, and with its own metres; nothing else about it changes. |
| `WipRules.ServedFit` | backend/app/application/ingest/wip_matching.py:206-231 | The served orders, counted once for each core and at least once, are no more than the items of the pool hold together. |
| `WipRules.DescendingIsStable` | backend/app/application/ingest/wip_matching.py:202-209 | Largest first, and as they came where quantities are equal. |
| `WipPool.ServesMost` | backend/app/application/ingest/wip_matching.py:137-211 | What a pool serves are candidates that fit in it; if there are no more than 22 candidates, or all are of whole metres, no selection of candidates that fits uses more of the pool. |
| `WipRun.MatchWip` | backend/app/application/ingest/wip_matching.py:137-294 | The whole run, pool by pool: each step starts from the orders as the step before left them and serves them as above; the log has every order at most once, free before and now with an item of the pool that serves it; all other orders are unchanged; no pool gives away more than it holds; and exactly the items an order was put on are marked used up, each with the first order put on it. |
| `WipUnique.RunIsUnique` | backend/app/application/ingest/wip_matching.py:137-294 | This contract determines the run: two runs that meet it on the same orders and stock agree in pools, choices, matches, remainders, and the orders and items they leave. |
| `WipRun.EveryPoolServesMost` | backend/app/application/ingest/wip_matching.py:137-294 | At every pool of a run: the candidates are all orders still free that the pool can serve, and of few of them, or of whole metres, no selection that fits uses more of the pool than the run did. |
| `DedupePass.Table.Dedupe` | backend/app/application/ingest/_batch_grouper_finalize.py:158-334 | The whole pass in place: the table becomes the specified one and the three numbers of the report are the rows, headers and groups it says. |
| `DedupePass.Table.DropRepeated` | backend/app/application/ingest/_batch_grouper_finalize.py:199-228 | The pass over order rows with the set of keys seen. |
| `DedupePass.Table.TreatGroup` | backend/app/application/ingest/_batch_grouper_finalize.py:244-329 | One group: the header with the earliest due date, then the best priority, then the smallest key stays, counted anew; the other headers go; and whether it counts as rebalanced. |
| `DedupePass.RebuildHeader` | backend/app/application/ingest/_batch_grouper_finalize.py:276-329 | The columns of a header counted anew from the order rows, in all branches: whole lots, one lot, no work, no order rows. |
| `Dedupe.DropRepeatsMeans` | backend/app/application/ingest/_batch_grouper_finalize.py:208-228 | Of the rows with one key exactly the one with the smallest key number stays. |
| `DedupeLaws.AfterThePass` | backend/app/application/ingest/_batch_grouper_finalize.py:158-334 | After the pass: every key once, held by its first row; one header in each named group that had any, in agreement with its order rows; nothing else changed. |
| `DedupeExact.PassExactly` | backend/app/application/ingest/_batch_grouper_finalize.py:158-334 | The rows after the pass are exactly these: those that repeat no earlier row of the same group, order, line, step and process and head no named group, as they were; and for each named group with headers the one due first, then of the smallest priority, then entered first, with lots, metres, due date, priority, duration, surplus and remark counted anew from the order rows that stay. |
| `DedupeLaws.SettledMeans` | backend/app/application/ingest/_batch_grouper_finalize.py:276-318 | What that agreement says: the fewest lots that hold the metres, a surplus of less than a lot, the earliest due date, the best priority. |
| `DedupeLaws.UnchangedExactly` | backend/app/application/ingest/_batch_grouper_finalize.py:158-334 | The pass leaves a table alone if and only if no key repeats and every headed group is settled. |
| `DedupeLaws.TwiceIsOnce` | backend/app/application/ingest/_batch_grouper_finalize.py:158-334 | A second pass changes no row and reports zeros. |
| `DedupeReport.ReportMeans` | backend/app/application/ingest/_batch_grouper_finalize.py:194-334 | What the three numbers of the report count, for every table: the rows that repeat an earlier key; the headers of named groups that are not the one that stays; and the groups that had several headers, or one off by more than half a metre or in its lots. |
| `DedupeExact.ReportExactly` | backend/app/application/ingest/_batch_grouper_finalize.py:194-334 | The same on the columns: the rows that repeat an earlier one, the headers that another is preferred to, and the groups that had several headers or whose header comes out by more than half a metre or in its lots differently. |
| `DedupeReport.ZeroReportExactly` | backend/app/application/ingest/_batch_grouper_finalize.py:306-334 | The report is all zeros if and only if no key repeats and every headed group has one header that is off neither by more than half a metre nor in its lots. |
| `DedupeReport.ZerosHideAChangeExactly` | backend/app/application/ingest/_batch_grouper_finalize.py:306-320 | It hides a change if and only if moreover some header would be counted anew differently all the same. |
| `DedupeReport.PairHidesAChange` | backend/app/application/ingest/_batch_grouper_finalize.py:306-320 | The inputs: every header with one order row from which it differs by too little to be counted. |
| `Batches.LotsAreFewest` | backend/app/application/ingest/_batch_grouper_finalize.py:281-283 | Rounding up gives the fewest lots that hold the metres, with less than one lot to spare. |
| `DrumPacking.PackDrums` | backend/app/application/ingest/batch_splitter.py:156-199 | The greedy packing: the drums in order are the sorted orders, each drum closed by the first order of the next and by nothing before it; a drum with two orders or more is within the lot. |
| `PackExact.RowsByDue` | backend/app/application/ingest/batch_splitter.py:150-154 | The order of the rows: by due date, none counting as the last day, then by the name of the order, then as they came; the only list of that kind. |
| `PackExact.PackedExactly` | backend/app/application/ingest/batch_splitter.py:166-199 | Where the sorted orders are cut: a drum ends at the first order with which it would run over the lot, or with which, filled to four fifths, it would go on to another customer order that is due so many days later. |
| `DrumPacking.GreedyIsUnique` | backend/app/application/ingest/batch_splitter.py:156-199 | That rule determines the packing: two packings that obey it are the same. |
| `DrumPacking.NeighboursFill` | backend/app/application/ingest/batch_splitter.py:170-193 | Two drums in a row hold at least 0.8 of a lot. |
| `DrumPacking.DrumsNeedLength` | backend/app/application/ingest/batch_splitter.py:156-199 | So `k` drums need at least 0.8 of a lot for every two of them in total length. |
| `SplitChoice.MergeDrums` | backend/app/application/ingest/batch_splitter.py:242-278 | A part starts at the first drum and at each drum with a gap before it, and holds all drums up to the next such start; the gaps are those that are not zero. |
| `SplitChoice.ProposeSplit` | backend/app/application/ingest/batch_splitter.py:150-278 | The orders by due date, packed greedily: for an overloaded group the parts are the drums; otherwise, if some gap is long enough, the drums merged where there is no gap; and a split is proposed if and only if that leaves two parts or more. |
| `PackExact.ProposedExactly` | backend/app/application/ingest/batch_splitter.py:201-278 | The proposal on the gaps, counted in days from the last due date of a drum to the first of the next: none for one drum, none unless overloaded if all gaps are too short or there is none; the drums if overloaded; else the drums put together where there is no gap, with the gaps between. |
| `SplitChoice.ProposalIsUnique` | backend/app/application/ingest/batch_splitter.py:150-278 | This determines the proposal: two that meet it are equal. |
| `SplitChoice.LaterHalfMoves` | backend/app/application/ingest/batch_splitter.py:561-577 | The split leaves orders on both sides, never moves an order due before one that stays, and keeps half of the drums or one more. |
| `SplitChoice.ExecuteAutoSplit` | backend/app/application/ingest/batch_splitter.py:552-586 | Proposal, choice of the later half and split of an overloaded group in one, on the table: with two drums or more, a header and keys to move, the later half is split off as specified; otherwise the table is unchanged. |
| `AutoSplit.ApplyAutoSplit` | backend/app/application/ingest/batch_splitter.py:374-522 | The split in place, with its reasons to skip: the new header, the old one, and the moved rows are those specified. |
| `SplitExact.SplitExactly` | backend/app/application/ingest/batch_splitter.py:374-522 | The table after it, row by row: nothing without keys, header or rows to move; else the rows of the group with listed keys go to the group of that name and suffix, the first header is counted from the rows that stay, a new one, with the order of the first row that moves, from those that go: lots, metres, share of the time, due date, priority and surplus. |
| `SplitLaws.SplitKeepsOrders` | backend/app/application/ingest/batch_splitter.py:411-412 | The order rows of the group are divided: each in one half, no metres lost. |
| `SplitLaws.LotsOfHalves` | backend/app/application/ingest/batch_splitter.py:421-431 | The lots of the halves are those of the whole or one more, and one more if and only if the two surpluses make a lot. |
| `SplitLaws.SurplusOfHalf` | backend/app/application/ingest/batch_splitter.py:440-441 | Each surplus is what the lots hold beyond the orders, from 0 to less than a lot. |
| `SplitLaws.MinutesAddUp` | backend/app/application/ingest/batch_splitter.py:443-445 | The durations of the halves add up to the original one if and only if there is work or it was zero. |
| `SplitFixpoint.SubsMoved` | backend/app/application/ingest/batch_splitter.py:512-516 | The order rows of a new group are those split off, unchanged but for the group. |
| `SplitFixpoint.HalfIsSettledExactly` | backend/app/application/ingest/batch_splitter.py:421-454 | The header of a half already has the length, lots, surplus, due date and priority that the repair pass would count: it is left alone if and only if its duration is its length at its speed. |
| `SplitVerdict.LeftAloneExactly` | backend/app/application/ingest/batch_splitter.py:374-522 | On a table that the repair pass leaves alone, a split under any name that no header has: the pass leaves the result alone if and only if there is no line speed or the split costs no lot, no row that moves has the key of one there already, and the new header is what all rows under its name count up to. |
| `SplitVerdict.FreshLeftAloneExactly` | backend/app/application/ingest/batch_splitter.py:374-522 | Under a name that no row has: if and only if there is no line speed or the split costs no lot. Otherwise the pass changes the two durations. |
| `SplitVerdict.UsedNameMerges` | backend/app/application/ingest/batch_splitter.py:374-522 | Under a name that has a header already, on any table, the pass never leaves the split alone: it drops a header. |
| `Strand.GroupLines` | backend/app/application/ingest/_batch_grouper_strand.py:63-138 | The order lines that count are divided by cross-section, voltage and kind; each group has its lines in order, their metres, those covered by stock, and the lot size; the groups come in the order of their first lines. |
| `StrandGroups.GroupsExactly` | backend/app/application/ingest/_batch_grouper_strand.py:90-138 | A line is in a group if and only if it asks for metres; two lines are in one if and only if they agree in cross-section, voltage and kind of stranding, where both names of compact stranding and none are one kind. |
| `StrandGroups.GroupKnows` | backend/app/application/ingest/_batch_grouper_strand.py:107-138 | A group knows the metres of its lines with the allowance and all cores, those that stock covers, and the lot of its cross-section. |
| `StrandGroups.CoveredExactly` | backend/app/application/ingest/_batch_grouper_strand.py:132-137 | Stock covers a line if and only if it was served from stock whose kind, with every mention of the word for stock taken out, is stranded or insulated wire. |
| `StrandBatches.CreateStrandBatches` | backend/app/application/ingest/_batch_grouper_strand.py:140-445 | The rows of all groups: a header of whole lots unless less than a metre is to do, a row per line, and rows for first-stage cores. |
| `StrandOrder.LinesInTurn` | backend/app/application/ingest/_batch_grouper_strand.py:145-148 | The order of the lines of a group: by priority, none counting as 99, then by due date, none counting as the last day, then as they came; the only list of that kind. |
| `StrandOrder.HeaderExactly` | backend/app/application/ingest/_batch_grouper_strand.py:150-255 | A group with at least a metre of work has one header, others none. It bears order, line, cores and speed of the line that no other precedes in that order, and its length over that speed as duration; it has the fewest whole lots that hold the work, what they leave over, the earliest due date and the best priority. |
| `StrandOrder.GroupRowsExactly` | backend/app/application/ingest/_batch_grouper_strand.py:256-445 | The rows of a group: the header, then for each line in that order its own row and, for copper or aluminium of 300 mm2 and more in two stages, one for its cores, with their columns. |
| `StrandGroups.TableLaidOut` | backend/app/application/ingest/_batch_grouper_strand.py:140-445 | The rows of the groups stand one after the other and are numbered as they come. |
| `StrandGroups.DigitsRead` | backend/app/application/ingest/_batch_grouper_strand.py:170-171 | A number in a group name is written in decimal digits without a leading zero. |
| `StrandLaws.HeaderAmong` | backend/app/application/ingest/_batch_grouper_strand.py:150-255 | Of a header counted from any lines, its own or those of groups that share its name: it is left as it is if and only if their metres, read with the cores of its first line, are those it was made for, and none is due earlier or of better priority. |
| `StrandLaws.HeaderSettledExactly` | backend/app/application/ingest/_batch_grouper_strand.py:150-255 | A created header agrees with the repair pass if and only if the metres of its rows, all read with the cores of the first line, are the metres it was made for. |
| `StrandLaws.AllowanceIsLost` | backend/app/application/ingest/_batch_grouper_strand.py:114-120 | For a group with one number of cores and no stock: that is so if and only if there is no allowance for defects. The repair pass takes any allowance off. |
| `StrandTable.CreatedIsSettledExactly` | backend/app/application/ingest/_batch_grouper_strand.py:140-445 | Each order line once: the pass leaves all created rows alone if and only if no two groups with work share a name and the rows under the name of every group with work account for it. |
| `StrandTable.RepairAfterCreationExactly` | backend/app/application/ingest/_batch_grouper_strand.py:30-447 | The same from the order lines of a run on. |
| `StrandTable.AllowanceExactly` | backend/app/application/ingest/_batch_grouper_strand.py:114-171 | Where names differ and the lines of each group have one number of cores and no stock: creation and then repair changes nothing if and only if there is no allowance for defects, or no work. |
| `StrandTable.OneNameMerges` | backend/app/application/ingest/_batch_grouper_strand.py:170-171 | Two groups with work under one name are never left alone: the pass drops a header. |
| `StrandTable.SameNameExactly` | backend/app/application/ingest/_batch_grouper_strand.py:170-171 | Groups share a name if and only if they agree in voltage, kind and the whole part of the cross-section, for voltages without a hyphen. |
| `StrandTable.FractionsMerge` | backend/app/application/ingest/_batch_grouper_strand.py:170-171 | So two groups with work whose cross-sections differ in the fraction only are never left alone. |

## Left out

- Seconds and fractions of a minute: instants and durations are whole minutes; float rounding of lengths and quantities is not modelled, they are reals.
- The table that maps equipment codes to categories by prefix, and the days on which a safety lesson falls: a calendar carries its category and both sets of days.
- The holiday cache and its database fall-back: one set of holidays.
- Identity of task objects in the cascade: a task is a value stored under its id, so two references to one task are one entry.
- The nudges of the cascade are parameters of its laws; the two that the program uses, none forward and the calendar's backward, are put in for `WiredPreview.WiredPreviewIsClear`.
- StrandTable.SameNameExactly: for cross-sections that are not negative and voltages without a hyphen.
- CascadeLaws.ConvergedOrder: says which order convergence leaves, not that every successor pushed later breaks it; `OnlyTheGuardBreaksOrder` narrows the exceptions, `PrecedenceCanBreak` shows one.
- Request ids, summaries, remarks, detail texts and audit rows; of the remarks of a header only the merges they tell of are kept.
- CascadePlan.PlanCascadePreviewOnSnap: loading tasks from the database and building the task views, which come before it.
- Which product, colour, cross-section and voltage of an order go with a pool: one predicate `compatible`.
- WipRun.MatchWip: reading, filtering and sorting stock and orders in the database, the exclusion list and the emergency mode: the model starts from the two lists in that order.
- WipRun.MatchWip: items are told apart by their place in the list, as they are by their key in the table.
- WipCombo.FindBestCombo: for fractional quantities and more than 22 candidates its contract fixes the selection, but does not say that it is the best, because it need not be (`ExactForWholeMetresOnly`).
- Several runs in one table: a table holds the rows of one run, listed by key; a query without an order yields them in that order.
- The filters on outsourcing, routing and stranding that decide which order lines reach the strand groups: the lines given are those that passed.
- The columns of a row that no computation here reads: item, routing, customer, colours, voltage, set-up time and the like.
- SplitChoice.ExecuteAutoSplit: that a group is overloaded (a lot size, three lots or more, and fewer hours until its due date than it needs) is taken as given; the loop over all candidate groups and the urgency remarks are not modelled.
- Precedence, capability and due-date checks, the optimiser, the greedy scheduler, reports, exports, routes and user interface.

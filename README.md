# Weekly meeting planner — scheduling engine in Dafny

This project models the scheduling engine of a weekly one-on-one and team-meeting planner. Every
time is a whole number of minutes since the start of the week (Sunday 00:00; a day is 1440
minutes, a week 10080). The engine works in layers:

- **Interval algebra** (`Time`, from `src/lib/time.ts`): "HH:MM" text to minutes,
  day + time to an absolute minute, absolute intervals that wrap past the end of the week,
  intersection, merging (touching intervals coalesce), subtraction, and slicing a window into
  slots on a 15-minute grid.
- **Availability** (`Availability`, from `src/lib/availability.ts`): an employee's shifts minus
  their breaks, intersected with the manager's windows and merged per employee. It also holds the
  buffer, overlap and per-day counting predicates and the minute/slot statistics.
- **Overnight normalisation** (`Normalize`, from `src/lib/planner/normalize.ts`): a shift that
  ends at or before its start is split into a day-A half ending "24:00" and a day-B half starting
  "00:00". Each break goes to one half. The pipeline (`NormalizeShifts`, `NormalizeEmployees`,
  and through them `Planner.Generate`) follows the code as written, including the whole-day second
  half of a shift ending at "00:00". The corrected split (see "## Findings") is kept beside it as
  `NormalizeShift`, `NormalizeShiftsCorrected` and `NormalizeEmployeesCorrected`.
- **Conflict policy** (`Conflicts`, from `src/lib/planner/conflicts.ts`): append-without-conflict
  and strip-internal-conflicts. Both are first-wins. A candidate is rejected for a repeated id or
  for any time overlap.
- **Schedulers** (`ScarcityScheduler`, `TeamScheduler`, `Optimize`, from `src/lib/optimize.ts`):
  - the scarcity one-on-one scheduler: a fairness pass, then a fill pass, under week, day, buffer
    and per-day caps;
  - the weighted greedy team-session scheduler;
  - "scramble", which runs the team scheduler first and then the one-on-one scheduler.
- **Derivations** (`Derived`, from `src/lib/planner/derived.ts`; `TimeUi`, from
  `src/components/utils/time-ui.ts`):
  - day-slicing of meetings;
  - per-day employee and manager availability;
  - calendar blocks;
  - statistics, per-day conversation counts and per-employee coverage;
  - minute → (day, "HH:MM") labels.
- **Plan transforms** (`Planner`, from `src/lib/planner/usePlanner.tsx`): removing an employee and
  its cascade into the plan, removing and updating a meeting, generate in append or replace mode,
  and the list of employees still without a one-on-one.

`Types` holds the shared records (`Employee`, `Shift`, `Break`, `ManagerWindow`, `Meeting` =
one-on-one | team session, `ShiftAbs`). `Sorting` models the engine's stable sort by start minute as
an insertion sort, with sortedness, permutation and stability proved. `Wrappers` holds `Option`.

### How the imperative code is modelled

Each loop in the source is a `method` with its loop and invariants. Its `ensures` ties the result to
a specification function: a left fold over prefixes of the input, or a closed-form definition. The
source's promises are then proved as lemmas about that function. Examples:

- `MergeIntervals` ensures `out == Merge(list)`, and `Merge` is proved sorted, separated and
  covering exactly the input's minutes.
- `OptimizeOneOnOnesScarcity` ensures `out == Schedule(...)`, and `ScheduleFacts` proves the caps,
  the buffer, the grid and the per-day load about `Schedule`.

The record, map and set state of the source (`weekCount`, `dayCount`, `busy`, `placed`, `scheduled`,
`byEmp`) are `map`, `seq` and `set` locals that the methods reassign.

### Behaviour of the code worth knowing

- An employee attends a team session when their availability overlaps the session window by even
  one minute; it need not contain the window (`src/lib/optimize.ts:166-168`).
- When every employee has 0 available minutes, `maxMin` is 0 and every team weight is 2
  (`src/lib/optimize.ts:150`).
- Scramble receives the per-employee day cap in the position `optimizeScramble` calls `maxPerDay`
  (`src/lib/planner/usePlanner.tsx:341-348` against `src/lib/optimize.ts:227-234`). It is modelled
  as written.
- The one-on-one buffer test only looks at meetings with the same day index (`floor(start/1440)`).
  A candidate can therefore sit right after, or inside, a meeting that started the previous day
  (`Availability.RespectsBufferIgnoresPreviousDay`).
- `Math.min()` over no week counts is `Infinity`, so the `currentCount > minCount` skip never fires
  (`src/lib/optimize.ts:85-86`). The model's `None` gives the same outcome
  (`ScarcityScheduler.MinimumTest`), and with no employees there are no offers anyway.
- `buildEmployeeAvailByDay` treats start = end as a same-day (empty) segment. The normaliser treats
  it as a midnight crossing.

## Model

| member | source | states |
|---|---|---|
| Time.HhmmToMins | src/lib/time.ts:7-10 | result is below 1440, congruent to h·60+m mod 1440, and equal to it when it is already below 1440 |
| Time.MidnightTextIsZero | src/lib/time.ts:7-10 | "24:00" and "00:00" both map to minute 0 |
| Time.FmtHHMM | src/lib/time.ts:12-21 | five characters "HH:MM" whose digit fields read back as (mins/60) mod 24 and mins mod 60 |
| Time.ParseClock | src/lib/time.ts:8 | `split(":").map(Number)` on a digits:digits text: a result means the text is non-empty digits, a colon, non-empty digits, and the hour and minute are the values of those two digit runs |
| Time.ParseClockReads | src/lib/time.ts:8 | conversely, every text of two non-empty digit runs around a colon reads as the pair of their values |
| Time.FmtHHMMParses | src/lib/time.ts:12-21 | reading the formatted text back gives exactly the clock (hour mod 24, minute) |
| Time.IndexOfColon | src/lib/time.ts:8 | finds the first ':' of the text, or reports that there is none |
| Time.DayTimeToAbs | src/lib/time.ts:22-23 | d·1440 + hhmmToMins(t): lies below 10080, its day is d and its minute of day is hhmmToMins(t) |
| Time.ToAbsInterval | src/lib/time.ts:25-35 | start is dayTimeToAbs(startDay, start); the end is strictly later, at most a week later, and congruent to dayTimeToAbs(endDay, end) modulo the week |
| Time.SpanIntervalLength | src/lib/time.ts:25-35 | the absolute span of a (day, start, end) triple starts at dayTimeToAbs(day, start) and lasts e−s minutes when s < e, otherwise e−s+1440 (it ends the next day) |
| Time.Intersect | src/lib/time.ts:37-41 | None exactly when max(starts) ≥ min(ends); otherwise a non-empty interval inside both, holding exactly the minutes in both |
| Time.IntersectSymmetric | src/lib/time.ts:37-41 | intersect(a, b) = intersect(b, a) |
| Time.IntersectIffOverlaps | src/lib/time.ts:37-41 | for non-empty arguments, a result exists exactly when they overlap |
| Time.SortByStart | src/lib/time.ts:45 | the copy sorted by start is a permutation of the input, ordered by start |
| Time.MergeStepCovers | src/lib/time.ts:47-52 | one merge step covers exactly the old output's minutes plus the new interval's |
| Time.MergeStepOrdered | src/lib/time.ts:47-52 | one merge step keeps the output sorted and separated (touching pieces fused), grows it by at most one |
| Time.CoalesceOrdered | src/lib/time.ts:43-54 | coalescing a start-sorted list gives a sorted, separated, no-longer list, empty only for empty input |
| Time.CoalesceCovers | src/lib/time.ts:43-54 | coalescing a start-sorted list covers exactly the same minutes |
| Time.Merge | src/lib/time.ts:43-54 | mergeIntervals: sorted by start, each start strictly after the previous end, same minutes as the input, empty iff input empty |
| Time.MergeIntervals | src/lib/time.ts:43-54 | the loop that extends `last.endMin` or pushes a copy computes Merge(list) |
| Time.MergeSorted | src/lib/time.ts:46-53 | the loop over the sorted copy computes its coalescence |
| Time.MergeInto | src/lib/time.ts:48-51 | one turn of the loop: extend the last interval or push a new one |
| Time.CoalesceNext | src/lib/time.ts:47-52 | coalescing one more element is one merge step on the coalesced prefix |
| Time.MergeIsCoalesce | src/lib/time.ts:43-54 | mergeIntervals is coalescence of the start-sorted copy |
| Time.Minus | src/lib/time.ts:56-64 | [a] when disjoint from b; otherwise at most two non-empty pieces inside a, none overlapping b, covering exactly a's minutes outside b |
| Time.MinusSelf | src/lib/time.ts:56-64 | minus(a, a) = [] |
| Time.MinusEach | src/lib/time.ts:68 | flatMap of minus over a list removes exactly the hole's minutes and keeps pieces inside the list |
| Time.SubtractEach | src/lib/time.ts:67-69 | the reduce over holes removes exactly the holes' minutes, every piece lies inside an accumulator interval and overlaps no hole |
| Time.SubtractMany | src/lib/time.ts:66-70 | subtractMany covers exactly the base minutes outside every hole, each piece inside the merged base, none overlapping a hole |
| Time.SubtractFromSpan | src/lib/time.ts:66-70 | subtracting holes from one span leaves non-empty pieces inside the span, overlapping no hole |
| Time.NonEmptyOnly | src/lib/time.ts:63 | filtering empty pieces keeps the same minutes with only non-empty intervals |
| Time.AlignUp | src/lib/time.ts:75 | ceil(start/step)·step is the first multiple of step at or after start |
| Time.SlotsFrom | src/lib/time.ts:94-101 | the slots from t are t+i·step of length len, and the next one would pass the window end |
| Time.SlotsExactly | src/lib/time.ts:88-102 | every slot lies in the window, consecutive starts differ by step, and every grid-aligned fitting slot is present |
| Time.SlotOnGrid | src/lib/time.ts:88-102 | each slot starts on the step grid, at or after the window start, and has length len |
| Time.SlotPresent | src/lib/time.ts:88-102 | every grid-aligned slot that fits inside the window is produced |
| Time.SlotsEmptyIff | src/lib/time.ts:88-102 | no slots exactly when the first aligned start plus len passes the window end |
| Time.SliceIntoSlots | src/lib/time.ts:72-81 | the counting loop (sliceInto and its twin sliceIntoSlots, lines 88-102) pushes exactly Slots(win, len, step) |
| Time.SameDay | src/lib/time.ts:83-84 | the day index is floor(start/1440), without reduction mod 7 |
| Time.SameDayBeyondWeek | src/lib/time.ts:83-84 | an interval starting at or after minute 10080 gets a day index of 7 or more |
| Time.OverlapsSymmetric | src/lib/time.ts:86-87 | the overlap test is symmetric |
| Time.TouchingDoesNotOverlap | src/lib/time.ts:86-87 | [a,b) and [b,c) do not overlap |
| Sorting.Insert | src/lib/time.ts:45 | inserting into a sorted list adds exactly one element |
| Sorting.InsertSorted | src/lib/time.ts:45 | insertion keeps the list sorted by key |
| Sorting.SortBy | src/lib/optimize.ts:131 | Array.prototype.sort by start: a sorted permutation of the input |
| Sorting.SortByMembers | src/lib/optimize.ts:131 | sorting keeps exactly the same members |
| Sorting.SortByStable | src/lib/optimize.ts:73 | stability: for every key, the elements with that key keep their input order |
| Sorting.SortBySorted | src/lib/optimize.ts:131 | sorting an already-sorted list changes nothing |
| Sorting.WithKeyInsert | src/lib/optimize.ts:73 | an inserted element comes last among the elements with its key |
| Sorting.CountKeyPerm | src/lib/optimize.ts:131 | counts per key do not change under permutation (so sorting keeps every count) |
| Availability.ShiftsOf | src/lib/availability.ts:24-31 | one absolute interval per shift, in order, tagged with the employee id |
| Availability.ExpandShiftsMembers | src/lib/availability.ts:21-34 | every output entry is the non-empty absolute span of some employee's shift, tagged with that employee, and every shift appears |
| Availability.ExpandShiftsAbs | src/lib/availability.ts:21-34 | the nested push loops compute ExpandShifts(employees) |
| Availability.BreakSpans | src/lib/availability.ts:45-50 | one non-empty absolute interval per break, anchored at the shift's day |
| Availability.ShiftMinusBreaks | src/lib/availability.ts:35-52 | non-empty pieces inside the shift's absolute span, overlapping no break, covering exactly the shift minutes outside every break |
| Availability.ExpandManagerWindowsAbs | src/lib/availability.ts:54-63 | one non-empty interval per window, in order; a window whose end is at or before its start ends on the next day |
| Availability.OnDay | src/lib/availability.ts:66 | the filter keeps exactly the meetings whose day index is d |
| Availability.CountOnDayConcat | src/lib/availability.ts:64-68 | per-day counts add over concatenation |
| Availability.CountOnDaySingle | src/lib/availability.ts:64-68 | a single meeting counts on its own day index only |
| Availability.Column | src/lib/availability.ts:108-112 | hits of one window: non-empty, covering exactly the base minutes inside the window, empty iff no base interval meets it |
| Availability.Crossing | src/lib/availability.ts:107-112 | all hits: non-empty, covering exactly the minutes in both the base and the windows |
| Availability.CollectHits | src/lib/availability.ts:107-112 | the nested loops push exactly Crossing(base, wins) |
| Availability.CollectColumn | src/lib/availability.ts:109-112 | the inner loop appends the hits of one window |
| Availability.EmpHits | src/lib/availability.ts:74-82 | one employee's raw hits are non-empty, cover exactly shift ∩ window minutes, and are empty iff no intersection exists |
| Availability.EmployeeOverlapsFacts | src/lib/availability.ts:69-96 | an entry exists exactly for employees with a non-empty intersection; each entry is sorted, separated and covers exactly that employee's shift ∩ window minutes |
| Availability.RawStep | src/lib/availability.ts:75-80 | one inner turn pushes the hit (creating the entry on the first hit) and keeps the prefix invariant |
| Availability.RawFinish | src/lib/availability.ts:74-82 | after the last window, the raw table holds the hits of all shifts so far |
| Availability.IntersectEmployeeWithManager | src/lib/availability.ts:69-96 | the loops and per-employee merge compute EmployeeOverlaps(shifts, wins) |
| Availability.RawMerged | src/lib/availability.ts:84-94 | merging each raw entry gives the specified table |
| Availability.WorkedSpans | src/lib/availability.ts:104-106 | the shifts' flatMap of shiftMinusBreaks covers exactly the minutes free in some shift |
| Availability.EmployeeAvail | src/lib/availability.ts:103-114 | one employee's entry is merged (sorted, separated, non-empty), covers exactly window ∩ shift-minus-breaks minutes, and is empty iff there are none (in particular with no shifts) |
| Availability.ByEmployeeFacts | src/lib/availability.ts:98-116 | an entry for every employee id, and the entry of the last employee with an id is that employee's availability |
| Availability.ByEmployeeKeys | src/lib/availability.ts:98-116 | the record's keys are exactly the employee ids |
| Availability.ByEmployeeEntry | src/lib/availability.ts:103-114 | the entry for an id is the availability of the last employee with that id (later writes win) |
| Availability.AvailabilityByEmployee | src/lib/availability.ts:98-116 | the loop over employees computes ByEmployee(employees, wins) |
| Availability.OneEmployeeAvail | src/lib/availability.ts:104-113 | the loop body computes one employee's merged availability |
| Availability.ByEmployeeNext | src/lib/availability.ts:103-114 | each turn writes the next employee's entry |
| Availability.Clamp | src/lib/availability.ts:124-134 | breaks clamped to the shift, empty ones dropped: non-empty pieces inside the shift covering exactly shift ∩ breaks |
| Availability.ShiftIntervalsMinusBreaks | src/lib/availability.ts:117-137 | non-empty pieces inside the shift, covering exactly the same minutes as shiftMinusBreaks |
| Availability.MinutesOf | src/lib/availability.ts:138-140 | the sum of lengths is at least the number of non-empty intervals |
| Availability.MinuteRange | src/lib/availability.ts:139 | the minutes of one interval [a, b): x is in it exactly when a ≤ x < b |
| Availability.MinuteRangeSize | src/lib/availability.ts:139 | one interval's term `endMin − startMin` is the number of minutes it holds |
| Availability.CoveredMinutes | src/lib/availability.ts:138-140 | the set of minutes inside some interval of the list |
| Availability.MinutesOfCountsCovered | src/lib/availability.ts:138-140 | for non-empty, separated intervals (as merging produces), minutesOf is exactly the number of distinct minutes they cover |
| Availability.EmployeeMinutesCounted | src/lib/availability.ts:103-114 | an employee's available minutes count exactly the minutes inside a manager window and inside a shift but outside its breaks |
| Availability.MinutesOfConcat | src/lib/availability.ts:138-140 | minutes add over concatenation |
| Availability.SlotCount | src/lib/availability.ts:178-181 | the slot count is 0 exactly when no interval fits a grid-aligned slot |
| Availability.AvailabilityStats | src/lib/availability.ts:171-185 | one entry per employee of the table: minutes is minutesOf of the employee's intervals and slots the sum of their slot counts; minutes at least the interval count, zero slots exactly when none fits |
| Availability.StatsMinutesCounted | src/lib/availability.ts:171-185 | over the availability table, an employee's minutes are exactly the number of distinct minutes inside a manager window and inside a shift outside its breaks |
| Availability.RespectsBufferNoSameDayOverlap | src/lib/availability.ts:193-206 | a candidate that respects the buffer overlaps no meeting with the same day index |
| Availability.RespectsBufferIgnoresPreviousDay | src/lib/availability.ts:193-206 | a meeting starting on the previous day index is ignored even when it overlaps the candidate |
| Availability.OverlapsAnyTouching | src/lib/availability.ts:188-192 | overlapsAny treats touching meetings as not overlapping |
| Normalize.NonEmptyOrNone | src/lib/planner/normalize.ts:46 | an empty break list becomes undefined, a non-empty one is kept |
| Normalize.SplitBreaks | src/lib/planner/normalize.ts:35-40 | each break goes to exactly one half: the first iff its start is at or after the shift start; nothing is lost or duplicated |
| Normalize.SplitBreakList | src/lib/planner/normalize.ts:32-40 | the push loop over the breaks computes SplitBreaks |
| Normalize.NormalizeShiftAsWritten | src/lib/planner/normalize.ts:14-55 | a non-crossing shift is copied; a crossing shift becomes (day, start, "24:00") then ((day+1) mod 7, "00:00", end) |
| Normalize.AsWrittenMidnightEndAddsDay | src/lib/planner/normalize.ts:17 | a 16:00–00:00 shift (480 minutes) is split into halves totalling 1920 minutes |
| Normalize.NormalizeShift | src/lib/planner/normalize.ts:14-55 | corrected split: as written, except that a crossing shift ending at exactly 00:00 keeps only its first half |
| Normalize.NormalizeShiftPreservesLength | src/lib/planner/normalize.ts:14-55 | the corrected halves last exactly as long as the original shift |
| Normalize.PartsDays | src/lib/planner/normalize.ts:29-54 | the halves are on day and (day+1) mod 7, so every day stays in 0..6 |
| Normalize.EndOfDayTextIsCopied | src/lib/planner/normalize.ts:17-27 | a shift already ending "24:00" does not cross midnight (toMin does not reduce mod 1440), so both the split as written and the corrected one copy it unchanged |
| Normalize.NormalizeShifts | src/lib/planner/normalize.ts:12-55 | one employee's new shift list as written: at least one and at most two entries per input shift |
| Normalize.SplitCount | src/lib/planner/normalize.ts:17 | the number of shifts whose end is at or before their start, at most the number of shifts |
| Normalize.SplitCountZero | src/lib/planner/normalize.ts:17 | the count is zero exactly when no shift crosses midnight |
| Normalize.NormalizeShiftsCount | src/lib/planner/normalize.ts:11-57 | output shift count = input count + number of crossing shifts (each crossing shift, one ending "00:00" included, gives two) |
| Normalize.NormalizeShiftAsWrittenLength | src/lib/planner/normalize.ts:14-55 | for times within a day, the halves as written last as long as the shift, plus 1440 minutes exactly when it crosses midnight and ends at "00:00" |
| Normalize.NormalizeShiftsLength | src/lib/planner/normalize.ts:12-55 | for times within a day, the new list as written lasts as long as the old one plus the added minutes of its "00:00"-ending crossing shifts |
| Normalize.AddedMinutesAllDays | src/lib/planner/normalize.ts:17 | those added minutes are one whole day (1440) per crossing shift ending at "00:00" |
| Normalize.PushParts | src/lib/planner/normalize.ts:19-54 | one turn of the shift loop appends the copy, or both halves (the second one unconditionally) |
| Normalize.NormalizeShiftList | src/lib/planner/normalize.ts:12-55 | the shift loop computes NormalizeShifts, the list as written |
| Normalize.NormalizeEmployee | src/lib/planner/normalize.ts:11-58 | `{ ...emp, shifts }`: same id and name, shift count grown by the number of crossing shifts |
| Normalize.NormalizeEmployees | src/lib/planner/normalize.ts:3-59 | one employee per input, in order, same id and name, each shift count grown by that employee's crossing shifts |
| Normalize.NormalizeEmployeesForOvernights | src/lib/planner/normalize.ts:3-59 | the loop over employees computes NormalizeEmployees, the program as written |
| Normalize.NormalizeShiftsCorrected | src/lib/planner/normalize.ts:12-55 | the corrected list: at least one and at most two entries per input shift |
| Normalize.NormalizeShiftsCorrectedLength | src/lib/planner/normalize.ts:12-55 | for times within a day, the corrected list lasts exactly as long as the input |
| Normalize.NormalizeShiftsCorrectedCount | src/lib/planner/normalize.ts:11-57 | the corrected list drops exactly one entry per crossing shift ending at "00:00" |
| Normalize.NormalizeEmployeesCorrected | src/lib/planner/normalize.ts:3-59 | the corrected employees: same ids and names in order, and every employee whose times lie within a day keeps their total shift length |
| Conflicts.TimeOverlapsSymmetric | src/lib/planner/conflicts.ts:3-8 | timeOverlaps (= meetingsConflict) is symmetric and is interval overlap of the two spans |
| Conflicts.TouchingMeetingsDoNotConflict | src/lib/planner/conflicts.ts:3-5 | a meeting ending when another starts does not conflict with it |
| Conflicts.MeetingIdsSnoc | src/lib/planner/conflicts.ts:20 | pushing a meeting adds its id to the seen set |
| Conflicts.OfferFacts | src/lib/planner/conflicts.ts:15-21 | one candidate is appended exactly when its id is unseen and it overlaps nothing in the result, and otherwise the result is unchanged; the kept meetings stay fresh and non-overlapping |
| Conflicts.MergeFold | src/lib/planner/conflicts.ts:9-24 | the merged plan starts with the existing plan and adds at most one meeting per candidate |
| Conflicts.MergeFoldSelectsAdmitted | src/lib/planner/conflicts.ts:9-24 | the merged plan is the existing plan followed by exactly the candidates that were admissible (unseen id, no overlap) against what was kept before them, in input order |
| Conflicts.MergeFoldFacts | src/lib/planner/conflicts.ts:9-24 | existing is an unchanged prefix followed by a subsequence of the candidates; appended ids are fresh and appended meetings overlap nothing earlier; an overlap-free existing stays overlap-free |
| Conflicts.OverlapFreeExtends | src/lib/planner/conflicts.ts:17-21 | appending only non-overlapping meetings keeps an overlap-free plan overlap-free |
| Conflicts.MergeExample | src/lib/planner/conflicts.ts:3-5 | with [100,130) held, [120,150) is rejected and [130,160) is accepted |
| Conflicts.MergeFoldPrefix | src/lib/planner/conflicts.ts:15-21 | first-wins: the result for a prefix of the candidates is a prefix of the full result |
| Conflicts.CleanListPassesThrough | src/lib/planner/conflicts.ts:25-37 | a candidate list with distinct ids and no overlaps passes through unchanged |
| Conflicts.StripKeepsFirst | src/lib/planner/conflicts.ts:25-37 | the first candidate of a non-empty list is always kept |
| Conflicts.StripFacts | src/lib/planner/conflicts.ts:25-37 | a subsequence with distinct ids and no overlaps, and stripping again changes nothing |
| Conflicts.MergeWithoutConflicts | src/lib/planner/conflicts.ts:9-24 | the loop with its seen set computes MergeFold(existing, candidates) |
| Conflicts.StripInternalConflicts | src/lib/planner/conflicts.ts:25-37 | the loop computes MergeFold([], candidates) |
| ScarcityScheduler.SlotsOverFacts | src/lib/optimize.ts:62-65 | every slice of an employee's spans lies on the grid inside one of those spans |
| ScarcityScheduler.OffersFacts | src/lib/optimize.ts:60-70 | every collected offer is a grid slot inside its employee's availability |
| ScarcityScheduler.AllOffersFacts | src/lib/optimize.ts:60-73 | the global list is sorted by start, holds only good offers, and ties keep employee order |
| ScarcityScheduler.SliceAll | src/lib/optimize.ts:63-65 | the flatMap loop computes the employee's slot list |
| ScarcityScheduler.PushOffers | src/lib/optimize.ts:67-69 | the push loop appends the employee's offers |
| ScarcityScheduler.CollectOffers | src/lib/optimize.ts:60-73 | the collection loop plus sort computes AllOffers |
| ScarcityScheduler.CountOnDayByKey | src/lib/optimize.ts:54-57 | countDay is a count by day-index key |
| ScarcityScheduler.FairPassNext | src/lib/optimize.ts:76-100 | the fairness pass over one more offer is one fairness step |
| ScarcityScheduler.FillPassNext | src/lib/optimize.ts:103-129 | the fill pass over one more offer is one fill step |
| ScarcityScheduler.BufferStep | src/lib/optimize.ts:43-53 | a slot that respects the buffer keeps every same-day pair of busy meetings apart |
| ScarcityScheduler.WeekStep | src/lib/optimize.ts:77-78 | booking below the week cap keeps every week count within the cap |
| ScarcityScheduler.DayStep | src/lib/optimize.ts:80-81 | booking below the day cap keeps every day count within the cap |
| ScarcityScheduler.LoadStep | src/lib/optimize.ts:83 | booking on a day with fewer than maxPerDay busy meetings keeps the load bound |
| ScarcityScheduler.BookStep | src/lib/optimize.ts:89-99 | booking an eligible good offer preserves the soundness invariant |
| ScarcityScheduler.BalancedStep | src/lib/optimize.ts:85-87 | booking an employee at the minimum keeps week counts within one of each other |
| ScarcityScheduler.FairPassFacts | src/lib/optimize.ts:75-100 | the fairness pass keeps the soundness invariant (good offers, caps, buffer, per-day load) and keeps week counts within one of each other |
| ScarcityScheduler.FairOne | src/lib/optimize.ts:76-100 | one fairness step keeps soundness and balance |
| ScarcityScheduler.FillPassFacts | src/lib/optimize.ts:102-129 | the fill pass keeps soundness and never books an exact slot twice |
| ScarcityScheduler.FillOne | src/lib/optimize.ts:103-129 | one fill step keeps soundness and fresh slots |
| ScarcityScheduler.PassesFacts | src/lib/optimize.ts:75-129 | after both passes the placement is sound: every booking is an available grid slot, and the caps, buffer and per-day load hold |
| ScarcityScheduler.SortedPlacementFacts | src/lib/optimize.ts:131 | the final sort keeps every placement fact and the caps |
| ScarcityScheduler.SortedLoadFacts | src/lib/optimize.ts:131 | the final sort keeps the per-day load bound |
| ScarcityScheduler.SortedBufferFacts | src/lib/optimize.ts:131 | the final sort keeps same-day pairs, and pairs with existing meetings, apart by the buffer |
| ScarcityScheduler.Schedule | src/lib/optimize.ts:12-132 | the one-on-one schedule comes out sorted by start |
| ScarcityScheduler.ScheduleFacts | src/lib/optimize.ts:12-132 | result sorted by start; every 1:1 is a slotMinutes grid slot inside its employee's availability with a fresh stream id; week and day caps hold; same-day meetings (existing ones included) are buffer apart; no day's count passes maxPerDay unless the existing meetings already did |
| ScarcityScheduler.TallyStep | src/lib/optimize.ts:33-38 | `inc` keeps the week and day maps equal to counts over the placed list |
| ScarcityScheduler.InitCounts | src/lib/optimize.ts:27-31 | zero counts for every employee match the empty placement |
| ScarcityScheduler.MinOfCounts | src/lib/optimize.ts:86 | Math.min over the week counts: the least value present, or none for an empty map |
| ScarcityScheduler.MinimumTest | src/lib/optimize.ts:86-87 | the `currentCount > minCount` test passes exactly when the employee is at the minimum |
| ScarcityScheduler.CommonTests | src/lib/optimize.ts:77-83 | the week, day, buffer and per-day tests pass exactly when the offer is eligible |
| ScarcityScheduler.FairnessTest | src/lib/optimize.ts:85-87 | the fairness test passes exactly when the employee is at the minimum |
| ScarcityScheduler.FairIteration | src/lib/optimize.ts:76-100 | one turn of the first loop advances placed, busy and the counts as the fairness step says |
| ScarcityScheduler.RunFairPass | src/lib/optimize.ts:75-100 | the first loop computes the fairness pass, with the count maps tallying it |
| ScarcityScheduler.FillIteration | src/lib/optimize.ts:103-129 | one turn of the second loop advances the state as the fill step says |
| ScarcityScheduler.RunFillPass | src/lib/optimize.ts:102-129 | the second loop computes the fill pass |
| ScarcityScheduler.OptimizeOneOnOnesScarcity | src/lib/optimize.ts:12-132 | the scheduler method computes Schedule(...) |
| TeamScheduler.MaxMinutesUnique | src/lib/optimize.ts:141-146 | the maximum minutes value is unique |
| TeamScheduler.MinutesTable | src/lib/optimize.ts:140-146 | minsMap holds each employee's minutes and maxMin is their maximum (0 for an empty table) |
| TeamScheduler.Weight | src/lib/optimize.ts:150-151 | weight is 2 when maxMin is 0 |
| TeamScheduler.WeightBounds | src/lib/optimize.ts:148-152 | weights lie in [1, 2]: 1 for the most-available employee, 2 for one with no minutes |
| TeamScheduler.WeightScarcer | src/lib/optimize.ts:150-151 | fewer available minutes never give a smaller weight |
| TeamScheduler.WeightTable | src/lib/optimize.ts:147-152 | the loop assigns every employee id its weight 1 + (maxMin − m)/maxMin, missing minutes read as 0 |
| TeamScheduler.WeightEntry | src/lib/optimize.ts:149-151 | one employee's weight from minsMap |
| TeamScheduler.WeightsInRange | src/lib/optimize.ts:147-152 | with maxMin the true maximum, every weight lies in [1, 2] |
| TeamScheduler.Attendees | src/lib/optimize.ts:164-170 | an id attends exactly when some employee with it has availability partly overlapping the window |
| TeamScheduler.SlotCandsFacts | src/lib/optimize.ts:158-172 | the candidates of one window are its grid slots with their attendees, kept when at least 2 attend |
| TeamScheduler.CandidatesExactly | src/lib/optimize.ts:154-173 | a candidate is produced exactly when it is a 15-aligned sessionMinutes window inside a manager window with at least 2 overlapping employees |
| TeamScheduler.CandidatesSound | src/lib/optimize.ts:154-173 | every produced candidate meets that description |
| TeamScheduler.CandidatesComplete | src/lib/optimize.ts:154-173 | every window meeting that description is produced |
| TeamScheduler.PushWindowCands | src/lib/optimize.ts:158-172 | the inner loop appends one window's candidates |
| TeamScheduler.BuildCandidates | src/lib/optimize.ts:154-173 | the nested loops compute Candidates(...) |
| TeamScheduler.Unscheduled | src/lib/optimize.ts:193-195 | keeps exactly the attendees not yet scheduled |
| TeamScheduler.ScoreAtLeast | src/lib/optimize.ts:198-201 | with weights at least 1, the score is at least 2 per unscheduled attendee |
| TeamScheduler.Scan | src/lib/optimize.ts:186-207 | no pick exactly when the best score stays 0; the score is never negative; a pick has at least 2 attendees |
| TeamScheduler.ScanFacts | src/lib/optimize.ts:186-207 | the best score bounds every open candidate's gain; none found means score 0; a pick is an open candidate with positive gain that every earlier open candidate scores strictly less than (strict `>` keeps the earliest) |
| TeamScheduler.ScanFindsOpen | src/lib/optimize.ts:186-209 | the scan picks something exactly when some candidate is conflict-free with at least 2 unscheduled attendees |
| TeamScheduler.FewerLeft | src/lib/optimize.ts:185-222 | each accepted session schedules a new employee, so the while loop terminates |
| TeamScheduler.RoundStep | src/lib/optimize.ts:211-221 | accepting an open candidate keeps sessions disjoint in time and attendees |
| TeamScheduler.Rounds | src/lib/optimize.ts:185-222 | the sessions planned so far are kept as a prefix |
| TeamScheduler.RoundsFacts | src/lib/optimize.ts:185-222 | the rounds extend the sessions so far and keep them "Team Session"s of ≥ 2 attendees from candidates, pairwise apart in time and attendees |
| TeamScheduler.PickKeepsPlanned | src/lib/optimize.ts:209-221 | the picked candidate is open, so the invariant carries to the next round |
| TeamScheduler.MaxOverFacts | src/lib/optimize.ts:141-146 | the fold over employees is at least every employee's minutes and equals one of them (or 0) |
| TeamScheduler.MaxOverIsMax | src/lib/optimize.ts:141-146 | the fold is the maximum of the availability table |
| TeamScheduler.SessionFromCand | src/lib/optimize.ts:211-218 | a session built from a candidate lies in a manager window on the grid, with known attendees overlapping it |
| TeamScheduler.MembersApart | src/lib/optimize.ts:178-222 | two different sessions neither overlap nor share an attendee |
| TeamScheduler.SortedSessionsApart | src/lib/optimize.ts:224 | the final sort keeps sessions pairwise apart |
| TeamScheduler.SortedSessionsFromCands | src/lib/optimize.ts:211-224 | every sorted session is a "Team Session" of at least 2 attendees inside a manager window |
| TeamScheduler.RoundsOk | src/lib/optimize.ts:175-224 | the team plan is the sorted rounds, and the rounds meet the session invariant |
| TeamScheduler.TeamPlan | src/lib/optimize.ts:134-225 | the team plan comes out sorted by start |
| TeamScheduler.TeamPlanSessions | src/lib/optimize.ts:134-225 | output sorted by start; each session has ≥ 2 attendees, lies on the grid inside a manager window, attendees overlap it |
| TeamScheduler.TeamPlanApart | src/lib/optimize.ts:178-224 | output sessions pairwise non-overlapping, no employee in two sessions |
| TeamScheduler.ScoreOf | src/lib/optimize.ts:198-201 | the scoring loop sums 2·weight over the unscheduled attendees |
| TeamScheduler.PickBest | src/lib/optimize.ts:186-207 | the candidate loop computes the scan's best pick and score |
| TeamScheduler.ScanOne | src/lib/optimize.ts:189-206 | one turn of the candidate loop is one scan step |
| TeamScheduler.AddScheduled | src/lib/optimize.ts:221 | adds the session's attendees to the scheduled set |
| TeamScheduler.OptimizeTeamWeekWeighted | src/lib/optimize.ts:134-225 | the scheduler method computes TeamPlan(...) |
| Optimize.TeamHoldsNoOneOnOne | src/lib/optimize.ts:235-247 | team sessions count for no employee's one-on-one total |
| Optimize.MergedPlanFacts | src/lib/optimize.ts:248 | the merged, sorted plan is sorted by start and keeps every one-on-one count |
| Optimize.MergedCount | src/lib/optimize.ts:248 | a permutation of team + one-on-ones has the one-on-ones' counts |
| Optimize.Scramble | src/lib/optimize.ts:227-249 | the scramble plan comes out sorted by start |
| Optimize.ScrambleFacts | src/lib/optimize.ts:227-249 | the result is sorted and is a permutation of the team plan plus the one-on-ones scheduled with the team plan as busy (caps 1/1); each employee gets at most one 1:1; one-on-ones keep the buffer from same-day team sessions; team sessions stay apart |
| Optimize.OptimizeScramble | src/lib/optimize.ts:227-249 | the method computes Scramble(...) |
| TimeUi.MinutesToDayTime | src/components/utils/time-ui.ts:7-11 | day = floor(m/1440) mod 7; time is "HH:MM" that reads back as the clock of m mod 1440 |
| TimeUi.DayTimeRoundTrip | src/components/utils/time-ui.ts:7-11 | for m inside the week, dayTimeToAbs(day, time) of the result gives back m |
| TimeUi.MinutesToDayTimeWraps | src/components/utils/time-ui.ts:7-11 | adding a week changes neither the day nor the time |
| TimeUi.DayTimeLabel | src/components/utils/time-ui.ts:13-16 | DAY_NAMES[day] + " " + time: nine characters with the day name and the time |
| TimeUi.DayOfName | src/components/utils/time-ui.ts:13-16 | reading a day name finds its index |
| TimeUi.DayOfNameInverts | src/components/utils/time-ui.ts:13-16 | every day name reads back as its index |
| TimeUi.ParseDayTimeLabel | src/components/utils/time-ui.ts:13-16 | a read-back label gives a minute inside the week |
| TimeUi.DayTimeLabelRoundTrip | src/components/utils/time-ui.ts:13-16 | for m inside the week, reading the label back gives m |
| Derived.PieceShape | src/lib/planner/derived.ts:17-23 | one slice runs from s to min(e, next midnight), with day floor(s/1440) mod 7 and 1440 rather than 0 at midnight |
| Derived.PiecesInDay | src/lib/planner/derived.ts:10-27 | slices are empty iff start ≥ end; each has start in [0,1440), end in (0,1440], and consecutive slices are contiguous |
| Derived.PiecesEnds | src/lib/planner/derived.ts:10-27 | the first slice starts at the meeting's day and minute; the last ends at end mod 1440, or 1440 at midnight |
| Derived.PiecesCover | src/lib/planner/derived.ts:10-27 | the slices cover exactly the minutes of [start, end), day by day |
| Derived.SliceSpan | src/lib/planner/derived.ts:14-25 | the while loop advancing s computes Pieces(start, end) |
| Derived.SliceByDay | src/lib/planner/derived.ts:10-27 | sliceByDay computes Pieces(p.startMin, p.endMin) |
| Derived.OnDayMembers | src/lib/planner/derived.ts:71 | a day column holds exactly the items tagged with that day |
| Derived.PushColumn | src/lib/planner/derived.ts:71 | pushing into days[day] keeps each column equal to the items of that day in order |
| Derived.PushAll | src/lib/planner/derived.ts:64-73 | pushing all slices keeps the columns in step |
| Derived.ShiftSegments | src/lib/planner/derived.ts:37-47 | a shift with start ≤ end gives one segment on its day; otherwise one on d and one on (d+1) mod 7 |
| Derived.EmployeeDays | src/lib/planner/derived.ts:32-35 | seven lists per employee |
| Derived.EmployeeDaysPlacement | src/lib/planner/derived.ts:36-48 | a segment is in day d's list exactly when some shift produces it for d |
| Derived.SameDayShiftLands | src/lib/planner/derived.ts:42-43 | a shift with start ≤ end lands as (start, end) on its own day |
| Derived.OvernightShiftLands | src/lib/planner/derived.ts:44-46 | an overnight shift lands as (start, 1440) on d and (0, end) on (d+1) mod 7 |
| Derived.EmployeeAvailByDayFacts | src/lib/planner/derived.ts:29-52 | one entry of seven lists per employee id, the last employee with the id winning |
| Derived.EmployeeAvailByDayKeys | src/lib/planner/derived.ts:29-52 | the keys are exactly the employee ids, each with 7 lists |
| Derived.ShiftsByDay | src/lib/planner/derived.ts:36-48 | the shift loop computes EmployeeDays(shifts) |
| Derived.PushShift | src/lib/planner/derived.ts:42-47 | one turn pushes the shift's segments into their day columns |
| Derived.BuildEmployeeAvailByDay | src/lib/planner/derived.ts:29-52 | the employee loop computes EmployeeAvailByDay(employees) |
| Derived.ManagerAvailByDay | src/lib/planner/derived.ts:54-87 | seven day lists |
| Derived.OnDayCovers | src/lib/planner/derived.ts:71 | a day column covers exactly the tagged segments' minutes on that day |
| Derived.WindowSegmentsCover | src/lib/planner/derived.ts:61-74 | the slices of all windows cover exactly the windows' minutes, day by day |
| Derived.ManagerAvailByDayFacts | src/lib/planner/derived.ts:54-87 | each day list is sorted, separated (touching coalesced), non-empty pieces, covering exactly the windows' minutes of that day |
| Derived.BuildManagerAvailByDay | src/lib/planner/derived.ts:54-87 | the slicing and merge loops compute ManagerAvailByDay(absWins) |
| Derived.ManagerBlocksByDay | src/lib/planner/derived.ts:89-123 | seven day columns |
| Derived.PlanBlocksMembers | src/lib/planner/derived.ts:100-120 | a block is produced for day d exactly when some meeting's slice lands on d with its id and type |
| Derived.ManagerBlocksByDayFacts | src/lib/planner/derived.ts:89-123 | each column is sorted by start and is a permutation of that day's blocks; a block is in it exactly when a meeting produces it |
| Derived.BuildManagerBlocksByDay | src/lib/planner/derived.ts:89-123 | the loops and column sorts compute ManagerBlocksByDay(plan) |
| Derived.OneOnOnes | src/lib/planner/derived.ts:126 | keeps exactly the one-on-ones of the plan |
| Derived.Teams | src/lib/planner/derived.ts:127 | keeps exactly the team sessions of the plan |
| Derived.FiltersSplit | src/lib/planner/derived.ts:126-127 | the two filters together hold every meeting once |
| Derived.HeadcountOfTeams | src/lib/planner/derived.ts:128-131 | the headcount over team sessions is the headcount over the plan |
| Derived.ComputeStats | src/lib/planner/derived.ts:125-139 | oneOnOneCount + teamCount = plan length; totalHeadcount sums attendee lists; unique1on1Employees ≤ oneOnOneCount |
| Derived.OneOnOneIdSet | src/lib/planner/derived.ts:132 | the Set of one-on-one employee ids is the set of employees with a one-on-one |
| Derived.DayConvos | src/lib/planner/derived.ts:141-149 | seven counters |
| Derived.DayConvosTotal | src/lib/planner/derived.ts:141-149 | the counters total the number of 1:1s plus the team headcount |
| Derived.ComputeDayConvos | src/lib/planner/derived.ts:141-149 | the loop over the counter array computes DayConvos(plan) |
| Derived.ComputeCoverage | src/lib/planner/derived.ts:151-160 | one row per employee in order, with id, name, the employee's 1:1 count, team count, and their sum |
| Derived.OneCountPositive | src/lib/planner/derived.ts:155 | an employee's oneCount is positive exactly when they have a one-on-one |
| Derived.CoverageMatchesStats | src/lib/planner/derived.ts:125-160 | with distinct ids and known owners, the oneCounts total the stats' oneOnOneCount |
| Derived.ZeroRows | src/lib/planner/derived.ts:151-160 | an empty plan gives zero one-on-one counts |
| Planner.Without | src/lib/planner/usePlanner.tsx:467-469 | removes exactly eid from the attendee list, keeping the rest |
| Planner.StripAttendee | src/lib/planner/usePlanner.tsx:463-472 | the map keeps the plan's length |
| Planner.RemoveEmployeeIsCleanEach | src/lib/planner/usePlanner.tsx:458-477 | filter, map, filter equals cleaning each meeting on its own, in order |
| Planner.CleanOneKeepsUninvolved | src/lib/planner/usePlanner.tsx:458-477 | a meeting not involving eid is kept unchanged (unless it is an already empty session) |
| Planner.DropOneOnOnes | src/lib/planner/usePlanner.tsx:460-462 | keeps only meetings of the plan, and none is a one-on-one of eid |
| Planner.DropEmptySessions | src/lib/planner/usePlanner.tsx:473-476 | keeps only meetings of the plan, and none is a team session without attendees |
| Planner.RemoveEmployeeFromPlan | src/lib/planner/usePlanner.tsx:458-477 | the cleaned plan is no longer than the plan and holds no empty team session |
| Planner.RemoveEmployeeFacts | src/lib/planner/usePlanner.tsx:454-477 | no meeting involves eid afterwards, no session is left empty, and each kept meeting comes from one of the plan |
| Planner.CleanEachFacts | src/lib/planner/usePlanner.tsx:458-477 | the same facts for meeting-by-meeting cleaning |
| Planner.RemoveEmployeeFromList | src/lib/planner/usePlanner.tsx:455 | keeps exactly the employees with another id |
| Planner.RemoveMeeting | src/lib/planner/usePlanner.tsx:584-585 | keeps exactly the meetings whose id differs; an unknown id changes nothing |
| Planner.RemoveMeetingIdempotent | src/lib/planner/usePlanner.tsx:584-585 | removing twice is removing once |
| Planner.ApplyPatch | src/lib/planner/usePlanner.tsx:581 | the spread changes only the patched times, keeping id, title, type, owner and attendees |
| Planner.UpdateMeeting | src/lib/planner/usePlanner.tsx:579-583 | only meetings with the id change, each by the patch; all others stay at their positions |
| Planner.UpdateCanOverlap | src/lib/planner/usePlanner.tsx:579-583 | no conflict check: an update can make an overlap-free plan overlap |
| Planner.Generate | src/lib/planner/usePlanner.tsx:323-348 | the generated plan for the normalised employees (as written) comes out sorted by start |
| Planner.RunOptimize | src/lib/planner/usePlanner.tsx:350-354 | append mode keeps the previous plan as a prefix; either mode adds at most the generated meetings |
| Planner.RunOptimizeFacts | src/lib/planner/usePlanner.tsx:323-354 | append mode keeps prev as a prefix, with additions that have fresh ids and overlap nothing earlier (so an overlap-free prev stays overlap-free); replace mode gives an overlap-free plan with distinct ids; every meeting comes from prev or from the generated plan |
| Planner.SelectFrom | src/lib/planner/usePlanner.tsx:350-354 | every meeting of a merge comes from existing or from the candidates |
| Planner.Unscheduled1on1s | src/lib/planner/usePlanner.tsx:181-189 | at most one name per employee; outside team mode, one name per employee exactly when no employee has a one-on-one |
| Planner.Unscheduled1on1sFacts | src/lib/planner/usePlanner.tsx:181-189 | empty in team mode; otherwise exactly the names of employees without a one-on-one |
| Planner.NamesWithout | src/lib/planner/usePlanner.tsx:188 | at most one name per employee, and every name exactly when no employee is scheduled |
| Planner.NamesWithoutMembers | src/lib/planner/usePlanner.tsx:188 | a name is listed exactly when an employee with it is not scheduled |

## Left out

- `uid` (`src/lib/time.ts:4-5`) uses `Math.random`. Ids come from a caller-supplied stream `ids: nat -> string` with a start index. Scramble uses one stream for team ids and one for one-on-one ids. No property depends on the id text.
- `minsToHHMM` (`src/lib/time.ts:12-16`) is the same computation as `fmtHHMM`. Both are `Time.FmtHHMM`.
- "HH:MM" text is modelled by its parsed pair `Clock(h, m)`. Other text (NaN in JavaScript) is not modelled.
- ParseClock: reads only non-empty digits, one colon, non-empty digits. Two readings JavaScript gives are rejected: for "a:b:c" the destructuring keeps the first two fields, and an empty field such as ":30" or "8:" becomes `Number("") = 0`.
- `Array.prototype.sort` is modelled as the stable insertion sort `Sorting.SortBy`, not as the engine's own algorithm.
- `overlapsByEmployee` and `overlapsByEmployee_WithBreaks` (`src/lib/availability.ts:143-168`) are compositions of modelled members (`ExpandShifts` with `EmployeeOverlaps`, and `ShiftIntervalsMinusBreaks` with `Crossing` and `Merge`). They have no member of their own.
- JavaScript numbers are modelled as unbounded `nat`/`int`. Team weights are `real`, since they are ratios of integers. Floating-point rounding is not modelled.
- React state, effects, prompts, local storage, scrolling and timers in `usePlanner.tsx` are not modelled. Each transform is the pure function handed to a state setter.
- `updateMeeting`'s `Partial<Planned>` is modelled as a patch of `startMin`/`endMin` only, the only fields the plan editor sends.
- The plan editor, calendar and other React components are not modelled. Neither are the import/export code and the metrics dashboard.

## Findings

| source | as written | input that shows it | evidently intended | confidence | as-written member | corrected member |
|---|---|---|---|---|---|---|
| src/lib/planner/normalize.ts:17 | a shift ending exactly at "00:00" counts as crossing midnight and gets a second half ((day+1) mod 7, "00:00", "00:00"), which later code reads as a full 24-hour day | Shift(Sun, 16:00, 00:00): 480 minutes become 480 + 1440 = 1920 | drop the empty second half, so the halves last as long as the shift | not executed | Normalize.NormalizeShiftAsWritten (Normalize.AsWrittenMidnightEndAddsDay, Normalize.NormalizeShiftsLength, Normalize.AddedMinutesAllDays) | Normalize.NormalizeShift (Normalize.NormalizeShiftPreservesLength, Normalize.NormalizeShiftsCorrectedLength, Normalize.NormalizeEmployeesCorrected) |

The engine's pipeline (`Normalize.NormalizeEmployees`, `Planner.Generate`) keeps the behaviour as written; the corrected members stand beside it and are not used by the planner.

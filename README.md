# Recovery-credit engine of class-management-api, in Dafny

This project models the recovery-credit engine of a karate-school class management API, and proves properties of that model.

- **Absence-earned credits.** A student's absences (absent or sick, up to the end of yesterday, excluding day-only, recovery and overflow entries) earn recovery credits.
- **Snapshot.** Active recovery bookings consume those credits. Bookings paid from a manual adjustment do not. The snapshot reconciles the two counts into consumed and pending absences.
- **Credit balance.** The balance is the pending absences capped by the enrollment plan (Basic 2, Optimum 4, Plus 6, Advanced 8), plus the un-clamped net of manual adjustments. Frozen and trial accounts earn nothing from absences.
- **Overflow reconciliation.** After a plan change, one walk over a student's absences, oldest first, emits the updates that tag every absence beyond the new cap as a plan-downgrade overflow. It also clears stale reasons.
- **Plan assignment task.** A maintenance task derives every student's plan from the weekly load: class slots plus active recovery bookings.
- **Periphery.** Three role gates guard the routes. Two small formatters produce a class's age label and start-time string.

Modules, one concept each:

| module | file | models |
|---|---|---|
| `Common` | common.dfy | Option, record status, ids, Min/Max |
| `Plans` | plans.dfy | plan labels, cap table, `computeCreditsFromAbsences`, `shouldOverflowNewAbsence` |
| `Attendance` | attendance.dfy | attendance records and entries, bookings, the countable-absence rule, the counts |
| `Snapshots` | snapshots.dfy | the snapshot arithmetic and the batch snapshot map |
| `Credits` | credits.dfy | `computeAvailableCreditsFromSnapshot` and `getAvailableCreditsForStudent` |
| `Overflow` | overflow.dfy | `enforceOverflowAfterPlanDowngrade`, the batched write, idempotence |
| `PlanAssignment` | plan_assignment.dfy | the set-all-students plan task |
| `RoleGates` | role_gates.dfy | `forSuperUser`, `forUserAdmin`, `forUserStudent` |
| `Decimal` | decimal.dfy | integer rendering as in template literals, and its parse-back |
| `AgeRange`, `TimeFormat` | formatters.dfy | the two formatters |

The database reads become input sequences:
- attendance records with their entries;
- recovery bookings;
- classes;
- user rows.

Each aggregation becomes a count or a filter over them. The walks that change state stay imperative:
- the four loops of the batch snapshot builder, over a `map`;
- the overflow walk with its `countable` and `recoveredToSkip` counters;
- the nested loops that build the weekly-slots map;
- the update-queuing loop of the task.

Each such method is proved equal to a specification function, and the properties are proved about that function.

Three points about what the code does, which the model follows:
- **Has a plan.** An empty plan label counts as "no plan". `Boolean(user?.enrollmentPlan)` (src/utils/credits-service.ts:162) is false for it, so the account is frozen.
- **Which entries the overflow walk reads.** The overflow walk's query (src/utils/credits-service.ts:344-370) has no date cutoff and keeps entries already tagged. Absences dated after yesterday are walked too.
- **Booking consumption.** A booking made without an attendance entry decrements `recoveryCreditsAdjustment` and never sets `usedAdjustment` (src/controllers/karate-class/booking-recovery-class-by-id-controller.ts:99-105). No adjustment-first consumption protocol is modelled.

## Model

| member | source | states |
|---|---|---|
| Plans.ParseName | src/utils/credits-service.ts:9 | every plan label reads back as its own plan |
| Plans.MaxPendingForPlan | src/utils/credits-service.ts:11-21 | the cap is one of 2, 4, 6, 8; a known label gives its plan's cap; a missing or empty label, or any other label that is not a property name JavaScript objects inherit, gives Optimum's 4 |
| Plans.CapFollowsRank | src/utils/credits-service.ts:11-16 | the cap grows with the plan's rank, in both directions |
| Plans.MaxPendingTable | src/__tests__/utils/credits-service.test.ts:46-52 | Basic 2, Optimum 4, Plus 6, Advanced 8, no plan 4 |
| Plans.CreditsFromAbsences | src/utils/credits-service.ts:24-27 | the result is the count when it is positive and 0 otherwise; it is positive exactly when the count is |
| Plans.ShouldOverflowNewAbsence | src/utils/credits-service.ts:334-337 | a new absence overflows once the pending count reaches the cap; `Overflow.ActionFromCounters` and `Overflow.ReconciledAt` state what that decides in the walk |
| Attendance.IsCountableAbsence | src/utils/credits-service.ts:42-65 | the countable-absence filter; `Attendance.SingleEntryCounts` ties each of its clauses to the count |
| Attendance.CountAbsences | src/utils/credits-service.ts:31-73 | the countable-absence count; `Attendance.CountAbsencesPositive`, `Attendance.CountAbsencesMonotone` and `Attendance.CandidatesAgreeWithCount` state what it counts |
| Attendance.CountActiveBookings | src/utils/credits-service.ts:76-81 | the active-booking count; `Attendance.BookingCountPositive` and `Attendance.InactiveBookingIgnored` state what it counts |
| Attendance.CountActiveAdjustmentBookings | src/utils/credits-service.ts:84-90 | the active adjustment-booking count; `Attendance.AdjustmentBookingsWithinActive` bounds it by the active bookings |
| Attendance.OverflowCandidates | src/utils/credits-service.ts:344-370 | the overflow walk's query, before sorting; the walk's items are required to be a sorted arrangement of it, and `Overflow.RequeryAfterBatch` says what it gives after the batch |
| Attendance.CountAbsencesPositive | src/utils/credits-service.ts:40-72 | the countable-absence count is positive iff some entry of an active record dated by the cutoff belongs to the student, is absent or sick, and is not day-only, recovery or overflow |
| Attendance.SingleEntryCounts | src/utils/credits-service.ts:42-66 | a one-entry record counts 1 exactly when every clause of the filter holds, else 0 |
| Attendance.EntryAbsencesPositive | src/utils/credits-service.ts:57-66 | within one record, the count is positive iff some entry passes the filter |
| Attendance.CountAbsencesMonotone | src/utils/credits-service.ts:56 | a later cutoff never lowers the count |
| Attendance.AdjustmentBookingsWithinActive | src/utils/credits-service.ts:76-90 | the adjustment bookings are at most the active bookings |
| Attendance.InactiveBookingIgnored | src/utils/credits-service.ts:77-80 | adding a non-active booking changes neither count |
| Attendance.BookingCountPositive | src/utils/credits-service.ts:76-81 | the active-booking count is positive iff the student has an active booking |
| Attendance.CandidatesAgreeWithCount | src/utils/credits-service.ts:344-370 | among the query's items, the untagged ones dated by the cutoff are exactly as many as the countable absences |
| Snapshots.Reconcile | src/utils/credits-service.ts:101-114 | counts are carried over; consumed plus pending equals absences; consumed is at most absences and at most the non-adjustment bookings, and equals one of them |
| Snapshots.AbsenceAndBookingSnapshot | src/utils/credits-service.ts:92-115 | the snapshot holds the student's countable absences, active bookings and active adjustment bookings; adjustment bookings are at most the bookings; consumed is min(absences, bookings - adjustment bookings), and consumed plus pending is the absences |
| Snapshots.AdjustmentBookingKeepsPending | src/utils/credits-service.ts:101-104 | a booking paid from an adjustment leaves consumed and pending unchanged |
| Snapshots.PlainBookingConsumesOne | src/utils/credits-service.ts:101-104 | a plain booking moves one absence from pending to consumed while any is pending |
| Snapshots.SnapshotScenarios | src/__tests__/utils/credits-service.test.ts:54-84 | (3,2,2) gives consumed 0 and pending 3; (3,2,0) gives 2 and 1; extra bookings clamp at the absences; zero counts give the zero snapshot |
| Snapshots.IdleStudentSnapshotIsZero | src/utils/credits-service.ts:125-131 | a student with no countable absence and no active booking has the all-zero snapshot |
| Snapshots.AbsenceGroups | src/utils/credits-service.ts:217-252 | one group per distinct requested student with a countable absence, carrying that student's count |
| Snapshots.BookingGroups | src/utils/credits-service.ts:263-281 | one group per distinct requested student with an active booking, carrying both booking counts |
| Snapshots.SeedAbsences | src/utils/credits-service.ts:252-261 | the map holds exactly the requested students with countable absences, each with its count and zero bookings |
| Snapshots.MergeStep | src/utils/credits-service.ts:284-294 | merging one booking group keeps every written entry equal to its merged snapshot |
| Snapshots.MergeBookings | src/utils/credits-service.ts:283-295 | the keys grow by the requested students with active bookings; every entry holds its absences and its booking counts |
| Snapshots.ReconcileEntries | src/utils/credits-service.ts:297-306 | same keys; every entry gets consumed and pending from its own counts |
| Snapshots.FillMissing | src/utils/credits-service.ts:308-319 | every requested id gets an entry; absent ones get the zero snapshot; present ones are unchanged |
| Snapshots.MultipleAbsenceSnapshots | src/utils/credits-service.ts:203-322 | the map has an entry exactly for each requested id, equal to that student's single-student snapshot |
| Credits.ComputeAvailableCreditsFromSnapshot | src/utils/credits-service.ts:158-201 | frozen iff not active or no plan; a plan-less user reports Optimum; frozen or trial, or no snapshot at all, zeroes every snapshot field; otherwise the snapshot's fields are reported; credits from absences are min(pending, cap); total = pool = credits + (adjustment total - used), with missing counters read as 0 and no clamping |
| Credits.AvailableCreditsForStudent | src/utils/credits-service.ts:324-331 | the snapshot is fetched only for an existing, unfrozen, non-trial user; `Credits.SkippedSnapshotUnobservable` and `Credits.ActiveStudentCredits` state its result |
| Credits.SkippedSnapshotUnobservable | src/utils/credits-service.ts:324-331 | not fetching the snapshot for missing, frozen or trial users gives the same answer as fetching it |
| Credits.ActiveStudentCredits | src/utils/credits-service.ts:324-331 | for an active, paying student the credits are min(pending, cap) plus the adjustment net, and pending plus consumed is the absence count |
| Credits.FrozenOrTrialKeepsOnlyAdjustments | src/utils/credits-service.ts:165-183 | frozen and trial students earn 0 from absences and keep only the adjustment net |
| Credits.CreditScenarios | src/__tests__/utils/credits-service.test.ts:86-136 | the active Optimum user with 5 absences gets 4 + 1; the inactive Basic user gets 1 and is frozen |
| Overflow.ActionFromCounters | src/utils/credits-service.ts:372-409 | the walk's counters choose the same action as the rank-based rule: skip, tag overflow, unset the reason, or nothing |
| Overflow.EnforceOverflowAfterPlanDowngrade | src/utils/credits-service.ts:340-409 | for items that are the stored records' overflow candidates sorted oldest first, the emitted updates are exactly the rank-based plan for the new plan's cap and the student's active bookings |
| Overflow.ApplyUpdatesOfPrefix | src/utils/credits-service.ts:390-407 | with distinct keys, each update reaches only the entry its record id and entry id select |
| Overflow.ApplyPlannedUpdates | src/utils/credits-service.ts:411-414 | applying the emitted batch yields the reconciled entries |
| Overflow.OverflowTagsOnlyGrow | src/utils/credits-service.ts:339-407 | no batch of updates clears an overflow tag or moves an entry |
| Overflow.ReconciledAt | src/utils/credits-service.ts:376-409 | tagged entries and the first skipped untagged ones are untouched; in the next cap-many only a truthy reason is removed and everything else stays, so they stay countable; later ones are tagged plan-downgrade with nothing else changed |
| Overflow.ReconciledState | src/utils/credits-service.ts:376-409 | the per-entry outcome above, with the whole new entry given, for every entry of the reconciled sequence |
| Overflow.UntaggedAfterReconcile | src/utils/credits-service.ts:372-409 | on every prefix, the untagged entries left are min(untagged before, skip + cap) |
| Overflow.ReconciledUntaggedTotal | src/utils/credits-service.ts:334-409 | after reconciliation at most skip + cap entries stay untagged, and exactly that many when there were enough |
| Overflow.ReconciledIsFixedPoint | src/utils/credits-service.ts:376-409 | walking the reconciled entries again decides no action |
| Attendance.CandidateIgnoresTags | src/utils/credits-service.ts:344-368 | the query's filter reads neither the overflow tag nor the reason |
| Overflow.RequeryAfterBatch | src/utils/credits-service.ts:344-414 | running the query on the records after the bulkWrite yields the old query result with the batch applied item by item |
| Overflow.ApplyUpdatesPermutation | src/utils/credits-service.ts:411-414 | the batch maps two arrangements of the same items to two arrangements of the same updated items |
| Overflow.RequeryMatchesUpdatedItems | src/utils/credits-service.ts:344-414 | after the bulkWrite, the items updated in place are the new query's candidates and still sorted oldest first, so they are an answer the query can give |
| Overflow.ReconciliationIdempotent | src/utils/credits-service.ts:340-415 | after one run's bulkWrite, the query run again may answer with the updated items, and walking them with the same bookings and plan emits no update |
| PlanAssignment.PlanFromWeeklyCount | src/tasks/set-all-students-plan-advanced.ts:15-20 | Advanced iff at least 4, Plus iff 3, Optimum iff 2, Basic iff at most 1 |
| PlanAssignment.PlanFromWeeklyCountMonotone | src/tasks/set-all-students-plan-advanced.ts:15-20 | a larger weekly count never gives a smaller cap or rank |
| PlanAssignment.ClassSlots | src/tasks/set-all-students-plan-advanced.ts:30 | the slots one listing in a class earns; `PlanAssignment.ClassSlotsRange` states its value |
| PlanAssignment.WeeklySlots | src/tasks/set-all-students-plan-advanced.ts:29-43 | the weekly load, class slots plus active recovery bookings; `PlanAssignment.WeeklySlotsAddClass` and `PlanAssignment.WeeklySlotsAddRecovery` state what each class and booking adds |
| PlanAssignment.ClassSlotsRange | src/tasks/set-all-students-plan-advanced.ts:30 | a class gives its week-day count, or 1 when the list is missing or empty |
| PlanAssignment.ListedSlotsCountsEachListing | src/tasks/set-all-students-plan-advanced.ts:32-36 | a student listed k times gets k times the class's slots |
| PlanAssignment.WeeklySlotsAddClass | src/tasks/set-all-students-plan-advanced.ts:29-37 | an active class adds its slots once per listing; an inactive one adds nothing |
| PlanAssignment.WeeklySlotsAddRecovery | src/tasks/set-all-students-plan-advanced.ts:39-43 | an active recovery booking adds exactly 1 to its own student |
| PlanAssignment.AddListedSlots | src/tasks/set-all-students-plan-advanced.ts:31-36 | after one class's inner loop, every entry is its old value plus that class's listed slots |
| PlanAssignment.BuildWeeklySlotsPerStudent | src/tasks/set-all-students-plan-advanced.ts:22-46 | the map has a key exactly for each student with a positive weekly load, mapped to that load |
| PlanAssignment.MissingStudentGetsBasic | src/tasks/set-all-students-plan-advanced.ts:63-64 | a student missing from the map has load 0 and gets Basic |
| PlanAssignment.QueuePlanUpdates | src/tasks/set-all-students-plan-advanced.ts:62-75 | the queued updates are the plan changes in user order, and the counter equals their number |
| PlanAssignment.PlanChanges | src/tasks/set-all-students-plan-advanced.ts:62-75 | the updates the loop queues; `PlanAssignment.PlanChangesSound`, `PlanAssignment.PlanChangesComplete` and `PlanAssignment.PlanChangesAtMostStudents` state which they are |
| PlanAssignment.PlanChangesSound | src/tasks/set-all-students-plan-advanced.ts:62-75 | every queued update belongs to a student row whose stored plan differs, and carries the computed plan |
| PlanAssignment.PlanChangesComplete | src/tasks/set-all-students-plan-advanced.ts:62-75 | every student row whose stored plan differs gets its update |
| PlanAssignment.ReassignedNeedsNoUpdate | src/tasks/set-all-students-plan-advanced.ts:62-78 | once the computed plans are written, running the loop again queues nothing |
| PlanAssignment.PlanChangesAtMostStudents | src/tasks/set-all-students-plan-advanced.ts:62-75 | at most one update is queued per student |
| PlanAssignment.SuccessesAtMostCalls | src/tasks/set-all-students-plan-advanced.ts:85-96 | the successful enforcements are at most the calls, and equal to them iff none failed |
| PlanAssignment.ReportedSummary | src/tasks/set-all-students-plan-advanced.ts:108-118 | the printed report, as written: unchanged and overflow-applied counts are always 0, so updated plus unchanged reaches the total only when every student changed, and the overflow count is right only when no enforcement succeeded |
| PlanAssignment.CorrectedSummary | src/tasks/set-all-students-plan-advanced.ts:57-118 | updated plus unchanged is the student total; the overflow count is the successful enforcements, equal to the updates iff none failed |
| PlanAssignment.ReportedSummaryUndercounts | src/tasks/set-all-students-plan-advanced.ts:82-112 | two students, one unchanged and one updated with a successful enforcement: the printed report gives 0 and 0, the corrected one gives 1 and 1 |
| RoleGates.ForSuperUser | src/middleware/role-middleware.ts:7-14 | calls next iff the user is super; otherwise sets 401, then throws |
| RoleGates.ForUserAdmin | src/middleware/role-middleware.ts:15-26 | calls next iff the user is super or admin; otherwise sets 401, then throws |
| RoleGates.ForUserStudent | src/middleware/role-middleware.ts:27-38 | calls next iff the user is super, admin or not a teacher; otherwise sets 401, then throws |
| RoleGates.WellFormedCallsNextAtMostOnce | src/middleware/role-middleware.ts:7-38 | a gate calls next at most once, and a rejection never calls it and ends in the throw after status 401 |
| RoleGates.GatesNested | src/middleware/role-middleware.ts:7-38 | passing the super gate implies passing the admin gate, which implies passing the student gate |
| RoleGates.AnonymousRequest | src/middleware/role-middleware.ts:7-38 | without a user, the super and admin gates reject and the student gate passes |
| RoleGates.TeacherOnlyRejectedFromStudentRoutes | src/middleware/role-middleware.ts:27-38 | the student gate rejects exactly a teacher who is neither admin nor super |
| AgeRange.GetAgeRangeByMinAndMax | src/utils/get-age-range-by-min-max.ts:3-14 | (0,100) gives "All Ages"; min 0 gives "<" and the max; max 100 gives "+" and the min; any other pair gives "" |
| AgeRange.AgeRangeRoundTrip | src/utils/get-age-range-by-min-max.ts:3-14 | for non-negative ages the label reads back as the pair when a bound is open, and is empty exactly when neither is |
| Decimal.IntToString | src/utils/get-time-string-by-start-time.ts:8 | a whole number's `${…}` rendering: for a non-negative number, digits without a leading zero that read back as the number; for a negative one, a minus sign before such digits for its magnitude |
| Decimal.NatToStringRoundTrip | src/utils/get-time-string-by-start-time.ts:8 | the decimal rendering of a number reads back as that number |
| TimeFormat.PadStart | src/utils/get-time-string-by-start-time.ts:5 | the result has length max(length, target), ends with the input, and is filled with the pad character before it |
| TimeFormat.MinutesPadded | src/utils/get-time-string-by-start-time.ts:5 | minutes are at least two digits, a single digit gets a leading '0', and the value is kept |
| TimeFormat.GetTimeStringByStartTime | src/utils/get-time-string-by-start-time.ts:3-9 | the time string; `TimeFormat.TimeStringRoundTrip` and the three examples state what it shows |
| TimeFormat.TimeStringRoundTrip | src/utils/get-time-string-by-start-time.ts:3-9 | for non-negative hour and minute, the string reads back as the same time: past 12 it shows hour - 12 and "pm", otherwise the hour and "am" |
| TimeFormat.NoonExample | src/utils/get-time-string-by-start-time.ts:4-8 | 12:05 renders as "12:05 am" |
| TimeFormat.MidnightExample | src/utils/get-time-string-by-start-time.ts:4-8 | 0:00 renders as "0:00 am" |
| TimeFormat.AfternoonExample | src/utils/get-time-string-by-start-time.ts:4-8 | 13:30 renders as "1:30 pm" |

## Left out

- Database access: Mongo aggregation stages, `countDocuments`, `find` and `bulkWrite` become counts and filters over input sequences and a list of updates. Their query planning, write acknowledgement and partial failure are not modelled.
- Overflow items' order: the walk's input is the sorted aggregation output passed in as a sequence. The `$sort` itself and the order of entries with equal dates are not modelled.
- Dates: `$dateFromParts` is abstracted to an integer timestamp per record. The cutoff "end of yesterday in Houston" is a parameter, because it comes from the clock and a timezone conversion.
- Ids: ObjectIds are numbers compared by value, and a requested id and the key it is stored under are one value. In the source, the batch snapshot map is keyed by `String(item._id)`, the lower-case hex form of the parsed id (src/utils/credits-service.ts:254, 284). The missing entries are filled under the requested string exactly as given (src/utils/credits-service.ts:310). An id string that is not valid makes `new mongoose.Types.ObjectId(id)` throw (src/utils/credits-service.ts:215).
- Overflow.ApplyToEntries: applies an update to every entry of the record whose id matches. The source's positional `attendance.$` update (src/utils/credits-service.ts:389-407) changes only the first matching element. The two agree when the subdocument ids in a record are distinct, which the model assumes for the bulkWrite and does not derive.
- Overflow.RequeryAfterBatch: is stated over `Overflow.ApplyToRecords`, so it describes the source's bulkWrite only when the subdocument ids in each record are distinct.
- Overflow.RequeryMatchesUpdatedItems: likewise describes the source's bulkWrite only when the subdocument ids in each record are distinct.
- Snapshots.MultipleAbsenceSnapshots: its equality with the single-student snapshot covers canonical ids only, the lower-case 24-digit hex form. A valid id in upper-case hex gets a zero snapshot under its own key, while its real counts sit under the lower-case key. An invalid id string is not covered either.
- `$group` output: modelled as one group per distinct requested id. The group order is not modelled, because no result depends on it.
- Overflow.ReconciliationIdempotent: requires that the (record id, entry id) keys are distinct. Each entry's id is a subdocument ObjectId, and the model has no database to derive that from.
- Overflow.ReconciliationIdempotent: shows that the re-query may return the updated items in their old order, and that the walk is then silent. `$sort` does not fix the order among entries of equal date, and a different order on the re-query is not covered.
- Plans.MaxPendingForPlan: labels are strings looked up in a table of four plans. A stored label that names a property every JavaScript object inherits ("constructor", "toString", "__proto__") yields a non-number in the source, not the fall-back 4. The model does not capture that, and the User schema that would rule such labels out is not part of this model.
- PlanAssignment.AddListedSlots: requires at least one slot per class. Its only caller passes `ClassSlots`, which is at least 1 as the source computes it.
- The task's `main`: connecting, the per-student `enforceOverflowAfterPlanDowngrade` calls, the error collection and the process exit are not modelled as I/O. Only the outcome of each enforcement call is a parameter of the report.
- The report's percentage line (a floating-point division) is not modelled.
- Logging: every `console.log` is left out.
- JavaScript numbers are modelled as unbounded integers. Float values, `NaN` and exponent notation of very large numbers in `toString` are not modelled. The formatters' round-trip lemmas therefore assume non-negative arguments.
- Role gates: Express's request and response objects become an effect list (call next, set status, throw). The value 401 for UNAUTHORIZED is stated directly, because the module defining that constant is not part of this model. A role flag missing from the token is read as false.
- The booking controller and the refund paths are not modelled. They change the stored counters and bookings that this model takes as inputs.
- Concurrency between requests and batch jobs is not modelled; every operation is sequential.

## Findings

| source | as written | input that shows it | evidently intended | confidence | as-written member | corrected member |
|---|---|---|---|---|---|---|
| src/tasks/set-all-students-plan-advanced.ts:82 | the enforcement block declares its own `overflowAppliedCount`, shadowing the outer one that the final report prints, so the report always says 0 | two students, one updated whose enforcement succeeds | the report counts the enforcements that succeeded | high; not executed | PlanAssignment.ReportedSummaryUndercounts | PlanAssignment.CorrectedSummary |
| src/tasks/set-all-students-plan-advanced.ts:58 | `noUpdateCount` is printed but never incremented, so the report always says no student was unchanged | two students, one already on its computed plan | unchanged students = student total - updated | high; not executed | PlanAssignment.ReportedSummaryUndercounts | PlanAssignment.CorrectedSummary |

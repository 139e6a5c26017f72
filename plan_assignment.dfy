/** The maintenance task that infers every student's plan from their
    weekly load: class slots plus active recovery bookings. */
module PlanAssignment {
  import opened Common
  import opened Plans
  import opened Attendance

  /** The fields of a KarateClass document the task reads. */
  datatype KarateClass = KarateClass(
    status: RecordStatus,
    weekDays: Option<seq<string>>,
    students: Option<seq<StudentId>>)

  /** The fields of a user document the task reads. */
  datatype UserRow = UserRow(
    id: StudentId,
    enrollmentPlan: Option<string>,
    isAdmin: bool,
    isTeacher: bool,
    isSuper: bool)

  /** One plan `updateOne` of the batch. */
  datatype PlanUpdate = PlanUpdate(student: StudentId, enrollmentPlan: Plan)

  /** planFromWeeklyCount. */
  function PlanFromWeeklyCount(weeklySlots: int): (p: Plan)
    ensures p == Advanced <==> weeklySlots >= 4
    ensures p == Plus <==> weeklySlots == 3
    ensures p == Optimum <==> weeklySlots == 2
    ensures p == Basic <==> weeklySlots <= 1
  {
    if weeklySlots >= 4 then Advanced
    else if weeklySlots == 3 then Plus
    else if weeklySlots == 2 then Optimum
    else Basic
  }

  /** A heavier weekly load never gives a plan with a smaller cap. */
  lemma PlanFromWeeklyCountMonotone(a: int, b: int)
    requires a <= b
    ensures Cap(PlanFromWeeklyCount(a)) <= Cap(PlanFromWeeklyCount(b))
    ensures Rank(PlanFromWeeklyCount(a)) <= Rank(PlanFromWeeklyCount(b))
  {
  }

  /** The slots a class gives each listed student: its number of week days, or 1. */
  function ClassSlots(c: KarateClass): nat {
    if c.weekDays.Some? && |c.weekDays.value| > 0 then |c.weekDays.value| else 1
  }

  function Students(c: KarateClass): seq<StudentId> {
    c.students.GetOr([])
  }

  /** `slots` added once per occurrence of the student in the list. */
  function ListedSlots(students: seq<StudentId>, slots: nat, s: StudentId): nat
  {
    if students == [] then 0
    else ListedSlots(students[..|students| - 1], slots, s) + (if students[|students| - 1] == s then slots else 0)
  }

  function Occurrences(students: seq<StudentId>, s: StudentId): nat
  {
    if students == [] then 0
    else Occurrences(students[..|students| - 1], s) + (if students[|students| - 1] == s then 1 else 0)
  }

  /** A student listed k times in a class gets k times its slots. */
  lemma {:induction false} ListedSlotsCountsEachListing(students: seq<StudentId>, slots: nat, s: StudentId)
    ensures ListedSlots(students, slots, s) == slots * Occurrences(students, s)
  {
    if students != [] {
      ListedSlotsCountsEachListing(students[..|students| - 1], slots, s);
    }
  }

  /** Slots from the active classes. */
  function ClassLoad(classes: seq<KarateClass>, s: StudentId): nat
  {
    if classes == [] then 0
    else
      var c := classes[|classes| - 1];
      ClassLoad(classes[..|classes| - 1], s) + (if c.status == Active then ListedSlots(Students(c), ClassSlots(c), s) else 0)
  }

  /** The weekly load of a student. */
  function WeeklySlots(classes: seq<KarateClass>, recoveries: seq<RecoveryBooking>, s: StudentId): nat {
    ClassLoad(classes, s) + CountActiveBookings(recoveries, s)
  }

  /** Each active class adds its slots once per listing; an inactive one adds nothing. */
  lemma WeeklySlotsAddClass(classes: seq<KarateClass>, recoveries: seq<RecoveryBooking>, c: KarateClass, s: StudentId)
    ensures WeeklySlots(classes + [c], recoveries, s)
         == WeeklySlots(classes, recoveries, s) + (if c.status == Active then ClassSlots(c) * Occurrences(Students(c), s) else 0)
  {
    assert (classes + [c])[..|classes|] == classes;
    ListedSlotsCountsEachListing(Students(c), ClassSlots(c), s);
  }

  /** Each active recovery booking adds exactly one slot to its own student. */
  lemma WeeklySlotsAddRecovery(classes: seq<KarateClass>, recoveries: seq<RecoveryBooking>, b: RecoveryBooking, s: StudentId)
    ensures WeeklySlots(classes, recoveries + [b], s)
         == WeeklySlots(classes, recoveries, s) + (if b.status == Active && b.student == s then 1 else 0)
  {
    assert (recoveries + [b])[..|recoveries|] == recoveries;
  }

  lemma ClassSlotsRange(c: KarateClass)
    ensures ClassSlots(c) >= 1
    ensures c.weekDays.Some? && c.weekDays.value != [] ==> ClassSlots(c) == |c.weekDays.value|
    ensures c.weekDays.None? || c.weekDays.value == [] ==> ClassSlots(c) == 1
  {
  }

  /** `weeklyMap.get(key) || 0`. */
  function SlotsOf(weeklyMap: map<StudentId, nat>, s: StudentId): nat {
    if s in weeklyMap then weeklyMap[s] else 0
  }

  /** The inner loop over one active class's students: each listing adds
      the class's slots (at least one) to that student's entry. */
  method AddListedSlots(weeklyMap: map<StudentId, nat>, students: seq<StudentId>, weekDays: nat)
    returns (updated: map<StudentId, nat>)
    requires weekDays >= 1
    ensures forall s :: s in updated <==> s in weeklyMap || ListedSlots(students, weekDays, s) > 0
    ensures forall s :: s in updated ==> updated[s] == SlotsOf(weeklyMap, s) + ListedSlots(students, weekDays, s)
  {
    updated := weeklyMap;
    for j := 0 to |students|
      invariant forall s :: s in updated <==> s in weeklyMap || ListedSlots(students[..j], weekDays, s) > 0
      invariant forall s :: s in updated ==> updated[s] == SlotsOf(weeklyMap, s) + ListedSlots(students[..j], weekDays, s)
    {
      var key := students[j];
      assert students[..j + 1][..j] == students[..j];
      var current := SlotsOf(updated, key);
      updated := updated[key := current + weekDays];
    }
    assert students[..|students|] == students;
  }

  /** buildWeeklySlotsPerStudent: a key for every student with some load,
      holding that load. */
  method BuildWeeklySlotsPerStudent(classes: seq<KarateClass>, recoveries: seq<RecoveryBooking>)
    returns (weeklyMap: map<StudentId, nat>)
    ensures forall s :: s in weeklyMap <==> WeeklySlots(classes, recoveries, s) > 0
    ensures forall s :: s in weeklyMap ==> weeklyMap[s] == WeeklySlots(classes, recoveries, s)
  {
    weeklyMap := map[];
    for i := 0 to |classes|
      invariant forall s :: s in weeklyMap <==> ClassLoad(classes[..i], s) > 0
      invariant forall s :: s in weeklyMap ==> weeklyMap[s] == ClassLoad(classes[..i], s)
    {
      var karateClass := classes[i];
      assert classes[..i + 1][..i] == classes[..i];
      if karateClass.status == Active {
        weeklyMap := AddListedSlots(weeklyMap, Students(karateClass), ClassSlots(karateClass));
      }
    }
    assert classes[..|classes|] == classes;

    for i := 0 to |recoveries|
      invariant forall s :: s in weeklyMap <==> ClassLoad(classes, s) + CountActiveBookings(recoveries[..i], s) > 0
      invariant forall s :: s in weeklyMap ==>
                  weeklyMap[s] == ClassLoad(classes, s) + CountActiveBookings(recoveries[..i], s)
    {
      var recovery := recoveries[i];
      assert recoveries[..i + 1][..i] == recoveries[..i];
      if recovery.status == Active {
        var key := recovery.student;
        var current := SlotsOf(weeklyMap, key);
        weeklyMap := weeklyMap[key := current + 1];
      }
    }
    assert recoveries[..|recoveries|] == recoveries;
  }

  /** A student without a key has no load, and so is assigned Basic. */
  lemma MissingStudentGetsBasic(classes: seq<KarateClass>, recoveries: seq<RecoveryBooking>,
                                weeklyMap: map<StudentId, nat>, s: StudentId)
    requires forall t :: t in weeklyMap <==> WeeklySlots(classes, recoveries, t) > 0
    requires s !in weeklyMap
    ensures WeeklySlots(classes, recoveries, s) == 0
    ensures PlanFromWeeklyCount(SlotsOf(weeklyMap, s)) == Basic
  {
  }

  /** The task's user filter: neither admin, teacher nor super. */
  predicate IsStudentRow(u: UserRow) {
    !u.isAdmin && !u.isTeacher && !u.isSuper
  }

  function NewPlan(weeklyMap: map<StudentId, nat>, s: StudentId): Plan {
    PlanFromWeeklyCount(SlotsOf(weeklyMap, s))
  }

  predicate NeedsUpdate(u: UserRow, weeklyMap: map<StudentId, nat>) {
    IsStudentRow(u) && u.enrollmentPlan != Some(Name(NewPlan(weeklyMap, u.id)))
  }

  /** The updates the task queues, in user order: one per student whose stored plan differs. */
  function PlanChanges(users: seq<UserRow>, weeklyMap: map<StudentId, nat>): seq<PlanUpdate>
  {
    if users == [] then []
    else
      var u := users[|users| - 1];
      PlanChanges(users[..|users| - 1], weeklyMap)
      + (if NeedsUpdate(u, weeklyMap) then [PlanUpdate(u.id, NewPlan(weeklyMap, u.id))] else [])
  }

  /** The loop of the task's main: queue an update, and count it, exactly
      when the computed plan differs from the stored one. */
  method QueuePlanUpdates(users: seq<UserRow>, weeklyMap: map<StudentId, nat>)
    returns (bulkUpdates: seq<PlanUpdate>, updatedCount: nat)
    ensures bulkUpdates == PlanChanges(users, weeklyMap)
    ensures updatedCount == |bulkUpdates|
  {
    bulkUpdates := [];
    updatedCount := 0;
    for k := 0 to |users|
      invariant bulkUpdates == PlanChanges(users[..k], weeklyMap)
      invariant updatedCount == |bulkUpdates|
    {
      var student := users[k];
      assert users[..k + 1][..k] == users[..k];
      if IsStudentRow(student) {
        var weeklySlots := SlotsOf(weeklyMap, student.id);
        var newPlan := PlanFromWeeklyCount(weeklySlots);
        if student.enrollmentPlan != Some(Name(newPlan)) {
          bulkUpdates := bulkUpdates + [PlanUpdate(student.id, newPlan)];
          updatedCount := updatedCount + 1;
        }
      }
    }
    assert users[..|users|] == users;
  }

  /** Every queued update comes from a student row whose stored plan
      differs, and carries the plan computed from its weekly load. */
  lemma {:induction false} PlanChangesSound(users: seq<UserRow>, weeklyMap: map<StudentId, nat>)
    ensures forall u :: u in PlanChanges(users, weeklyMap) ==>
              && u.enrollmentPlan == NewPlan(weeklyMap, u.student)
              && exists k :: 0 <= k < |users| && users[k].id == u.student && NeedsUpdate(users[k], weeklyMap)
  {
    if users != [] {
      var init := users[..|users| - 1];
      PlanChangesSound(init, weeklyMap);
      forall u | u in PlanChanges(users, weeklyMap)
        ensures exists k :: 0 <= k < |users| && users[k].id == u.student && NeedsUpdate(users[k], weeklyMap)
      {
        if u in PlanChanges(init, weeklyMap) {
          var k :| 0 <= k < |init| && init[k].id == u.student && NeedsUpdate(init[k], weeklyMap);
          assert users[k] == init[k];
        } else {
          assert users[|users| - 1].id == u.student;
        }
      }
    }
  }

  /** Every student row whose stored plan differs gets its update. */
  lemma {:induction false} PlanChangesComplete(users: seq<UserRow>, weeklyMap: map<StudentId, nat>)
    ensures forall k :: 0 <= k < |users| && NeedsUpdate(users[k], weeklyMap) ==>
              PlanUpdate(users[k].id, NewPlan(weeklyMap, users[k].id)) in PlanChanges(users, weeklyMap)
  {
    if users != [] {
      var init := users[..|users| - 1];
      PlanChangesComplete(init, weeklyMap);
      forall k | 0 <= k < |users| && NeedsUpdate(users[k], weeklyMap)
        ensures PlanUpdate(users[k].id, NewPlan(weeklyMap, users[k].id)) in PlanChanges(users, weeklyMap)
      {
        if k < |init| {
          assert init[k] == users[k];
        }
      }
    }
  }

  /** Users after the batch: every student row carries its computed plan. */
  function Reassigned(users: seq<UserRow>, weeklyMap: map<StudentId, nat>): (r: seq<UserRow>)
    ensures |r| == |users|
  {
    seq(|users|, k requires 0 <= k < |users| =>
      if IsStudentRow(users[k]) then users[k].(enrollmentPlan := Some(Name(NewPlan(weeklyMap, users[k].id)))) else users[k])
  }

  /** Once the plans are written, running the task again queues nothing. */
  lemma {:induction false} ReassignedNeedsNoUpdate(users: seq<UserRow>, weeklyMap: map<StudentId, nat>)
    ensures PlanChanges(Reassigned(users, weeklyMap), weeklyMap) == []
  {
    if users != [] {
      var init := users[..|users| - 1];
      ReassignedNeedsNoUpdate(init, weeklyMap);
      assert Reassigned(users, weeklyMap)[..|users| - 1] == Reassigned(init, weeklyMap);
    }
  }

  // ---- The task's final report ----

  /** The counters the task prints at the end of its run. */
  datatype RunSummary = RunSummary(totalStudents: nat, updatedStudents: nat, unchangedStudents: nat, overflowApplied: nat)

  /** The rows the task's user query returns. */
  function StudentCount(users: seq<UserRow>): nat {
    if users == [] then 0
    else StudentCount(users[..|users| - 1]) + (if IsStudentRow(users[|users| - 1]) then 1 else 0)
  }

  /** How many per-student overflow enforcements finished without error;
      outcomes[k] is the result of the call for the k-th queued update. */
  function Successes(outcomes: seq<bool>): nat {
    if outcomes == [] then 0
    else Successes(outcomes[..|outcomes| - 1]) + (if outcomes[|outcomes| - 1] then 1 else 0)
  }

  lemma {:induction false} SuccessesAtMostCalls(outcomes: seq<bool>)
    ensures Successes(outcomes) <= |outcomes|
    ensures Successes(outcomes) == |outcomes| <==> forall k :: 0 <= k < |outcomes| ==> outcomes[k]
  {
    if outcomes != [] {
      SuccessesAtMostCalls(outcomes[..|outcomes| - 1]);
      var init := outcomes[..|outcomes| - 1];
      assert forall k :: 0 <= k < |init| ==> init[k] == outcomes[k];
    }
  }

  /** At most one update is queued per student row. */
  lemma {:induction false} PlanChangesAtMostStudents(users: seq<UserRow>, weeklyMap: map<StudentId, nat>)
    ensures |PlanChanges(users, weeklyMap)| <= StudentCount(users)
  {
    if users != [] {
      PlanChangesAtMostStudents(users[..|users| - 1], weeklyMap);
    }
  }

  /** The report as the task prints it.  The unchanged counter is declared
      but never incremented, and the overflow counter declared inside the
      enforcement block shadows the outer one, so the printed overflow
      count is the outer counter's initial 0. */
  function ReportedSummary(users: seq<UserRow>, weeklyMap: map<StudentId, nat>, outcomes: seq<bool>): (r: RunSummary)
    ensures r.totalStudents == StudentCount(users) && r.updatedStudents == |PlanChanges(users, weeklyMap)|
    ensures r.unchangedStudents == 0 && r.overflowApplied == 0
    ensures r.updatedStudents + r.unchangedStudents == r.totalStudents
        <==> |PlanChanges(users, weeklyMap)| == StudentCount(users)
    ensures r.overflowApplied == Successes(outcomes) <==> Successes(outcomes) == 0
  {
    PlanChangesAtMostStudents(users, weeklyMap);
    RunSummary(StudentCount(users), |PlanChanges(users, weeklyMap)|, 0, 0)
  }

  /** The report the counters are evidently meant to give: students
      without a change, and enforcements that succeeded. */
  function CorrectedSummary(users: seq<UserRow>, weeklyMap: map<StudentId, nat>, outcomes: seq<bool>): (r: RunSummary)
    requires |outcomes| == |PlanChanges(users, weeklyMap)|
    ensures r.totalStudents == StudentCount(users) && r.updatedStudents == |PlanChanges(users, weeklyMap)|
    ensures r.updatedStudents + r.unchangedStudents == r.totalStudents
    ensures r.overflowApplied <= r.updatedStudents
    ensures r.overflowApplied == r.updatedStudents <==> forall k :: 0 <= k < |outcomes| ==> outcomes[k]
  {
    PlanChangesAtMostStudents(users, weeklyMap);
    SuccessesAtMostCalls(outcomes);
    var updated := |PlanChanges(users, weeklyMap)|;
    RunSummary(StudentCount(users), updated, StudentCount(users) - updated, Successes(outcomes))
  }

  /** Two students, one already on its computed plan and one without a
      plan whose enforcement succeeds: the printed report says no student
      is unchanged and no overflow was applied, while one of each is. */
  lemma ReportedSummaryUndercounts()
    ensures var users := [UserRow(1, Some("Basic"), false, false, false), UserRow(2, None, false, false, false)];
            var weeklyMap: map<StudentId, nat> := map[];
            && |PlanChanges(users, weeklyMap)| == 1
            && ReportedSummary(users, weeklyMap, [true]) == RunSummary(2, 1, 0, 0)
            && CorrectedSummary(users, weeklyMap, [true]) == RunSummary(2, 1, 1, 1)
  {
    var users := [UserRow(1, Some("Basic"), false, false, false), UserRow(2, None, false, false, false)];
    var weeklyMap: map<StudentId, nat> := map[];
    assert users[..1] == [users[0]];
    assert users[..1][..0] == [];
    assert !NeedsUpdate(users[0], weeklyMap);
    assert NeedsUpdate(users[1], weeklyMap);
    assert PlanChanges(users[..1], weeklyMap) == [];
    assert StudentCount(users[..1]) == 1;
    assert [true][..0] == [];
  }
}

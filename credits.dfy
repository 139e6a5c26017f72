/** The final credit balance of a student: absence-earned credits capped
    by the plan, plus the un-clamped net of manual adjustments, with
    frozen and trial accounts earning nothing from absences. */
module Credits {
  import opened Common
  import opened Plans
  import opened Attendance
  import opened Snapshots

  /** The fields of a user document the computation reads; every one may be missing. */
  datatype Account = Account(
    enrollmentPlan: Option<string>,
    status: Option<RecordStatus>,
    isTrial: bool,
    recoveryCreditsAdjustment: Option<int>,
    usedRecoveryAdjustmentCredits: Option<int>)

  datatype AvailableCreditsInfo = AvailableCreditsInfo(
    plan: string,
    maxPending: nat,
    creditsFromAbsences: nat,
    adjustment: int,
    adjustmentTotal: int,
    adjustmentUsed: int,
    bookedCount: nat,
    adjustmentBookedCount: nat,
    absencesCount: nat,
    consumedAbsences: nat,
    pendingAbsences: nat,
    poolCredits: int,
    totalCredits: int,
    isFrozen: bool)

  /** `Boolean(user?.enrollmentPlan)`: a present, non-empty label. */
  predicate HasPlan(user: Option<Account>) {
    user.Some? && user.value.enrollmentPlan.Some? && user.value.enrollmentPlan.value != ""
  }

  /** Not active, or no plan (a missing user is frozen too). */
  predicate IsFrozen(user: Option<Account>) {
    user.None? || user.value.status != Some(Active) || !HasPlan(user)
  }

  predicate IsTrial(user: Option<Account>) {
    user.Some? && user.value.isTrial
  }

  function AdjustmentTotal(user: Option<Account>): int {
    if user.Some? then user.value.recoveryCreditsAdjustment.GetOr(0) else 0
  }

  function AdjustmentUsed(user: Option<Account>): int {
    if user.Some? then user.value.usedRecoveryAdjustmentCredits.GetOr(0) else 0
  }

  /** computeAvailableCreditsFromSnapshot. */
  function ComputeAvailableCreditsFromSnapshot(user: Option<Account>, snapshot: Option<Snapshot>): (r: AvailableCreditsInfo)
    ensures r.isFrozen <==> IsFrozen(user)
    ensures r.plan == if HasPlan(user) then user.value.enrollmentPlan.value else "Optimum"
    ensures r.maxPending == MaxPendingForPlan(Some(r.plan))
    ensures IsFrozen(user) || IsTrial(user) ==>
              && r.absencesCount == 0 && r.bookedCount == 0 && r.consumedAbsences == 0
              && r.pendingAbsences == 0 && r.adjustmentBookedCount == 0 && r.creditsFromAbsences == 0
    ensures !IsFrozen(user) && !IsTrial(user) && snapshot.Some? ==>
              && r.absencesCount == snapshot.value.absencesCount
              && r.bookedCount == snapshot.value.bookedCount
              && r.consumedAbsences == snapshot.value.consumedAbsences
              && r.pendingAbsences == snapshot.value.pendingAbsences
              && r.adjustmentBookedCount == snapshot.value.adjustmentBookedCount
    ensures snapshot.None? ==>
              && r.absencesCount == 0 && r.bookedCount == 0 && r.consumedAbsences == 0
              && r.pendingAbsences == 0 && r.adjustmentBookedCount == 0 && r.creditsFromAbsences == 0
    ensures r.creditsFromAbsences <= r.maxPending && r.creditsFromAbsences <= r.pendingAbsences
    ensures r.creditsFromAbsences == r.maxPending || r.creditsFromAbsences == r.pendingAbsences
    ensures r.adjustmentTotal == AdjustmentTotal(user) && r.adjustmentUsed == AdjustmentUsed(user)
    ensures r.adjustment == r.adjustmentTotal - r.adjustmentUsed
    ensures r.totalCredits == r.poolCredits == r.creditsFromAbsences + r.adjustment
  {
    var hasPlan := HasPlan(user);
    var plan := if hasPlan then user.value.enrollmentPlan.value else "Optimum";
    var maxPending := MaxPendingForPlan(Some(plan));
    var isFrozen := user.None? || user.value.status != Some(Active) || !hasPlan;
    var isTrial := IsTrial(user);
    var baseSnapshot := snapshot.GetOr(ZeroSnapshot);
    var effective := if isFrozen || isTrial then ZeroSnapshot else baseSnapshot;
    var creditsFromAbsences := Min(effective.pendingAbsences, maxPending);
    var adjustmentTotal := AdjustmentTotal(user);
    var adjustmentUsed := AdjustmentUsed(user);
    var adjustmentNet := adjustmentTotal - adjustmentUsed;
    var availableCredits := creditsFromAbsences + adjustmentNet;
    AvailableCreditsInfo(plan, maxPending, creditsFromAbsences, adjustmentNet, adjustmentTotal, adjustmentUsed,
                         effective.bookedCount, effective.adjustmentBookedCount, effective.absencesCount,
                         effective.consumedAbsences, effective.pendingAbsences,
                         availableCredits, availableCredits, isFrozen)
  }

  /** getAvailableCreditsForStudent: the snapshot is only fetched for a
      user that exists, is not frozen and is not on trial. */
  function AvailableCreditsForStudent(user: Option<Account>, records: seq<AttendanceRecord>,
                                      bookings: seq<RecoveryBooking>, studentId: StudentId, yesterdayEnd: int): AvailableCreditsInfo
  {
    var isFrozen := user.None? || user.value.status != Some(Active) || !HasPlan(user);
    var needsSnapshot := user.Some? && !isFrozen && !user.value.isTrial;
    var snapshot := if needsSnapshot then Some(AbsenceAndBookingSnapshot(records, bookings, studentId, yesterdayEnd)) else None;
    ComputeAvailableCreditsFromSnapshot(user, snapshot)
  }

  /** Skipping the snapshot for frozen and trial users is unobservable:
      the answer is the one the full snapshot would give. */
  lemma SkippedSnapshotUnobservable(user: Option<Account>, records: seq<AttendanceRecord>,
                                    bookings: seq<RecoveryBooking>, studentId: StudentId, yesterdayEnd: int)
    ensures AvailableCreditsForStudent(user, records, bookings, studentId, yesterdayEnd)
         == ComputeAvailableCreditsFromSnapshot(user, Some(AbsenceAndBookingSnapshot(records, bookings, studentId, yesterdayEnd)))
  {
  }

  /** For an active, paying student the credits are the pending absences
      capped by the plan, plus the adjustment net; a negative net is kept. */
  lemma ActiveStudentCredits(user: Option<Account>, records: seq<AttendanceRecord>,
                             bookings: seq<RecoveryBooking>, studentId: StudentId, yesterdayEnd: int)
    requires !IsFrozen(user) && !IsTrial(user)
    ensures var r := AvailableCreditsForStudent(user, records, bookings, studentId, yesterdayEnd);
            var s := AbsenceAndBookingSnapshot(records, bookings, studentId, yesterdayEnd);
            && r.creditsFromAbsences == Min(s.pendingAbsences, r.maxPending)
            && r.pendingAbsences + r.consumedAbsences == CountAbsences(records, studentId, yesterdayEnd)
            && r.totalCredits == Min(s.pendingAbsences, r.maxPending) + AdjustmentTotal(user) - AdjustmentUsed(user)
  {
  }

  /** Frozen and trial students keep only their manual adjustment net. */
  lemma FrozenOrTrialKeepsOnlyAdjustments(user: Option<Account>, records: seq<AttendanceRecord>,
                                          bookings: seq<RecoveryBooking>, studentId: StudentId, yesterdayEnd: int)
    requires IsFrozen(user) || IsTrial(user)
    ensures var r := AvailableCreditsForStudent(user, records, bookings, studentId, yesterdayEnd);
            r.creditsFromAbsences == 0 && r.totalCredits == AdjustmentTotal(user) - AdjustmentUsed(user)
  {
  }

  /** The two credit scenarios of the service's tests. */
  lemma CreditScenarios()
    ensures var r := ComputeAvailableCreditsFromSnapshot(
              Some(Account(Some("Optimum"), Some(Active), false, Some(2), Some(1))),
              Some(Reconcile(5, 1, 0)));
            r.creditsFromAbsences == 4 && r.adjustment == 1 && r.adjustmentUsed == 1 && r.totalCredits == 5
    ensures var r := ComputeAvailableCreditsFromSnapshot(
              Some(Account(Some("Basic"), Some(Inactive), false, Some(1), Some(0))), None);
            r.creditsFromAbsences == 0 && r.totalCredits == 1 && r.isFrozen
    ensures ComputeAvailableCreditsFromSnapshot(
              Some(Account(None, Some(Active), false, None, None)), None).plan == "Optimum"
  {
  }
}

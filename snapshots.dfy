/** The absence-and-booking snapshot: how many countable absences a
    student has, how many of them active bookings have already consumed,
    and how many are still pending; for one student and for a batch. */
module Snapshots {
  import opened Common
  import opened Attendance

  datatype Snapshot = Snapshot(
    absencesCount: nat,
    bookedCount: nat,
    consumedAbsences: nat,
    pendingAbsences: nat,
    adjustmentBookedCount: nat)

  const ZeroSnapshot := Snapshot(0, 0, 0, 0, 0)

  /** The snapshot arithmetic.  Only bookings that did not use a manual
      adjustment consume absences; consumption is capped by the absences
      there are; what is not consumed is pending. */
  function Reconcile(absencesCount: nat, bookedCount: nat, adjustmentBookedCount: nat): (s: Snapshot)
    ensures s.absencesCount == absencesCount && s.bookedCount == bookedCount
    ensures s.adjustmentBookedCount == adjustmentBookedCount
    ensures s.consumedAbsences + s.pendingAbsences == absencesCount
    ensures s.consumedAbsences <= absencesCount
    ensures s.consumedAbsences <= Max(0, bookedCount - adjustmentBookedCount)
    ensures s.consumedAbsences == absencesCount || s.consumedAbsences == Max(0, bookedCount - adjustmentBookedCount)
  {
    var nonAdjustmentBookedCount := Max(0, bookedCount - adjustmentBookedCount);
    var consumedAbsences := Min(absencesCount, nonAdjustmentBookedCount);
    var pendingAbsences := Max(0, absencesCount - consumedAbsences);
    Snapshot(absencesCount, bookedCount, consumedAbsences, pendingAbsences, adjustmentBookedCount)
  }

  /** getAbsenceAndBookingSnapshot for one student. */
  function AbsenceAndBookingSnapshot(records: seq<AttendanceRecord>, bookings: seq<RecoveryBooking>,
                                     student: StudentId, yesterdayEnd: int): (s: Snapshot)
    ensures s.absencesCount == CountAbsences(records, student, yesterdayEnd)
    ensures s.bookedCount == CountActiveBookings(bookings, student)
    ensures s.adjustmentBookedCount == CountActiveAdjustmentBookings(bookings, student)
    ensures s.adjustmentBookedCount <= s.bookedCount
    ensures s.consumedAbsences == Min(s.absencesCount, s.bookedCount - s.adjustmentBookedCount)
    ensures s.consumedAbsences + s.pendingAbsences == s.absencesCount
  {
    AdjustmentBookingsWithinActive(bookings, student);
    Reconcile(CountAbsences(records, student, yesterdayEnd),
              CountActiveBookings(bookings, student),
              CountActiveAdjustmentBookings(bookings, student))
  }

  /** A booking that used an adjustment credit changes neither the
      consumed nor the pending absences. */
  lemma AdjustmentBookingKeepsPending(absences: nat, booked: nat, adjBooked: nat)
    requires adjBooked <= booked
    ensures Reconcile(absences, booked + 1, adjBooked + 1).pendingAbsences == Reconcile(absences, booked, adjBooked).pendingAbsences
    ensures Reconcile(absences, booked + 1, adjBooked + 1).consumedAbsences == Reconcile(absences, booked, adjBooked).consumedAbsences
  {
  }

  /** A booking that did not use an adjustment consumes one pending
      absence, if there is one. */
  lemma PlainBookingConsumesOne(absences: nat, booked: nat, adjBooked: nat)
    requires adjBooked <= booked
    ensures Reconcile(absences, booked + 1, adjBooked).pendingAbsences == Max(0, Reconcile(absences, booked, adjBooked).pendingAbsences - 1)
  {
  }

  lemma SnapshotScenarios()
    ensures Reconcile(3, 2, 2) == Snapshot(3, 2, 0, 3, 2)
    ensures Reconcile(3, 2, 0) == Snapshot(3, 2, 2, 1, 0)
    ensures Reconcile(1, 5, 0) == Snapshot(1, 5, 1, 0, 0)
    ensures Reconcile(0, 0, 0) == ZeroSnapshot
  {
  }

  /** A student with no countable absence and no active booking has the all-zero snapshot. */
  lemma IdleStudentSnapshotIsZero(records: seq<AttendanceRecord>, bookings: seq<RecoveryBooking>,
                                  student: StudentId, yesterdayEnd: int)
    requires CountAbsences(records, student, yesterdayEnd) == 0
    requires CountActiveBookings(bookings, student) == 0
    ensures AbsenceAndBookingSnapshot(records, bookings, student, yesterdayEnd) == ZeroSnapshot
  {
    AdjustmentBookingsWithinActive(bookings, student);
  }

  /** One `$group` result of the batch absences pipeline. */
  datatype AbsenceGroup = AbsenceGroup(student: StudentId, absencesCount: nat)

  /** One `$group` result of the batch bookings pipeline. */
  datatype BookingGroup = BookingGroup(student: StudentId, bookedCount: nat, adjustmentBookedCount: nat)

  /** The absences pipeline: one group per distinct requested student
      that has at least one countable absence. */
  function AbsenceGroups(ids: seq<StudentId>, records: seq<AttendanceRecord>, yesterdayEnd: int): (gs: seq<AbsenceGroup>)
    ensures forall i :: 0 <= i < |gs| ==>
              && gs[i].student in ids
              && gs[i].absencesCount == CountAbsences(records, gs[i].student, yesterdayEnd) && gs[i].absencesCount > 0
    ensures forall id :: id in ids && CountAbsences(records, id, yesterdayEnd) > 0 ==>
              AbsenceGroup(id, CountAbsences(records, id, yesterdayEnd)) in gs
    ensures forall i, j :: 0 <= i < j < |gs| ==> gs[i].student != gs[j].student
  {
    if ids == [] then []
    else
      var rest := AbsenceGroups(ids[1..], records, yesterdayEnd);
      var n := CountAbsences(records, ids[0], yesterdayEnd);
      if ids[0] in ids[1..] || n == 0 then rest else [AbsenceGroup(ids[0], n)] + rest
  }

  /** The bookings pipeline: one group per distinct requested student
      that has at least one active booking. */
  function BookingGroups(ids: seq<StudentId>, bookings: seq<RecoveryBooking>): (gs: seq<BookingGroup>)
    ensures forall i :: 0 <= i < |gs| ==>
              && gs[i].student in ids
              && gs[i].bookedCount == CountActiveBookings(bookings, gs[i].student) && gs[i].bookedCount > 0
              && gs[i].adjustmentBookedCount == CountActiveAdjustmentBookings(bookings, gs[i].student)
    ensures forall id :: id in ids && CountActiveBookings(bookings, id) > 0 ==>
              BookingGroup(id, CountActiveBookings(bookings, id), CountActiveAdjustmentBookings(bookings, id)) in gs
    ensures forall i, j :: 0 <= i < j < |gs| ==> gs[i].student != gs[j].student
  {
    if ids == [] then []
    else
      var rest := BookingGroups(ids[1..], bookings);
      var n := CountActiveBookings(bookings, ids[0]);
      if ids[0] in ids[1..] || n == 0 then rest
      else [BookingGroup(ids[0], n, CountActiveAdjustmentBookings(bookings, ids[0]))] + rest
  }

  /** Every entry written so far belongs to a requested student with a
      countable absence, and holds that count with zero bookings. */
  predicate SeedsValid(snapshots: map<StudentId, Snapshot>, studentIds: seq<StudentId>,
                       records: seq<AttendanceRecord>, yesterdayEnd: int) {
    forall id :: id in snapshots ==>
      && id in studentIds
      && CountAbsences(records, id, yesterdayEnd) > 0
      && snapshots[id] == Snapshot(CountAbsences(records, id, yesterdayEnd), 0, 0, 0, 0)
  }

  /** Writing one group of the absences pipeline keeps the entries valid. */
  lemma SeedStep(snapshots: map<StudentId, Snapshot>, studentIds: seq<StudentId>,
                 records: seq<AttendanceRecord>, yesterdayEnd: int, g: AbsenceGroup)
    requires SeedsValid(snapshots, studentIds, records, yesterdayEnd)
    requires g.student in studentIds && g.absencesCount == CountAbsences(records, g.student, yesterdayEnd)
    requires g.absencesCount > 0
    ensures SeedsValid(snapshots[g.student := Snapshot(g.absencesCount, 0, 0, 0, 0)], studentIds, records, yesterdayEnd)
  {
  }

  /** The loop over the absences pipeline's groups: one entry, with zero
      bookings, per requested student that has a countable absence. */
  method SeedAbsences(studentIds: seq<StudentId>, records: seq<AttendanceRecord>, yesterdayEnd: int)
    returns (snapshots: map<StudentId, Snapshot>)
    ensures forall id :: id in snapshots <==> id in studentIds && CountAbsences(records, id, yesterdayEnd) > 0
    ensures forall id :: id in snapshots ==>
              snapshots[id] == Snapshot(CountAbsences(records, id, yesterdayEnd), 0, 0, 0, 0)
  {
    snapshots := map[];
    var absencesCounts := AbsenceGroups(studentIds, records, yesterdayEnd);
    for k := 0 to |absencesCounts|
      invariant SeedsValid(snapshots, studentIds, records, yesterdayEnd)
      invariant forall i :: 0 <= i < k ==> absencesCounts[i].student in snapshots
    {
      var item := absencesCounts[k];
      SeedStep(snapshots, studentIds, records, yesterdayEnd, item);
      snapshots := snapshots[item.student := Snapshot(item.absencesCount, 0, 0, 0, 0)];
    }
    forall id | id in studentIds && CountAbsences(records, id, yesterdayEnd) > 0
      ensures id in snapshots
    {
      var g := AbsenceGroup(id, CountAbsences(records, id, yesterdayEnd));
      var i :| 0 <= i < |absencesCounts| && absencesCounts[i] == g;
    }
  }

  /** The absences count already stored for a student, or 0. */
  function StoredAbsences(snapshots: map<StudentId, Snapshot>, id: StudentId): nat {
    if id in snapshots then snapshots[id].absencesCount else 0
  }

  /** The snapshot a requested student has once its booking counts are merged in. */
  function MergedSnapshot(seeded: map<StudentId, Snapshot>, bookings: seq<RecoveryBooking>, id: StudentId): Snapshot {
    Snapshot(StoredAbsences(seeded, id), CountActiveBookings(bookings, id), 0, 0, CountActiveAdjustmentBookings(bookings, id))
  }

  /** Every group of the bookings pipeline has been processed once `done` holds its student. */
  lemma GroupsCovered(studentIds: seq<StudentId>, bookings: seq<RecoveryBooking>, groups: seq<BookingGroup>, done: set<StudentId>)
    requires groups == BookingGroups(studentIds, bookings)
    requires forall i :: 0 <= i < |groups| ==> groups[i].student in done
    ensures forall id :: id in studentIds && CountActiveBookings(bookings, id) > 0 ==> id in done
  {
    forall id | id in studentIds && CountActiveBookings(bookings, id) > 0
      ensures id in done
    {
      var g := BookingGroup(id, CountActiveBookings(bookings, id), CountActiveAdjustmentBookings(bookings, id));
      var i :| 0 <= i < |groups| && groups[i] == g;
    }
  }

  /** The snapshot an entry gets when a booking group is merged into it. */
  function WithBookings(snapshots: map<StudentId, Snapshot>, g: BookingGroup): Snapshot {
    var existing := if g.student in snapshots then snapshots[g.student] else ZeroSnapshot;
    existing.(bookedCount := g.bookedCount, adjustmentBookedCount := g.adjustmentBookedCount)
  }

  /** The merge loop's invariant: the keys are the seeded ones and the
      merged students, the merged entries are complete, the others seeded. */
  ghost predicate MergedSoFar(seeded: map<StudentId, Snapshot>, bookings: seq<RecoveryBooking>,
                        snapshots: map<StudentId, Snapshot>, done: set<StudentId>) {
    && (forall id :: id in snapshots <==> id in seeded || id in done)
    && (forall id :: id in snapshots ==>
          snapshots[id] == if id in done then MergedSnapshot(seeded, bookings, id) else seeded[id])
  }

  /** Merging one group keeps the merge loop's invariant. */
  lemma MergeStep(seeded: map<StudentId, Snapshot>, bookings: seq<RecoveryBooking>,
                  snapshots: map<StudentId, Snapshot>, done: set<StudentId>, g: BookingGroup)
    requires forall id :: id in seeded ==> seeded[id] == Snapshot(seeded[id].absencesCount, 0, 0, 0, 0)
    requires MergedSoFar(seeded, bookings, snapshots, done)
    requires g.bookedCount == CountActiveBookings(bookings, g.student)
    requires g.adjustmentBookedCount == CountActiveAdjustmentBookings(bookings, g.student)
    ensures MergedSoFar(seeded, bookings, snapshots[g.student := WithBookings(snapshots, g)], done + {g.student})
  {
  }

  /** The loop over the bookings pipeline's groups: the booking counts of
      every requested student with an active booking are written into its
      entry, creating an all-zero entry first when there is none. */
  method MergeBookings(seeded: map<StudentId, Snapshot>, studentIds: seq<StudentId>, bookings: seq<RecoveryBooking>)
    returns (snapshots: map<StudentId, Snapshot>)
    requires forall id :: id in seeded ==> id in studentIds
    requires forall id :: id in seeded ==> seeded[id] == Snapshot(seeded[id].absencesCount, 0, 0, 0, 0)
    ensures forall id :: id in snapshots <==>
              id in seeded || (id in studentIds && CountActiveBookings(bookings, id) > 0)
    ensures forall id :: id in snapshots ==> snapshots[id] == MergedSnapshot(seeded, bookings, id)
  {
    snapshots := seeded;
    var groups := BookingGroups(studentIds, bookings);
    ghost var done: set<StudentId> := {};
    for k := 0 to |groups|
      invariant forall id :: id in done ==> id in studentIds && CountActiveBookings(bookings, id) > 0
      invariant forall i :: 0 <= i < k ==> groups[i].student in done
      invariant MergedSoFar(seeded, bookings, snapshots, done)
    {
      var booking := groups[k];
      MergeStep(seeded, bookings, snapshots, done, booking);
      var existing := if booking.student in snapshots then snapshots[booking.student] else ZeroSnapshot;
      existing := existing.(bookedCount := booking.bookedCount, adjustmentBookedCount := booking.adjustmentBookedCount);
      assert existing == WithBookings(snapshots, booking);
      snapshots := snapshots[booking.student := existing];
      done := done + {booking.student};
    }
    GroupsCovered(studentIds, bookings, groups, done);
    MergeFinished(seeded, bookings, snapshots, done);
  }

  /** Once every group is merged, the entries not touched are seeded ones
      without bookings, which already agree with MergedSnapshot. */
  lemma MergeFinished(seeded: map<StudentId, Snapshot>, bookings: seq<RecoveryBooking>,
                      snapshots: map<StudentId, Snapshot>, done: set<StudentId>)
    requires forall id :: id in seeded ==> seeded[id] == Snapshot(seeded[id].absencesCount, 0, 0, 0, 0)
    requires forall id :: id in seeded && CountActiveBookings(bookings, id) > 0 ==> id in done
    requires MergedSoFar(seeded, bookings, snapshots, done)
    ensures forall id :: id in snapshots ==> snapshots[id] == MergedSnapshot(seeded, bookings, id)
  {
    forall id | id in snapshots && id !in done
      ensures snapshots[id] == MergedSnapshot(seeded, bookings, id)
    {
      AdjustmentBookingsWithinActive(bookings, id);
    }
  }

  /** The loop over the map's entries: consumed and pending absences are
      computed from each entry's own counts. */
  method ReconcileEntries(raw: map<StudentId, Snapshot>) returns (snapshots: map<StudentId, Snapshot>)
    ensures snapshots.Keys == raw.Keys
    ensures forall id :: id in snapshots ==>
              snapshots[id] == Reconcile(raw[id].absencesCount, raw[id].bookedCount, raw[id].adjustmentBookedCount)
  {
    snapshots := raw;
    var remaining := raw.Keys;
    while remaining != {}
      invariant remaining <= snapshots.Keys && snapshots.Keys == raw.Keys
      invariant forall id :: id in remaining ==> snapshots[id] == raw[id]
      invariant forall id :: id in snapshots && id !in remaining ==>
                  snapshots[id] == Reconcile(raw[id].absencesCount, raw[id].bookedCount, raw[id].adjustmentBookedCount)
      decreases remaining
    {
      var key :| key in remaining;
      var info := snapshots[key];
      snapshots := snapshots[key := Reconcile(info.absencesCount, info.bookedCount, info.adjustmentBookedCount)];
      remaining := remaining - {key};
    }
  }

  /** The last loop: every requested id without an entry gets the all-zero snapshot. */
  method FillMissing(partial: map<StudentId, Snapshot>, studentIds: seq<StudentId>)
    returns (snapshots: map<StudentId, Snapshot>)
    ensures forall id :: id in snapshots <==> id in partial || id in studentIds
    ensures forall id :: id in snapshots ==>
              snapshots[id] == if id in partial then partial[id] else ZeroSnapshot
  {
    snapshots := partial;
    for k := 0 to |studentIds|
      invariant forall id :: id in snapshots <==> id in partial || id in studentIds[..k]
      invariant forall id :: id in snapshots ==>
                  snapshots[id] == if id in partial then partial[id] else ZeroSnapshot
    {
      var id := studentIds[k];
      if id !in snapshots {
        snapshots := snapshots[id := ZeroSnapshot];
      }
      assert studentIds[..k + 1] == studentIds[..k] + [id];
    }
    assert studentIds[..|studentIds|] == studentIds;
  }

  /** getMultipleAbsenceSnapshots: a map with an entry for every requested
      id, each equal to that student's single-student snapshot. */
  method MultipleAbsenceSnapshots(studentIds: seq<StudentId>, records: seq<AttendanceRecord>,
                                  bookings: seq<RecoveryBooking>, yesterdayEnd: int)
    returns (snapshots: map<StudentId, Snapshot>)
    ensures forall id :: id in snapshots <==> id in studentIds
    ensures forall id :: id in studentIds ==>
              snapshots[id] == AbsenceAndBookingSnapshot(records, bookings, id, yesterdayEnd)
  {
    snapshots := map[];
    if |studentIds| == 0 {
      return;
    }
    var seeded := SeedAbsences(studentIds, records, yesterdayEnd);
    var merged := MergeBookings(seeded, studentIds, bookings);
    var reconciled := ReconcileEntries(merged);
    snapshots := FillMissing(reconciled, studentIds);
    forall id | id in studentIds
      ensures snapshots[id] == AbsenceAndBookingSnapshot(records, bookings, id, yesterdayEnd)
    {
      if id !in reconciled {
        IdleStudentSnapshotIsZero(records, bookings, id, yesterdayEnd);
      }
    }
  }
}

/** Attendance records, recovery bookings, and the two counts the credit
    snapshot is built from: countable absences and active bookings.  Each
    Mongo query of the credits service is a filter or count over a sequence
    of stored documents here. */
module Attendance {
  import opened Common

  datatype AttendanceStatus = Present | Absent | Late | Sick

  /** One element of an attendance record's `attendance` array. */
  datatype AttendanceEntry = AttendanceEntry(
    id: EntryId,
    student: StudentId,
    attendanceStatus: AttendanceStatus,
    isDayOnly: bool,
    isRecovery: bool,
    isOverflowAbsence: bool,
    overflowReason: Option<string>)

  /** A StudentAttendance document; `fullDate` is the instant composed from
      its date parts (year, month, day, hour, minute). */
  datatype AttendanceRecord = AttendanceRecord(
    id: RecordId,
    status: RecordStatus,
    fullDate: int,
    attendance: seq<AttendanceEntry>)

  /** A RecoveryClass document (a booked recovery session). */
  datatype RecoveryBooking = RecoveryBooking(
    student: StudentId,
    status: RecordStatus,
    usedAdjustment: bool)

  predicate IsAbsentOrSick(s: AttendanceStatus) {
    s == Absent || s == Sick
  }

  /** A JavaScript-truthy overflow reason: present and non-empty. */
  predicate HasReason(e: AttendanceEntry) {
    e.overflowReason.Some? && e.overflowReason.value != ""
  }

  /** The countable-absence filter: an active record dated no later than
      the cutoff, an entry of this student, absent or sick, and neither
      day-only, recovery nor already overflow. */
  predicate IsCountableAbsence(rec: AttendanceRecord, e: AttendanceEntry, student: StudentId, yesterdayEnd: int) {
    && rec.status == Active
    && rec.fullDate <= yesterdayEnd
    && e.student == student
    && IsAbsentOrSick(e.attendanceStatus)
    && !e.isDayOnly
    && !e.isRecovery
    && !e.isOverflowAbsence
  }

  function EntryAbsences(rec: AttendanceRecord, entries: seq<AttendanceEntry>, student: StudentId, yesterdayEnd: int): nat
  {
    if entries == [] then 0
    else (if IsCountableAbsence(rec, entries[0], student, yesterdayEnd) then 1 else 0)
         + EntryAbsences(rec, entries[1..], student, yesterdayEnd)
  }

  /** getCountableAbsencesForYear: countable absences over the whole history up to the cutoff. */
  function CountAbsences(records: seq<AttendanceRecord>, student: StudentId, yesterdayEnd: int): nat
  {
    if records == [] then 0
    else EntryAbsences(records[0], records[0].attendance, student, yesterdayEnd)
         + CountAbsences(records[1..], student, yesterdayEnd)
  }

  lemma {:induction false} EntryAbsencesPositive(rec: AttendanceRecord, entries: seq<AttendanceEntry>, student: StudentId, yesterdayEnd: int)
    ensures EntryAbsences(rec, entries, student, yesterdayEnd) > 0
        <==> exists j :: 0 <= j < |entries| && IsCountableAbsence(rec, entries[j], student, yesterdayEnd)
    ensures EntryAbsences(rec, entries, student, yesterdayEnd) <= |entries|
  {
    if entries != [] {
      EntryAbsencesPositive(rec, entries[1..], student, yesterdayEnd);
      if exists j :: 0 <= j < |entries| && IsCountableAbsence(rec, entries[j], student, yesterdayEnd) {
        var j :| 0 <= j < |entries| && IsCountableAbsence(rec, entries[j], student, yesterdayEnd);
        if j > 0 {
          assert entries[1..][j - 1] == entries[j];
        }
      }
      if EntryAbsences(rec, entries[1..], student, yesterdayEnd) > 0 {
        var j :| 0 <= j < |entries[1..]| && IsCountableAbsence(rec, entries[1..][j], student, yesterdayEnd);
        assert IsCountableAbsence(rec, entries[j + 1], student, yesterdayEnd);
      }
    }
  }

  /** A student has a positive absence count exactly when some entry of
      some record is a countable absence of theirs. */
  lemma {:induction false} CountAbsencesPositive(records: seq<AttendanceRecord>, student: StudentId, yesterdayEnd: int)
    ensures CountAbsences(records, student, yesterdayEnd) > 0
        <==> exists i, j :: 0 <= i < |records| && 0 <= j < |records[i].attendance|
                 && IsCountableAbsence(records[i], records[i].attendance[j], student, yesterdayEnd)
  {
    if records != [] {
      CountAbsencesPositive(records[1..], student, yesterdayEnd);
      EntryAbsencesPositive(records[0], records[0].attendance, student, yesterdayEnd);
      if exists i, j :: 0 <= i < |records| && 0 <= j < |records[i].attendance|
                 && IsCountableAbsence(records[i], records[i].attendance[j], student, yesterdayEnd) {
        var i, j :| 0 <= i < |records| && 0 <= j < |records[i].attendance|
                 && IsCountableAbsence(records[i], records[i].attendance[j], student, yesterdayEnd);
        if i > 0 {
          assert records[1..][i - 1] == records[i];
        }
      }
      if CountAbsences(records[1..], student, yesterdayEnd) > 0 {
        var i, j :| 0 <= i < |records[1..]| && 0 <= j < |records[1..][i].attendance|
                 && IsCountableAbsence(records[1..][i], records[1..][i].attendance[j], student, yesterdayEnd);
        assert records[i + 1] == records[1..][i];
      }
    }
  }

  /** One record holding one entry: the entry counts exactly when every
      clause of the countable-absence filter holds. */
  lemma SingleEntryCounts(rec: AttendanceRecord, e: AttendanceEntry, student: StudentId, yesterdayEnd: int)
    requires rec.attendance == [e]
    ensures CountAbsences([rec], student, yesterdayEnd) == 1
        <==> (&& rec.status == Active && rec.fullDate <= yesterdayEnd
              && e.student == student
              && (e.attendanceStatus == Absent || e.attendanceStatus == Sick)
              && !e.isDayOnly && !e.isRecovery && !e.isOverflowAbsence)
    ensures CountAbsences([rec], student, yesterdayEnd) <= 1
  {
    assert [rec][1..] == [];
    assert [e][1..] == [];
    assert EntryAbsences(rec, [e], student, yesterdayEnd)
        == (if IsCountableAbsence(rec, e, student, yesterdayEnd) then 1 else 0);
    assert CountAbsences([rec], student, yesterdayEnd) == EntryAbsences(rec, [e], student, yesterdayEnd);
  }

  lemma {:induction false} EntryAbsencesMonotone(rec: AttendanceRecord, entries: seq<AttendanceEntry>, student: StudentId, early: int, late: int)
    requires early <= late
    ensures EntryAbsences(rec, entries, student, early) <= EntryAbsences(rec, entries, student, late)
  {
    if entries != [] {
      EntryAbsencesMonotone(rec, entries[1..], student, early, late);
    }
  }

  /** Moving the cutoff later never makes an absence stop counting. */
  lemma {:induction false} CountAbsencesMonotone(records: seq<AttendanceRecord>, student: StudentId, early: int, late: int)
    requires early <= late
    ensures CountAbsences(records, student, early) <= CountAbsences(records, student, late)
  {
    if records != [] {
      EntryAbsencesMonotone(records[0], records[0].attendance, student, early, late);
      CountAbsencesMonotone(records[1..], student, early, late);
    }
  }

  /** getActiveBookingsCountForYear: active bookings of the student over all history. */
  function CountActiveBookings(bookings: seq<RecoveryBooking>, student: StudentId): nat
  {
    if bookings == [] then 0
    else CountActiveBookings(bookings[..|bookings| - 1], student)
         + (var b := bookings[|bookings| - 1]; if b.student == student && b.status == Active then 1 else 0)
  }

  /** getActiveAdjustmentBookingsCountForYear: those that consumed a manual adjustment credit. */
  function CountActiveAdjustmentBookings(bookings: seq<RecoveryBooking>, student: StudentId): nat
  {
    if bookings == [] then 0
    else CountActiveAdjustmentBookings(bookings[..|bookings| - 1], student)
         + (var b := bookings[|bookings| - 1];
            if b.student == student && b.status == Active && b.usedAdjustment then 1 else 0)
  }

  /** Adjustment bookings are a subset of the active bookings, so their
      count never exceeds the active count. */
  lemma {:induction false} AdjustmentBookingsWithinActive(bookings: seq<RecoveryBooking>, student: StudentId)
    ensures CountActiveAdjustmentBookings(bookings, student) <= CountActiveBookings(bookings, student)
  {
    if bookings != [] {
      AdjustmentBookingsWithinActive(bookings[..|bookings| - 1], student);
    }
  }

  /** A booking that is not active is not counted at all. */
  lemma InactiveBookingIgnored(bookings: seq<RecoveryBooking>, b: RecoveryBooking, student: StudentId)
    requires b.status != Active
    ensures CountActiveBookings(bookings + [b], student) == CountActiveBookings(bookings, student)
    ensures CountActiveAdjustmentBookings(bookings + [b], student) == CountActiveAdjustmentBookings(bookings, student)
  {
    assert (bookings + [b])[..|bookings|] == bookings;
  }

  lemma {:induction false} BookingCountPositive(bookings: seq<RecoveryBooking>, student: StudentId)
    ensures CountActiveBookings(bookings, student) > 0
        <==> exists k :: 0 <= k < |bookings| && bookings[k].student == student && bookings[k].status == Active
  {
    if bookings != [] {
      var init := bookings[..|bookings| - 1];
      BookingCountPositive(init, student);
      if CountActiveBookings(init, student) > 0 {
        var k :| 0 <= k < |init| && init[k].student == student && init[k].status == Active;
        assert bookings[k] == init[k];
      }
      if exists k :: 0 <= k < |bookings| && bookings[k].student == student && bookings[k].status == Active {
        var k :| 0 <= k < |bookings| && bookings[k].student == student && bookings[k].status == Active;
        if k < |init| {
          assert init[k] == bookings[k];
        }
      }
    }
  }

  /** One element of the reconciliation's aggregation: an entry with its
      record's id and composed date. */
  datatype AbsenceItem = AbsenceItem(recordId: RecordId, attendanceDate: int, entry: AttendanceEntry)

  /** The reconciliation's filter: like the countable-absence filter, but
      with no date cutoff and keeping entries already tagged overflow. */
  predicate IsOverflowCandidate(rec: AttendanceRecord, e: AttendanceEntry, student: StudentId) {
    && rec.status == Active
    && e.student == student
    && IsAbsentOrSick(e.attendanceStatus)
    && !e.isDayOnly
    && !e.isRecovery
  }

  function EntryCandidates(rec: AttendanceRecord, entries: seq<AttendanceEntry>, student: StudentId): seq<AbsenceItem>
  {
    if entries == [] then []
    else (if IsOverflowCandidate(rec, entries[0], student) then [AbsenceItem(rec.id, rec.fullDate, entries[0])] else [])
         + EntryCandidates(rec, entries[1..], student)
  }

  /** The reconciliation's items for a student, in record order (before sorting by date). */
  function OverflowCandidates(records: seq<AttendanceRecord>, student: StudentId): seq<AbsenceItem>
  {
    if records == [] then []
    else EntryCandidates(records[0], records[0].attendance, student) + OverflowCandidates(records[1..], student)
  }

  /** The aggregation's `$sort` on the composed date, oldest first. */
  predicate SortedByDate(items: seq<AbsenceItem>) {
    forall i, j :: 0 <= i < j < |items| ==> items[i].attendanceDate <= items[j].attendanceDate
  }

  /** The reconciliation's filter reads neither the overflow tag nor the reason. */
  lemma CandidateIgnoresTags(rec: AttendanceRecord, e: AttendanceEntry, student: StudentId,
                             tagged: bool, reason: Option<string>)
    ensures IsOverflowCandidate(rec, e.(isOverflowAbsence := tagged, overflowReason := reason), student)
         == IsOverflowCandidate(rec, e, student)
  {
  }

  /** Items that are not tagged overflow and are dated no later than the cutoff. */
  function CountUntaggedUpTo(items: seq<AbsenceItem>, yesterdayEnd: int): nat
  {
    if items == [] then 0
    else (if !items[0].entry.isOverflowAbsence && items[0].attendanceDate <= yesterdayEnd then 1 else 0)
         + CountUntaggedUpTo(items[1..], yesterdayEnd)
  }

  lemma {:induction false} CountUntaggedUpToAppend(a: seq<AbsenceItem>, b: seq<AbsenceItem>, yesterdayEnd: int)
    ensures CountUntaggedUpTo(a + b, yesterdayEnd) == CountUntaggedUpTo(a, yesterdayEnd) + CountUntaggedUpTo(b, yesterdayEnd)
  {
    if a != [] {
      assert (a + b)[1..] == a[1..] + b;
      CountUntaggedUpToAppend(a[1..], b, yesterdayEnd);
    } else {
      assert a + b == b;
    }
  }

  lemma {:induction false} EntryCandidatesAgree(rec: AttendanceRecord, entries: seq<AttendanceEntry>, student: StudentId, yesterdayEnd: int)
    ensures CountUntaggedUpTo(EntryCandidates(rec, entries, student), yesterdayEnd) == EntryAbsences(rec, entries, student, yesterdayEnd)
  {
    if entries != [] {
      var head := if IsOverflowCandidate(rec, entries[0], student) then [AbsenceItem(rec.id, rec.fullDate, entries[0])] else [];
      CountUntaggedUpToAppend(head, EntryCandidates(rec, entries[1..], student), yesterdayEnd);
      EntryCandidatesAgree(rec, entries[1..], student, yesterdayEnd);
      if head != [] {
        assert head[1..] == [];
      }
    }
  }

  /** The reconciliation's item set, restricted to untagged items up to
      the cutoff, is exactly what the absence counter counts. */
  lemma {:induction false} CandidatesAgreeWithCount(records: seq<AttendanceRecord>, student: StudentId, yesterdayEnd: int)
    ensures CountUntaggedUpTo(OverflowCandidates(records, student), yesterdayEnd) == CountAbsences(records, student, yesterdayEnd)
  {
    if records != [] {
      CountUntaggedUpToAppend(EntryCandidates(records[0], records[0].attendance, student),
                              OverflowCandidates(records[1..], student), yesterdayEnd);
      EntryCandidatesAgree(records[0], records[0].attendance, student, yesterdayEnd);
      CandidatesAgreeWithCount(records[1..], student, yesterdayEnd);
    }
  }
}

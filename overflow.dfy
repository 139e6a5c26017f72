/** Overflow reconciliation after a plan change: walk a student's absence
    entries oldest first, leave the ones already recovered by bookings
    alone, keep at most the plan's cap of them countable, and tag every
    later one as overflow.  The walk only emits updates; applying them is
    modelled separately, as the batched write does it. */
module Overflow {
  import opened Common
  import opened Plans
  import opened Attendance

  const PlanDowngrade: string := "plan-downgrade"

  /** `$set` overflow with a reason, or `$unset` the reason. */
  datatype Change = MarkOverflow(reason: string) | UnsetReason

  /** One `updateOne` of the batch, filtered by record id and entry id. */
  datatype Update = Update(recordId: RecordId, entryId: EntryId, change: Change)

  /** Items not yet tagged overflow (counted by the last element so that
      extending a prefix adds one term). */
  function UntaggedCount(items: seq<AbsenceItem>): nat
  {
    if items == [] then 0
    else UntaggedCount(items[..|items| - 1]) + (if items[|items| - 1].entry.isOverflowAbsence then 0 else 1)
  }

  /** How many untagged items the walk skips as already recovered. */
  function SkipCount(items: seq<AbsenceItem>, bookedCount: nat): nat {
    Min(bookedCount, |items|)
  }

  /** What the walk does with the item at position i, stated through the
      item's rank among the untagged items before it: tagged items and the
      first SkipCount untagged ones are left alone; the next planMax stay
      countable (their reason, if any, is removed); every later one is
      tagged as a plan-downgrade overflow. */
  function ActionAt(items: seq<AbsenceItem>, bookedCount: nat, planMax: nat, i: nat): Option<Change>
    requires i < |items|
  {
    var skip := SkipCount(items, bookedCount);
    var rank := UntaggedCount(items[..i]);
    if items[i].entry.isOverflowAbsence then None
    else if rank < skip then None
    else if ShouldOverflowNewAbsence(rank - skip, planMax) then Some(MarkOverflow(PlanDowngrade))
    else if HasReason(items[i].entry) then Some(UnsetReason)
    else None
  }

  function UpdatesFor(it: AbsenceItem, action: Option<Change>): seq<Update> {
    match action
    case None => []
    case Some(c) => [Update(it.recordId, it.entry.id, c)]
  }

  /** The walk's decision for every item. */
  function Actions(items: seq<AbsenceItem>, bookedCount: nat, planMax: nat): (acts: seq<Option<Change>>)
    ensures |acts| == |items|
  {
    seq(|items|, i requires 0 <= i < |items| => ActionAt(items, bookedCount, planMax, i))
  }

  /** The updates the decisions for the first n items emit, in item order. */
  function UpdatesOf(items: seq<AbsenceItem>, acts: seq<Option<Change>>, n: nat): seq<Update>
    requires |acts| == |items| && n <= |items|
  {
    if n == 0 then [] else UpdatesOf(items, acts, n - 1) + UpdatesFor(items[n - 1], acts[n - 1])
  }

  function PlannedUpdates(items: seq<AbsenceItem>, bookedCount: nat, planMax: nat, n: nat): seq<Update>
    requires n <= |items|
  {
    UpdatesOf(items, Actions(items, bookedCount, planMax), n)
  }

  lemma UntaggedStep(items: seq<AbsenceItem>, k: nat)
    requires k < |items|
    ensures UntaggedCount(items[..k + 1]) == UntaggedCount(items[..k]) + (if items[k].entry.isOverflowAbsence then 0 else 1)
  {
    assert items[..k + 1][..k] == items[..k];
  }

  /** The walk's counters decide the same action as ActionAt. */
  lemma ActionFromCounters(items: seq<AbsenceItem>, bookedCount: nat, planMax: nat, k: nat,
                            skip: nat, rank: nat, recoveredToSkip: int, countable: int)
    requires k < |items|
    requires skip == SkipCount(items, bookedCount) && rank == UntaggedCount(items[..k])
    requires recoveredToSkip == skip - Min(skip, rank) && countable == Min(planMax, Max(0, rank - skip))
    ensures Actions(items, bookedCount, planMax)[k]
         == if items[k].entry.isOverflowAbsence || recoveredToSkip > 0 then None
            else if ShouldOverflowNewAbsence(countable, planMax) then Some(MarkOverflow(PlanDowngrade))
            else if HasReason(items[k].entry) then Some(UnsetReason)
            else None
  {
  }

  /** enforceOverflowAfterPlanDowngrade.  `items` are what the aggregation
      returns for the stored `records`: the student's overflow candidates,
      in some order that sorts them oldest first (the order among entries of
      equal date is the store's).  The booked count is the snapshot's, so it
      includes adjustment bookings. */
  method EnforceOverflowAfterPlanDowngrade(records: seq<AttendanceRecord>, items: seq<AbsenceItem>,
                                           bookings: seq<RecoveryBooking>, student: StudentId, newPlan: Plan)
    returns (updates: seq<Update>)
    requires multiset(items) == multiset(OverflowCandidates(records, student))
    requires SortedByDate(items)
    ensures updates == PlannedUpdates(items, CountActiveBookings(bookings, student), Cap(newPlan), |items|)
  {
    var planMax := MaxPendingForPlan(Some(Name(newPlan)));
    ParseName(newPlan);
    var bookedCount := CountActiveBookings(bookings, student);
    var countable := 0;
    var recoveredToSkip := Min(bookedCount, |items|);
    updates := [];
    ghost var skip := SkipCount(items, bookedCount);
    ghost var rank := 0;
    for k := 0 to |items|
      invariant rank == UntaggedCount(items[..k])
      invariant updates == PlannedUpdates(items, bookedCount, planMax, k)
      invariant recoveredToSkip == skip - Min(skip, rank)
      invariant countable == Min(planMax, Max(0, rank - skip))
    {
      var it := items[k];
      UntaggedStep(items, k);
      ActionFromCounters(items, bookedCount, planMax, k, skip, rank, recoveredToSkip, countable);
      assert PlannedUpdates(items, bookedCount, planMax, k + 1)
          == updates + UpdatesFor(it, Actions(items, bookedCount, planMax)[k]);
      if it.entry.isOverflowAbsence {
        continue;
      }
      rank := rank + 1;
      if recoveredToSkip > 0 {
        recoveredToSkip := recoveredToSkip - 1;
        continue;
      }
      if ShouldOverflowNewAbsence(countable, planMax) {
        updates := updates + [Update(it.recordId, it.entry.id, MarkOverflow(PlanDowngrade))];
        continue;
      }
      countable := countable + 1;
      if HasReason(it.entry) {
        updates := updates + [Update(it.recordId, it.entry.id, UnsetReason)];
      }
    }
    assert items[..|items|] == items;
  }

  // ---- Applying updates (the batched write) ----

  function ApplyChange(e: AttendanceEntry, c: Change): AttendanceEntry {
    match c
    case MarkOverflow(reason) => e.(isOverflowAbsence := true, overflowReason := Some(reason))
    case UnsetReason => e.(overflowReason := None)
  }

  /** An update touches the one entry its record id and entry id select. */
  function ApplyUpdate(it: AbsenceItem, u: Update): AbsenceItem {
    if u.recordId == it.recordId && u.entryId == it.entry.id then it.(entry := ApplyChange(it.entry, u.change)) else it
  }

  /** The updates applied to one item, first to last. */
  function ApplyAll(it: AbsenceItem, updates: seq<Update>): AbsenceItem
  {
    if updates == [] then it
    else ApplyUpdate(ApplyAll(it, updates[..|updates| - 1]), updates[|updates| - 1])
  }

  function ApplyUpdates(items: seq<AbsenceItem>, updates: seq<Update>): (r: seq<AbsenceItem>)
    ensures |r| == |items|
  {
    seq(|items|, i requires 0 <= i < |items| => ApplyAll(items[i], updates))
  }

  /** Entries are addressed by record id and entry id; these are distinct. */
  predicate DistinctKeys(items: seq<AbsenceItem>) {
    forall i, j :: 0 <= i < j < |items| ==>
      items[i].recordId != items[j].recordId || items[i].entry.id != items[j].entry.id
  }

  lemma {:induction false} ApplyAllKeepsKeyAndTag(it: AbsenceItem, updates: seq<Update>)
    ensures ApplyAll(it, updates).recordId == it.recordId
    ensures ApplyAll(it, updates).attendanceDate == it.attendanceDate
    ensures ApplyAll(it, updates).entry.id == it.entry.id
    ensures it.entry.isOverflowAbsence ==> ApplyAll(it, updates).entry.isOverflowAbsence
  {
    if updates != [] {
      ApplyAllKeepsKeyAndTag(it, updates[..|updates| - 1]);
    }
  }

  /** No batch of updates can clear an overflow tag or move an entry. */
  lemma OverflowTagsOnlyGrow(items: seq<AbsenceItem>, updates: seq<Update>)
    ensures forall i :: 0 <= i < |items| ==>
              && ApplyUpdates(items, updates)[i].recordId == items[i].recordId
              && ApplyUpdates(items, updates)[i].entry.id == items[i].entry.id
              && (items[i].entry.isOverflowAbsence ==> ApplyUpdates(items, updates)[i].entry.isOverflowAbsence)
  {
    forall i | 0 <= i < |items|
      ensures && ApplyUpdates(items, updates)[i].recordId == items[i].recordId
              && ApplyUpdates(items, updates)[i].entry.id == items[i].entry.id
              && (items[i].entry.isOverflowAbsence ==> ApplyUpdates(items, updates)[i].entry.isOverflowAbsence)
    {
      ApplyAllKeepsKeyAndTag(items[i], updates);
    }
  }

  function ApplyAction(it: AbsenceItem, action: Option<Change>): AbsenceItem {
    match action
    case None => it
    case Some(c) => it.(entry := ApplyChange(it.entry, c))
  }

  /** The items once the walk's decisions are applied, position by position. */
  function Reconciled(items: seq<AbsenceItem>, bookedCount: nat, planMax: nat): (r: seq<AbsenceItem>)
    ensures |r| == |items|
  {
    seq(|items|, i requires 0 <= i < |items| => ApplyAction(items[i], ActionAt(items, bookedCount, planMax, i)))
  }

  /** An update for another item leaves this one as it was. */
  lemma ApplyOtherUpdate(x: AbsenceItem, prev: seq<Update>, it: AbsenceItem, action: Option<Change>)
    requires ApplyAll(x, prev).recordId != it.recordId || ApplyAll(x, prev).entry.id != it.entry.id
    ensures ApplyAll(x, prev + UpdatesFor(it, action)) == ApplyAll(x, prev)
  {
    var last := UpdatesFor(it, action);
    if last == [] {
      assert prev + last == prev;
    } else {
      assert (prev + last)[..|prev|] == prev;
    }
  }

  /** The update for an item, applied to that item, performs its action. */
  lemma ApplyOwnUpdate(x: AbsenceItem, prev: seq<Update>, it: AbsenceItem, action: Option<Change>)
    requires ApplyAll(x, prev) == it
    ensures ApplyAll(x, prev + UpdatesFor(it, action)) == ApplyAction(it, action)
  {
    var last := UpdatesFor(it, action);
    if last == [] {
      assert prev + last == prev;
    } else {
      assert (prev + last)[..|prev|] == prev;
    }
  }

  /** With distinct keys, each emitted update reaches only its own item. */
  lemma {:induction false} ApplyUpdatesOfPrefix(items: seq<AbsenceItem>, acts: seq<Option<Change>>, n: nat, i: nat)
    requires DistinctKeys(items)
    requires |acts| == |items| && n <= |items| && i < |items|
    ensures ApplyAll(items[i], UpdatesOf(items, acts, n)) == if i < n then ApplyAction(items[i], acts[i]) else items[i]
  {
    if n > 0 {
      ApplyUpdatesOfPrefix(items, acts, n - 1, i);
      var prev := UpdatesOf(items, acts, n - 1);
      assert UpdatesOf(items, acts, n) == prev + UpdatesFor(items[n - 1], acts[n - 1]);
      if i < n - 1 {
        ApplyActionKeepsKeys(items[i], acts[i]);
        DistinctAt(items, i, n - 1);
        ApplyOtherUpdate(items[i], prev, items[n - 1], acts[n - 1]);
      } else if i == n - 1 {
        ApplyOwnUpdate(items[i], prev, items[n - 1], acts[n - 1]);
      } else {
        DistinctAt(items, n - 1, i);
        ApplyOtherUpdate(items[i], prev, items[n - 1], acts[n - 1]);
      }
    }
  }

  lemma ApplyActionKeepsKeys(it: AbsenceItem, action: Option<Change>)
    ensures ApplyAction(it, action).recordId == it.recordId
    ensures ApplyAction(it, action).entry.id == it.entry.id
  {
  }

  lemma DistinctAt(items: seq<AbsenceItem>, i: nat, j: nat)
    requires DistinctKeys(items) && i < j < |items|
    ensures items[i].recordId != items[j].recordId || items[i].entry.id != items[j].entry.id
  {
  }

  /** Applying the emitted updates yields exactly the reconciled items. */
  lemma ApplyPlannedUpdates(items: seq<AbsenceItem>, bookedCount: nat, planMax: nat)
    requires DistinctKeys(items)
    ensures ApplyUpdates(items, PlannedUpdates(items, bookedCount, planMax, |items|)) == Reconciled(items, bookedCount, planMax)
  {
    forall i | 0 <= i < |items|
      ensures ApplyUpdates(items, PlannedUpdates(items, bookedCount, planMax, |items|))[i] == Reconciled(items, bookedCount, planMax)[i]
    {
      ApplyUpdatesOfPrefix(items, Actions(items, bookedCount, planMax), |items|, i);
    }
  }

  /** After reconciliation the untagged items are the first
      SkipCount + planMax of the untagged ones, and no more. */
  lemma {:induction false} UntaggedAfterReconcile(items: seq<AbsenceItem>, bookedCount: nat, planMax: nat, n: nat)
    requires n <= |items|
    ensures UntaggedCount(Reconciled(items, bookedCount, planMax)[..n])
         == Min(UntaggedCount(items[..n]), SkipCount(items, bookedCount) + planMax)
  {
    if n > 0 {
      UntaggedAfterReconcile(items, bookedCount, planMax, n - 1);
      var r := Reconciled(items, bookedCount, planMax);
      assert r[..n][..n - 1] == r[..n - 1];
      assert items[..n][..n - 1] == items[..n - 1];
    }
  }

  /** What reconciliation leaves on the entry at position i. */
  lemma ReconciledAt(items: seq<AbsenceItem>, bookedCount: nat, planMax: nat, i: nat)
    requires i < |items|
    ensures var x := ApplyAction(items[i], ActionAt(items, bookedCount, planMax, i));
            var skip := SkipCount(items, bookedCount);
            var rank := UntaggedCount(items[..i]);
            (&& x.recordId == items[i].recordId && x.entry.id == items[i].entry.id
            && (items[i].entry.isOverflowAbsence ==> x == items[i])
            && (!items[i].entry.isOverflowAbsence && rank < skip ==> x == items[i])
            && (!items[i].entry.isOverflowAbsence && rank >= skip + planMax ==>
                  x.entry == items[i].entry.(isOverflowAbsence := true, overflowReason := Some(PlanDowngrade)))
            && (!items[i].entry.isOverflowAbsence && skip <= rank < skip + planMax ==>
                  && !x.entry.isOverflowAbsence && !HasReason(x.entry)
                  && x == items[i].(entry := items[i].entry.(overflowReason :=
                                      if HasReason(items[i].entry) then None else items[i].entry.overflowReason))))
  {
  }

  /** What reconciliation leaves on each entry. */
  lemma ReconciledState(items: seq<AbsenceItem>, bookedCount: nat, planMax: nat)
    ensures var r := Reconciled(items, bookedCount, planMax);
            var skip := SkipCount(items, bookedCount);
            forall i :: 0 <= i < |items| ==>
              && r[i].recordId == items[i].recordId && r[i].entry.id == items[i].entry.id
              && (items[i].entry.isOverflowAbsence ==> r[i] == items[i])
              && (!items[i].entry.isOverflowAbsence && UntaggedCount(items[..i]) < skip ==> r[i] == items[i])
              && (!items[i].entry.isOverflowAbsence && UntaggedCount(items[..i]) >= skip + planMax ==>
                    r[i].entry == items[i].entry.(isOverflowAbsence := true, overflowReason := Some(PlanDowngrade)))
              && (!items[i].entry.isOverflowAbsence && skip <= UntaggedCount(items[..i]) < skip + planMax ==>
                    && !r[i].entry.isOverflowAbsence && !HasReason(r[i].entry)
                    && r[i] == items[i].(entry := items[i].entry.(overflowReason :=
                                           if HasReason(items[i].entry) then None else items[i].entry.overflowReason)))
  {
    var r := Reconciled(items, bookedCount, planMax);
    var skip := SkipCount(items, bookedCount);
    forall i | 0 <= i < |items|
      ensures && r[i].recordId == items[i].recordId && r[i].entry.id == items[i].entry.id
              && (items[i].entry.isOverflowAbsence ==> r[i] == items[i])
              && (!items[i].entry.isOverflowAbsence && UntaggedCount(items[..i]) < skip ==> r[i] == items[i])
              && (!items[i].entry.isOverflowAbsence && UntaggedCount(items[..i]) >= skip + planMax ==>
                    r[i].entry == items[i].entry.(isOverflowAbsence := true, overflowReason := Some(PlanDowngrade)))
              && (!items[i].entry.isOverflowAbsence && skip <= UntaggedCount(items[..i]) < skip + planMax ==>
                    && !r[i].entry.isOverflowAbsence && !HasReason(r[i].entry)
                    && r[i] == items[i].(entry := items[i].entry.(overflowReason :=
                                           if HasReason(items[i].entry) then None else items[i].entry.overflowReason)))
    {
      ReconciledAt(items, bookedCount, planMax, i);
    }
  }

  /** After reconciliation exactly Min(untagged, SkipCount + planMax) entries stay untagged. */
  lemma ReconciledUntaggedTotal(items: seq<AbsenceItem>, bookedCount: nat, planMax: nat)
    ensures UntaggedCount(Reconciled(items, bookedCount, planMax))
         == Min(UntaggedCount(items), SkipCount(items, bookedCount) + planMax)
  {
    var r := Reconciled(items, bookedCount, planMax);
    UntaggedAfterReconcile(items, bookedCount, planMax, |items|);
    assert items[..|items|] == items;
    assert r[..|items|] == r;
  }

  lemma {:induction false} NoActionNoUpdates(items: seq<AbsenceItem>, acts: seq<Option<Change>>, n: nat)
    requires |acts| == |items| && n <= |items|
    requires forall i :: 0 <= i < |acts| ==> acts[i].None?
    ensures UpdatesOf(items, acts, n) == []
  {
    if n > 0 {
      NoActionNoUpdates(items, acts, n - 1);
    }
  }

  /** Reconciling the reconciled items again decides nothing new. */
  lemma ReconciledIsFixedPoint(items: seq<AbsenceItem>, bookedCount: nat, planMax: nat)
    ensures PlannedUpdates(Reconciled(items, bookedCount, planMax), bookedCount, planMax, |items|) == []
  {
    var r := Reconciled(items, bookedCount, planMax);
    forall i | 0 <= i < |r|
      ensures ActionAt(r, bookedCount, planMax, i).None?
    {
      UntaggedAfterReconcile(items, bookedCount, planMax, i);
    }
    NoActionNoUpdates(r, Actions(r, bookedCount, planMax), |r|);
  }

  // ---- The batch applied to the stored records, and the query run again ----

  /** An update applied to an entry stored in the record with id recordId.
      It reaches every entry with the matching id; with distinct subdocument
      ids that is the single element the positional `$` operator selects. */
  function ApplyToEntry(recordId: RecordId, e: AttendanceEntry, u: Update): AttendanceEntry {
    if u.recordId == recordId && u.entryId == e.id then ApplyChange(e, u.change) else e
  }

  function ApplyAllToEntry(recordId: RecordId, e: AttendanceEntry, updates: seq<Update>): AttendanceEntry {
    if updates == [] then e
    else ApplyToEntry(recordId, ApplyAllToEntry(recordId, e, updates[..|updates| - 1]), updates[|updates| - 1])
  }

  function ApplyToEntries(recordId: RecordId, entries: seq<AttendanceEntry>, updates: seq<Update>): seq<AttendanceEntry> {
    if entries == [] then []
    else [ApplyAllToEntry(recordId, entries[0], updates)] + ApplyToEntries(recordId, entries[1..], updates)
  }

  /** The stored records once the bulkWrite has run. */
  function ApplyToRecords(records: seq<AttendanceRecord>, updates: seq<Update>): seq<AttendanceRecord> {
    if records == [] then []
    else [records[0].(attendance := ApplyToEntries(records[0].id, records[0].attendance, updates))]
         + ApplyToRecords(records[1..], updates)
  }

  /** Updating a stored entry and updating the item it appears in agree. */
  lemma {:induction false} ItemFollowsEntry(recordId: RecordId, date: int, e: AttendanceEntry, updates: seq<Update>)
    ensures ApplyAll(AbsenceItem(recordId, date, e), updates) == AbsenceItem(recordId, date, ApplyAllToEntry(recordId, e, updates))
  {
    if updates != [] {
      ItemFollowsEntry(recordId, date, e, updates[..|updates| - 1]);
    }
  }

  /** The updates keep an entry a candidate exactly when it was one. */
  lemma {:induction false} UpdatedEntryStaysCandidate(rec: AttendanceRecord, recordId: RecordId, e: AttendanceEntry,
                                                      updates: seq<Update>, student: StudentId)
    ensures IsOverflowCandidate(rec, ApplyAllToEntry(recordId, e, updates), student) == IsOverflowCandidate(rec, e, student)
  {
    if updates != [] {
      var prev := ApplyAllToEntry(recordId, e, updates[..|updates| - 1]);
      UpdatedEntryStaysCandidate(rec, recordId, e, updates[..|updates| - 1], student);
      var u := updates[|updates| - 1];
      if u.recordId == recordId && u.entryId == prev.id {
        match u.change
        case MarkOverflow(reason) =>
          CandidateIgnoresTags(rec, prev, student, true, Some(reason));
        case UnsetReason =>
          CandidateIgnoresTags(rec, prev, student, prev.isOverflowAbsence, None);
      }
    }
  }

  lemma ApplyUpdatesAppend(a: seq<AbsenceItem>, b: seq<AbsenceItem>, updates: seq<Update>)
    ensures ApplyUpdates(a + b, updates) == ApplyUpdates(a, updates) + ApplyUpdates(b, updates)
  {
  }

  lemma {:induction false} EntryCandidatesAfterBatch(rec: AttendanceRecord, stored: AttendanceRecord,
                                                     entries: seq<AttendanceEntry>, updates: seq<Update>, student: StudentId)
    requires stored.id == rec.id && stored.status == rec.status && stored.fullDate == rec.fullDate
    ensures EntryCandidates(stored, ApplyToEntries(rec.id, entries, updates), student)
         == ApplyUpdates(EntryCandidates(rec, entries, student), updates)
  {
    if entries != [] {
      var e := entries[0];
      var e2 := ApplyAllToEntry(rec.id, e, updates);
      var rest := ApplyToEntries(rec.id, entries[1..], updates);
      assert ([e2] + rest)[1..] == rest;
      EntryCandidatesAfterBatch(rec, stored, entries[1..], updates, student);
      UpdatedEntryStaysCandidate(rec, rec.id, e, updates, student);
      ItemFollowsEntry(rec.id, rec.fullDate, e, updates);
      var head := if IsOverflowCandidate(rec, e, student) then [AbsenceItem(rec.id, rec.fullDate, e)] else [];
      ApplyUpdatesAppend(head, EntryCandidates(rec, entries[1..], student), updates);
    }
  }

  /** Running the query on the updated records yields the updated items. */
  lemma {:induction false} RequeryAfterBatch(records: seq<AttendanceRecord>, updates: seq<Update>, student: StudentId)
    ensures OverflowCandidates(ApplyToRecords(records, updates), student)
         == ApplyUpdates(OverflowCandidates(records, student), updates)
  {
    if records != [] {
      var rec := records[0];
      var stored := rec.(attendance := ApplyToEntries(rec.id, rec.attendance, updates));
      var rest := ApplyToRecords(records[1..], updates);
      assert ([stored] + rest)[1..] == rest;
      RequeryAfterBatch(records[1..], updates, student);
      EntryCandidatesAfterBatch(rec, stored, rec.attendance, updates, student);
      ApplyUpdatesAppend(EntryCandidates(rec, rec.attendance, student), OverflowCandidates(records[1..], student), updates);
    }
  }

  /** Removing the element at position j takes exactly that element from the multiset. */
  lemma RemoveAt(b: seq<AbsenceItem>, j: nat)
    requires j < |b|
    ensures multiset(b[..j] + b[j + 1..]) == multiset(b) - multiset{b[j]}
  {
    assert b == b[..j] + [b[j]] + b[j + 1..];
  }

  /** The batch applied around position j is the batch applied at j plus the rest. */
  lemma ApplyUpdatesAround(b: seq<AbsenceItem>, j: nat, updates: seq<Update>)
    requires j < |b|
    ensures multiset(ApplyUpdates(b, updates))
         == multiset(ApplyUpdates(b[..j] + b[j + 1..], updates)) + multiset{ApplyAll(b[j], updates)}
  {
    assert b == b[..j] + [b[j]] + b[j + 1..];
    ApplyUpdatesAppend(b[..j] + [b[j]], b[j + 1..], updates);
    ApplyUpdatesAppend(b[..j], [b[j]], updates);
    ApplyUpdatesAppend(b[..j], b[j + 1..], updates);
  }

  /** The batch treats every item alike, so it maps rearrangements to rearrangements. */
  lemma {:induction false} ApplyUpdatesPermutation(a: seq<AbsenceItem>, b: seq<AbsenceItem>, updates: seq<Update>)
    requires multiset(a) == multiset(b)
    ensures multiset(ApplyUpdates(a, updates)) == multiset(ApplyUpdates(b, updates))
    decreases |a|
  {
    if a == [] {
      assert |multiset(b)| == 0;
    } else {
      var x := a[0];
      assert x in multiset(b);
      var j :| 0 <= j < |b| && b[j] == x;
      var restA, restB := a[..0] + a[1..], b[..j] + b[j + 1..];
      assert restA == a[1..];
      RemoveAt(a, 0);
      RemoveAt(b, j);
      assert multiset(restA) == multiset(a) - multiset{x};
      assert multiset(restB) == multiset(b) - multiset{x};
      ApplyUpdatesPermutation(restA, restB, updates);
      PermutationStep(a, b, j, updates);
    }
  }

  /** One step of the rearrangement: the first element of a, found at position j of b. */
  lemma PermutationStep(a: seq<AbsenceItem>, b: seq<AbsenceItem>, j: nat, updates: seq<Update>)
    requires 0 < |a| && j < |b| && b[j] == a[0]
    requires multiset(ApplyUpdates(a[..0] + a[1..], updates)) == multiset(ApplyUpdates(b[..j] + b[j + 1..], updates))
    ensures multiset(ApplyUpdates(a, updates)) == multiset(ApplyUpdates(b, updates))
  {
    ApplyUpdatesAround(a, 0, updates);
    ApplyUpdatesAround(b, j, updates);
  }

  /** After the bulkWrite, the items updated in place are a correct answer of
      the aggregation run again: the new candidates, sorted oldest first. */
  lemma RequeryMatchesUpdatedItems(records: seq<AttendanceRecord>, items: seq<AbsenceItem>,
                                   updates: seq<Update>, student: StudentId)
    requires multiset(items) == multiset(OverflowCandidates(records, student))
    requires SortedByDate(items)
    ensures multiset(ApplyUpdates(items, updates)) == multiset(OverflowCandidates(ApplyToRecords(records, updates), student))
    ensures SortedByDate(ApplyUpdates(items, updates))
  {
    RequeryAfterBatch(records, updates, student);
    ApplyUpdatesPermutation(items, OverflowCandidates(records, student), updates);
    forall i | 0 <= i < |items| {
      ApplyAllKeepsKeyAndTag(items[i], updates);
    }
  }

  /** Idempotence: after the bulkWrite, the query run again may answer with
      the updated items in their order, and running the walk on them with
      the same bookings and plan emits no update at all. */
  lemma ReconciliationIdempotent(records: seq<AttendanceRecord>, items: seq<AbsenceItem>,
                                 bookings: seq<RecoveryBooking>, student: StudentId, newPlan: Plan)
    requires multiset(items) == multiset(OverflowCandidates(records, student))
    requires SortedByDate(items)
    requires DistinctKeys(items)
    ensures var bookedCount := CountActiveBookings(bookings, student);
            var updates := PlannedUpdates(items, bookedCount, Cap(newPlan), |items|);
            var after := ApplyUpdates(items, updates);
            && multiset(after) == multiset(OverflowCandidates(ApplyToRecords(records, updates), student))
            && SortedByDate(after)
            && PlannedUpdates(after, bookedCount, Cap(newPlan), |after|) == []
  {
    var bookedCount := CountActiveBookings(bookings, student);
    var updates := PlannedUpdates(items, bookedCount, Cap(newPlan), |items|);
    RequeryMatchesUpdatedItems(records, items, updates, student);
    ApplyPlannedUpdates(items, bookedCount, Cap(newPlan));
    ReconciledIsFixedPoint(items, bookedCount, Cap(newPlan));
  }
}

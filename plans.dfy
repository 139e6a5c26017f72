/** The enrollment plans and the pending-absence cap each one allows
    (the plan table of the credits service). */
module Plans {
  import opened Common

  /** TEnrollmentPlan. */
  datatype Plan = Basic | Optimum | Plus | Advanced

  /** The label under which a plan is stored on a user document. */
  function Name(p: Plan): string {
    match p
    case Basic => "Basic"
    case Optimum => "Optimum"
    case Plus => "Plus"
    case Advanced => "Advanced"
  }

  /** The plan a stored label denotes, if it is one of the four. */
  function Parse(s: string): (r: Option<Plan>)
    ensures r.Some? ==> Name(r.value) == s
  {
    if s == "Basic" then Some(Basic)
    else if s == "Optimum" then Some(Optimum)
    else if s == "Plus" then Some(Plus)
    else if s == "Advanced" then Some(Advanced)
    else None
  }

  lemma ParseName(p: Plan)
    ensures Parse(Name(p)) == Some(p)
  {
  }

  /** planToMaxPending. */
  function Cap(p: Plan): nat {
    match p
    case Basic => 2
    case Optimum => 4
    case Plus => 6
    case Advanced => 8
  }

  /** The pending-absence cap is strictly increasing along Basic < Optimum < Plus < Advanced. */
  function Rank(p: Plan): nat {
    match p
    case Basic => 0
    case Optimum => 1
    case Plus => 2
    case Advanced => 3
  }

  lemma CapFollowsRank(p: Plan, q: Plan)
    ensures Rank(p) <= Rank(q) <==> Cap(p) <= Cap(q)
  {
  }

  /** getMaxPendingForPlan: a missing, empty or unknown label falls back to Optimum's cap. */
  function MaxPendingForPlan(plan: Option<string>): (r: nat)
    ensures r in {2, 4, 6, 8}
    ensures plan.Some? && Parse(plan.value).Some? ==> r == Cap(Parse(plan.value).value)
    ensures (plan.None? || Parse(plan.value).None?) ==> r == Cap(Optimum)
  {
    if plan.None? || plan.value == "" then Cap(Optimum)
    else match Parse(plan.value)
      case Some(p) => Cap(p)
      case None => Cap(Optimum)
  }

  lemma MaxPendingTable()
    ensures MaxPendingForPlan(Some("Basic")) == 2
    ensures MaxPendingForPlan(Some("Optimum")) == 4
    ensures MaxPendingForPlan(Some("Plus")) == 6
    ensures MaxPendingForPlan(Some("Advanced")) == 8
    ensures MaxPendingForPlan(None) == 4
  {
  }

  /** computeCreditsFromAbsences: one credit per absence, nothing for a non-positive count. */
  function CreditsFromAbsences(absencesCount: int): (r: nat)
    ensures r >= absencesCount
    ensures r == absencesCount || r == 0
    ensures r > 0 <==> absencesCount > 0
  {
    if absencesCount <= 0 then 0 else absencesCount
  }

  /** shouldOverflowNewAbsence: once the countable absences reach the cap, the next one overflows. */
  predicate ShouldOverflowNewAbsence(currentPendingAbsences: int, planMaxPending: int) {
    currentPendingAbsences >= planMaxPending
  }
}

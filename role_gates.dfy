/** The role gates placed in front of routes: each either hands the
    request on, or answers 401 and raises "Not authorized for this action.". */
module RoleGates {
  import opened Common

  /** UNAUTHORIZED. */
  const Unauthorized: nat := 401
  const NotAuthorizedMessage: string := "Not authorized for this action."

  /** The role flags of the authenticated user; a flag the token lacks is false. */
  datatype RequestUser = RequestUser(isSuper: bool, isAdmin: bool, isTeacher: bool)

  /** What a gate does, in order: call `next`, set the response status, or throw. */
  datatype Effect = CallNext | SetStatus(code: nat) | Throw(message: string)

  function Rejected(): seq<Effect> {
    [SetStatus(Unauthorized), Throw(NotAuthorizedMessage)]
  }

  /** `req?.user?.flag`: false when there is no user. */
  predicate IsSuper(user: Option<RequestUser>) { user.Some? && user.value.isSuper }
  predicate IsAdmin(user: Option<RequestUser>) { user.Some? && user.value.isAdmin }
  predicate IsTeacher(user: Option<RequestUser>) { user.Some? && user.value.isTeacher }

  /** The effects end in a single call to `next`, or in a 401 followed by a throw. */
  predicate WellFormed(t: seq<Effect>) {
    t == [CallNext] || t == Rejected()
  }

  function NextCalls(t: seq<Effect>): nat {
    if t == [] then 0 else (if t[0] == CallNext then 1 else 0) + NextCalls(t[1..])
  }

  /** forSuperUser. */
  function ForSuperUser(user: Option<RequestUser>): (t: seq<Effect>)
    ensures WellFormed(t)
    ensures t == [CallNext] <==> IsSuper(user)
  {
    if !IsSuper(user) then Rejected() else [CallNext]
  }

  /** forUserAdmin. */
  function ForUserAdmin(user: Option<RequestUser>): (t: seq<Effect>)
    ensures WellFormed(t)
    ensures t == [CallNext] <==> IsSuper(user) || IsAdmin(user)
  {
    if IsSuper(user) then [CallNext]
    else if !IsAdmin(user) then Rejected()
    else [CallNext]
  }

  /** forUserStudent. */
  function ForUserStudent(user: Option<RequestUser>): (t: seq<Effect>)
    ensures WellFormed(t)
    ensures t == [CallNext] <==> !IsTeacher(user) || IsSuper(user) || IsAdmin(user)
  {
    if IsSuper(user) || IsAdmin(user) then [CallNext]
    else if IsTeacher(user) then Rejected()
    else [CallNext]
  }

  /** A gate calls `next` at most once, and a rejection never calls it
      and always carries status 401 before the throw. */
  lemma {:induction false} WellFormedCallsNextAtMostOnce(t: seq<Effect>)
    requires WellFormed(t)
    ensures NextCalls(t) <= 1
    ensures NextCalls(t) == 1 <==> t == [CallNext]
    ensures NextCalls(t) == 0 ==> t[0] == SetStatus(Unauthorized) && t[|t| - 1].Throw?
  {
    if t == Rejected() {
      assert t[1..] == [Throw(NotAuthorizedMessage)];
      assert t[1..][1..] == [];
      assert NextCalls(t[1..][1..]) == 0;
      assert NextCalls(t[1..]) == 0;
    } else {
      assert t[1..] == [];
    }
  }

  /** The gates are nested: whoever passes a stricter gate passes the looser ones. */
  lemma GatesNested(user: Option<RequestUser>)
    ensures ForSuperUser(user) == [CallNext] ==> ForUserAdmin(user) == [CallNext]
    ensures ForUserAdmin(user) == [CallNext] ==> ForUserStudent(user) == [CallNext]
  {
  }

  /** A request without a user is refused by the super and admin gates,
      but a user-less request passes the student gate. */
  lemma AnonymousRequest()
    ensures ForSuperUser(None) == Rejected()
    ensures ForUserAdmin(None) == Rejected()
    ensures ForUserStudent(None) == [CallNext]
  {
  }

  /** Only a teacher without admin or super rights is kept out of student routes. */
  lemma TeacherOnlyRejectedFromStudentRoutes(user: RequestUser)
    ensures ForUserStudent(Some(user)) == Rejected()
        <==> user.isTeacher && !user.isAdmin && !user.isSuper
  {
  }
}

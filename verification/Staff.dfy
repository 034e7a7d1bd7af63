/** Hiring and removing staff: accounts, their roles, and assignments to complexes. */
module Staff {
  import opened Wrappers
  import opened UserDomain

  type AssignmentId = int

  datatype Account = Account(
    email: string, complexId: Option<ComplexId>, status: Status, deletedAt: bool, roles: set<RoleName>)

  /** Assignments are never deleted, only marked as removed. */
  datatype Assignment = Assignment(userId: UserId, complexId: ComplexId, role: RoleName, active: bool)

  datatype State = State(users: map<UserId, Account>, assignments: map<AssignmentId, Assignment>)

  datatype HireInput = HireInput(email: string, complexId: ComplexId, role: RoleName)

  predicate ActiveAs(s: State, a: AssignmentId, u: UserId, role: RoleName) {
    a in s.assignments && s.assignments[a].active && s.assignments[a].userId == u && s.assignments[a].role == role
  }

  function ActiveWithRole(s: State, u: UserId, role: RoleName): set<AssignmentId> {
    set a | a in s.assignments && ActiveAs(s, a, u, role)
  }

  function ActiveAt(s: State, u: UserId, c: ComplexId, role: RoleName): set<AssignmentId> {
    set a | a in s.assignments && ActiveAs(s, a, u, role) && s.assignments[a].complexId == c
  }

  function ActiveAny(s: State, u: UserId): set<AssignmentId> {
    set a | a in s.assignments && s.assignments[a].active && s.assignments[a].userId == u
  }

  function WithRole(roles: set<RoleName>, role: RoleName): set<RoleName> {
    roles + {role} + if NeedsResidentBase(role) then {Resident} else {}
  }

  // ---------------------------------------------------------------- steps

  /** No account has the address yet. */
  predicate CanRecruit(s: State, u: UserId, input: HireInput) {
    u !in s.users && forall v :: v in s.users ==> s.users[v].email != input.email
  }

  /** An account that may be hired: a guard must not be active anywhere, others not in this complex and role. */
  predicate CanRehire(s: State, u: UserId, input: HireInput) {
    u in s.users && s.users[u].email == input.email
    && if input.role.Security? then ActiveWithRole(s, u, Security) == {}
       else ActiveAt(s, u, input.complexId, input.role) == {}
  }

  function Rehired(s: State, u: UserId, input: HireInput, a: AssignmentId): State
    requires u in s.users
  {
    var user := s.users[u].(roles := WithRole(s.users[u].roles, input.role));
    var restored :=
      if user.status.Inactive? || user.status.Deleted? then user.(status := Active, deletedAt := false) else user;
    var updated := if input.role.Security? then restored.(complexId := Some(input.complexId)) else user;
    State(s.users[u := updated], s.assignments[a := Assignment(u, input.complexId, input.role, true)])
  }

  function Recruited(s: State, u: UserId, input: HireInput, a: AssignmentId): State {
    State(s.users[u := Account(input.email, Some(input.complexId), Active, false, WithRole({}, input.role))],
          s.assignments[a := Assignment(u, input.complexId, input.role, true)])
  }

  predicate CanDismiss(s: State, u: UserId, a: AssignmentId, c: ComplexId, role: RoleName) {
    u in s.users && !s.users[u].status.Deleted? && a in ActiveAt(s, u, c, role)
  }

  /** The assignment removed, the role dropped with its last assignment, the account updated. */
  function Dismissed(s: State, u: UserId, a: AssignmentId, role: RoleName, resides: bool): State
    requires u in s.users && a in s.assignments
  {
    var user := s.users[u];
    var roles := if ActiveWithRole(s, u, role) - {a} == {} then user.roles - {role} else user.roles;
    var complexId := if role.Security? then None else user.complexId;
    var remainsActive := resides || ActiveAny(s, u) - {a} != {};
    var status := if !remainsActive && user.status.Active? then Inactive else user.status;
    State(s.users[u := user.(roles := roles, complexId := complexId, status := status)],
          s.assignments[a := s.assignments[a].(active := false)])
  }

  datatype Op =
    | Recruit(newUser: UserId, input: HireInput, newAssignment: AssignmentId)
    | Rehire(user: UserId, input: HireInput, newAssignment: AssignmentId)
    | Dismiss(user: UserId, assignment: AssignmentId, complexId: ComplexId, role: RoleName, resides: bool)

  /** The state after a call; a refused call changes nothing. */
  function Apply(s: State, op: Op): State {
    match op
    case Recruit(u, input, a) =>
      if CanRecruit(s, u, input) && a !in s.assignments && IsStaffRole(input.role) then Recruited(s, u, input, a) else s
    case Rehire(u, input, a) =>
      if CanRehire(s, u, input) && a !in s.assignments && IsStaffRole(input.role) then Rehired(s, u, input, a) else s
    case Dismiss(u, a, c, role, resides) =>
      if CanDismiss(s, u, a, c, role) then Dismissed(s, u, a, role, resides) else s
  }

  function Run(s: State, ops: seq<Op>): State
    decreases |ops|
  {
    if ops == [] then s else Run(Apply(s, ops[0]), ops[1..])
  }

  // ---------------------------------------------------------------- the service

  ghost predicate IsAssignment(assignments: map<AssignmentId, Assignment>, b: AssignmentId, u: UserId, role: RoleName,
                               c: Option<ComplexId>) {
    b in assignments && assignments[b].active && assignments[b].userId == u && assignments[b].role == role
    && (c.Some? ==> assignments[b].complexId == c.value)
  }

  /** `u` holds the role in an active assignment other than `a`: anywhere, or at `c` if one is given. */
  ghost predicate Assigned(assignments: map<AssignmentId, Assignment>, u: UserId, role: RoleName,
                           c: Option<ComplexId>, a: Option<AssignmentId>) {
    exists b :: IsAssignment(assignments, b, u, role, c) && a != Some(b)
  }

  lemma AssignedAt(s: State, u: UserId, c: ComplexId, role: RoleName)
    ensures ActiveAt(s, u, c, role) != {} <==> Assigned(s.assignments, u, role, Some(c), None)
    ensures ActiveWithRole(s, u, role) != {} <==> Assigned(s.assignments, u, role, None, None)
  {
    forall b
      ensures b in ActiveAt(s, u, c, role) <==> IsAssignment(s.assignments, b, u, role, Some(c))
      ensures b in ActiveWithRole(s, u, role) <==> IsAssignment(s.assignments, b, u, role, None)
    {
    }
    if Assigned(s.assignments, u, role, Some(c), None) {
      var b :| IsAssignment(s.assignments, b, u, role, Some(c));
      assert b in ActiveAt(s, u, c, role);
    }
    if ActiveAt(s, u, c, role) != {} {
      var b := Pick(ActiveAt(s, u, c, role));
      assert IsAssignment(s.assignments, b, u, role, Some(c));
    }
    if Assigned(s.assignments, u, role, None, None) {
      var b :| IsAssignment(s.assignments, b, u, role, None);
      assert b in ActiveWithRole(s, u, role);
    }
    if ActiveWithRole(s, u, role) != {} {
      var b := Pick(ActiveWithRole(s, u, role));
      assert IsAssignment(s.assignments, b, u, role, None);
    }
  }

  lemma AssignedElsewhere(s: State, u: UserId, role: RoleName, a: AssignmentId)
    ensures ActiveWithRole(s, u, role) - {a} != {} <==> Assigned(s.assignments, u, role, None, Some(a))
    ensures ActiveAny(s, u) - {a} != {} <==> exists r :: Assigned(s.assignments, u, r, None, Some(a))
  {
    if Assigned(s.assignments, u, role, None, Some(a)) {
      var b :| IsAssignment(s.assignments, b, u, role, None) && b != a;
      assert b in ActiveWithRole(s, u, role) - {a};
    }
    if ActiveWithRole(s, u, role) - {a} != {} {
      var b := Pick(ActiveWithRole(s, u, role) - {a});
      assert IsAssignment(s.assignments, b, u, role, None);
    }
    if r :| Assigned(s.assignments, u, r, None, Some(a)) {
      var b :| IsAssignment(s.assignments, b, u, r, None) && b != a;
      assert b in ActiveAny(s, u) - {a};
    }
    if ActiveAny(s, u) - {a} != {} {
      var b := Pick(ActiveAny(s, u) - {a});
      assert IsAssignment(s.assignments, b, u, s.assignments[b].role, None);
      assert Assigned(s.assignments, u, s.assignments[b].role, None, Some(a));
    }
  }

  /** A guard already active anywhere, or another role already held in this complex. */
  ghost predicate AlreadyHired(assignments: map<AssignmentId, Assignment>, u: UserId, input: HireInput) {
    Assigned(assignments, u, input.role, if input.role == Security then None else Some(input.complexId), None)
  }

  lemma CanRehireIff(s: State, u: UserId, input: HireInput)
    ensures CanRehire(s, u, input) <==>
            u in s.users && s.users[u].email == input.email && !AlreadyHired(s.assignments, u, input)
  {
    AssignedAt(s, u, input.complexId, input.role);
  }

  /** All other accounts and assignments are as they were. */
  ghost predicate OnlyTouches(s: State, t: State, u: UserId, a: AssignmentId) {
    t.users.Keys == s.users.Keys + {u} && t.assignments.Keys == s.assignments.Keys + {a}
    && (forall v :: v in s.users && v != u ==> t.users[v] == s.users[v])
    && forall b :: b in s.assignments && b != a ==> t.assignments[b] == s.assignments[b]
  }

  /** The roles an account has once it is hired: the role, and for guards and accountants that of a resident. */
  function HiredRoles(roles: set<RoleName>, role: RoleName): set<RoleName> {
    roles + (if role == Security || role == Accountant then {role, Resident} else {role})
  }

  /** A guard's account moves to the complex and is put back into use; any other stays as it was. */
  ghost predicate TakenBack(before: Account, after: Account, input: HireInput) {
    && after.email == before.email && after.roles == HiredRoles(before.roles, input.role)
    && after.complexId == (if input.role == Security then Some(input.complexId) else before.complexId)
    && if input.role == Security && (before.status == Inactive || before.status == Deleted)
       then after.status == Active && !after.deletedAt
       else after.status == before.status && after.deletedAt == before.deletedAt
  }

  /**
    The role goes with its last assignment, a guard's complex goes too, and an active account
    that neither resides nor is assigned any more becomes inactive.
    */
  ghost predicate LetGo(s: State, before: Account, after: Account, u: UserId, a: AssignmentId, role: RoleName,
                        resides: bool) {
    && after.email == before.email && after.deletedAt == before.deletedAt
    && after.roles == (if Assigned(s.assignments, u, role, None, Some(a)) then before.roles else before.roles - {role})
    && after.complexId == (if role == Security then None else before.complexId)
    && after.status ==
       if before.status == Active && !resides && !exists r :: Assigned(s.assignments, u, r, None, Some(a))
       then Inactive else before.status
  }

  /** One active assignment of that user, complex and role is marked as removed, and the account let go. */
  ghost predicate DismissedAs(s: State, t: State, u: UserId, a: AssignmentId, c: ComplexId, role: RoleName,
                              resides: bool) {
    && u in s.users && s.users[u].status != Deleted
    && a in s.assignments && s.assignments[a] == Assignment(u, c, role, true)
    && OnlyTouches(s, t, u, a) && t.assignments[a] == Assignment(u, c, role, false)
    && LetGo(s, s.users[u], t.users[u], u, a, role, resides)
  }

  lemma DismissedLetsGo(s: State, u: UserId, a: AssignmentId, c: ComplexId, role: RoleName, resides: bool)
    requires CanDismiss(s, u, a, c, role)
    ensures DismissedAs(s, Dismissed(s, u, a, role, resides), u, a, c, role, resides)
  {
    AssignedElsewhere(s, u, role, a);
  }

  class Service {
    var users: map<UserId, Account>
    var assignments: map<AssignmentId, Assignment>

    constructor ()
      ensures Now() == State(map[], map[])
    {
      users, assignments := map[], map[];
    }

    ghost function Now(): State
      reads this
    {
      State(users, assignments)
    }

    method FindByEmail(email: string) returns (found: Option<UserId>)
      ensures found.Some? ==> found.value in users && users[found.value].email == email
      ensures found.None? ==> forall u :: u in users ==> users[u].email != email
    {
      var wanted := set u | u in users && users[u].email == email;
      var matching := SetToSeq(wanted);
      if |matching| == 0 {
        assert forall u :: u in users && users[u].email == email ==> u in wanted;
        return None;
      }
      found := Some(matching[0]);
    }

    /**
      Finds the account by e-mail and recruits, takes back or adds. `assignable` says that
      the role is configured and active, `phoneTaken` that another account has the number.
      */
    method CreateStaffMember(input: HireInput, assignable: bool, phoneTaken: bool, newUser: UserId,
                             newAssignment: AssignmentId)
      returns (ok: bool, op: Op)
      requires newUser !in users && newAssignment !in assignments
      modifies this
      ensures ok ==> Now() == Apply(old(Now()), op)
      ensures ok ==> op == Recruit(newUser, input, newAssignment)
                     || (op.Rehire? && op == Rehire(op.user, input, newAssignment) && op.user in old(users)
                         && old(users)[op.user].email == input.email
                         && !AlreadyHired(old(assignments), op.user, input))
      ensures ok && op.Recruit? ==> !phoneTaken && forall u :: u in old(users) ==> old(users)[u].email != input.email
      ensures ok ==> assignable && input.role in {Security, Accountant, Maintenance}
      ensures ok ==>
                var u := if op.Recruit? then newUser else op.user;
                OnlyTouches(old(Now()), Now(), u, newAssignment)
                && assignments[newAssignment] == Assignment(u, input.complexId, input.role, true)
      ensures ok && op.Recruit? ==>
                users[newUser] ==
                Account(input.email, Some(input.complexId), Active, false, HiredRoles({}, input.role))
      ensures ok && op.Rehire? ==> TakenBack(old(users)[op.user], users[op.user], input)
      ensures !ok ==> Now() == old(Now())
      ensures !ok ==> input.role !in {Security, Accountant, Maintenance} || !assignable
                      || (phoneTaken && forall u :: u in users ==> users[u].email != input.email)
                      || exists u :: u in users && users[u].email == input.email && AlreadyHired(assignments, u, input)
    {
      op := Recruit(newUser, input, newAssignment);
      if !IsStaffRole(input.role) || !assignable {
        return false, op;
      }
      var existing := FindByEmail(input.email);
      if existing.None? {
        if phoneTaken {
          return false, op;
        }
        users := users[newUser := Account(input.email, Some(input.complexId), Active, false, WithRole({}, input.role))];
        assignments := assignments[newAssignment := Assignment(newUser, input.complexId, input.role, true)];
        return true, op;
      }
      var u := existing.value;
      op := Rehire(u, input, newAssignment);
      var s := State(users, assignments);
      CanRehireIff(s, u, input);
      var account := users[u];
      if input.role.Security? {
        if ActiveWithRole(s, u, Security) != {} {
          assert !CanRehire(s, u, input);
          return false, op;
        }
        account := account.(complexId := Some(input.complexId));
        if account.status.Inactive? || account.status.Deleted? {
          account := account.(status := Active, deletedAt := false);
        }
      } else if ActiveAt(s, u, input.complexId, input.role) != {} {
        assert !CanRehire(s, u, input);
        return false, op;
      }
      users := users[u := account.(roles := WithRole(account.roles, input.role))];
      assignments := assignments[newAssignment := Assignment(u, input.complexId, input.role, true)];
      ok := true;
    }

    /** The writes of a dismissal: the assignment, then roles, complex and status of the account. */
    method Detach(u: UserId, assignment: AssignmentId, role: RoleName, resides: bool)
      requires u in users && assignment in assignments
      modifies this
      ensures Now() == Dismissed(old(Now()), u, assignment, role, resides)
    {
      var s := State(users, assignments);
      var sameRole, anyRole := ActiveWithRole(s, u, role) - {assignment}, ActiveAny(s, u) - {assignment};
      var otherForRole, otherAtAll := |sameRole|, |anyRole|;
      assert otherForRole == 0 <==> sameRole == {};
      assert otherAtAll == 0 <==> anyRole == {};
      var account := users[u];
      assignments := assignments[assignment := assignments[assignment].(active := false)];
      assert role !in account.roles ==> account.roles - {role} == account.roles;
      if otherForRole == 0 && role in account.roles {
        account := account.(roles := account.roles - {role});
      }
      if role.Security? {
        account := account.(complexId := None);
      }
      if !(resides || otherAtAll > 0) && account.status.Active? {
        account := account.(status := Inactive);
      }
      users := users[u := account];
    }

    method RemoveStaffMember(u: UserId, c: ComplexId, role: RoleName, resides: bool)
      returns (ok: bool, assignment: AssignmentId)
      modifies this
      ensures ok <==> u in old(users) && old(users)[u].status != Deleted
                      && Assigned(old(assignments), u, role, Some(c), None)
      ensures ok ==> DismissedAs(old(Now()), Now(), u, assignment, c, role, resides)
      ensures ok ==> CanDismiss(old(Now()), u, assignment, c, role)
                     && Now() == Apply(old(Now()), Dismiss(u, assignment, c, role, resides))
      ensures !ok ==> Now() == old(Now())
    {
      assignment := 0;
      if u !in users || users[u].status.Deleted? {
        return false, 0;
      }
      var s := State(users, assignments);
      var matching := SetToSeq(ActiveAt(s, u, c, role));
      AssignedAt(s, u, c, role);
      if |matching| == 0 {
        assert forall a :: a in ActiveAt(s, u, c, role) ==> a in matching;
        return false, 0;
      }
      assignment := matching[0];
      DismissedLetsGo(s, u, assignment, c, role, resides);
      Detach(u, assignment, role, resides);
      ok := true;
    }
  }

  // ---------------------------------------------------------------- invariants

  /** No two active assignments of a user are both as guard, or both for the same complex and role. */
  ghost predicate NoDoubleAssignment(s: State) {
    forall a, b, u, role :: a != b && ActiveAs(s, a, u, role) && ActiveAs(s, b, u, role) ==>
      !role.Security? && s.assignments[a].complexId != s.assignments[b].complexId
  }

  /** An active guard belongs to the complex guarded and the account is neither inactive nor deleted. */
  ghost predicate GuardsInPlace(s: State) {
    forall a :: a in s.assignments && s.assignments[a].active && s.assignments[a].role.Security? ==>
      s.assignments[a].userId in s.users
      && s.users[s.assignments[a].userId].complexId == Some(s.assignments[a].complexId)
      && !s.users[s.assignments[a].userId].status.Inactive? && !s.users[s.assignments[a].userId].status.Deleted?
  }

  ghost predicate OwnersExist(s: State) {
    forall a :: a in s.assignments ==> s.assignments[a].userId in s.users
  }

  /** The staff roles of `u` are exactly those of its active assignments. */
  ghost predicate RolesMatch(s: State, u: UserId) {
    u in s.users && forall role :: IsStaffRole(role) ==>
      (role in s.users[u].roles <==> exists a :: ActiveAs(s, a, u, role))
  }

  ghost predicate Sound(s: State) {
    NoDoubleAssignment(s) && GuardsInPlace(s) && OwnersExist(s)
  }

  lemma RecruitKeepsSound(s: State, u: UserId, input: HireInput, a: AssignmentId)
    requires Sound(s) && u !in s.users && a !in s.assignments
    ensures Sound(Recruited(s, u, input, a))
  {
    var t := Recruited(s, u, input, a);
    assert forall b, v, role :: ActiveAs(s, b, v, role) ==> v in s.users;
    assert forall b, v, role :: b != a ==> (ActiveAs(t, b, v, role) <==> ActiveAs(s, b, v, role));
  }

  lemma RehireKeepsSound(s: State, u: UserId, input: HireInput, a: AssignmentId)
    requires Sound(s) && CanRehire(s, u, input) && a !in s.assignments
    ensures Sound(Rehired(s, u, input, a))
  {
    var t := Rehired(s, u, input, a);
    assert forall b :: b in ActiveWithRole(s, u, input.role) <==> ActiveAs(s, b, u, input.role);
    assert forall b :: b in ActiveAt(s, u, input.complexId, input.role) <==>
             ActiveAs(s, b, u, input.role) && s.assignments[b].complexId == input.complexId;
    assert forall b, v, role :: b != a ==> (ActiveAs(t, b, v, role) <==> ActiveAs(s, b, v, role));
    forall b | b in t.assignments && t.assignments[b].active && t.assignments[b].role.Security?
      ensures t.assignments[b].userId in t.users
      ensures t.users[t.assignments[b].userId].complexId == Some(t.assignments[b].complexId)
      ensures !t.users[t.assignments[b].userId].status.Inactive? && !t.users[t.assignments[b].userId].status.Deleted?
    {
      if b != a {
        assert ActiveAs(s, b, s.assignments[b].userId, Security);
      }
    }
  }

  lemma DismissKeepsSound(s: State, u: UserId, a: AssignmentId, c: ComplexId, role: RoleName, resides: bool)
    requires Sound(s) && CanDismiss(s, u, a, c, role)
    ensures Sound(Dismissed(s, u, a, role, resides))
  {
    var t := Dismissed(s, u, a, role, resides);
    assert forall b, v, r :: ActiveAs(t, b, v, r) <==> b != a && ActiveAs(s, b, v, r);
    forall b | b in t.assignments && t.assignments[b].active && t.assignments[b].role.Security?
      ensures t.users[t.assignments[b].userId].complexId == Some(t.assignments[b].complexId)
      ensures !t.users[t.assignments[b].userId].status.Inactive? && !t.users[t.assignments[b].userId].status.Deleted?
    {
      assert b != a && t.assignments[b] == s.assignments[b];
      if s.assignments[b].userId == u {
        assert b in ActiveAny(s, u) - {a};
        assert ActiveAs(s, a, u, role) && ActiveAs(s, b, u, Security);
      }
    }
  }

  lemma StepKeepsSound(s: State, op: Op)
    requires Sound(s)
    ensures Sound(Apply(s, op))
  {
    match op
    case Recruit(u, input, a) =>
      if CanRecruit(s, u, input) && a !in s.assignments {
        RecruitKeepsSound(s, u, input, a);
      }
    case Rehire(u, input, a) =>
      if CanRehire(s, u, input) && a !in s.assignments {
        RehireKeepsSound(s, u, input, a);
      }
    case Dismiss(u, a, c, role, resides) =>
      if CanDismiss(s, u, a, c, role) {
        DismissKeepsSound(s, u, a, c, role, resides);
      }
  }

  /** Roles match again after a step, for every account that matched and every account the step made. */
  lemma StepKeepsRolesMatching(s: State, op: Op, u: UserId)
    requires OwnersExist(s) && (u in s.users ==> RolesMatch(s, u)) && u in Apply(s, op).users
    ensures RolesMatch(Apply(s, op), u)
  {
    var t := Apply(s, op);
    forall role | IsStaffRole(role)
      ensures role in t.users[u].roles <==> exists a :: ActiveAs(t, a, u, role)
    {
      RoleMatches(s, op, u, role);
    }
  }

  lemma RoleMatches(s: State, op: Op, u: UserId, role: RoleName)
    requires OwnersExist(s) && (u in s.users ==> RolesMatch(s, u)) && u in Apply(s, op).users && IsStaffRole(role)
    ensures role in Apply(s, op).users[u].roles <==> exists a :: ActiveAs(Apply(s, op), a, u, role)
  {
    var t := Apply(s, op);
    if exists b :: ActiveAs(t, b, u, role) {
      var b :| ActiveAs(t, b, u, role);
      if b in s.assignments && s.assignments[b] == t.assignments[b] {
        assert ActiveAs(s, b, u, role);
        if op.Dismiss? && t != s && op.user == u && op.role == role {
          assert b in ActiveWithRole(s, u, role) - {op.assignment};
        }
      }
    }
    if role in t.users[u].roles {
      var holder := KeptAssignment(s, op, u, role);
      assert ActiveAs(t, holder, u, role);
    }
  }

  lemma KeptAssignment(s: State, op: Op, u: UserId, role: RoleName) returns (b: AssignmentId)
    requires OwnersExist(s) && (u in s.users ==> RolesMatch(s, u)) && u in Apply(s, op).users && IsStaffRole(role)
    requires role in Apply(s, op).users[u].roles
    ensures ActiveAs(Apply(s, op), b, u, role)
  {
    var t := Apply(s, op);
    if t != s && !op.Dismiss? && op.input.role == role && (if op.Recruit? then op.newUser else op.user) == u {
      b := op.newAssignment;
    } else if t != s && op.Dismiss? && op.user == u && op.role == role {
      b := Pick(ActiveWithRole(s, u, role) - {op.assignment});
    } else {
      b :| ActiveAs(s, b, u, role);
    }
  }

  /** Whatever is hired and dismissed, in every state of every run: no double assignments, guards in place. */
  lemma {:induction false} RunIsSound(s: State, ops: seq<Op>)
    requires Sound(s)
    ensures Sound(Run(s, ops))
    decreases |ops|
  {
    if ops != [] {
      StepKeepsSound(s, ops[0]);
      RunIsSound(Apply(s, ops[0]), ops[1..]);
    }
  }

  /** Accounts that only these calls made or changed hold a staff role exactly while assigned to it. */
  lemma {:induction false} RunKeepsRolesMatching(s: State, ops: seq<Op>, u: UserId)
    requires Sound(s) && (u in s.users ==> RolesMatch(s, u)) && u in Run(s, ops).users
    ensures RolesMatch(Run(s, ops), u)
    decreases |ops|
  {
    if ops != [] {
      var t := Apply(s, ops[0]);
      StepKeepsSound(s, ops[0]);
      if u in t.users {
        StepKeepsRolesMatching(s, ops[0], u);
      }
      RunKeepsRolesMatching(t, ops[1..], u);
    }
  }

  ghost predicate AddressesDiffer(s: State) {
    forall u, v :: u in s.users && v in s.users && u != v ==> s.users[u].email != s.users[v].email
  }

  /** No address ever belongs to two accounts. */
  lemma {:induction false} AddressesAlwaysDiffer(s: State, ops: seq<Op>)
    requires AddressesDiffer(s)
    ensures AddressesDiffer(Run(s, ops))
    decreases |ops|
  {
    if ops != [] {
      assert AddressesDiffer(Apply(s, ops[0]));
      AddressesAlwaysDiffer(Apply(s, ops[0]), ops[1..]);
    }
  }

  // ---------------------------------------------------------------- administrators

  /** The accounts that can administer the platform while the role itself is active. */
  function ActiveSuperAdmins(s: State): set<UserId> {
    set u | u in s.users && SuperAdmin in s.users[u].roles && s.users[u].status.Active? && !s.users[u].deletedAt
  }

  /**
    Dismissal has no protection of administrators: it takes the last active one away exactly
    when that is the account dismissed and neither a residence nor another assignment keeps
    it active, or the role dismissed is the administrator's own.
    */
  lemma DismissalTakesLastSuperAdminIff(s: State, u: UserId, a: AssignmentId, c: ComplexId, role: RoleName,
                                        resides: bool)
    requires CanDismiss(s, u, a, c, role) && ActiveSuperAdmins(s) != {}
    ensures ActiveSuperAdmins(Dismissed(s, u, a, role, resides)) == {} <==>
            ActiveSuperAdmins(s) == {u}
            && ((!resides && ActiveAny(s, u) == {a}) || (role.SuperAdmin? && ActiveWithRole(s, u, role) == {a}))
  {
    var t := Dismissed(s, u, a, role, resides);
    var before, after := ActiveSuperAdmins(s), ActiveSuperAdmins(t);
    assert a in ActiveAny(s, u) && a in ActiveWithRole(s, u, role);
    assert ActiveAny(s, u) - {a} == {} <==> ActiveAny(s, u) == {a};
    assert ActiveWithRole(s, u, role) - {a} == {} <==> ActiveWithRole(s, u, role) == {a};
    forall v | v != u
      ensures v in after <==> v in before
    {
    }
    if before == {u} {
      assert u in before;
      assert after == {} <==> u !in after;
    } else {
      var v := OtherMember(before, u);
      assert v in after;
    }
  }

  lemma OtherMember(s: set<UserId>, u: UserId) returns (v: UserId)
    requires s != {} && s != {u}
    ensures v in s && v != u
  {
    assert s <= {u} ==> s == {u};
    assert s - {u} == {} ==> s <= {u};
    v := Pick(s - {u});
  }

  /** The only administrator, also a guard who does not live in the complex, is dismissed as guard. */
  lemma LastSuperAdminDismissed(s: State)
    requires s == State(
      map[1 := Account("a@b.c", Some(5), Active, false, {SuperAdmin, Security, Resident})],
      map[9 := Assignment(1, 5, Security, true)])
    ensures CanDismiss(s, 1, 9, 5, Security) && ActiveSuperAdmins(s) == {1}
    ensures ActiveSuperAdmins(Dismissed(s, 1, 9, Security, false)) == {}
  {
    assert s.users[1].status == Active && s.assignments[9].active;
    assert 9 in ActiveAt(s, 1, 5, Security) && 1 in ActiveSuperAdmins(s);
    assert ActiveSuperAdmins(s) == {1};
    assert ActiveAny(s, 1) == {9};
    DismissalTakesLastSuperAdminIff(s, 1, 9, 5, Security, false);
  }
}

/**
  Suspension, deletion and their reversal, password changes, the token version that cuts
  every earlier session, and the protection of the last active super administrator.
  */
module Accounts {
  import opened Wrappers
  import opened UserDomain

  datatype Account = Account(
    complexId: Option<ComplexId>, status: Status, deletedAt: bool, tokenVersion: nat,
    mustChangePassword: bool, roles: set<RoleName>)

  type Users = map<UserId, Account>

  /** Who calls, if a session is known, and whether that session carries SUPER_ADMIN. */
  datatype Caller = Caller(id: UserId, superAdmin: bool)

  datatype Op =
    | Suspend(user: UserId, callerComplex: Option<ComplexId>, caller: Option<Caller>)
    | Reactivate(user: UserId, callerComplex: Option<ComplexId>, caller: Option<Caller>)
    | DeleteUser(user: UserId, caller: Option<Caller>)
    | RestoreUser(user: UserId)
    | ChangePassword(user: UserId, accepted: bool)
    | ResetPassword(user: UserId, callerComplex: Option<ComplexId>, caller: Option<Caller>)
    | CompletePasswordChange(user: UserId)

  predicate IsSuperCaller(caller: Option<Caller>) {
    caller.Some? && caller.value.superAdmin
  }

  predicate IsSelf(caller: Option<Caller>, u: UserId) {
    caller.Some? && caller.value.id == u
  }

  predicate SameComplex(account: Account, callerComplex: Option<ComplexId>) {
    callerComplex.Some? ==> account.complexId == callerComplex
  }

  /** The accounts that can administer the platform; none while the role itself is switched off. */
  function ActiveSuperAdmins(users: Users, roleActive: bool): set<UserId> {
    set u | u in users && roleActive && SuperAdmin in users[u].roles && users[u].status.Active? && !users[u].deletedAt
  }

  /** A super administrator is removed only by another, and never as the last active one. */
  predicate MayBeRemoved(users: Users, roleActive: bool, u: UserId, callerIsSuper: bool)
    requires u in users
  {
    roleActive && SuperAdmin in users[u].roles ==> callerIsSuper && ActiveSuperAdmins(users, roleActive) - {u} != {}
  }

  predicate Allowed(users: Users, roleActive: bool, op: Op) {
    op.user in users
    && var account := users[op.user];
    match op
    case Suspend(u, complex, caller) =>
      !IsSelf(caller, u) && (IsSuperCaller(caller) || SameComplex(account, complex))
      && !account.status.Suspended? && !account.status.Deleted?
      && MayBeRemoved(users, roleActive, u, IsSuperCaller(caller))
    case Reactivate(u, complex, caller) =>
      (IsSuperCaller(caller) || SameComplex(account, complex)) && account.status.Suspended?
    case DeleteUser(u, caller) =>
      !IsSelf(caller, u) && !account.status.Deleted? && MayBeRemoved(users, roleActive, u, IsSuperCaller(caller))
    case RestoreUser(u) => account.status.Deleted?
    case ChangePassword(u, accepted) => accepted
    case ResetPassword(u, complex, caller) =>
      SameComplex(account, complex)
      && exists r :: r in account.roles && if IsSuperCaller(caller) then IsPasswordRole(r) else IsResettableStaff(r)
    case CompletePasswordChange(u) => account.mustChangePassword
  }

  function Effect(account: Account, op: Op): Account {
    var cut := account.tokenVersion + 1;
    match op
    case Suspend(_, _, _) => account.(status := Suspended, tokenVersion := cut)
    case Reactivate(_, _, _) => account.(status := Active, tokenVersion := cut)
    case DeleteUser(_, _) => account.(status := Deleted, deletedAt := true, tokenVersion := cut)
    case RestoreUser(_) => account.(status := Active, deletedAt := false)
    case ChangePassword(_, _) => account.(mustChangePassword := false, tokenVersion := cut)
    case ResetPassword(_, _, _) => account.(mustChangePassword := true, tokenVersion := cut)
    case CompletePasswordChange(_) => account.(mustChangePassword := false, tokenVersion := cut)
  }

  function Apply(users: Users, roleActive: bool, op: Op): Users {
    if Allowed(users, roleActive, op) then users[op.user := Effect(users[op.user], op)] else users
  }

  /** The calls after which no token issued before may pass. */
  predicate IsCut(op: Op) {
    !op.RestoreUser?
  }

  // ---------------------------------------------------------------- the service

  /** Some other account is an active super administrator. */
  ghost predicate AnotherSuperAdmin(users: Users, u: UserId) {
    exists v :: v in users && v != u && SuperAdmin in users[v].roles && users[v].status == Active && !users[v].deletedAt
  }

  /** The caller is another super administrator, if the account is one at all, and it is not the last. */
  ghost predicate Expendable(users: Users, roleActive: bool, u: UserId, callerIsSuper: bool)
    requires u in users
  {
    !roleActive || SuperAdmin !in users[u].roles || (callerIsSuper && AnotherSuperAdmin(users, u))
  }

  lemma ExpendableIff(users: Users, roleActive: bool, u: UserId, callerIsSuper: bool)
    requires u in users
    ensures MayBeRemoved(users, roleActive, u, callerIsSuper) <==> Expendable(users, roleActive, u, callerIsSuper)
  {
    var others := ActiveSuperAdmins(users, roleActive) - {u};
    if others != {} {
      var v := Pick(others);
      assert v in users && v != u && SuperAdmin in users[v].roles;
    }
    if roleActive && AnotherSuperAdmin(users, u) {
      var v :| v in users && v != u && SuperAdmin in users[v].roles && users[v].status == Active && !users[v].deletedAt;
      assert v in others;
    }
  }

  class Service {
    var users: Users
    const roleActive: bool

    constructor (users: Users, roleActive: bool)
      ensures this.users == users && this.roleActive == roleActive
    {
      this.users, this.roleActive := users, roleActive;
    }

    method AssertSuperAdminCanBeRemoved(u: UserId, callerIsSuper: bool) returns (ok: bool)
      requires u in users
      ensures ok <==> MayBeRemoved(users, roleActive, u, callerIsSuper)
      ensures ok <==> Expendable(users, roleActive, u, callerIsSuper)
    {
      ExpendableIff(users, roleActive, u, callerIsSuper);
      if !roleActive || SuperAdmin !in users[u].roles {
        return true;
      }
      if !callerIsSuper {
        return false;
      }
      var others := ActiveSuperAdmins(users, roleActive) - {u};
      var otherActive := |others|;
      assert otherActive == 0 <==> others == {};
      ok := otherActive != 0;
    }

    method SuspendUser(u: UserId, callerComplex: Option<ComplexId>, caller: Option<Caller>) returns (ok: bool)
      modifies this`users
      ensures ok <==> Allowed(old(users), roleActive, Suspend(u, callerComplex, caller))
      ensures users == Apply(old(users), roleActive, Suspend(u, callerComplex, caller))
      ensures ok <==> u in old(users) && (caller.Some? ==> caller.value.id != u)
                      && (!(caller.Some? && caller.value.superAdmin) && callerComplex.Some? ==>
                            old(users)[u].complexId == callerComplex)
                      && old(users)[u].status != Suspended && old(users)[u].status != Deleted
                      && Expendable(old(users), roleActive, u, caller.Some? && caller.value.superAdmin)
      ensures ok ==> users == old(users)[u := old(users)[u].(
                                status := Suspended, tokenVersion := old(users)[u].tokenVersion + 1)]
    {
      if u !in users || IsSelf(caller, u) {
        return false;
      }
      var callerIsSuper := IsSuperCaller(caller);
      if !callerIsSuper && callerComplex.Some? && users[u].complexId != callerComplex {
        return false;
      }
      if users[u].status.Suspended? || users[u].status.Deleted? {
        return false;
      }
      var removable := AssertSuperAdminCanBeRemoved(u, callerIsSuper);
      if !removable {
        return false;
      }
      users := users[u := users[u].(status := Suspended, tokenVersion := users[u].tokenVersion + 1)];
      ok := true;
    }

    method ReactivateUser(u: UserId, callerComplex: Option<ComplexId>, caller: Option<Caller>) returns (ok: bool)
      modifies this`users
      ensures ok <==> Allowed(old(users), roleActive, Reactivate(u, callerComplex, caller))
      ensures users == Apply(old(users), roleActive, Reactivate(u, callerComplex, caller))
      ensures ok <==> u in old(users) && old(users)[u].status == Suspended
                      && (!(caller.Some? && caller.value.superAdmin) && callerComplex.Some? ==>
                            old(users)[u].complexId == callerComplex)
      ensures ok ==> users == old(users)[u := old(users)[u].(
                                status := Active, tokenVersion := old(users)[u].tokenVersion + 1)]
    {
      if u !in users {
        return false;
      }
      if !IsSuperCaller(caller) && callerComplex.Some? && users[u].complexId != callerComplex {
        return false;
      }
      if !users[u].status.Suspended? {
        return false;
      }
      users := users[u := users[u].(status := Active, tokenVersion := users[u].tokenVersion + 1)];
      ok := true;
    }

    /** One transaction: the account is saved, then the version is raised in the row itself. */
    method Delete(u: UserId, caller: Option<Caller>) returns (ok: bool)
      modifies this`users
      ensures ok <==> Allowed(old(users), roleActive, DeleteUser(u, caller))
      ensures users == Apply(old(users), roleActive, DeleteUser(u, caller))
      ensures ok <==> u in old(users) && (caller.Some? ==> caller.value.id != u) && old(users)[u].status != Deleted
                      && Expendable(old(users), roleActive, u, caller.Some? && caller.value.superAdmin)
      ensures ok ==> users == old(users)[u := old(users)[u].(
                                status := Deleted, deletedAt := true, tokenVersion := old(users)[u].tokenVersion + 1)]
    {
      if u !in users || IsSelf(caller, u) || users[u].status.Deleted? {
        return false;
      }
      var removable := AssertSuperAdminCanBeRemoved(u, IsSuperCaller(caller));
      if !removable {
        return false;
      }
      var pending := users[u := users[u].(status := Deleted, deletedAt := true)];
      pending := pending[u := pending[u].(tokenVersion := pending[u].tokenVersion + 1)];
      users := pending;
      ok := true;
    }

    method Restore(u: UserId) returns (ok: bool)
      modifies this`users
      ensures ok <==> Allowed(old(users), roleActive, RestoreUser(u))
      ensures users == Apply(old(users), roleActive, RestoreUser(u))
      ensures ok <==> u in old(users) && old(users)[u].status == Deleted
      ensures ok ==> users == old(users)[u := old(users)[u].(status := Active, deletedAt := false)]
    {
      if u !in users || !users[u].status.Deleted? {
        return false;
      }
      users := users[u := users[u].(status := Active, deletedAt := false)];
      ok := true;
    }

    /** `matches` is the comparison of the current password with its hash. */
    method ChangePassword(u: UserId, currentPassword: string, newPassword: string, confirmPassword: string,
                          matches: bool)
      returns (ok: bool)
      modifies this`users
      ensures ok <==> u in old(users) && newPassword == confirmPassword && currentPassword != newPassword && matches
      ensures users == Apply(old(users), roleActive, Op.ChangePassword(u, ok))
      ensures ok ==> users == old(users)[u := old(users)[u].(
                                mustChangePassword := false, tokenVersion := old(users)[u].tokenVersion + 1)]
    {
      if newPassword != confirmPassword || currentPassword == newPassword || u !in users || !matches {
        return false;
      }
      users := users[u := users[u].(mustChangePassword := false, tokenVersion := users[u].tokenVersion + 1)];
      ok := true;
    }

    method AdminResetPassword(u: UserId, callerComplex: Option<ComplexId>, caller: Option<Caller>) returns (ok: bool)
      modifies this`users
      ensures ok <==> Allowed(old(users), roleActive, ResetPassword(u, callerComplex, caller))
      ensures users == Apply(old(users), roleActive, ResetPassword(u, callerComplex, caller))
      ensures ok <==> u in old(users) && (callerComplex.Some? ==> old(users)[u].complexId == callerComplex)
                      && !(old(users)[u].roles !!
                           ({Security, Supervisor, Accountant}
                            + if caller.Some? && caller.value.superAdmin
                              then {SuperAdmin, ComplianceOfficer, ComplexAccount} else {}))
      ensures ok ==> users == old(users)[u := old(users)[u].(
                                mustChangePassword := true, tokenVersion := old(users)[u].tokenVersion + 1)]
    {
      if u !in users || (callerComplex.Some? && users[u].complexId != callerComplex) {
        return false;
      }
      var callerIsSuper := IsSuperCaller(caller);
      var canSet :=
        exists r :: r in users[u].roles && if callerIsSuper then IsPasswordRole(r) else IsResettableStaff(r);
      if !canSet {
        return false;
      }
      users := users[u := users[u].(mustChangePassword := true, tokenVersion := users[u].tokenVersion + 1)];
      ok := true;
    }

    method CompleteRequiredPasswordChange(u: UserId) returns (ok: bool)
      modifies this`users
      ensures ok <==> Allowed(old(users), roleActive, CompletePasswordChange(u))
      ensures users == Apply(old(users), roleActive, CompletePasswordChange(u))
      ensures ok <==> u in old(users) && old(users)[u].mustChangePassword
      ensures ok ==> users == old(users)[u := old(users)[u].(
                                mustChangePassword := false, tokenVersion := old(users)[u].tokenVersion + 1)]
    {
      if u !in users || !users[u].mustChangePassword {
        return false;
      }
      users := users[u := users[u].(mustChangePassword := false, tokenVersion := users[u].tokenVersion + 1)];
      ok := true;
    }
  }

  // ---------------------------------------------------------------- runs

  /** The states of a run, from the first one on. */
  function Run(users: Users, roleActive: bool, ops: seq<Op>): (states: seq<Users>)
    ensures |states| == |ops| + 1 && states[0] == users
    decreases |ops|
  {
    if ops == [] then [users] else [users] + Run(Apply(users, roleActive, ops[0]), roleActive, ops[1..])
  }

  /** Each state of a run is the step from the one before. */
  lemma {:induction false} RunStep(users: Users, roleActive: bool, ops: seq<Op>, k: nat)
    requires k < |ops|
    ensures Run(users, roleActive, ops)[k + 1] == Apply(Run(users, roleActive, ops)[k], roleActive, ops[k])
    decreases k
  {
    if k > 0 {
      RunStep(Apply(users, roleActive, ops[0]), roleActive, ops[1..], k - 1);
    }
  }

  /** The version of an account never falls. */
  lemma {:induction false} VersionNeverFalls(users: Users, roleActive: bool, ops: seq<Op>, u: UserId, i: nat, j: nat)
    requires i <= j <= |ops| && u in Run(users, roleActive, ops)[i]
    ensures u in Run(users, roleActive, ops)[j]
    ensures Run(users, roleActive, ops)[i][u].tokenVersion <= Run(users, roleActive, ops)[j][u].tokenVersion
    decreases j
  {
    if i < j {
      VersionNeverFalls(users, roleActive, ops, u, i, j - 1);
      RunStep(users, roleActive, ops, j - 1);
    }
  }

  /**
    A token carries the version its account had when it was issued. Once a suspension,
    reactivation, deletion or password change of the account has gone through, the version
    never equals the token's again, whatever follows.
    */
  lemma OldTokensNeverPassAgain(users: Users, roleActive: bool, ops: seq<Op>, u: UserId, issued: nat, cut: nat,
                                later: nat)
    requires issued <= cut < |ops| && cut < later <= |ops|
    requires u in Run(users, roleActive, ops)[issued]
    requires ops[cut].user == u && IsCut(ops[cut]) && Allowed(Run(users, roleActive, ops)[cut], roleActive, ops[cut])
    ensures u in Run(users, roleActive, ops)[later]
    ensures Run(users, roleActive, ops)[later][u].tokenVersion > Run(users, roleActive, ops)[issued][u].tokenVersion
  {
    VersionNeverFalls(users, roleActive, ops, u, issued, cut);
    RunStep(users, roleActive, ops, cut);
    VersionNeverFalls(users, roleActive, ops, u, cut + 1, later);
  }

  /** No single call takes the last active super administrator away. */
  lemma StepKeepsSuperAdmin(users: Users, roleActive: bool, op: Op)
    requires ActiveSuperAdmins(users, roleActive) != {}
    ensures ActiveSuperAdmins(Apply(users, roleActive, op), roleActive) != {}
  {
    var before := ActiveSuperAdmins(users, roleActive);
    var after := ActiveSuperAdmins(Apply(users, roleActive, op), roleActive);
    var a := Pick(before);
    if Allowed(users, roleActive, op) && op.user == a && (op.Suspend? || op.DeleteUser?) {
      assert MayBeRemoved(users, roleActive, a, IsSuperCaller(op.caller));
      var other := Pick(before - {a});
      assert other in before && other in after;
    } else {
      assert a in after;
    }
  }

  /** The platform never loses its last active super administrator in a run. */
  lemma {:induction false} SuperAdminsRemain(users: Users, roleActive: bool, ops: seq<Op>, k: nat)
    requires ActiveSuperAdmins(users, roleActive) != {} && k <= |ops|
    ensures ActiveSuperAdmins(Run(users, roleActive, ops)[k], roleActive) != {}
    decreases k
  {
    if k > 0 {
      SuperAdminsRemain(users, roleActive, ops, k - 1);
      RunStep(users, roleActive, ops, k - 1);
      StepKeepsSuperAdmin(Run(users, roleActive, ops)[k - 1], roleActive, ops[k - 1]);
    }
  }

  // ---------------------------------------------------------------- status and passwords over runs

  /** No call changes another account, or the roles or complex of its own, or makes or drops an account. */
  lemma {:induction false} OnlyOwnAccountChanges(users: Users, roleActive: bool, ops: seq<Op>, u: UserId,
                                                 i: nat, j: nat)
    requires i <= j <= |ops|
    ensures Run(users, roleActive, ops)[j].Keys == Run(users, roleActive, ops)[i].Keys
    ensures u in Run(users, roleActive, ops)[i] ==>
              Run(users, roleActive, ops)[j][u].roles == Run(users, roleActive, ops)[i][u].roles
              && Run(users, roleActive, ops)[j][u].complexId == Run(users, roleActive, ops)[i][u].complexId
    ensures u in Run(users, roleActive, ops)[i] && (forall k :: i <= k < j ==> ops[k].user != u) ==>
              Run(users, roleActive, ops)[j][u] == Run(users, roleActive, ops)[i][u]
    decreases j
  {
    if i < j {
      OnlyOwnAccountChanges(users, roleActive, ops, u, i, j - 1);
      RunStep(users, roleActive, ops, j - 1);
    }
  }

  /** The call `k` of the run concerns `u` and is carried out. */
  predicate Done(users: Users, roleActive: bool, ops: seq<Op>, k: nat, u: UserId)
    requires k < |ops|
  {
    ops[k].user == u && Allowed(Run(users, roleActive, ops)[k], roleActive, ops[k])
  }

  /** No call from `i` up to `j` that could lift a suspension of `u` is carried out. */
  ghost predicate NotLifted(users: Users, roleActive: bool, ops: seq<Op>, u: UserId, i: nat, j: nat) {
    i <= j <= |ops|
    && forall k :: i <= k < j && (ops[k].Reactivate? || ops[k].DeleteUser? || ops[k].RestoreUser?) ==>
         !Done(users, roleActive, ops, k, u)
  }

  /** A suspended account stays so until it is reactivated, deleted or restored. */
  lemma {:induction false} SuspendedUntilLifted(users: Users, roleActive: bool, ops: seq<Op>, u: UserId,
                                                cut: nat, later: nat)
    requires cut < later <= |ops| && ops[cut].Suspend? && Done(users, roleActive, ops, cut, u)
    requires NotLifted(users, roleActive, ops, u, cut + 1, later)
    ensures u in Run(users, roleActive, ops)[later] && Run(users, roleActive, ops)[later][u].status == Suspended
    decreases later
  {
    RunStep(users, roleActive, ops, later - 1);
    if cut < later - 1 {
      SuspendedUntilLifted(users, roleActive, ops, u, cut, later - 1);
      assert !Done(users, roleActive, ops, later - 1, u)
             || !(ops[later - 1].Reactivate? || ops[later - 1].DeleteUser? || ops[later - 1].RestoreUser?);
    }
  }

  /** The account's status and its mark as deleted. */
  function Standing(account: Account): (Status, bool) {
    (account.status, account.deletedAt)
  }

  /** What each kind of call leaves of status and mark. */
  lemma StandingAfter(users: Users, roleActive: bool, ops: seq<Op>, k: nat, u: UserId)
    requires k < |ops| && Done(users, roleActive, ops, k, u)
    ensures u in Run(users, roleActive, ops)[k] && u in Run(users, roleActive, ops)[k + 1]
    ensures var before, after := Run(users, roleActive, ops)[k][u], Run(users, roleActive, ops)[k + 1][u];
            match ops[k]
            case Suspend(_, _, _) => Standing(after) == (Suspended, before.deletedAt)
            case Reactivate(_, _, _) => Standing(after) == (Active, before.deletedAt)
            case DeleteUser(_, _) => Standing(after) == (Deleted, true)
            case RestoreUser(_) => Standing(after) == (Active, false)
            case _ => Standing(after) == Standing(before)
  {
    RunStep(users, roleActive, ops, k);
  }

  /** Exactly the deleted accounts are marked as such. */
  ghost predicate MarksAgree(users: Users) {
    forall u :: u in users ==> (users[u].deletedAt <==> users[u].status == Deleted)
  }

  /** It stays so in every state of a run; in particular no reactivated account is marked as deleted. */
  lemma {:induction false} MarksAlwaysAgree(users: Users, roleActive: bool, ops: seq<Op>, k: nat)
    requires MarksAgree(users) && k <= |ops|
    ensures MarksAgree(Run(users, roleActive, ops)[k])
    decreases k
  {
    if k > 0 {
      MarksAlwaysAgree(users, roleActive, ops, k - 1);
      RunStep(users, roleActive, ops, k - 1);
    }
  }

  /** No password change of `u` is carried out from `i` up to `j`. */
  ghost predicate NotChanged(users: Users, roleActive: bool, ops: seq<Op>, u: UserId, i: nat, j: nat) {
    i <= j <= |ops|
    && forall k :: i <= k < j && (ops[k].ChangePassword? || ops[k].CompletePasswordChange?) ==>
         !Done(users, roleActive, ops, k, u)
  }

  /** After a reset the change is demanded, and its completion accepted, until the password is changed. */
  lemma {:induction false} ResetDemandsChange(users: Users, roleActive: bool, ops: seq<Op>, u: UserId,
                                              cut: nat, later: nat)
    requires cut < later <= |ops| && ops[cut].ResetPassword? && Done(users, roleActive, ops, cut, u)
    requires NotChanged(users, roleActive, ops, u, cut + 1, later)
    ensures u in Run(users, roleActive, ops)[later] && Run(users, roleActive, ops)[later][u].mustChangePassword
    ensures Allowed(Run(users, roleActive, ops)[later], roleActive, CompletePasswordChange(u))
    decreases later
  {
    RunStep(users, roleActive, ops, later - 1);
    if cut < later - 1 {
      ResetDemandsChange(users, roleActive, ops, u, cut, later - 1);
      assert !Done(users, roleActive, ops, later - 1, u)
             || !(ops[later - 1].ChangePassword? || ops[later - 1].CompletePasswordChange?);
    }
  }

  /** No reset of `u` is carried out from `i` up to `j`. */
  ghost predicate NotReset(users: Users, roleActive: bool, ops: seq<Op>, u: UserId, i: nat, j: nat) {
    i <= j <= |ops| && forall k :: i <= k < j && ops[k].ResetPassword? ==> !Done(users, roleActive, ops, k, u)
  }

  /** A change of the password meets the demand, and a second completion is refused until the next reset. */
  lemma {:induction false} ChangeMeetsDemand(users: Users, roleActive: bool, ops: seq<Op>, u: UserId,
                                             cut: nat, later: nat)
    requires cut < later <= |ops| && Done(users, roleActive, ops, cut, u)
    requires ops[cut].ChangePassword? || ops[cut].CompletePasswordChange?
    requires NotReset(users, roleActive, ops, u, cut + 1, later)
    ensures u in Run(users, roleActive, ops)[later] && !Run(users, roleActive, ops)[later][u].mustChangePassword
    ensures !Allowed(Run(users, roleActive, ops)[later], roleActive, CompletePasswordChange(u))
    decreases later
  {
    RunStep(users, roleActive, ops, later - 1);
    if cut < later - 1 {
      ChangeMeetsDemand(users, roleActive, ops, u, cut, later - 1);
      assert !Done(users, roleActive, ops, later - 1, u) || !ops[later - 1].ResetPassword?;
    }
  }
}

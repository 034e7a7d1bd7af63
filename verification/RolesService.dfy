/**
  The roles service over its table. Transactional operations read the committed rows and
  write a pending copy that replaces the table only when every check has passed.
  */
module RolesService {
  import opened Wrappers
  import opened RoleForest
  import opened RoleTraversal
  import opened RoleContracts
  import opened RolePermissions
  import opened RoleOperations
  import opened UserDomain

  /** What the service reads and writes of an account: its roles, whether it is active, its token version. */
  datatype Account = Account(roles: set<RoleId>, active: bool, tokenVersion: nat)

  type Accounts = map<UserId, Account>

  function ActiveHolders(accounts: Accounts, r: RoleId): set<UserId> {
    set u | u in accounts && r in accounts[u].roles && accounts[u].active
  }

  /** The tokens of all holders of `r`, active or not, are out of date. */
  function HoldersBumped(accounts: Accounts, r: RoleId): Accounts {
    map u | u in accounts ::
      if r in accounts[u].roles then accounts[u].(tokenVersion := accounts[u].tokenVersion + 1) else accounts[u]
  }

  /** The tokens of the complexes themselves, which hold the role of this name. */
  function ComplexesBumped(versions: map<ComplexId, nat>, t: Table, r: RoleId): map<ComplexId, nat> {
    if r in t && t[r].name == "COMPLEX_ROL" then map c | c in versions :: versions[c] + 1 else versions
  }

  /** The version of exactly the holders rises, so no token they carry matches any more. */
  ghost predicate HoldersOutdated(before: Accounts, after: Accounts, r: RoleId) {
    && after.Keys == before.Keys
    && forall u :: u in before ==>
         && after[u] == before[u].(tokenVersion := after[u].tokenVersion)
         && after[u].tokenVersion == before[u].tokenVersion + if r in before[u].roles then 1 else 0
  }

  ghost predicate AllOutdated(before: map<ComplexId, nat>, after: map<ComplexId, nat>) {
    after.Keys == before.Keys && forall c :: c in before ==> after[c] == before[c] + 1
  }

  /** An ordinary active role that no active role hangs under and no active account holds. */
  ghost predicate Removable(t: Table, accounts: Accounts, r: RoleId) {
    && r in t && t[r].active && !t[r].system && t[r].name !in {"SUPER_ADMIN_ROL", "RESIDENT_ROL", "COMPLEX_ROL"}
    && (forall c :: c in t && t[c].parent == Some(r) ==> !t[c].active)
    && forall u :: u in accounts && r in accounts[u].roles ==> !accounts[u].active
  }

  lemma CanRemoveIff(t: Table, accounts: Accounts, r: RoleId)
    ensures CanRemove(t, r, |ActiveHolders(accounts, r)|) <==> Removable(t, accounts, r)
  {
    var holders := ActiveHolders(accounts, r);
    assert |holders| == 0 <==> holders == {};
    if holders != {} {
      var u := Pick(holders);
      assert u in accounts && r in accounts[u].roles && accounts[u].active;
    } else {
      forall u | u in accounts && r in accounts[u].roles
        ensures !accounts[u].active
      {
        assert u !in holders;
      }
    }
  }

  class Service {
    var rows: Table
    var accounts: Accounts
    var complexVersions: map<ComplexId, nat>
    const catalog: Catalog

    constructor (rows: Table, accounts: Accounts, complexVersions: map<ComplexId, nat>, catalog: Catalog)
      requires Forest(rows)
      ensures this.rows == rows && this.accounts == accounts && this.complexVersions == complexVersions
      ensures this.catalog == catalog && Valid()
    {
      this.rows, this.accounts, this.complexVersions := rows, accounts, complexVersions;
      this.catalog := catalog;
    }

    ghost predicate Valid()
      reads this
    {
      Forest(rows)
    }

    // -------------------------------------------------------------- inheritance

    /** Recomputes and stores every ancestor from `start` upwards, reading its own writes. */
    method UpdateParents(start: Option<RoleId>)
      requires Valid()
      modifies this`rows
      ensures Valid()
      ensures rows == if start.Some? then Saturate(old(rows), Ancestry(old(rows), start.value)) else old(rows)
    {
      if start.None? {
        return;
      }
      ghost var before := rows;
      var ancestors := AncestorChain(rows, start.value);
      for i := 0 to |ancestors|
        invariant rows == Saturate(before, Elements(ancestors[..i]))
      {
        var ancestor := ancestors[i];
        assert ancestor in ancestors;
        ghost var n: nat :| Up(before, start.value, n) == Some(ancestor);
        UpInTable(before, start.value, n);
        ghost var done := Elements(ancestors[..i]);
        ForestSameShape(before, rows);
        var effective := CalculateEffectivePermissions(rows, ancestor);
        SaturateTwice(before, done, {ancestor});
        assert rows[ancestor := rows[ancestor].(perms := effective)] == Saturate(rows, {ancestor});
        ElementsStep(ancestors, i);
        rows := rows[ancestor := rows[ancestor].(perms := effective)];
      }
      assert ancestors[..|ancestors|] == ancestors;
      assert forall a :: a in before ==> (a in Elements(ancestors) <==> a in Ancestry(before, start.value));
      ForestSameShape(before, rows);
    }

    /** One pass over the active roles, in whatever order the query delivered them. */
    method RefreshInverseInheritance(order: seq<RoleId>)
      requires Valid()
      requires forall r :: r in order <==> r in rows && rows[r].active
      modifies this`rows
      ensures Valid() && rows == Refreshed(old(rows))
      ensures AllRefreshed(old(rows), rows)
      ensures forall a, d :: a in rows && d in rows && old(rows)[d].active && ProperlyBelow(old(rows), a, d) ==>
                rows[a] == old(rows)[a].(perms := SubtreePerms(old(rows), a))
      ensures forall a :: a in rows && (forall d :: ProperlyBelow(old(rows), a, d) ==> !old(rows)[d].active) ==>
                rows[a] == old(rows)[a]
    {
      ghost var before := rows;
      assert Saturate(before, AboveAny(before, {})) == before;
      for i := 0 to |order|
        invariant Valid() && rows == Saturate(before, AboveAny(before, Elements(order[..i])))
      {
        var role := order[i];
        assert role in order;
        RefreshStep(before, Elements(order[..i]), role, rows);
        if rows[role].parent.Some? {
          UpdateParents(rows[role].parent);
        }
        ElementsStep(order, i);
      }
      assert order[..|order|] == order;
      assert Elements(order) == ActiveRoles(before) by {
        assert forall r :: r in Elements(order) <==> r in ActiveRoles(before);
      }
      RefreshedRows(before);
      RefreshMeans(before);
    }

    // -------------------------------------------------------------- create

    method Create(id: RoleId, input: CreateInput) returns (ok: bool)
      requires Valid() && id !in rows
      modifies this`rows
      ensures Valid()
      ensures ok <==> CanCreate(old(rows), catalog, input)
      ensures rows == if ok then Created(old(rows), id, input) else old(rows)
      ensures ok <==> (forall r :: r in old(rows) ==> old(rows)[r].name != input.name)
                      && Grantable(catalog, input.permissionIds)
                      && Placeable(old(rows), input.parentId, input.level)
      ensures ok ==> RoleCreated(old(rows), rows, id, input)
    {
      CanCreateIff(rows, catalog, input);
      if NameTaken(rows, input.name) {
        return false;
      }
      var permissions := ValidatePermissions(catalog, input.permissionIds);
      if permissions.None? {
        return false;
      }
      var parentLevel := None;
      if input.parentId.Some? {
        if !ValidParent(rows, input.parentId.value, input.level) {
          return false;
        }
        parentLevel := Some(rows[input.parentId.value].level);
      }
      if !ValidHierarchy(input.level, parentLevel) {
        return false;
      }
      ghost var before := rows;
      var row := Role(input.name, input.parentId, input.level, true, input.system, permissions.value);
      rows := rows[id := row];
      AddLeaf(before, id, row, rows);
      CreatedMeans(before, id, input);
      UpdateParents(input.parentId);
      ok := true;
    }

    // -------------------------------------------------------------- reparenting

    /** The shared check on a new parent: descendants first, then the role itself, then the parent. */
    method ValidateNewParent(role: RoleId, newParent: RoleId) returns (ok: bool)
      requires Valid() && role in rows
      ensures ok <==> CanHang(rows, role, newParent)
      ensures ok <==> Acceptable(rows, role, newParent)
    {
      BelowStep(rows, role, newParent);
      var descendants := DescendantChain(rows, role);
      if newParent in descendants {
        return false;
      }
      if role == newParent {
        return false;
      }
      if newParent !in rows || !rows[newParent].active {
        return false;
      }
      ok := rows[newParent].level < rows[role].level;
    }

    /**
      The new ancestors are stored over the repository's own connection, the former ones with
      the change itself.
      */
    method ChangeRoleParent(role: RoleId, newParent: Option<RoleId>) returns (ok: bool)
      requires Valid()
      modifies this`rows
      ensures Valid()
      ensures ok <==> CanReparent(old(rows), role, newParent)
      ensures rows == if ok then ParentChangeSaved(old(rows), role, newParent) else old(rows)
      ensures ok <==> role in old(rows) && (newParent.Some? ==> Acceptable(old(rows), role, newParent.value))
      ensures ok ==> ParentIsChanged(old(rows), rows, role, newParent)
    {
      if role !in rows {
        return false;
      }
      var loaded := rows[role];
      if newParent.Some? {
        var valid := ValidateNewParent(role, newParent.value);
        if !valid {
          return false;
        }
      }
      var oldAncestors := ChainOf(rows, loaded.parent);
      if newParent.Some? && !ValidParent(rows, newParent.value, loaded.level) {
        return false;
      }
      ghost var before := rows;
      ReparentedForest(before, role, newParent);
      UpdateParents(newParent);
      var pending := rows[role := loaded.(parent := newParent)];
      pending := StoreUnions(rows, pending, oldAncestors);
      SavedInTwoParts(before, rows, AncestryOf(before, newParent), pending, Elements(oldAncestors), role, newParent);
      rows := pending;
      ParentChangeMeans(before, role, newParent);
      ok := true;
    }

    /** The row loaded first is saved last, with its new parent and the level it was loaded with. */
    method MoveRoleSubtree(role: RoleId, newParent: Option<RoleId>) returns (ok: bool)
      requires Valid()
      modifies this`rows
      ensures Valid()
      ensures ok <==> CanReparent(old(rows), role, newParent)
      ensures rows == if ok then MoveSaved(old(rows), role, newParent) else old(rows)
      ensures ok <==> role in old(rows) && (newParent.Some? ==> Acceptable(old(rows), role, newParent.value))
      ensures ok ==> SubtreeIsMoved(old(rows), rows, role, newParent)
    {
      if role !in rows {
        return false;
      }
      var loaded := rows[role];
      var baseLevel := 0;
      if newParent.Some? {
        var valid := ValidateNewParent(role, newParent.value);
        if !valid {
          return false;
        }
        baseLevel := rows[newParent.value].level + 1;
      }
      assert baseLevel == BaseLevel(rows, newParent);
      ReparentedForest(rows, role, newParent);
      var pending := UpdateSubtreeLevels(rows, role, baseLevel);
      pending := pending[role := loaded.(parent := newParent)];
      var ancestors := ChainOf(rows, newParent);
      pending := StoreUnions(rows, pending, ancestors);
      assert pending == MoveSaved(rows, role, newParent);
      MoveMeans(rows, role, newParent);
      rows := pending;
      ok := true;
    }

    /** The ancestors of a child before its assignment and after it. */
    method AncestorsAffected(child: RoleId, parent: RoleId) returns (affected: set<RoleId>)
      requires Valid() && child in rows
      ensures affected == ProperAncestry(rows, child) + Ancestry(rows, parent)
    {
      var oldAncestors := ChainOf(rows, rows[child].parent);
      var newAncestors := ChainOf(rows, Some(parent));
      affected := Elements(oldAncestors) + Elements(newAncestors);
    }

    /** Every item is checked against the rows committed before the batch started. */
    method AssignMultipleChildren(parent: RoleId, children: seq<RoleId>) returns (ok: bool)
      requires Valid()
      modifies this`rows
      ensures Valid()
      ensures ok <==> CanAssign(old(rows), parent, children)
      ensures rows == if ok then BatchSaved(old(rows), parent, children) else old(rows)
      ensures ok <==> parent in old(rows)
                      && forall c :: c in children && c in old(rows) ==> Acceptable(old(rows), c, parent)
      ensures ok ==> ChildrenAreAssigned(old(rows), rows, parent, children)
    {
      if parent !in rows {
        return false;
      }
      var pending := rows;
      var affected: set<RoleId> := {};
      for i := 0 to |children|
        invariant rows == old(rows)
        invariant CanAssign(rows, parent, children[..i])
        invariant pending == ChildrenAssigned(rows, parent, children[..i])
        invariant affected == BatchAncestry(rows, parent, children[..i])
      {
        var child := children[i];
        assert child in children;
        assert children[..i + 1] == children[..i] + [child];
        BatchAncestryStep(rows, parent, children[..i], child);
        if child !in rows {
          continue;
        }
        var valid := ValidateNewParent(child, parent);
        if !valid {
          return false;
        }
        pending := pending[child := rows[child].(parent := Some(parent), level := rows[parent].level + 1)];
        var ancestors := AncestorsAffected(child, parent);
        affected := affected + ancestors;
      }
      assert children[..|children|] == children;
      var ancestors := SetToSeq(affected);
      assert Elements(ancestors) == affected;
      BatchForest(rows, parent, children);
      pending := StoreUnions(rows, pending, ancestors);
      rows := pending;
      BatchMeans(old(rows), parent, children);
      ok := true;
    }

    // -------------------------------------------------------------- status

    /** A complex's own role is never among those that can be removed. */
    method Remove(role: RoleId) returns (ok: bool)
      requires Valid()
      modifies this`rows, this`accounts, this`complexVersions
      ensures Valid()
      ensures ok <==> CanRemove(old(rows), role, |ActiveHolders(old(accounts), role)|)
      ensures rows == if ok then Removed(old(rows), role) else old(rows)
      ensures ok <==> Removable(old(rows), old(accounts), role)
      ensures ok ==> StatusIsChanged(old(rows), rows, role, false)
      ensures if ok then HoldersOutdated(old(accounts), accounts, role) else accounts == old(accounts)
      ensures complexVersions == old(complexVersions)
    {
      CanRemoveIff(rows, accounts, role);
      if role !in rows || !rows[role].active {
        return false;
      }
      if rows[role].system || rows[role].name in NON_DEACTIVATABLE {
        return false;
      }
      var children := FindChildren(rows, role);
      for i := 0 to |children|
        invariant forall k :: 0 <= k < i ==> !rows[children[k]].active
      {
        var child := children[i];
        if rows[child].active {
          assert child in rows && rows[child].parent == Some(role);
          return false;
        }
      }
      if ActiveHolders(accounts, role) != {} {
        return false;
      }
      ForestSameShape(rows, Removed(rows, role));
      var ancestors := ChainOf(rows, rows[role].parent);
      StatusMeans(rows, role);
      var pending := rows[role := rows[role].(active := false)];
      pending := StoreUnions(rows, pending, ancestors);
      rows := pending;
      BumpRoleHolders(role);
      ok := true;
    }

    /** The parent and the permissions, as far as the catalogue knows them, must be active. */
    method RestorationAllowed(role: RoleId) returns (ok: bool)
      ensures ok <==> CanRestore(rows, catalog, role)
    {
      if role !in rows || rows[role].active {
        return false;
      }
      var parent := rows[role].parent;
      if parent.Some? && parent.value in rows && !rows[parent.value].active {
        return false;
      }
      var stored := SetToSeq(rows[role].perms);
      for i := 0 to |stored|
        invariant forall k :: 0 <= k < i && stored[k] in catalog ==> catalog[stored[k]].active
      {
        var p := stored[i];
        if p in catalog && !catalog[p].active {
          assert p in rows[role].perms;
          return false;
        }
      }
      ok := true;
    }

    method Restore(role: RoleId) returns (ok: bool)
      requires Valid()
      modifies this`rows, this`accounts, this`complexVersions
      ensures Valid()
      ensures ok <==> CanRestore(old(rows), catalog, role)
      ensures rows == if ok then Restored(old(rows), role) else old(rows)
      ensures ok <==> Restorable(old(rows), catalog, role)
      ensures ok ==> StatusIsChanged(old(rows), rows, role, true)
      ensures if ok then HoldersOutdated(old(accounts), accounts, role) else accounts == old(accounts)
      ensures if ok && old(rows)[role].name == "COMPLEX_ROL" then AllOutdated(old(complexVersions), complexVersions)
              else complexVersions == old(complexVersions)
    {
      CanRestoreIff(rows, catalog, role);
      var allowed := RestorationAllowed(role);
      if !allowed {
        return false;
      }
      var parent := rows[role].parent;
      ghost var before := rows;
      UpdateParents(parent);
      ForestSameShape(rows, WithStatus(rows, role, true));
      rows := rows[role := rows[role].(active := true)];
      assert rows == Restored(before, role);
      StatusMeans(before, role);
      BumpRoleHolders(role);
      ok := true;
    }

    /** Two statements: the accounts that hold the role, and the complexes if it is theirs. */
    method BumpRoleHolders(role: RoleId)
      modifies this`accounts, this`complexVersions
      ensures HoldersOutdated(old(accounts), accounts, role)
      ensures if role in rows && rows[role].name == "COMPLEX_ROL"
              then AllOutdated(old(complexVersions), complexVersions) else complexVersions == old(complexVersions)
    {
      accounts := HoldersBumped(accounts, role);
      complexVersions := ComplexesBumped(complexVersions, rows, role);
    }

    // -------------------------------------------------------------- update

    /** The checks of an update; the permissions to store if it passes them. */
    method ValidateUpdate(role: RoleId, input: UpdateInput) returns (perms: Option<set<PermId>>)
      requires Valid()
      ensures perms.Some? <==> CanUpdate(rows, catalog, role, input)
      ensures perms.Some? ==> perms.value == Updated(rows, role, input)[role].perms
    {
      if role !in rows || !IdentityAllowed(rows, rows[role], input) {
        return None;
      }
      perms := Some(rows[role].perms);
      if input.permissionIds.Some? {
        perms := ValidatePermissions(catalog, input.permissionIds.value);
        if perms.None? {
          return None;
        }
      }
      var allowed := ValidatePosition(role, input);
      if !allowed {
        return None;
      }
    }

    method Update(role: RoleId, input: UpdateInput) returns (ok: bool)
      requires Valid()
      modifies this`rows
      ensures Valid()
      ensures ok <==> CanUpdate(old(rows), catalog, role, input)
      ensures rows == if ok then UpdateSaved(old(rows), role, input) else old(rows)
      ensures ok <==> Updatable(old(rows), catalog, role, input)
      ensures ok ==> RoleIsUpdated(old(rows), rows, role, input)
    {
      CanUpdateIff(rows, catalog, role, input);
      var perms := ValidateUpdate(role, input);
      if perms.None? {
        return false;
      }
      ghost var before := rows;
      var existing := rows[role];
      var row := existing.(
        name := if input.name.Some? then input.name.value else existing.name,
        level := NewLevel(existing, input),
        system := if input.system.Some? then input.system.value else existing.system);
      if input.parentId.Some? {
        row := row.(parent := input.parentId.value);
      }
      if input.permissionIds.Some? {
        row := row.(perms := perms.value);
      }
      assert before[role := row] == Updated(before, role, input);
      RecomputeAfterUpdate(role, input, existing.parent, row.parent);
      UpdateSavedBesides(before, catalog, role, input);
      rows := rows[role := row];
      UpdateMeans(before, catalog, role, input);
      ok := true;
    }

    /** The ancestors of the updated role, and the former ones if its parent changed. */
    method RecomputeAfterUpdate(role: RoleId, input: UpdateInput, oldParent: Option<RoleId>, parent: Option<RoleId>)
      requires Valid() && role in rows && oldParent == rows[role].parent && parent == NewParent(rows[role], input)
      modifies this`rows
      ensures Valid()
      ensures rows == Saturate(old(rows), UpdateAncestry(old(rows), role, input))
    {
      ghost var before := rows;
      if input.permissionIds.None? && input.parentId.None? && input.level.None? {
        assert Saturate(before, {}) == before;
        return;
      }
      UpdateParents(parent);
      assert rows == Saturate(before, AncestryOf(before, parent));
      SaturateTwice(before, AncestryOf(before, parent), ProperAncestry(before, role));
      if input.parentId.Some? && oldParent.Some? && oldParent != parent {
        AncestrySameShape(before, rows, oldParent.value);
        UpdateParents(oldParent);
      } else {
        assert AncestryOf(before, parent) + {} == AncestryOf(before, parent);
      }
    }

    method ValidatePosition(role: RoleId, input: UpdateInput) returns (ok: bool)
      requires Valid() && role in rows
      ensures ok <==> PositionAllowed(rows, role, input)
    {
      var newParent := rows[role].parent;
      var newLevel := NewLevel(rows[role], input);
      if input.parentId.Some? {
        newParent := input.parentId.value;
        if newParent.Some? {
          BelowStep(rows, role, newParent.value);
          if newParent.value == role {
            return false;
          }
          var descendants := DescendantChain(rows, role);
          if newParent.value in descendants {
            return false;
          }
          if !ValidParent(rows, newParent.value, newLevel) {
            return false;
          }
        }
      }
      ok := ValidHierarchy(newLevel, LevelOf(rows, newParent));
    }
  }

  /** The chain from `start` upwards, if there is a start. */
  method ChainOf(t: Table, start: Option<RoleId>) returns (chain: seq<RoleId>)
    requires Forest(t)
    ensures Elements(chain) == AncestryOf(t, start)
  {
    if start.None? {
      return [];
    }
    chain := AncestorChain(t, start.value);
    forall a
      ensures a in Elements(chain) <==> a in Ancestry(t, start.value)
    {
      if a in chain {
        BelowInTable(t, a, start.value);
      }
    }
  }

  /** Recomputes the listed ancestors from the committed rows and stores the results in the pending ones. */
  method StoreUnions(committed: Table, pending: Table, ancestors: seq<RoleId>) returns (u: Table)
    requires Forest(committed) && pending.Keys == committed.Keys && Elements(ancestors) <= committed.Keys
    ensures u == WithUnions(committed, pending, Elements(ancestors))
  {
    u := pending;
    for i := 0 to |ancestors|
      invariant u == WithUnions(committed, pending, Elements(ancestors[..i]))
    {
      var ancestor := ancestors[i];
      ElementsStep(ancestors, i);
      assert ancestor in pending;
      var effective := CalculateEffectivePermissions(committed, ancestor);
      u := u[ancestor := u[ancestor].(perms := effective)];
    }
    assert ancestors[..|ancestors|] == ancestors;
  }

  lemma ReparentedForest(t: Table, r: RoleId, p: Option<RoleId>)
    requires Forest(t) && CanReparent(t, r, p)
    ensures Forest(ParentChangeSaved(t, r, p)) && Forest(MoveSaved(t, r, p))
  {
    MoveHangs(t, r, p);
    HangKeepsForest(t, ParentChanged(t, r, p), {r}, p);
    HangKeepsForest(t, SubtreeMoved(t, r, p), {r}, p);
    ForestSameShape(ParentChanged(t, r, p), ParentChangeSaved(t, r, p));
    ForestSameShape(SubtreeMoved(t, r, p), MoveSaved(t, r, p));
  }

  lemma BatchForest(t: Table, p: RoleId, children: seq<RoleId>)
    requires Forest(t) && CanAssign(t, p, children)
    ensures Forest(BatchSaved(t, p, children))
  {
    AssignHangs(t, p, children);
    HangKeepsForest(t, ChildrenAssigned(t, p, children), Elements(children), Some(p));
    ForestSameShape(ChildrenAssigned(t, p, children), BatchSaved(t, p, children));
  }

  /** Storing the new ancestors first and the old ones with the change is storing both with it. */
  lemma SavedInTwoParts(t: Table, u: Table, s1: set<RoleId>, v: Table, s2: set<RoleId>, r: RoleId, p: Option<RoleId>)
    requires Forest(t) && CanReparent(t, r, p) && u == Saturate(t, s1)
    requires s1 == AncestryOf(t, p) && s2 == ProperAncestry(t, r)
    requires v == WithUnions(u, u[r := t[r].(parent := p)], s2)
    ensures v == ParentChangeSaved(t, r, p)
  {
    SaturateKeepsUnions(t, s1);
    NotAboveItself(t, r, p);
  }

  lemma UpdateSavedBesides(t: Table, catalog: Catalog, r: RoleId, input: UpdateInput)
    requires Forest(t) && CanUpdate(t, catalog, r, input)
    ensures Saturate(t, UpdateAncestry(t, r, input))[r := Updated(t, r, input)[r]] == UpdateSaved(t, r, input)
    ensures Forest(UpdateSaved(t, r, input))
  {
    NotAboveItself(t, r, NewParent(t[r], input));
    StoredBesides(t, UpdateAncestry(t, r, input), r, Updated(t, r, input)[r]);
    UpdateKeepsForest(t, catalog, r, input);
    ForestSameShape(Updated(t, r, input), UpdateSaved(t, r, input));
  }

  /** Storing ancestors and then one row that is not among them. */
  lemma StoredBesides(t: Table, s: set<RoleId>, r: RoleId, row: Role)
    requires r in t
    ensures r !in s ==> Saturate(t, s)[r := row] == WithUnions(t, t[r := row], s)
  {
  }

  lemma BatchAncestryStep(t: Table, p: RoleId, children: seq<RoleId>, c: RoleId)
    ensures BatchAncestry(t, p, children + [c]) ==
            BatchAncestry(t, p, children) + if c in t then ProperAncestry(t, c) + Ancestry(t, p) else {}
  {
    forall a
      ensures a in BatchAncestry(t, p, children + [c]) <==>
              a in BatchAncestry(t, p, children) || (c in t && a in ProperAncestry(t, c) + Ancestry(t, p))
    {
      if c in t && a in ProperAncestry(t, c) + Ancestry(t, p) {
        assert c in children + [c];
      }
      if a in BatchAncestry(t, p, children) {
        var d :| d in children && d in t && (a in ProperAncestry(t, d) || a in Ancestry(t, p));
        assert d in children + [c];
      }
    }
  }

  lemma UpdateKeepsForest(t: Table, catalog: Catalog, r: RoleId, input: UpdateInput)
    requires Forest(t) && CanUpdate(t, catalog, r, input)
    ensures Forest(Updated(t, r, input))
  {
    if input.parentId.Some? {
      ReparentKeepsForest(t, Updated(t, r, input), {r}, input.parentId.value);
    } else {
      ForestSameShape(t, Updated(t, r, input));
    }
  }

  /** The recursive rewriting of levels: this role, then each child one level further down. */
  method UpdateSubtreeLevels(t: Table, role: RoleId, baseLevel: int) returns (u: Table)
    requires Forest(t) && role in t
    ensures u == Releveled(t, role, baseLevel)
    decreases |t.Keys| - Rank(t, role)
  {
    u := t[role := t[role].(level := baseLevel)];
    RelevelRoot(t, role, baseLevel);
    var children := FindChildren(u, role);
    ghost var done := {};
    for i := 0 to |children|
      invariant done == Elements(children[..i])
      invariant u == PartlyReleveled(t, role, baseLevel, {role} + SubtreesOf(t, done))
    {
      var child := children[i];
      ChildIsDeeper(t, u, role, child);
      RelevelChild(t, role, baseLevel, done, child, u);
      u := UpdateSubtreeLevels(u, child, baseLevel + 1);
      ElementsStep(children, i);
      done := done + {child};
    }
    assert children[..|children|] == children;
    RelevelAll(t, role, baseLevel, done);
  }
}

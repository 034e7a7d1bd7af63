/**
  What holds over whole runs of the roles service: the shape of the forest, the status of
  ancestors, the levels, the closure of the stored permissions and the agreement of the
  stored sets with their recomputation.
  */
module RoleRuns {
  import opened Wrappers
  import opened RoleForest
  import opened RoleTraversal
  import opened RolePermissions
  import opened RoleAgreement
  import opened RoleLevels
  import opened RoleOperations

  datatype Op =
    | Create(newId: RoleId, input: CreateInput)
    | Update(id: RoleId, change: UpdateInput)
    | ChangeParent(id: RoleId, newParent: Option<RoleId>)
    | MoveSubtree(id: RoleId, newParent: Option<RoleId>)
    | AssignChildren(parent: RoleId, children: seq<RoleId>)
    | Remove(id: RoleId, activeHolders: nat)
    | Restore(id: RoleId)
    | Refresh

  /** The table after one call; a refused call changes nothing. */
  ghost function Apply(catalog: Catalog, t: Table, op: Op): Table {
    match op
    case Create(id, input) => if id !in t && CanCreate(t, catalog, input) then Created(t, id, input) else t
    case Update(id, change) => if CanUpdate(t, catalog, id, change) then UpdateSaved(t, id, change) else t
    case ChangeParent(id, p) => if CanReparent(t, id, p) then ParentChangeSaved(t, id, p) else t
    case MoveSubtree(id, p) => if CanReparent(t, id, p) then MoveSaved(t, id, p) else t
    case AssignChildren(p, children) => if CanAssign(t, p, children) then BatchSaved(t, p, children) else t
    case Remove(id, holders) => if CanRemove(t, id, holders) then Removed(t, id) else t
    case Restore(id) => if CanRestore(t, catalog, id) then Restored(t, id) else t
    case Refresh => Refreshed(t)
  }

  /** The tables a run passes through, from the first one on. */
  ghost function Run(catalog: Catalog, t: Table, ops: seq<Op>): seq<Table>
    decreases |ops|
  {
    if ops == [] then [t] else [t] + Run(catalog, Apply(catalog, t, ops[0]), ops[1..])
  }

  // ---------------------------------------------------------------- invariants

  /** Active roles hang under active roles. */
  ghost predicate ParentsActive(t: Table) {
    forall r :: r in t && t[r].active && t[r].parent.Some? && t[r].parent.value in t ==> t[t[r].parent.value].active
  }

  ghost predicate Sound(catalog: Catalog, t: Table) {
    Forest(t) && ParentsActive(t) && AllDependencyClosed(catalog, t)
  }

  /** Every ancestor of an active role is active. */
  lemma {:induction false} AncestorsActive(t: Table, r: RoleId, n: nat)
    requires ParentsActive(t) && r in t && t[r].active && Up(t, r, n).Some?
    ensures Up(t, r, n).value in t && t[Up(t, r, n).value].active
    decreases n
  {
    if n > 0 {
      assert Up(t, t[r].parent.value, n - 1).Some?;
      UpInTable(t, t[r].parent.value, n - 1);
      AncestorsActive(t, t[r].parent.value, n - 1);
    }
  }

  // ---------------------------------------------------------------- one step

  lemma SaturateKeepsSound(catalog: Catalog, t: Table, s: set<RoleId>)
    requires Sound(catalog, t)
    ensures Sound(catalog, Saturate(t, s))
  {
    var u := Saturate(t, s);
    ForestSameShape(t, u);
    forall r | r in u
      ensures DependencyClosed(catalog, u[r].perms)
    {
      UnionStaysClosed(catalog, t, r);
    }
  }

  lemma CreateKeepsSound(catalog: Catalog, t: Table, id: RoleId, input: CreateInput)
    requires Sound(catalog, t) && id !in t && CanCreate(t, catalog, input)
    ensures Sound(catalog, Created(t, id, input))
  {
    var row := Role(input.name, input.parentId, input.level, true, input.system, Elements(input.permissionIds));
    var u := t[id := row];
    AddLeaf(t, id, row, u);
    assert Sound(catalog, u);
    if input.parentId.Some? {
      SaturateKeepsSound(catalog, u, Ancestry(u, input.parentId.value));
    }
  }

  lemma UpdateKeepsSound(catalog: Catalog, t: Table, id: RoleId, change: UpdateInput)
    requires Sound(catalog, t) && CanUpdate(t, catalog, id, change)
    ensures Sound(catalog, Updated(t, id, change))
  {
    var u := Updated(t, id, change);
    if change.parentId.Some? {
      ReparentKeepsForest(t, u, {id}, change.parentId.value);
    } else {
      ForestSameShape(t, u);
    }
  }

  /** Hanging roles where the guards allow it, one or a whole batch, keeps the table sound. */
  lemma HangKeepsSound(catalog: Catalog, t: Table, u: Table, moved: set<RoleId>, p: Option<RoleId>)
    requires Sound(catalog, t) && Hung(t, u, moved, p)
    requires p.Some? ==> p.value in t && forall m :: m in moved && m in t ==> CanHang(t, m, p.value)
    ensures Sound(catalog, u)
  {
    HangKeepsForest(t, u, moved, p);
    forall r | r in u && u[r].active && u[r].parent.Some? && u[r].parent.value in u
      ensures u[u[r].parent.value].active
    {
      if r in moved {
        assert CanHang(t, r, p.value);
      }
    }
  }

  /** Storing unions of sound rows at any roles of a sound table keeps it sound. */
  lemma UnionsKeepSound(catalog: Catalog, t: Table, u: Table, s: set<RoleId>)
    requires Sound(catalog, t) && Sound(catalog, u)
    ensures Sound(catalog, WithUnions(t, u, s))
  {
    var v := WithUnions(t, u, s);
    ForestSameShape(u, v);
    forall r | r in v
      ensures DependencyClosed(catalog, v[r].perms)
    {
      UnionStaysClosed(catalog, t, r);
    }
  }

  lemma StatusKeepsSound(catalog: Catalog, t: Table, id: RoleId, holders: nat)
    requires Sound(catalog, t)
    ensures CanRemove(t, id, holders) ==> Sound(catalog, Removed(t, id))
    ensures CanRestore(t, catalog, id) ==> Sound(catalog, Restored(t, id))
  {
    if id in t {
      ForestSameShape(t, WithStatus(t, id, false));
      ForestSameShape(t, WithStatus(t, id, true));
      if CanRemove(t, id, holders) {
        UnionsKeepSound(catalog, t, WithStatus(t, id, false), ProperAncestry(t, id));
      }
      if CanRestore(t, catalog, id) {
        UnionsKeepSound(catalog, t, WithStatus(t, id, true), ProperAncestry(t, id));
      }
    }
  }

  lemma ReparentingKeepsSound(catalog: Catalog, t: Table, id: RoleId, p: Option<RoleId>)
    requires Sound(catalog, t) && CanReparent(t, id, p)
    ensures Sound(catalog, ParentChangeSaved(t, id, p)) && Sound(catalog, MoveSaved(t, id, p))
  {
    MoveHangs(t, id, p);
    HangKeepsSound(catalog, t, ParentChanged(t, id, p), {id}, p);
    HangKeepsSound(catalog, t, SubtreeMoved(t, id, p), {id}, p);
    UnionsKeepSound(catalog, t, ParentChanged(t, id, p), AncestryOf(t, p) + ProperAncestry(t, id));
    UnionsKeepSound(catalog, t, SubtreeMoved(t, id, p), AncestryOf(t, p));
  }

  lemma BatchKeepsSound(catalog: Catalog, t: Table, p: RoleId, children: seq<RoleId>)
    requires Sound(catalog, t) && CanAssign(t, p, children)
    ensures Sound(catalog, BatchSaved(t, p, children))
  {
    AssignHangs(t, p, children);
    HangKeepsSound(catalog, t, ChildrenAssigned(t, p, children), Elements(children), Some(p));
    UnionsKeepSound(catalog, t, ChildrenAssigned(t, p, children), BatchAncestry(t, p, children));
  }

  lemma StepKeepsSound(catalog: Catalog, t: Table, op: Op)
    requires Sound(catalog, t)
    ensures Sound(catalog, Apply(catalog, t, op))
  {
    match op
    case Create(id, input) =>
      if id !in t && CanCreate(t, catalog, input) {
        CreateKeepsSound(catalog, t, id, input);
      }
    case Update(id, change) =>
      if CanUpdate(t, catalog, id, change) {
        UpdateKeepsSound(catalog, t, id, change);
        UnionsKeepSound(catalog, t, Updated(t, id, change), UpdateAncestry(t, id, change));
      }
    case ChangeParent(id, p) =>
      if CanReparent(t, id, p) {
        ReparentingKeepsSound(catalog, t, id, p);
      }
    case MoveSubtree(id, p) =>
      if CanReparent(t, id, p) {
        ReparentingKeepsSound(catalog, t, id, p);
      }
    case AssignChildren(p, children) =>
      if CanAssign(t, p, children) {
        BatchKeepsSound(catalog, t, p, children);
      }
    case Remove(id, holders) => StatusKeepsSound(catalog, t, id, holders);
    case Restore(id) => StatusKeepsSound(catalog, t, id, 0);
    case Refresh => SaturateKeepsSound(catalog, t, AboveAny(t, ActiveRoles(t)));
  }

  // ---------------------------------------------------------------- whole runs

  ghost predicate AllSound(catalog: Catalog, tables: seq<Table>) {
    forall k :: 0 <= k < |tables| ==> Sound(catalog, tables[k])
  }

  /**
    In every table a run passes through, whatever the calls: the links form a forest, active
    roles have only active ancestors, and each stored set is closed under dependencies. The
    batch assignment is included although each item is validated against the table before
    the batch.
    */
  lemma {:induction false} RunIsSound(catalog: Catalog, t: Table, ops: seq<Op>)
    requires Sound(catalog, t)
    ensures AllSound(catalog, Run(catalog, t, ops))
    decreases |ops|
  {
    if ops != [] {
      StepKeepsSound(catalog, t, ops[0]);
      RunIsSound(catalog, Apply(catalog, t, ops[0]), ops[1..]);
    }
  }

  // ---------------------------------------------------------------- levels over runs

  /**
    What a caller can check before a call so that levels stay strict: an edited level lies
    between parent and children, and a moved role keeps its level or has no children.
    */
  ghost predicate LevelSafe(catalog: Catalog, t: Table, op: Op) {
    match op
    case Update(id, change) => CanUpdate(t, catalog, id, change) ==> EditFits(t, id, change)
    case MoveSubtree(id, p) => CanReparent(t, id, p) ==> MoveFits(t, id, p)
    case _ => true
  }

  /** Each call of the run is level-safe on the table it finds. */
  ghost predicate LevelSafeRun(catalog: Catalog, t: Table, ops: seq<Op>)
    decreases |ops|
  {
    ops == [] || (LevelSafe(catalog, t, ops[0]) && LevelSafeRun(catalog, Apply(catalog, t, ops[0]), ops[1..]))
  }

  /** Permissions do not matter for levels. */
  lemma UnionsKeepLayeredIff(t: Table, u: Table, s: set<RoleId>)
    ensures Layered(WithUnions(t, u, s)) <==> Layered(u)
  {
    var v := WithUnions(t, u, s);
    if Layered(u) {
      SameLevelsKeepLayered(u, v);
    }
    if Layered(v) {
      SameLevelsKeepLayered(v, u);
    }
  }

  /** One call keeps levels strict and within 0 to 10 exactly when it is level-safe. */
  lemma StepKeepsLayeredIff(catalog: Catalog, t: Table, op: Op)
    requires Forest(t) && Layered(t)
    ensures Layered(Apply(catalog, t, op)) <==> LevelSafe(catalog, t, op)
  {
    match op
    case Create(id, input) =>
      if id !in t && CanCreate(t, catalog, input) {
        CreateKeepsLayered(catalog, t, id, input);
      }
    case Update(id, change) =>
      if CanUpdate(t, catalog, id, change) {
        LevelEditKeepsLevelsIff(t, catalog, id, change);
        UnionsKeepLayeredIff(t, Updated(t, id, change), UpdateAncestry(t, id, change));
      }
    case ChangeParent(id, p) =>
      if CanReparent(t, id, p) {
        ChangeKeepsLayered(t, id, p);
        UnionsKeepLayeredIff(t, ParentChanged(t, id, p), AncestryOf(t, p) + ProperAncestry(t, id));
      }
    case MoveSubtree(id, p) =>
      if CanReparent(t, id, p) {
        MoveKeepsLevelsIff(t, id, p);
        UnionsKeepLayeredIff(t, SubtreeMoved(t, id, p), AncestryOf(t, p));
      }
    case AssignChildren(p, children) =>
      if CanAssign(t, p, children) {
        AssignKeepsLayered(t, p, children);
        UnionsKeepLayeredIff(t, ChildrenAssigned(t, p, children), BatchAncestry(t, p, children));
      }
    case Remove(id, holders) =>
      if CanRemove(t, id, holders) {
        SameLevelsKeepLayered(t, Removed(t, id));
      }
    case Restore(id) =>
      if CanRestore(t, catalog, id) {
        SameLevelsKeepLayered(t, Restored(t, id));
      }
    case Refresh => SameLevelsKeepLayered(t, Refreshed(t));
  }

  ghost predicate AllLayered(tables: seq<Table>) {
    forall k :: 0 <= k < |tables| ==> Layered(tables[k])
  }

  lemma LayeredFirstAndRest(t: Table, rest: seq<Table>)
    requires Layered(t)
    ensures AllLayered([t] + rest) <==> AllLayered(rest)
  {
    assert forall k :: 0 <= k < |rest| ==> ([t] + rest)[k + 1] == rest[k];
  }

  /**
    Levels are strict and within 0 to 10 in every table of a run exactly when each of its
    calls was level-safe. Creation, change of parent, batch assignment, removal, restoration
    and refresh always are.
    */
  lemma {:induction false} RunIsLayeredIff(catalog: Catalog, t: Table, ops: seq<Op>)
    requires Sound(catalog, t) && Layered(t)
    ensures AllLayered(Run(catalog, t, ops)) <==> LevelSafeRun(catalog, t, ops)
    decreases |ops|
  {
    if ops != [] {
      var u, rest := Apply(catalog, t, ops[0]), Run(catalog, Apply(catalog, t, ops[0]), ops[1..]);
      StepKeepsSound(catalog, t, ops[0]);
      StepKeepsLayeredIff(catalog, t, ops[0]);
      LayeredFirstAndRest(t, rest);
      assert rest[0] == u;
      if Layered(u) {
        RunIsLayeredIff(catalog, u, ops[1..]);
      }
    }
  }

  /** Creation keeps each parent's stored set above its children's. */
  lemma CreateKeepsContainment(catalog: Catalog, t: Table, id: RoleId, input: CreateInput)
    requires Forest(t) && ParentsContainChildren(t) && id !in t && CanCreate(t, catalog, input)
    ensures ParentsContainChildren(Created(t, id, input))
  {
    if input.parentId.Some? {
      var p := input.parentId.value;
      var row := Role(input.name, input.parentId, input.level, true, input.system, Elements(input.permissionIds));
      var u := t[id := row];
      AddLeaf(t, id, row, u);
      var v := Saturate(u, Ancestry(u, p));
      forall r | r in v && v[r].parent.Some? && v[r].parent.value in v
        ensures v[r].perms <= v[v[r].parent.value].perms
      {
        var q := u[r].parent.value;
        BelowSelf(u, q);
        assert ProperlyBelow(u, q, r);
        if r in Ancestry(u, p) {
          BelowStep(u, q, r);
          BelowTransitive(u, q, r, p);
        }
        if q in Ancestry(u, p) {
          ChildUnionIncluded(u, q, r);
          OwnPermsIncluded(u, r);
        } else {
          assert q != p && r != id;
        }
      }
    }
  }

  lemma ChildUnionIncluded(t: Table, q: RoleId, r: RoleId)
    requires ProperlyBelow(t, q, r)
    ensures SubtreePerms(t, r) <= SubtreePerms(t, q)
  {
    BelowStep(t, q, r);
    forall p | p in SubtreePerms(t, r)
      ensures p in SubtreePerms(t, q)
    {
      var d :| d in Subtree(t, r) && p in t[d].perms;
      BelowTransitive(t, q, r, d);
      assert d in Subtree(t, q);
    }
  }

  // ---------------------------------------------------------------- agreement over runs

  /**
    What a caller can check before a call so that every stored set still equals its
    recomputation: a new parent already stores what the moved roles store, and an updated
    set lies between the children's sets and the parent's.
    */
  ghost predicate AgreementSafe(catalog: Catalog, t: Table, op: Op) {
    match op
    case Update(id, change) => CanUpdate(t, catalog, id, change) ==> UpdateFits(t, id, change)
    case ChangeParent(id, p) => CanReparent(t, id, p) ==> HangFits(t, {id}, p)
    case MoveSubtree(id, p) => CanReparent(t, id, p) ==> HangFits(t, {id}, p)
    case AssignChildren(p, children) => CanAssign(t, p, children) ==> HangFits(t, Elements(children), Some(p))
    case _ => true
  }

  ghost predicate AgreementSafeRun(catalog: Catalog, t: Table, ops: seq<Op>)
    decreases |ops|
  {
    ops == [] || (AgreementSafe(catalog, t, ops[0]) && AgreementSafeRun(catalog, Apply(catalog, t, ops[0]), ops[1..]))
  }

  lemma ReparentingAgreesIff(t: Table, id: RoleId, p: Option<RoleId>)
    requires Linked(t) && ParentsContainChildren(t) && CanReparent(t, id, p)
    ensures ParentsContainChildren(ParentChangeSaved(t, id, p)) <==> HangFits(t, {id}, p)
    ensures ParentsContainChildren(MoveSaved(t, id, p)) <==> HangFits(t, {id}, p)
  {
    ReparentingStoresNothing(t, id, p);
    MoveHangs(t, id, p);
    HangKeepsAgreementIff(t, ParentChanged(t, id, p), {id}, p);
    HangKeepsAgreementIff(t, SubtreeMoved(t, id, p), {id}, p);
  }

  lemma StatusKeepsContainment(t: Table, id: RoleId)
    requires Linked(t) && ParentsContainChildren(t) && id in t
    ensures ParentsContainChildren(Removed(t, id)) && ParentsContainChildren(Restored(t, id))
  {
    RemovalStoresNothing(t, id);
  }

  /** One call keeps every stored set equal to its recomputation exactly when it is agreement-safe. */
  lemma StepKeepsAgreementIff(catalog: Catalog, t: Table, op: Op)
    requires Forest(t) && ParentsContainChildren(t)
    ensures ParentsContainChildren(Apply(catalog, t, op)) <==> AgreementSafe(catalog, t, op)
  {
    match op
    case Create(id, input) =>
      if id !in t && CanCreate(t, catalog, input) {
        CreateKeepsContainment(catalog, t, id, input);
      }
    case Update(id, change) =>
      if CanUpdate(t, catalog, id, change) {
        UpdateStoresNothingAbove(t, catalog, id, change);
        UpdateKeepsAgreementIff(t, catalog, id, change);
      }
    case ChangeParent(id, p) =>
      if CanReparent(t, id, p) {
        ReparentingAgreesIff(t, id, p);
      }
    case MoveSubtree(id, p) =>
      if CanReparent(t, id, p) {
        ReparentingAgreesIff(t, id, p);
      }
    case AssignChildren(p, children) =>
      if CanAssign(t, p, children) {
        BatchStoresNothing(t, p, children);
        AssignHangs(t, p, children);
        HangKeepsAgreementIff(t, ChildrenAssigned(t, p, children), Elements(children), Some(p));
      }
    case Remove(id, _) =>
      if id in t {
        StatusKeepsContainment(t, id);
      }
    case Restore(id) =>
      if id in t {
        StatusKeepsContainment(t, id);
      }
    case Refresh => CompleteUnionsAreStored(t, t, AboveAny(t, ActiveRoles(t)));
  }

  ghost predicate AllAgree(tables: seq<Table>) {
    forall k :: 0 <= k < |tables| ==> StoredAgrees(tables[k])
  }

  lemma AgreeingFirstAndRest(t: Table, rest: seq<Table>)
    requires StoredAgrees(t)
    ensures AllAgree([t] + rest) <==> AllAgree(rest)
  {
    assert forall k :: 0 <= k < |rest| ==> ([t] + rest)[k + 1] == rest[k];
  }

  lemma StepAgreesIff(catalog: Catalog, t: Table, op: Op)
    requires Sound(catalog, t) && StoredAgrees(t)
    ensures StoredAgrees(Apply(catalog, t, op)) <==> AgreementSafe(catalog, t, op)
  {
    ContainmentIffAgreement(t);
    StepKeepsSound(catalog, t, op);
    StepKeepsAgreementIff(catalog, t, op);
    ContainmentIffAgreement(Apply(catalog, t, op));
  }

  /**
    Every stored set equals its recomputation in every table of a run exactly when each of
    its calls was agreement-safe. Creation, removal, restoration and refresh always are.
    */
  lemma {:induction false} RunAgreesIff(catalog: Catalog, t: Table, ops: seq<Op>)
    requires Sound(catalog, t) && StoredAgrees(t)
    ensures AllAgree(Run(catalog, t, ops)) <==> AgreementSafeRun(catalog, t, ops)
    decreases |ops|
  {
    if ops != [] {
      var u, rest := Apply(catalog, t, ops[0]), Run(catalog, Apply(catalog, t, ops[0]), ops[1..]);
      StepKeepsSound(catalog, t, ops[0]);
      StepAgreesIff(catalog, t, ops[0]);
      AgreeingFirstAndRest(t, rest);
      assert rest[0] == u;
      if StoredAgrees(u) {
        RunAgreesIff(catalog, u, ops[1..]);
      }
    }
  }

  // ---------------------------------------------------------------- names and system roles over runs

  ghost predicate NamesDiffer(t: Table) {
    forall a, b :: a in t && b in t && a != b ==> t[a].name != t[b].name
  }

  /** The call does not give a role the empty name, which an update stores unchecked, beside another of that name. */
  ghost predicate NameSafe(catalog: Catalog, t: Table, op: Op) {
    op.Update? && op.change.name == Some("") && CanUpdate(t, catalog, op.id, op.change) ==>
      forall r :: r in t && r != op.id ==> t[r].name != ""
  }

  ghost predicate NameSafeRun(catalog: Catalog, t: Table, ops: seq<Op>)
    decreases |ops|
  {
    ops == [] || (NameSafe(catalog, t, ops[0]) && NameSafeRun(catalog, Apply(catalog, t, ops[0]), ops[1..]))
  }

  lemma SameNamesDiffer(t: Table, u: Table)
    requires t.Keys == u.Keys && forall r :: r in t ==> u[r].name == t[r].name
    ensures NamesDiffer(u) <==> NamesDiffer(t)
  {
  }

  lemma UpdateNamesIff(catalog: Catalog, t: Table, r: RoleId, change: UpdateInput)
    requires NamesDiffer(t) && CanUpdate(t, catalog, r, change)
    ensures NamesDiffer(UpdateSaved(t, r, change)) <==>
            (change.name == Some("") ==> forall x :: x in t && x != r ==> t[x].name != "")
  {
    var u := UpdateSaved(t, r, change);
    assert forall x :: x in t && x != r ==> u[x].name == t[x].name;
    assert change.name.Some? ==> u[r].name == change.name.value;
    assert change.name.None? ==> u[r].name == t[r].name;
  }

  lemma CreateKeepsNames(catalog: Catalog, t: Table, id: RoleId, input: CreateInput)
    requires NamesDiffer(t) && id !in t && CanCreate(t, catalog, input)
    ensures NamesDiffer(Created(t, id, input))
  {
    var u := Created(t, id, input);
    assert u.Keys == t.Keys + {id} && u[id].name == input.name;
    assert forall x :: x in t ==> u[x].name == t[x].name;
  }

  lemma OthersKeepNames(catalog: Catalog, t: Table, op: Op)
    requires !op.Create? && !op.Update?
    ensures Apply(catalog, t, op).Keys == t.Keys && forall x :: x in t ==> Apply(catalog, t, op)[x].name == t[x].name
  {
  }

  lemma StepKeepsNamesIff(catalog: Catalog, t: Table, op: Op)
    requires NamesDiffer(t)
    ensures NamesDiffer(Apply(catalog, t, op)) <==> NameSafe(catalog, t, op)
  {
    match op
    case Update(id, change) =>
      if CanUpdate(t, catalog, id, change) {
        UpdateNamesIff(catalog, t, id, change);
      }
    case Create(id, input) =>
      if id !in t && CanCreate(t, catalog, input) {
        CreateKeepsNames(catalog, t, id, input);
      }
    case _ =>
      OthersKeepNames(catalog, t, op);
      SameNamesDiffer(t, Apply(catalog, t, op));
  }

  ghost predicate AllNamesDiffer(tables: seq<Table>) {
    forall k :: 0 <= k < |tables| ==> NamesDiffer(tables[k])
  }

  lemma DifferingFirstAndRest(t: Table, rest: seq<Table>)
    requires NamesDiffer(t)
    ensures AllNamesDiffer([t] + rest) <==> AllNamesDiffer(rest)
  {
    assert forall k :: 0 <= k < |rest| ==> ([t] + rest)[k + 1] == rest[k];
  }

  /** No two roles have the same name in any table of a run exactly when no call sets the empty name twice. */
  lemma {:induction false} NamesDifferIff(catalog: Catalog, t: Table, ops: seq<Op>)
    requires NamesDiffer(t)
    ensures AllNamesDiffer(Run(catalog, t, ops)) <==> NameSafeRun(catalog, t, ops)
    decreases |ops|
  {
    if ops != [] {
      var u, rest := Apply(catalog, t, ops[0]), Run(catalog, Apply(catalog, t, ops[0]), ops[1..]);
      StepKeepsNamesIff(catalog, t, ops[0]);
      DifferingFirstAndRest(t, rest);
      assert rest[0] == u;
      if NamesDiffer(u) {
        NamesDifferIff(catalog, u, ops[1..]);
      }
    }
  }

  /** An active system role is never switched off and never stops being one. */
  lemma {:induction false} SystemRolesStay(catalog: Catalog, t: Table, ops: seq<Op>, r: RoleId, k: nat)
    requires r in t && t[r].active && t[r].system && k <= |ops|
    ensures |Run(catalog, t, ops)| == |ops| + 1 && r in Run(catalog, t, ops)[k]
    ensures Run(catalog, t, ops)[k][r].active && Run(catalog, t, ops)[k][r].system
    decreases |ops|
  {
    if ops == [] {
    } else {
      SystemStepStays(catalog, t, ops[0], r);
      SystemRolesStay(catalog, Apply(catalog, t, ops[0]), ops[1..], r, if k == 0 then 0 else k - 1);
    }
  }

  lemma SystemStepStays(catalog: Catalog, t: Table, op: Op, r: RoleId)
    requires r in t && t[r].active && t[r].system
    ensures r in Apply(catalog, t, op) && Apply(catalog, t, op)[r].active && Apply(catalog, t, op)[r].system
  {
  }

  // ---------------------------------------------------------------- permissions over runs

  /** Every stored permission is known and active. */
  ghost predicate PermissionsKnown(catalog: Catalog, t: Table) {
    forall r, p :: r in t && p in t[r].perms ==> p in catalog && catalog[p].active
  }

  lemma UnionsKeepKnown(catalog: Catalog, t: Table, u: Table, s: set<RoleId>)
    requires PermissionsKnown(catalog, t) && PermissionsKnown(catalog, u)
    ensures PermissionsKnown(catalog, WithUnions(t, u, s))
  {
    forall r, p | r in u && p in WithUnions(t, u, s)[r].perms
      ensures p in catalog && catalog[p].active
    {
      if r in s {
        var d :| d in Subtree(t, r) && p in t[d].perms;
      }
    }
  }

  lemma StepKeepsKnown(catalog: Catalog, t: Table, op: Op)
    requires PermissionsKnown(catalog, t)
    ensures PermissionsKnown(catalog, Apply(catalog, t, op))
  {
    match op
    case Create(id, input) =>
      if id !in t && CanCreate(t, catalog, input) {
        CreateKeepsKnown(catalog, t, id, input);
      }
    case Update(id, change) =>
      if CanUpdate(t, catalog, id, change) {
        assert PermissionsKnown(catalog, Updated(t, id, change));
        UnionsKeepKnown(catalog, t, Updated(t, id, change), UpdateAncestry(t, id, change));
      }
    case ChangeParent(id, p) =>
      if id in t {
        UnionsKeepKnown(catalog, t, ParentChanged(t, id, p), AncestryOf(t, p) + ProperAncestry(t, id));
      }
    case MoveSubtree(id, p) =>
      if id in t {
        UnionsKeepKnown(catalog, t, SubtreeMoved(t, id, p), AncestryOf(t, p));
      }
    case AssignChildren(p, children) =>
      if p in t {
        UnionsKeepKnown(catalog, t, ChildrenAssigned(t, p, children), BatchAncestry(t, p, children));
      }
    case Remove(id, _) =>
      if id in t {
        UnionsKeepKnown(catalog, t, WithStatus(t, id, false), ProperAncestry(t, id));
      }
    case Restore(id) =>
      if id in t {
        UnionsKeepKnown(catalog, t, WithStatus(t, id, true), ProperAncestry(t, id));
      }
    case Refresh => SaturateKeepsKnown(catalog, t, AboveAny(t, ActiveRoles(t)));
  }

  lemma SaturateKeepsKnown(catalog: Catalog, t: Table, s: set<RoleId>)
    requires PermissionsKnown(catalog, t)
    ensures PermissionsKnown(catalog, Saturate(t, s))
  {
    UnionsKeepKnown(catalog, t, t, s);
    assert Saturate(t, s) == WithUnions(t, t, s);
  }

  lemma CreateKeepsKnown(catalog: Catalog, t: Table, id: RoleId, input: CreateInput)
    requires PermissionsKnown(catalog, t) && id !in t && CanCreate(t, catalog, input)
    ensures PermissionsKnown(catalog, Created(t, id, input))
  {
    var u := t[id := Role(input.name, input.parentId, input.level, true, input.system, Elements(input.permissionIds))];
    assert PermissionsKnown(catalog, u);
    if input.parentId.Some? {
      SaturateKeepsKnown(catalog, u, Ancestry(u, input.parentId.value));
    }
  }

  /** In every table of a run every stored permission is a known, active one. */
  lemma {:induction false} PermissionsAlwaysKnown(catalog: Catalog, t: Table, ops: seq<Op>, k: nat)
    requires PermissionsKnown(catalog, t) && k <= |ops|
    ensures |Run(catalog, t, ops)| == |ops| + 1 && PermissionsKnown(catalog, Run(catalog, t, ops)[k])
    decreases |ops|
  {
    if ops != [] {
      StepKeepsKnown(catalog, t, ops[0]);
      PermissionsAlwaysKnown(catalog, Apply(catalog, t, ops[0]), ops[1..], if k == 0 then 0 else k - 1);
    }
  }

  // ---------------------------------------------------------------- refresh

  /**
    A refresh only adds; it is the least table above the old one in which the proper
    ancestors of active roles hold their subtrees, and a second refresh changes nothing.
    */
  lemma RefreshIsLeastFixpoint(t: Table)
    ensures Grows(t, Refreshed(t)) && Holds(Refreshed(t), AboveAny(t, ActiveRoles(t)))
    ensures forall v: Table :: Grows(t, v) && Holds(v, AboveAny(t, ActiveRoles(t))) ==> Grows(Refreshed(t), v)
    ensures Refreshed(Refreshed(t)) == Refreshed(t)
  {
    var s := AboveAny(t, ActiveRoles(t));
    var u := Refreshed(t);
    SaturateIsLeastFixpoint(t, s);
    BelowSameShape(t, u);
    assert ActiveRoles(u) == ActiveRoles(t);
    assert AboveAny(u, ActiveRoles(u)) == s;
  }
}

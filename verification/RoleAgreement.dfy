/**
  When the stored permission sets agree with their recomputation: what the transactional
  operations then store at the ancestors, and exactly when the agreement survives them.
  */
module RoleAgreement {
  import opened Wrappers
  import opened RoleForest
  import opened RolePermissions
  import opened RoleOperations

  // ---------------------------------------------------------------- what the operations store

  /** The unions computed from complete rows are what these already store. */
  lemma CompleteUnionsAreStored(t: Table, u: Table, s: set<RoleId>)
    requires Linked(t) && ParentsContainChildren(t)
    requires forall x :: x in s && x in u ==> x in t && u[x].perms == t[x].perms
    ensures WithUnions(t, u, s) == u && Saturate(t, s) == t
  {
    ContainmentIffAgreement(t);
    forall x | x in u
      ensures WithUnions(t, u, s)[x] == u[x]
    {
    }
  }

  /**
    Where stored sets are complete, a reparenting stores nothing at any ancestor: the former
    ones keep all permissions, and the new ones do not gain those of the moved roles.
    */
  lemma ReparentingStoresNothing(t: Table, r: RoleId, p: Option<RoleId>)
    requires Linked(t) && ParentsContainChildren(t) && CanReparent(t, r, p)
    ensures ParentChangeSaved(t, r, p) == ParentChanged(t, r, p)
    ensures MoveSaved(t, r, p) == SubtreeMoved(t, r, p)
  {
    MoveHangs(t, r, p);
    CompleteUnionsAreStored(t, ParentChanged(t, r, p), AncestryOf(t, p) + ProperAncestry(t, r));
    CompleteUnionsAreStored(t, SubtreeMoved(t, r, p), AncestryOf(t, p));
  }

  lemma BatchStoresNothing(t: Table, p: RoleId, children: seq<RoleId>)
    requires Linked(t) && ParentsContainChildren(t) && p in t
    ensures BatchSaved(t, p, children) == ChildrenAssigned(t, p, children)
  {
    CompleteUnionsAreStored(t, ChildrenAssigned(t, p, children), BatchAncestry(t, p, children));
  }

  /** Nor does an update reach any ancestor: its new permissions are not among the rows before. */
  lemma UpdateStoresNothingAbove(t: Table, catalog: Catalog, r: RoleId, input: UpdateInput)
    requires Forest(t) && ParentsContainChildren(t) && CanUpdate(t, catalog, r, input)
    ensures UpdateSaved(t, r, input) == Updated(t, r, input)
  {
    NotAboveItself(t, r, NewParent(t[r], input));
    CompleteUnionsAreStored(t, Updated(t, r, input), UpdateAncestry(t, r, input));
  }

  /** The recomputation after removal or restoration writes nothing either. */
  lemma RemovalStoresNothing(t: Table, r: RoleId)
    requires Linked(t) && ParentsContainChildren(t) && r in t
    ensures Removed(t, r) == WithStatus(t, r, false) && Restored(t, r) == WithStatus(t, r, true)
  {
    CompleteUnionsAreStored(t, WithStatus(t, r, false), ProperAncestry(t, r));
    CompleteUnionsAreStored(t, WithStatus(t, r, true), ProperAncestry(t, r));
  }

  // ---------------------------------------------------------------- when agreement survives

  /** The new parent already stores everything the moved roles store. */
  ghost predicate HangFits(t: Table, moved: set<RoleId>, p: Option<RoleId>) {
    p.Some? && p.value in t ==> forall m :: m in moved && m in t ==> t[m].perms <= t[p.value].perms
  }

  lemma KeptPerms(t: Table, u: Table, moved: set<RoleId>, p: Option<RoleId>, x: RoleId)
    requires Hung(t, u, moved, p) && x in t
    ensures x in u && u[x].perms == t[x].perms && u[x].parent == if x in moved then p else t[x].parent
  {
    assert Reparented(t, u, moved, p);
  }

  lemma HangKeepsAgreementIff(t: Table, u: Table, moved: set<RoleId>, p: Option<RoleId>)
    requires ParentsContainChildren(t) && Hung(t, u, moved, p)
    ensures ParentsContainChildren(u) <==> HangFits(t, moved, p)
  {
    if ParentsContainChildren(u) && p.Some? && p.value in t {
      var q := p.value;
      KeptPerms(t, u, moved, p, q);
      forall m | m in moved && m in t
        ensures t[m].perms <= t[q].perms
      {
        KeptPerms(t, u, moved, p, m);
      }
    }
    if HangFits(t, moved, p) {
      forall r | r in u && u[r].parent.Some? && u[r].parent.value in u
        ensures u[r].perms <= u[u[r].parent.value].perms
      {
        KeptPerms(t, u, moved, p, r);
        KeptPerms(t, u, moved, p, u[r].parent.value);
      }
    }
  }

  function NewPerms(role: Role, input: UpdateInput): set<PermId> {
    if input.permissionIds.Some? then Elements(input.permissionIds.value) else role.perms
  }

  /** The role's set after the update lies between its children's sets and that of its parent. */
  ghost predicate UpdateFits(t: Table, r: RoleId, input: UpdateInput)
    requires r in t
  {
    var perms, p := NewPerms(t[r], input), NewParent(t[r], input);
    (p.Some? && p.value in t ==> perms <= t[p.value].perms)
    && forall c :: c in t && t[c].parent == Some(r) ==> t[c].perms <= perms
  }

  lemma UpdateKeepsAgreementIff(t: Table, catalog: Catalog, r: RoleId, input: UpdateInput)
    requires Forest(t) && ParentsContainChildren(t) && CanUpdate(t, catalog, r, input)
    ensures ParentsContainChildren(Updated(t, r, input)) <==> UpdateFits(t, r, input)
  {
    var u, p := Updated(t, r, input), NewParent(t[r], input);
    BelowSelf(t, r);
    NotAboveItself(t, r, p);
    assert u[r].perms == NewPerms(t[r], input) && u[r].parent == p != Some(r);
    if ParentsContainChildren(u) {
      forall c | c in t && t[c].parent == Some(r)
        ensures t[c].perms <= NewPerms(t[r], input)
      {
        assert c != r && u[c].parent == Some(r);
      }
      if p.Some? && p.value in t {
        assert u[p.value].perms == t[p.value].perms;
      }
    }
  }

  /** Every stored set equals its recomputation. */
  ghost predicate StoredAgrees(t: Table) {
    forall a :: a in t ==> SubtreePerms(t, a) == t[a].perms
  }
}

/**
  What a caller of the roles service sees of each call, in terms of the rows before and after
  alone: which columns change, which rows store new permissions, and which ones these are.
  */
module RoleContracts {
  import opened Wrappers
  import opened RoleForest
  import opened RolePermissions
  import opened RoleOperations

  // ---------------------------------------------------------------- relations between the rows before and after

  /** `p` was stored at `x` or at some role below it. */
  ghost predicate StoredUnder(t: Table, x: RoleId, p: PermId) {
    exists d :: d in t && Below(t, x, d) && p in t[d].perms
  }

  /** If `written`, the role stores exactly what was stored in its subtree before, otherwise what it stored itself. */
  ghost predicate PermsAfter(t: Table, u: Table, x: RoleId, written: bool)
    requires x in t && x in u
  {
    if written then forall p :: p in u[x].perms <==> StoredUnder(t, x, p) else u[x].perms == t[x].perms
  }

  /** A new active row as asked for; the roles above it add its permissions to those of their subtrees. */
  ghost predicate RoleCreated(t: Table, u: Table, id: RoleId, input: CreateInput) {
    && id !in t && u.Keys == t.Keys + {id}
    && u[id].name == input.name && u[id].parent == input.parentId && u[id].level == input.level
    && u[id].system == input.system && u[id].active
    && (forall p :: p in u[id].perms <==> p in input.permissionIds)
    && forall x :: x in t ==>
         && u[x] == t[x].(perms := u[x].perms)
         && if Below(u, x, id)
            then forall p :: p in u[x].perms <==> p in input.permissionIds || StoredUnder(t, x, p)
            else u[x].perms == t[x].perms
  }

  /** One parent link, and the unions at the old and the new ancestors. */
  ghost predicate ParentIsChanged(t: Table, u: Table, r: RoleId, p: Option<RoleId>) {
    && u.Keys == t.Keys
    && forall x :: x in t ==>
         && u[x] == t[x].(parent := if x == r then p else t[x].parent, perms := u[x].perms)
         && PermsAfter(t, u, x, ProperlyBelow(t, x, r) || (p.Some? && Below(t, x, p.value)))
  }

  /** The level of a role below the moved one: one more than the new parent's for each link up to there. */
  ghost predicate LevelBelow(t: Table, r: RoleId, p: Option<RoleId>, x: RoleId, level: int) {
    forall n: nat :: Up(t, x, n) == Some(r) ==>
      level == n + if p.Some? && p.value in t then t[p.value].level + 1 else 0
  }

  /** One parent link, the levels below the moved role, and the unions at the new ancestors. */
  ghost predicate SubtreeIsMoved(t: Table, u: Table, r: RoleId, p: Option<RoleId>) {
    && u.Keys == t.Keys
    && forall x :: x in t ==>
         && u[x] == t[x].(parent := if x == r then p else t[x].parent, level := u[x].level, perms := u[x].perms)
         && (if x != r && Below(t, r, x) then LevelBelow(t, r, p, x, u[x].level) else u[x].level == t[x].level)
         && PermsAfter(t, u, x, p.Some? && Below(t, x, p.value))
  }

  /** The role is above a listed child, or the parent or above it and some child is listed. */
  ghost predicate AboveListed(t: Table, p: RoleId, children: seq<RoleId>, x: RoleId) {
    exists c :: c in children && c in t && (ProperlyBelow(t, x, c) || Below(t, x, p))
  }

  /** The known listed roles under the parent and one level below it, and the unions at their ancestors. */
  ghost predicate ChildrenAreAssigned(t: Table, u: Table, p: RoleId, children: seq<RoleId>) {
    && p in t && u.Keys == t.Keys
    && forall x :: x in t ==>
         && (if x in children then u[x] == t[x].(parent := Some(p), level := t[p].level + 1, perms := u[x].perms)
             else u[x] == t[x].(perms := u[x].perms))
         && PermsAfter(t, u, x, AboveListed(t, p, children, x))
  }

  /** One status, and the unions at the ancestors. */
  ghost predicate StatusIsChanged(t: Table, u: Table, r: RoleId, active: bool) {
    && u.Keys == t.Keys
    && forall x :: x in t ==>
         && u[x] == t[x].(active := if x == r then active else t[x].active, perms := u[x].perms)
         && PermsAfter(t, u, x, ProperlyBelow(t, x, r))
  }

  /** The given columns of one row. */
  ghost predicate RowIsUpdated(before: Role, after: Role, input: UpdateInput) {
    && after.active == before.active
    && after.name == (match input.name case None => before.name case Some(name) => name)
    && after.parent == (match input.parentId case None => before.parent case Some(p) => p)
    && after.level == (match input.level case None => before.level case Some(level) => level)
    && after.system == (match input.system case None => before.system case Some(system) => system)
    && match input.permissionIds
       case None => after.perms == before.perms
       case Some(ids) => forall p :: p in after.perms <==> p in ids
  }

  /** The given columns, and the unions at the present ancestors and, if the parent changed, at the former ones. */
  ghost predicate RoleIsUpdated(t: Table, u: Table, r: RoleId, input: UpdateInput) {
    && r in t && u.Keys == t.Keys && RowIsUpdated(t[r], u[r], input)
    && forall x :: x in t && x != r ==>
         && u[x] == t[x].(perms := u[x].perms)
         && PermsAfter(t, u, x,
              && (input.permissionIds.Some? || input.parentId.Some? || input.level.Some?)
              && ((u[r].parent.Some? && Below(t, x, u[r].parent.value))
                  || (u[r].parent != t[r].parent && ProperlyBelow(t, x, r))))
  }

  ghost predicate AboveActive(t: Table, x: RoleId) {
    exists d :: d in t && t[d].active && ProperlyBelow(t, x, d)
  }

  /** The unions at all roles above an active one, and nothing else. */
  ghost predicate AllRefreshed(t: Table, u: Table) {
    && u.Keys == t.Keys
    && forall x :: x in t ==> u[x] == t[x].(perms := u[x].perms) && PermsAfter(t, u, x, AboveActive(t, x))
  }

  /** The permissions are some, none twice, all known and active, and with each all it depends on. */
  ghost predicate Grantable(catalog: Catalog, ids: seq<PermId>) {
    && |ids| > 0 && (forall i, j :: 0 <= i < j < |ids| ==> ids[i] != ids[j])
    && forall p :: p in ids ==>
         p in catalog && catalog[p].active && forall q :: q in catalog[p].dependsOn ==> q in ids
  }

  lemma GrantableIff(catalog: Catalog, ids: seq<PermId>)
    ensures ValidRequest(catalog, ids) <==> Grantable(catalog, ids)
  {
    assert forall p :: p in Elements(ids) <==> p in ids;
  }

  /** The place asked for: an active parent next above the level, or none and a level for roots. */
  ghost predicate Placeable(t: Table, parent: Option<RoleId>, level: int) {
    && 0 <= level <= 10
    && match parent
       case None => level == 0 || level == 4
       case Some(p) => p in t && t[p].active && level == t[p].level + 1
  }

  /** `p` can be hung above `r`: active, on a smaller level, and not below it. */
  ghost predicate Acceptable(t: Table, r: RoleId, p: RoleId) {
    r in t && p in t && t[p].active && t[p].level < t[r].level && !Below(t, r, p)
  }

  /** What an update may ask for. */
  ghost predicate Updatable(t: Table, catalog: Catalog, r: RoleId, input: UpdateInput)
    requires Linked(t)
  {
    && r in t
    && (input.name.Some? && input.name.value != "" && input.name.value != t[r].name ==>
          !t[r].system && forall x :: x in t ==> t[x].name != input.name.value)
    && (t[r].system ==> input.system != Some(false))
    && (input.permissionIds.Some? ==> Grantable(catalog, input.permissionIds.value))
    && var level := if input.level.Some? then input.level.value else t[r].level;
       match input.parentId
       case None =>
         0 <= level <= 10
         && (match t[r].parent case None => level == 0 || level == 4 case Some(p) => level <= t[p].level + 1)
       case Some(parent) => Placeable(t, parent, level) && (parent.Some? ==> !Below(t, r, parent.value))
  }

  /** An inactive role whose parent and known permissions are active. */
  ghost predicate Restorable(t: Table, catalog: Catalog, r: RoleId)
    requires Linked(t)
  {
    && r in t && !t[r].active
    && (t[r].parent.Some? ==> t[t[r].parent.value].active)
    && forall p :: p in t[r].perms && p in catalog ==> catalog[p].active
  }

  lemma CanRestoreIff(t: Table, catalog: Catalog, r: RoleId)
    requires Linked(t)
    ensures CanRestore(t, catalog, r) <==> Restorable(t, catalog, r)
  {
  }

  lemma CanUpdateIff(t: Table, catalog: Catalog, r: RoleId, input: UpdateInput)
    requires Linked(t)
    ensures CanUpdate(t, catalog, r, input) <==> Updatable(t, catalog, r, input)
  {
    if input.permissionIds.Some? {
      GrantableIff(catalog, input.permissionIds.value);
    }
  }

  lemma CanCreateIff(t: Table, catalog: Catalog, input: CreateInput)
    ensures CanCreate(t, catalog, input) <==>
            (forall r :: r in t ==> t[r].name != input.name)
            && Grantable(catalog, input.permissionIds) && Placeable(t, input.parentId, input.level)
  {
    GrantableIff(catalog, input.permissionIds);
  }

  // ---------------------------------------------------------------- the functions meet the relations

  lemma UnionIsStoredUnder(t: Table, x: RoleId)
    ensures forall p :: p in SubtreePerms(t, x) <==> StoredUnder(t, x, p)
  {
    forall p
      ensures p in SubtreePerms(t, x) <==> StoredUnder(t, x, p)
    {
      if p in SubtreePerms(t, x) {
        var d :| d in Subtree(t, x) && p in t[d].perms;
        assert d in t && Below(t, x, d);
      }
      if StoredUnder(t, x, p) {
        var d :| d in t && Below(t, x, d) && p in t[d].perms;
        assert d in Subtree(t, x);
      }
    }
  }

  /** Storing unions leaves all other columns, and writes the union or nothing. */
  lemma UnionsAfter(t: Table, u: Table, s: set<RoleId>, x: RoleId)
    requires x in t && x in u && u[x].perms == t[x].perms
    ensures x in WithUnions(t, u, s) && WithUnions(t, u, s)[x] == u[x].(perms := WithUnions(t, u, s)[x].perms)
    ensures PermsAfter(t, WithUnions(t, u, s), x, x in s)
  {
    UnionIsStoredUnder(t, x);
  }

  lemma InAncestry(t: Table, r: RoleId, p: Option<RoleId>, x: RoleId)
    requires Linked(t) && r in t && x in t
    ensures x in ProperAncestry(t, r) <==> ProperlyBelow(t, x, r)
    ensures x in AncestryOf(t, p) <==> p.Some? && Below(t, x, p.value)
  {
  }

  lemma NewRowStores(t: Table, id: RoleId, row: Role, u: Table, x: RoleId, p: PermId)
    requires Linked(t) && id !in t && (row.parent.Some? ==> row.parent.value in t) && u == t[id := row] && x in t
    ensures Below(u, x, id) ==> (StoredUnder(u, x, p) <==> p in row.perms || StoredUnder(t, x, p))
  {
    AddLeaf(t, id, row, u);
    if StoredUnder(t, x, p) {
      var d :| d in t && Below(t, x, d) && p in t[d].perms;
      assert d in u && Below(u, x, d) && p in u[d].perms;
    }
    if StoredUnder(u, x, p) {
      var d :| d in u && Below(u, x, d) && p in u[d].perms;
      if d != id {
        assert d in t && Below(t, x, d) && p in t[d].perms;
      }
    }
    if Below(u, x, id) && p in row.perms {
      assert id in u && p in u[id].perms;
    }
  }

  lemma CreatedMeans(t: Table, id: RoleId, input: CreateInput)
    requires Forest(t) && id !in t && (input.parentId.Some? ==> input.parentId.value in t)
    ensures RoleCreated(t, Created(t, id, input), id, input)
  {
    var row := Role(input.name, input.parentId, input.level, true, input.system, Elements(input.permissionIds));
    var v, u := t[id := row], Created(t, id, input);
    AddLeaf(t, id, row, v);
    BelowSameShape(v, u);
    BelowStep(v, id, id);
    forall x | x in t
      ensures Below(u, x, id) <==> input.parentId.Some? && x in Ancestry(v, input.parentId.value)
    {
      BelowStep(v, x, id);
    }
    assert u[id] == row;
    forall x | x in t
      ensures u[x] == t[x].(perms := u[x].perms)
      ensures if Below(u, x, id)
              then forall p :: p in u[x].perms <==> p in input.permissionIds || StoredUnder(t, x, p)
              else u[x].perms == t[x].perms
    {
      if Below(u, x, id) {
        UnionIsStoredUnder(v, x);
        forall p
          ensures p in u[x].perms <==> p in input.permissionIds || StoredUnder(t, x, p)
        {
          NewRowStores(t, id, row, v, x, p);
        }
      }
    }
  }

  lemma ParentChangeMeans(t: Table, r: RoleId, p: Option<RoleId>)
    requires Forest(t) && CanReparent(t, r, p)
    ensures ParentIsChanged(t, ParentChangeSaved(t, r, p), r, p)
  {
    forall x | x in t
      ensures x in ParentChangeSaved(t, r, p)
      ensures ParentChangeSaved(t, r, p)[x] ==
              t[x].(parent := if x == r then p else t[x].parent, perms := ParentChangeSaved(t, r, p)[x].perms)
      ensures PermsAfter(t, ParentChangeSaved(t, r, p), x, ProperlyBelow(t, x, r) || (p.Some? && Below(t, x, p.value)))
    {
      InAncestry(t, r, p, x);
      UnionsAfter(t, ParentChanged(t, r, p), AncestryOf(t, p) + ProperAncestry(t, r), x);
    }
  }

  lemma DepthIsLevelBelow(t: Table, r: RoleId, p: Option<RoleId>, x: RoleId)
    requires Forest(t) && Below(t, r, x)
    ensures LevelBelow(t, r, p, x, BaseLevel(t, p) + Depth(t, r, x))
  {
    forall n: nat | Up(t, x, n) == Some(r)
      ensures n == Depth(t, r, x)
    {
      DepthUnique(t, r, x, n);
    }
  }

  lemma MovedRow(t: Table, r: RoleId, p: Option<RoleId>, x: RoleId)
    requires Forest(t) && r in t && x in t
    ensures x in SubtreeMoved(t, r, p)
    ensures SubtreeMoved(t, r, p)[x] ==
            t[x].(parent := if x == r then p else t[x].parent, level := SubtreeMoved(t, r, p)[x].level)
    ensures if x != r && Below(t, r, x) then LevelBelow(t, r, p, x, SubtreeMoved(t, r, p)[x].level)
            else SubtreeMoved(t, r, p)[x].level == t[x].level
  {
    if x != r && Below(t, r, x) {
      DepthIsLevelBelow(t, r, p, x);
    }
  }

  lemma MoveMeans(t: Table, r: RoleId, p: Option<RoleId>)
    requires Forest(t) && CanReparent(t, r, p)
    ensures SubtreeIsMoved(t, MoveSaved(t, r, p), r, p)
  {
    forall x | x in t
      ensures x in MoveSaved(t, r, p)
      ensures MoveSaved(t, r, p)[x] ==
              t[x].(parent := if x == r then p else t[x].parent,
                    level := MoveSaved(t, r, p)[x].level, perms := MoveSaved(t, r, p)[x].perms)
      ensures if x != r && Below(t, r, x) then LevelBelow(t, r, p, x, MoveSaved(t, r, p)[x].level)
              else MoveSaved(t, r, p)[x].level == t[x].level
      ensures PermsAfter(t, MoveSaved(t, r, p), x, p.Some? && Below(t, x, p.value))
    {
      MovedRow(t, r, p, x);
      InAncestry(t, r, p, x);
      UnionsAfter(t, SubtreeMoved(t, r, p), AncestryOf(t, p), x);
    }
  }

  lemma InBatchAncestry(t: Table, p: RoleId, children: seq<RoleId>, x: RoleId)
    requires Linked(t) && x in t
    ensures x in BatchAncestry(t, p, children) <==> AboveListed(t, p, children, x)
  {
    if AboveListed(t, p, children, x) {
      var c :| c in children && c in t && (ProperlyBelow(t, x, c) || Below(t, x, p));
      InAncestry(t, c, Some(p), x);
    }
    if x in BatchAncestry(t, p, children) {
      var c :| c in children && c in t && (x in ProperAncestry(t, c) || x in Ancestry(t, p));
      InAncestry(t, c, Some(p), x);
    }
  }

  lemma BatchMeans(t: Table, p: RoleId, children: seq<RoleId>)
    requires Forest(t) && p in t
    ensures ChildrenAreAssigned(t, BatchSaved(t, p, children), p, children)
  {
    forall x | x in t
      ensures x in BatchSaved(t, p, children)
      ensures var row := BatchSaved(t, p, children)[x];
              row == if x in children then t[x].(parent := Some(p), level := t[p].level + 1, perms := row.perms)
                     else t[x].(perms := row.perms)
      ensures PermsAfter(t, BatchSaved(t, p, children), x, AboveListed(t, p, children, x))
    {
      InBatchAncestry(t, p, children, x);
      UnionsAfter(t, ChildrenAssigned(t, p, children), BatchAncestry(t, p, children), x);
    }
  }

  lemma StatusMeans(t: Table, r: RoleId)
    requires Forest(t) && r in t
    ensures StatusIsChanged(t, Removed(t, r), r, false) && StatusIsChanged(t, Restored(t, r), r, true)
  {
    forall x | x in t
      ensures x in Removed(t, r) && x in Restored(t, r)
      ensures Removed(t, r)[x] ==
              t[x].(active := if x == r then false else t[x].active, perms := Removed(t, r)[x].perms)
      ensures Restored(t, r)[x] ==
              t[x].(active := if x == r then true else t[x].active, perms := Restored(t, r)[x].perms)
      ensures PermsAfter(t, Removed(t, r), x, ProperlyBelow(t, x, r))
      ensures PermsAfter(t, Restored(t, r), x, ProperlyBelow(t, x, r))
    {
      InAncestry(t, r, None, x);
      UnionsAfter(t, WithStatus(t, r, false), ProperAncestry(t, r), x);
      UnionsAfter(t, WithStatus(t, r, true), ProperAncestry(t, r), x);
    }
  }

  lemma UpdateMeans(t: Table, catalog: Catalog, r: RoleId, input: UpdateInput)
    requires Forest(t) && CanUpdate(t, catalog, r, input)
    ensures RoleIsUpdated(t, UpdateSaved(t, r, input), r, input)
  {
    var u := UpdateSaved(t, r, input);
    NotAboveItself(t, r, NewParent(t[r], input));
    assert u[r] == Updated(t, r, input)[r];
    forall x | x in t && x != r
      ensures u[x] == t[x].(perms := u[x].perms)
      ensures PermsAfter(t, u, x,
                && (input.permissionIds.Some? || input.parentId.Some? || input.level.Some?)
                && ((u[r].parent.Some? && Below(t, x, u[r].parent.value))
                    || (u[r].parent != t[r].parent && ProperlyBelow(t, x, r))))
    {
      InAncestry(t, r, NewParent(t[r], input), x);
      UnionsAfter(t, Updated(t, r, input), UpdateAncestry(t, r, input), x);
    }
  }

  lemma RefreshMeans(t: Table)
    ensures AllRefreshed(t, Refreshed(t))
  {
    forall x | x in t
      ensures Refreshed(t)[x] == t[x].(perms := Refreshed(t)[x].perms)
      ensures PermsAfter(t, Refreshed(t), x, AboveActive(t, x))
    {
      UnionIsStoredUnder(t, x);
      if AboveActive(t, x) {
        var d :| d in t && t[d].active && ProperlyBelow(t, x, d);
        assert d in ActiveRoles(t);
      }
      assert x in AboveAny(t, ActiveRoles(t)) <==> AboveActive(t, x);
    }
  }
}

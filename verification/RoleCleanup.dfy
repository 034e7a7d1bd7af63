/**
  What a later query or refresh computes after roles were hung elsewhere: where the stored
  sets were complete, former ancestors keep everything, and only the new parent and the roles
  above it gain something.
  */
module RoleCleanup {
  import opened Wrappers
  import opened RoleAgreement
  import opened RoleForest
  import opened RolePermissions
  import opened RoleOperations

  /** What a role gains when `moved` is hung under `p`: their stored sets, if it is `p` or above it. */
  ghost function Gained(t: Table, moved: set<RoleId>, p: Option<RoleId>, a: RoleId): set<PermId> {
    if p.Some? && Below(t, a, p.value) then set m, q | m in moved && m in t && q in t[m].perms :: q else {}
  }

  /** The new parent lies below none of the moved roles. */
  ghost predicate HangsOutside(t: Table, moved: set<RoleId>, p: Option<RoleId>) {
    p.Some? ==> p.value in t && forall m :: m in moved ==> !Below(t, m, p.value)
  }

  /** A role reached in the new table was reached before, or lies below a moved role while the goal is above `p`. */
  lemma {:induction false} ReachedAfterHang(t: Table, u: Table, moved: set<RoleId>, p: Option<RoleId>,
                                            a: RoleId, d: RoleId, n: nat)
    requires Reparented(t, u, moved, p) && Up(u, d, n) == Some(a)
    ensures Below(t, a, d) || (p.Some? && Below(t, a, p.value) && exists m :: m in moved && m in t && Below(t, m, d))
    decreases n
  {
    if n == 0 {
      BelowSelf(t, d);
    } else {
      var q := u[d].parent.value;
      ReachedAfterHang(t, u, moved, p, a, q, n - 1);
      if d in moved {
        BelowSelf(t, d);
      } else {
        BelowStep(t, a, d);
        if m :| m in moved && m in t && Below(t, m, q) {
          BelowStep(t, m, d);
        }
      }
    }
  }

  /** A chain without moved roles is the same in both tables. */
  lemma {:induction false} ChainKept(t: Table, u: Table, moved: set<RoleId>, p: Option<RoleId>, x: RoleId, n: nat)
    requires Reparented(t, u, moved, p) && Up(t, x, n).Some? && forall m :: m in moved ==> !Below(t, m, x)
    ensures Up(u, x, n) == Up(t, x, n)
    decreases n
  {
    if n > 0 {
      BelowSelf(t, x);
      var q := t[x].parent.value;
      forall m | m in moved
        ensures !Below(t, m, q)
      {
        BelowStep(t, m, x);
      }
      ChainKept(t, u, moved, p, q, n - 1);
    }
  }

  lemma MovedAreBelow(t: Table, u: Table, moved: set<RoleId>, p: RoleId, a: RoleId, m: RoleId)
    requires Reparented(t, u, moved, Some(p)) && HangsOutside(t, moved, Some(p)) && Below(t, a, p)
    requires m in moved && m in t
    ensures Below(u, a, m)
  {
    var n: nat :| Up(t, p, n) == Some(a);
    ChainKept(t, u, moved, Some(p), p, n);
    assert Up(u, m, n + 1) == Some(a);
  }

  lemma ContainedBelow(t: Table, a: RoleId, d: RoleId)
    requires ParentsContainChildren(t) && Below(t, a, d)
    ensures a in t && d in t && t[d].perms <= t[a].perms
  {
    var n: nat :| Up(t, d, n) == Some(a);
    ContainedUpwards(t, d, n);
  }

  /**
    Where stored sets were complete, recomputing any role later, from the rows after the
    reparenting, yields exactly its stored set together with what it gains: nothing is ever
    withdrawn.
    */
  lemma RecomputedAfterHang(t: Table, u: Table, moved: set<RoleId>, p: Option<RoleId>, a: RoleId)
    requires ParentsContainChildren(t) && Hung(t, u, moved, p) && HangsOutside(t, moved, p) && a in t
    ensures SubtreePerms(u, a) == t[a].perms + Gained(t, moved, p, a)
  {
    forall q | q in SubtreePerms(u, a)
      ensures q in t[a].perms + Gained(t, moved, p, a)
    {
      var d :| d in Subtree(u, a) && q in u[d].perms;
      var n: nat :| Up(u, d, n) == Some(a);
      ReachedAfterHang(t, u, moved, p, a, d, n);
      if Below(t, a, d) {
        ContainedBelow(t, a, d);
      } else {
        var m :| m in moved && m in t && Below(t, m, d);
        ContainedBelow(t, m, d);
      }
    }
    OwnPermsIncluded(u, a);
    forall q | q in Gained(t, moved, p, a)
      ensures q in SubtreePerms(u, a)
    {
      var m :| m in moved && m in t && q in t[m].perms;
      MovedAreBelow(t, u, moved, p.value, a, m);
      assert m in Subtree(u, a) && q in u[m].perms;
    }
  }

  /** A former ancestor of a role moved away, alone or with its subtree, is later recomputed to what it has. */
  lemma FormerAncestorKeepsAll(t: Table, r: RoleId, p: Option<RoleId>, a: RoleId)
    requires Linked(t) && ParentsContainChildren(t) && CanReparent(t, r, p) && a in t && ProperlyBelow(t, a, r)
    ensures SubtreePerms(ParentChangeSaved(t, r, p), a) == ParentChangeSaved(t, r, p)[a].perms == t[a].perms
    ensures SubtreePerms(MoveSaved(t, r, p), a) == MoveSaved(t, r, p)[a].perms == t[a].perms
  {
    ReparentingStoresNothing(t, r, p);
    MoveHangs(t, r, p);
    RecomputedAfterHang(t, ParentChanged(t, r, p), {r}, p, a);
    RecomputedAfterHang(t, SubtreeMoved(t, r, p), {r}, p, a);
    BelowStep(t, a, r);
    ContainedBelow(t, a, r);
    assert Gained(t, {r}, p, a) <= t[r].perms;
  }

  /**
    A batch itself gives no role anything; a later recomputation adds exactly the children's
    sets, at the new parent and above it.
    */
  lemma BatchIsRecomputedLater(t: Table, p: RoleId, children: seq<RoleId>, a: RoleId)
    requires Linked(t) && ParentsContainChildren(t) && CanAssign(t, p, children) && a in t
    ensures BatchSaved(t, p, children)[a].perms == t[a].perms
    ensures SubtreePerms(BatchSaved(t, p, children), a) == t[a].perms + Gained(t, Elements(children), Some(p), a)
  {
    BatchStoresNothing(t, p, children);
    AssignHangs(t, p, children);
    forall m | m in Elements(children)
      ensures !Below(t, m, p)
    {
      if m in t {
        assert CanHang(t, m, p);
      } else if Below(t, m, p) {
        BelowInTable(t, m, p);
        assert false;
      }
    }
    RecomputedAfterHang(t, ChildrenAssigned(t, p, children), Elements(children), Some(p), a);
  }

  /** A refresh after a reparenting adds to the ancestors of active roles exactly what they gain. */
  lemma RefreshAfterHang(t: Table, u: Table, moved: set<RoleId>, p: Option<RoleId>, a: RoleId, d: RoleId)
    requires ParentsContainChildren(t) && Hung(t, u, moved, p) && HangsOutside(t, moved, p)
    requires a in t && d in t && u[d].active && ProperlyBelow(u, a, d)
    ensures Refreshed(u)[a].perms == t[a].perms + Gained(t, moved, p, a)
  {
    RefreshedRows(u);
    RecomputedAfterHang(t, u, moved, p, a);
  }

  /**
    Role 0 owned permission 8 and inherited 7 from role 1, which moves under role 2. Role 0
    keeps both although it has no descendants left, and role 2 does not get 7.
    */
  lemma ParentChangeExample(t: Table)
    requires t == map[
      0 := Role("A", None, 0, true, false, {7, 8}),
      1 := Role("B", Some(0), 1, true, false, {7}),
      2 := Role("C", None, 0, true, false, {})]
    ensures Linked(t) && ParentsContainChildren(t) && CanReparent(t, 1, Some(2))
    ensures forall d :: !ProperlyBelow(ParentChangeSaved(t, 1, Some(2)), 0, d)
    ensures SubtreePerms(ParentChangeSaved(t, 1, Some(2)), 0) == ParentChangeSaved(t, 1, Some(2))[0].perms == {7, 8}
    ensures ParentChangeSaved(t, 1, Some(2))[2].perms == {}
    ensures !ParentsContainChildren(ParentChangeSaved(t, 1, Some(2)))
  {
    ExampleFacts(t);
    FormerAncestorKeepsAll(t, 1, Some(2), 0);
    ReparentingStoresNothing(t, 1, Some(2));
    MoveHangs(t, 1, Some(2));
    HangKeepsAgreementIff(t, ParentChanged(t, 1, Some(2)), {1}, Some(2));
    assert 7 in t[1].perms && 7 !in t[2].perms;
  }

  lemma ExampleFacts(t: Table)
    requires t == map[
      0 := Role("A", None, 0, true, false, {7, 8}),
      1 := Role("B", Some(0), 1, true, false, {7}),
      2 := Role("C", None, 0, true, false, {})]
    ensures Linked(t) && ParentsContainChildren(t) && CanReparent(t, 1, Some(2)) && ProperlyBelow(t, 0, 1)
    ensures forall d :: !ProperlyBelow(ParentChanged(t, 1, Some(2)), 0, d)
  {
    var a, b, c := t[0], t[1], t[2];
    assert a.parent == None && b.parent == Some(0) && c.parent == None;
    assert a.perms == {7, 8} && b.perms == {7} && c.perms == {};
    BelowStep(t, 1, 2);
    BelowSelf(t, 0);
    var u := ParentChanged(t, 1, Some(2));
    forall d
      ensures !ProperlyBelow(u, 0, d)
    {
      if d in u && u[d].parent.Some? {
        assert d == 1 && u[d].parent == Some(2);
        BelowStep(u, 0, 2);
      }
    }
  }
}

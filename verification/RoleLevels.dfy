/**
  Levels: what each operation does to them, and exactly when they stay strict.
  */
module RoleLevels {
  import opened Wrappers
  import opened RoleForest
  import opened RoleTraversal
  import opened RolePermissions
  import opened RoleOperations

  ghost predicate LevelsInRange(t: Table) {
    forall r :: r in t ==> 0 <= t[r].level <= MAX_LEVEL
  }

  ghost predicate Layered(t: Table) {
    StrictLevels(t) && LevelsInRange(t)
  }

  // ---------------------------------------------------------------- creation and assignment

  lemma SameLevelsKeepLayered(t: Table, u: Table)
    requires Layered(t) && SameShape(t, u) && forall x :: x in t ==> u[x].level == t[x].level
    ensures Layered(u)
  {
    forall r | r in u && u[r].parent.Some? && u[r].parent.value in u
      ensures u[u[r].parent.value].level < u[r].level
    {
      var q := t[r].parent.value;
      assert q in t && t[q].level < t[r].level;
    }
  }

  lemma CreateKeepsLayered(catalog: Catalog, t: Table, id: RoleId, input: CreateInput)
    requires Layered(t) && Linked(t) && id !in t && CanCreate(t, catalog, input)
    ensures Layered(Created(t, id, input))
  {
    var u := t[id := Role(input.name, input.parentId, input.level, true, input.system, Elements(input.permissionIds))];
    assert Layered(u);
    SameLevelsKeepLayered(u, Created(t, id, input));
  }

  lemma ChangeKeepsLayered(t: Table, r: RoleId, p: Option<RoleId>)
    requires Layered(t) && Linked(t) && CanReparent(t, r, p)
    ensures Layered(ParentChanged(t, r, p))
  {
    var u := ParentChanged(t, r, p);
    forall x | x in u && u[x].parent.Some? && u[x].parent.value in u
      ensures u[u[x].parent.value].level < u[x].level
    {
      var q := u[x].parent.value;
      assert u[q].level == t[q].level && u[x].level == t[x].level;
    }
  }

  lemma AssignKeepsLayered(t: Table, p: RoleId, children: seq<RoleId>)
    requires Forest(t) && Layered(t) && CanAssign(t, p, children)
    ensures Layered(ChildrenAssigned(t, p, children))
    ensures forall r :: r in t ==> ChildrenAssigned(t, p, children)[r].level <= t[r].level
  {
    var u := ChildrenAssigned(t, p, children);
    BelowSelf(t, p);
    forall r | r in t
      ensures u[r].level <= t[r].level && (r in children ==> r != p)
    {
      if r in children {
        assert CanHang(t, r, p);
      }
    }
  }

  // ---------------------------------------------------------------- moving a subtree

  /**
    The move as documented would put each role of the subtree at the base level plus its
    depth, leave every other row alone, raise no level and keep the levels strict.
    */
  lemma IntendedMoveLevels(t: Table, r: RoleId, p: Option<RoleId>)
    requires Forest(t) && Layered(t) && CanReparent(t, r, p)
    ensures forall x :: x in t && !Below(t, r, x) ==> IntendedMove(t, r, p)[x] == t[x]
    ensures forall x :: x in t && Below(t, r, x) ==>
              IntendedMove(t, r, p)[x].level == BaseLevel(t, p) + Depth(t, r, x) <= t[x].level
    ensures Layered(IntendedMove(t, r, p))
  {
    var u := IntendedMove(t, r, p);
    BelowSelf(t, r);
    forall x | x in t
      ensures !Below(t, r, x) ==> u[x] == t[x]
      ensures Below(t, r, x) ==> u[x].level == BaseLevel(t, p) + Depth(t, r, x) <= t[x].level
    {
      IntendedLevelAt(t, r, p, x);
    }
    forall x | x in t && u[x].parent.Some?
      ensures u[u[x].parent.value].level < u[x].level
    {
      MoveEdge(t, r, p, x);
    }
    forall x | x in t
      ensures 0 <= u[x].level <= MAX_LEVEL
    {
      assert u[x].level <= t[x].level;
    }
  }

  lemma IntendedLevelAt(t: Table, r: RoleId, p: Option<RoleId>, x: RoleId)
    requires Layered(t) && CanReparent(t, r, p) && x in t
    ensures !Below(t, r, x) ==> IntendedMove(t, r, p)[x] == t[x]
    ensures Below(t, r, x) ==> IntendedMove(t, r, p)[x].level == BaseLevel(t, p) + Depth(t, r, x) <= t[x].level
  {
    BelowSelf(t, r);
    if Below(t, r, x) {
      LevelsFallUpwards(t, x, Depth(t, r, x));
    }
  }

  lemma MoveEdge(t: Table, r: RoleId, p: Option<RoleId>, x: RoleId)
    requires Forest(t) && Layered(t) && CanReparent(t, r, p) && x in t && IntendedMove(t, r, p)[x].parent.Some?
    ensures IntendedMove(t, r, p)[IntendedMove(t, r, p)[x].parent.value].level < IntendedMove(t, r, p)[x].level
  {
    IntendedLevelAt(t, r, p, x);
    if x == r {
      MovedRootLevel(t, r, p);
      IntendedLevelAt(t, r, p, p.value);
    } else {
      var q := t[x].parent.value;
      IntendedLevelAt(t, r, p, q);
      BelowStep(t, r, x);
      BelowSelf(t, r);
      if Below(t, r, q) {
        DepthViaParent(t, r, x);
      }
    }
  }

  lemma DepthViaParent(t: Table, r: RoleId, x: RoleId)
    requires Forest(t) && x in t && t[x].parent.Some? && Below(t, r, t[x].parent.value)
    ensures Below(t, r, x) && Depth(t, r, x) == Depth(t, r, t[x].parent.value) + 1
  {
    var n := Depth(t, r, t[x].parent.value);
    assert Up(t, x, n + 1) == Some(r);
    DepthUnique(t, r, x, n + 1);
  }

  /** The moved role keeps its level, or it has no children whose new levels it could meet. */
  ghost predicate MoveFits(t: Table, r: RoleId, p: Option<RoleId>)
    requires r in t
  {
    t[r].level == BaseLevel(t, p) || forall c :: c in t ==> t[c].parent != Some(r)
  }

  /**
    A subtree move puts each role below the moved one at the base level plus its depth, saves
    the moved role with the level it was loaded with, leaves every other row alone and raises
    no level.
    */
  lemma MoveLevels(t: Table, r: RoleId, p: Option<RoleId>)
    requires Forest(t) && Layered(t) && CanReparent(t, r, p)
    ensures SubtreeMoved(t, r, p)[r] == t[r].(parent := p)
    ensures forall x :: x in t && !Below(t, r, x) ==> SubtreeMoved(t, r, p)[x] == t[x]
    ensures forall x :: x in t && x != r && Below(t, r, x) ==>
              SubtreeMoved(t, r, p)[x].level == BaseLevel(t, p) + Depth(t, r, x) <= t[x].level
  {
    BelowSelf(t, r);
    SavedMove(t, r, p);
    forall x | x in t && x != r
      ensures !Below(t, r, x) ==> SubtreeMoved(t, r, p)[x] == t[x]
      ensures Below(t, r, x) ==> SubtreeMoved(t, r, p)[x].level == BaseLevel(t, p) + Depth(t, r, x) <= t[x].level
    {
      IntendedLevelAt(t, r, p, x);
    }
  }

  /** The saved move keeps levels strict and in range exactly when the moved role fits. */
  lemma MoveKeepsLevelsIff(t: Table, r: RoleId, p: Option<RoleId>)
    requires Forest(t) && Layered(t) && CanReparent(t, r, p)
    ensures Layered(SubtreeMoved(t, r, p)) <==> MoveFits(t, r, p)
  {
    var u, v := IntendedMove(t, r, p), SubtreeMoved(t, r, p);
    assert Layered(u) by {
      IntendedMoveLevels(t, r, p);
    }
    SavedMove(t, r, p);
    MovedRootLevel(t, r, p);
    if t[r].level == BaseLevel(t, p) {
      assert v == u;
    } else if c :| c in t && t[c].parent == Some(r) {
      MovedChildLevel(t, r, p, c);
      assert v[c].parent == Some(r) && v[c].level <= v[r].level;
      assert !StrictLevels(v);
    } else {
      RootMayRise(u, v, r, t[r].level);
    }
  }

  lemma MovedRootLevel(t: Table, r: RoleId, p: Option<RoleId>)
    requires Forest(t) && Layered(t) && CanReparent(t, r, p)
    ensures IntendedMove(t, r, p)[r].level == BaseLevel(t, p) <= t[r].level
    ensures forall c :: c in t && IntendedMove(t, r, p)[c].parent == Some(r) ==> t[c].parent == Some(r)
  {
    BelowSelf(t, r);
    DepthUnique(t, r, r, 0);
    IntendedLevelAt(t, r, p, r);
    MoveHangs(t, r, p);
  }

  lemma MovedChildLevel(t: Table, r: RoleId, p: Option<RoleId>, c: RoleId)
    requires Forest(t) && Layered(t) && CanReparent(t, r, p) && c in t && t[c].parent == Some(r)
    ensures c != r && IntendedMove(t, r, p)[c].parent == Some(r)
    ensures IntendedMove(t, r, p)[c].level == BaseLevel(t, p) + 1
  {
    BelowSelf(t, r);
    BelowStep(t, r, c);
    assert Up(t, c, 1) == Some(r);
    DepthUnique(t, r, c, 1);
    IntendedLevelAt(t, r, p, c);
    MoveHangs(t, r, p);
  }

  /** A childless role may be put on a larger level. */
  lemma RootMayRise(u: Table, v: Table, r: RoleId, level: int)
    requires Layered(u) && r in u && v == u[r := u[r].(level := level)] && u[r].level <= level <= MAX_LEVEL
    requires forall c :: c in u ==> u[c].parent != Some(r)
    ensures Layered(v)
  {
  }

  /** A permitted move after which the moved role and its child stand on the same level. */
  lemma MoveBreaksLevelsExample(t: Table)
    requires t == map[
      0 := Role("A", None, 0, true, false, {}),
      1 := Role("B", Some(0), 1, true, false, {}),
      2 := Role("C", Some(1), 2, true, false, {}),
      3 := Role("D", Some(2), 3, true, false, {})]
    ensures Forest(t) && Layered(t) && CanReparent(t, 2, Some(0))
    ensures !Layered(SubtreeMoved(t, 2, Some(0)))
  {
    var a, b, c, d := t[0], t[1], t[2], t[3];
    assert a.parent == None && b.parent == Some(0) && c.parent == Some(1) && d.parent == Some(2);
    assert a.level == 0 && b.level == 1 && c.level == 2 && d.level == 3;
    forall r | r in t
      ensures r == 0 || r == 1 || r == 2 || r == 3
    {
    }
    assert Layered(t);
    StrictLevelsMakeForest(t);
    BelowStep(t, 2, 0);
    assert CanReparent(t, 2, Some(0));
    assert BaseLevel(t, Some(0)) == 1;
    assert 3 in t && t[3].parent == Some(2);
    MoveKeepsLevelsIff(t, 2, Some(0));
  }

  /** The role's level after the update lies strictly between its parent's and its children's. */
  ghost predicate EditFits(t: Table, r: RoleId, change: UpdateInput)
    requires r in t
  {
    (change.parentId.None? && t[r].parent.Some? && t[r].parent.value in t ==>
       t[t[r].parent.value].level < NewLevel(t[r], change))
    && forall c :: c in t && t[c].parent == Some(r) ==> NewLevel(t[r], change) < t[c].level
  }

  /** An update keeps levels strict and in range exactly when the level it leaves fits. */
  lemma LevelEditKeepsLevelsIff(t: Table, catalog: Catalog, r: RoleId, change: UpdateInput)
    requires Forest(t) && Layered(t) && CanUpdate(t, catalog, r, change)
    ensures Layered(Updated(t, r, change)) <==> EditFits(t, r, change)
  {
    var u := Updated(t, r, change);
    UpdateKeepsForestShape(t, catalog, r, change);
    if StrictLevels(u) {
      forall c | c in t && t[c].parent == Some(r)
        ensures NewLevel(t[r], change) < t[c].level
      {
        assert c != r by {
          BelowSelf(t, r);
        }
        assert u[c].parent == Some(r);
      }
    }
  }

  function LevelEdit(level: int): UpdateInput {
    UpdateInput(None, Some(level), None, None, None)
  }

  /** Permitted edits that put a role on its parent's level, and a root above its child. */
  lemma LevelEditBreaksExample(t: Table, catalog: Catalog)
    requires t == map[
      0 := Role("A", None, 0, true, false, {}),
      1 := Role("B", Some(0), 1, true, false, {}),
      2 := Role("C", Some(1), 2, true, false, {})]
    ensures Forest(t) && Layered(t)
    ensures CanUpdate(t, catalog, 1, LevelEdit(0)) && !Layered(Updated(t, 1, LevelEdit(0)))
    ensures CanUpdate(t, catalog, 0, LevelEdit(4)) && !Layered(Updated(t, 0, LevelEdit(4)))
  {
    var a, b, c := t[0], t[1], t[2];
    assert a.parent == None && b.parent == Some(0) && c.parent == Some(1);
    assert a.level == 0 && b.level == 1 && c.level == 2;
    assert Layered(t);
    StrictLevelsMakeForest(t);
    LevelEditKeepsLevelsIff(t, catalog, 1, LevelEdit(0));
    LevelEditKeepsLevelsIff(t, catalog, 0, LevelEdit(4));
    assert 1 in t && t[1].parent == Some(0);
  }

  lemma UpdateKeepsForestShape(t: Table, catalog: Catalog, r: RoleId, change: UpdateInput)
    requires Forest(t) && CanUpdate(t, catalog, r, change)
    ensures Forest(Updated(t, r, change))
    ensures Updated(t, r, change)[r].parent != Some(r)
  {
    var u := Updated(t, r, change);
    BelowSelf(t, r);
    if change.parentId.Some? {
      ReparentKeepsForest(t, u, {r}, change.parentId.value);
    } else {
      ForestSameShape(t, u);
    }
    BelowSelf(u, r);
  }
}

/**
  What each operation of the roles service demands and does, as conditions and functions on
  the table. The service's methods are proved against these.
  */
module RoleOperations {
  import opened Wrappers
  import opened RoleForest
  import opened RoleTraversal
  import opened RolePermissions

  const MAX_LEVEL := 10
  const ROOT_LEVELS := {0, 4}
  const NON_DEACTIVATABLE := {"SUPER_ADMIN_ROL", "RESIDENT_ROL", "COMPLEX_ROL"}

  datatype CreateInput = CreateInput(
    name: string, level: int, parentId: Option<RoleId>, system: bool, permissionIds: seq<PermId>)

  /** Absent fields are `None`; `parentId == Some(None)` asks for no parent. */
  datatype UpdateInput = UpdateInput(
    name: Option<string>, level: Option<int>, parentId: Option<Option<RoleId>>,
    system: Option<bool>, permissionIds: Option<seq<PermId>>)

  // ---------------------------------------------------------------- guards

  predicate ValidParent(t: Table, p: RoleId, childLevel: int) {
    p in t && t[p].active && t[p].level < childLevel
  }

  predicate ValidHierarchy(level: int, parentLevel: Option<int>) {
    0 <= level <= MAX_LEVEL
    && (parentLevel.None? ==> level in ROOT_LEVELS)
    && (parentLevel.Some? ==> level - parentLevel.value <= 1)
  }

  predicate NameTaken(t: Table, name: string) {
    exists r :: r in t && t[r].name == name
  }

  ghost predicate CanCreate(t: Table, catalog: Catalog, input: CreateInput) {
    !NameTaken(t, input.name)
    && ValidRequest(catalog, input.permissionIds)
    && (input.parentId.Some? ==> ValidParent(t, input.parentId.value, input.level))
    && ValidHierarchy(input.level, LevelOf(t, input.parentId))
  }

  /** `r` may be hung under `p`: an active role at a smaller level, outside the subtree of `r`. */
  ghost predicate CanHang(t: Table, r: RoleId, p: RoleId) {
    r in t && p in t && t[p].active && !Below(t, r, p) && t[p].level < t[r].level
  }

  ghost predicate CanReparent(t: Table, r: RoleId, p: Option<RoleId>) {
    r in t && (p.Some? ==> CanHang(t, r, p.value))
  }

  ghost predicate CanAssign(t: Table, p: RoleId, children: seq<RoleId>) {
    p in t && forall c :: c in children && c in t ==> CanHang(t, c, p)
  }

  ghost predicate CanRemove(t: Table, r: RoleId, activeHolders: nat) {
    r in t && t[r].active && !t[r].system && t[r].name !in NON_DEACTIVATABLE && activeHolders == 0
    && forall c :: c in t && t[c].parent == Some(r) ==> !t[c].active
  }

  ghost predicate CanRestore(t: Table, catalog: Catalog, r: RoleId) {
    r in t && !t[r].active
    && (t[r].parent.Some? && t[r].parent.value in t ==> t[t[r].parent.value].active)
    && forall p :: p in t[r].perms && p in catalog ==> catalog[p].active
  }

  function NewLevel(role: Role, input: UpdateInput): int {
    if input.level.Some? then input.level.value else role.level
  }

  function NewParent(role: Role, input: UpdateInput): Option<RoleId> {
    if input.parentId.Some? then input.parentId.value else role.parent
  }

  predicate Renames(role: Role, input: UpdateInput) {
    input.name.Some? && input.name.value != "" && input.name.value != role.name
  }

  /** System roles keep name and flag; a new name must be free. */
  predicate IdentityAllowed(t: Table, role: Role, input: UpdateInput) {
    (role.system ==> !Renames(role, input) && input.system != Some(false))
    && (Renames(role, input) ==> !NameTaken(t, input.name.value))
  }

  /** The position asked for is outside the subtree, under an active parent, on an allowed level. */
  ghost predicate PositionAllowed(t: Table, r: RoleId, input: UpdateInput)
    requires r in t
  {
    (input.parentId.Some? && input.parentId.value.Some? ==>
       !Below(t, r, input.parentId.value.value)
       && ValidParent(t, input.parentId.value.value, NewLevel(t[r], input)))
    && ValidHierarchy(NewLevel(t[r], input), LevelOf(t, NewParent(t[r], input)))
  }

  function LevelOf(t: Table, p: Option<RoleId>): Option<int> {
    if p.Some? && p.value in t then Some(t[p.value].level) else None
  }

  ghost predicate CanUpdate(t: Table, catalog: Catalog, r: RoleId, input: UpdateInput) {
    r in t && IdentityAllowed(t, t[r], input)
    && (input.permissionIds.Some? ==> ValidRequest(catalog, input.permissionIds.value))
    && PositionAllowed(t, r, input)
  }

  // ---------------------------------------------------------------- effects

  /** The new row, and its permissions carried up to every ancestor. */
  ghost function Created(t: Table, id: RoleId, input: CreateInput): Table {
    var u := t[id := Role(input.name, input.parentId, input.level, true, input.system, Elements(input.permissionIds))];
    if input.parentId.Some? then Saturate(u, Ancestry(u, input.parentId.value)) else u
  }

  ghost function ParentChanged(t: Table, r: RoleId, p: Option<RoleId>): Table
    requires r in t
  {
    t[r := t[r].(parent := p)]
  }

  /** How many links `d` lies below `a`. */
  ghost function Depth(t: Table, a: RoleId, d: RoleId): nat
    requires Below(t, a, d)
  {
    var n: nat :| Up(t, d, n) == Some(a); n
  }

  /** The subtree of `r` on levels counted from `base`; nothing else changed. */
  ghost function Releveled(t: Table, r: RoleId, base: int): (u: Table)
    ensures SameShape(t, u)
    ensures forall x :: x in t ==> u[x].active == t[x].active && u[x].perms == t[x].perms
  {
    map x | x in t :: if Below(t, r, x) then t[x].(level := base + Depth(t, r, x)) else t[x]
  }

  function BaseLevel(t: Table, p: Option<RoleId>): int {
    if p.Some? && p.value in t then t[p.value].level + 1 else 0
  }

  /** The move as it is documented: the whole subtree on its new levels, under the new parent. */
  ghost function IntendedMove(t: Table, r: RoleId, p: Option<RoleId>): Table
    requires r in t
  {
    ParentChanged(Releveled(t, r, BaseLevel(t, p)), r, p)
  }

  /** The move as it is saved: the last write stores the row loaded before the levels changed. */
  ghost function SubtreeMoved(t: Table, r: RoleId, p: Option<RoleId>): Table
    requires r in t
  {
    Releveled(t, r, BaseLevel(t, p))[r := t[r].(parent := p)]
  }

  ghost function ChildrenAssigned(t: Table, p: RoleId, children: seq<RoleId>): Table
    requires p in t
  {
    map r | r in t :: if r in children then t[r].(parent := Some(p), level := t[p].level + 1) else t[r]
  }

  function WithStatus(t: Table, r: RoleId, active: bool): Table
    requires r in t
  {
    t[r := t[r].(active := active)]
  }

  function Updated(t: Table, r: RoleId, input: UpdateInput): Table
    requires r in t
  {
    var role := t[r];
    t[r := Role(
        if input.name.Some? then input.name.value else role.name,
        NewParent(role, input),
        NewLevel(role, input),
        role.active,
        if input.system.Some? then input.system.value else role.system,
        if input.permissionIds.Some? then Elements(input.permissionIds.value) else role.perms)]
  }

  // ---------------------------------------------------------------- effects with the ancestors' permissions

  /** The role `p`, if there is one, and the roles above it. */
  ghost function AncestryOf(t: Table, p: Option<RoleId>): set<RoleId> {
    if p.Some? then Ancestry(t, p.value) else {}
  }

  /** The roles above `r`. */
  ghost function ProperAncestry(t: Table, r: RoleId): set<RoleId>
    requires r in t
  {
    AncestryOf(t, t[r].parent)
  }

  /** The pending rows, in which the roles of `s` store their unions as computed from the committed rows. */
  ghost function WithUnions(committed: Table, pending: Table, s: set<RoleId>): (u: Table)
    ensures SameShape(pending, u)
  {
    map x | x in pending :: if x in s then pending[x].(perms := SubtreePerms(committed, x)) else pending[x]
  }

  /** Deactivation, with the unions of all ancestors. */
  ghost function Removed(t: Table, r: RoleId): Table
    requires r in t
  {
    WithUnions(t, WithStatus(t, r, false), ProperAncestry(t, r))
  }

  ghost function Restored(t: Table, r: RoleId): Table
    requires r in t
  {
    WithUnions(t, WithStatus(t, r, true), ProperAncestry(t, r))
  }

  /** A changed parent, with the unions of the old and the new ancestors. */
  ghost function ParentChangeSaved(t: Table, r: RoleId, p: Option<RoleId>): Table
    requires r in t
  {
    WithUnions(t, ParentChanged(t, r, p), AncestryOf(t, p) + ProperAncestry(t, r))
  }

  /** A moved subtree, with the unions of the new ancestors. */
  ghost function MoveSaved(t: Table, r: RoleId, p: Option<RoleId>): Table
    requires r in t
  {
    WithUnions(t, SubtreeMoved(t, r, p), AncestryOf(t, p))
  }

  /** The roles above the listed children, before and after their assignment. */
  ghost function BatchAncestry(t: Table, p: RoleId, children: seq<RoleId>): set<RoleId> {
    set a | a in t && exists c :: c in children && c in t && (a in ProperAncestry(t, c) || a in Ancestry(t, p))
  }

  ghost function BatchSaved(t: Table, p: RoleId, children: seq<RoleId>): Table
    requires p in t
  {
    WithUnions(t, ChildrenAssigned(t, p, children), BatchAncestry(t, p, children))
  }

  /** The ancestors an update recomputes: the present ones, and the former ones of a role that changes its parent. */
  ghost function UpdateAncestry(t: Table, r: RoleId, input: UpdateInput): set<RoleId>
    requires r in t
  {
    if input.permissionIds.None? && input.parentId.None? && input.level.None? then {}
    else
      AncestryOf(t, NewParent(t[r], input))
      + if NewParent(t[r], input) != t[r].parent then ProperAncestry(t, r) else {}
  }

  ghost function UpdateSaved(t: Table, r: RoleId, input: UpdateInput): Table
    requires r in t
  {
    WithUnions(t, Updated(t, r, input), UpdateAncestry(t, r, input))
  }

  /** The roles with one of `rs` somewhere below them. */
  ghost function AboveAny(t: Table, rs: set<RoleId>): set<RoleId> {
    set a | a in t && exists d :: d in rs && ProperlyBelow(t, a, d)
  }

  function ActiveRoles(t: Table): set<RoleId> {
    set d | d in t && t[d].active
  }

  ghost function Refreshed(t: Table): Table {
    Saturate(t, AboveAny(t, ActiveRoles(t)))
  }

  /** Which rows a refresh writes, and what. */
  lemma RefreshedRows(t: Table)
    ensures forall a, d :: a in t && d in t && t[d].active && ProperlyBelow(t, a, d) ==>
              Refreshed(t)[a] == t[a].(perms := SubtreePerms(t, a))
    ensures forall a :: a in t && (forall d :: ProperlyBelow(t, a, d) ==> !t[d].active) ==> Refreshed(t)[a] == t[a]
  {
    forall a, d | a in t && d in t && t[d].active && ProperlyBelow(t, a, d)
      ensures a in AboveAny(t, ActiveRoles(t))
    {
      assert d in ActiveRoles(t);
    }
  }

  /** Carrying one more role's permissions up extends the saturated set by its ancestors. */
  lemma RefreshStep(t: Table, rs: set<RoleId>, r: RoleId, u: Table)
    requires r in t && u == Saturate(t, AboveAny(t, rs))
    ensures Saturate(t, AboveAny(t, rs + {r}))
         == if t[r].parent.Some? then Saturate(u, Ancestry(u, t[r].parent.value)) else u
  {
    BelowSameShape(t, u);
    var above := if t[r].parent.Some? then Ancestry(u, t[r].parent.value) else {};
    assert AboveAny(t, rs + {r}) == AboveAny(t, rs) + above;
    SaturateTwice(t, AboveAny(t, rs), above);
  }

  /** The roles of `s` on their levels below `r`, the others where they were. */
  ghost function PartlyReleveled(t: Table, r: RoleId, base: int, s: set<RoleId>): (u: Table)
    ensures SameShape(t, u)
  {
    map x | x in t :: if x in s && Below(t, r, x) then t[x].(level := base + Depth(t, r, x)) else t[x]
  }

  /** Everything at or below one of `rs`. */
  ghost function SubtreesOf(t: Table, rs: set<RoleId>): set<RoleId> {
    set x | x in t && exists c :: c in rs && Below(t, c, x)
  }

  // ---------------------------------------------------------------- reparenting and the other columns

  /** `u` differs from `t` at most in levels and in the parent `p` of the roles of `moved`. */
  ghost predicate Hung(t: Table, u: Table, moved: set<RoleId>, p: Option<RoleId>) {
    Reparented(t, u, moved, p)
    && forall x :: x in t ==> u[x].active == t[x].active && u[x].perms == t[x].perms
  }

  lemma MoveHangs(t: Table, r: RoleId, p: Option<RoleId>)
    requires r in t
    ensures Hung(t, ParentChanged(t, r, p), {r}, p)
    ensures Hung(t, IntendedMove(t, r, p), {r}, p) && Hung(t, SubtreeMoved(t, r, p), {r}, p)
  {
    ChangeHangs(t, t, r, p);
    ChangeHangs(t, Releveled(t, r, BaseLevel(t, p)), r, p);
    SaveHangs(t, Releveled(t, r, BaseLevel(t, p)), r, p);
  }

  lemma SaveHangs(t: Table, u: Table, r: RoleId, p: Option<RoleId>)
    requires r in t && SameShape(t, u)
    requires forall x :: x in t ==> u[x].active == t[x].active && u[x].perms == t[x].perms
    ensures Hung(t, u[r := t[r].(parent := p)], {r}, p)
  {
  }

  /** The saved move differs from the intended one in the level of the moved role only. */
  lemma SavedMove(t: Table, r: RoleId, p: Option<RoleId>)
    requires r in t
    ensures SubtreeMoved(t, r, p) == IntendedMove(t, r, p)[r := IntendedMove(t, r, p)[r].(level := t[r].level)]
  {
    var u := Releveled(t, r, BaseLevel(t, p));
    assert u[r].(parent := p, level := t[r].level) == t[r].(parent := p);
  }

  lemma ChangeHangs(t: Table, u: Table, r: RoleId, p: Option<RoleId>)
    requires r in t && SameShape(t, u)
    requires forall x :: x in t ==> u[x].active == t[x].active && u[x].perms == t[x].perms
    ensures Hung(t, ParentChanged(u, r, p), {r}, p)
  {
  }

  lemma AssignHangs(t: Table, p: RoleId, children: seq<RoleId>)
    requires p in t
    ensures Hung(t, ChildrenAssigned(t, p, children), Elements(children), Some(p))
  {
  }

  /** Allowed reparentings, single or in a batch, keep the links a forest. */
  lemma HangKeepsForest(t: Table, u: Table, moved: set<RoleId>, p: Option<RoleId>)
    requires Forest(t) && Hung(t, u, moved, p)
    requires p.Some? ==> p.value in t && forall m :: m in moved && m in t ==> CanHang(t, m, p.value)
    ensures Forest(u)
  {
    if p.Some? {
      forall m | m in moved
        ensures !Below(t, m, p.value)
      {
        if m in t {
          assert CanHang(t, m, p.value);
        } else if Below(t, m, p.value) {
          BelowInTable(t, m, p.value);
          assert false;
        }
      }
    }
    ReparentKeepsForest(t, u, moved, p);
  }

  /** A role that `p` does not lie below is not above `p`, nor above its own parent. */
  lemma NotAboveItself(t: Table, r: RoleId, p: Option<RoleId>)
    requires Acyclic(t) && r in t && (p.Some? ==> !Below(t, r, p.value))
    ensures r !in AncestryOf(t, p) && r !in ProperAncestry(t, r)
  {
  }

  // ---------------------------------------------------------------- depth

  /** In a forest no chain comes back to where it started. */
  lemma NoReturn(t: Table, a: RoleId, n: nat)
    requires Forest(t) && Up(t, a, n) == Some(a)
    ensures n == 0
  {
    ForestIffRanked(t);
    var rank :| Ranked(t, rank);
    RankedUp(t, rank, a, n);
  }

  /** In a forest a role is reached over one number of links only. */
  lemma DepthUnique(t: Table, a: RoleId, d: RoleId, n: nat)
    requires Forest(t) && Up(t, d, n) == Some(a)
    ensures Below(t, a, d) && Depth(t, a, d) == n
  {
    var m := Depth(t, a, d);
    var lo, hi := if m < n then m else n, if m < n then n else m;
    UpCompose(t, d, lo, hi - lo);
    NoReturn(t, a, hi - lo);
  }

  /** One more link up is one more level of depth. */
  lemma DepthViaChild(t: Table, r: RoleId, c: RoleId, x: RoleId)
    requires Forest(t) && c in t && t[c].parent == Some(r) && Below(t, c, x)
    ensures Below(t, r, x) && Depth(t, r, x) == Depth(t, c, x) + 1
  {
    var n := Depth(t, c, x);
    UpCompose(t, x, n, 1);
    assert Up(t, c, 1) == Up(t, r, 0);
    DepthUnique(t, r, x, n + 1);
  }

  lemma DepthSameShape(t: Table, u: Table, a: RoleId, d: RoleId)
    requires Forest(t) && SameShape(t, u) && Below(t, a, d)
    ensures Below(u, a, d) && Depth(u, a, d) == Depth(t, a, d)
  {
    ForestSameShape(t, u);
    var n := Depth(t, a, d);
    UpSameShape(t, u, d, n);
    DepthUnique(u, a, d, n);
  }

  /** Rewriting the subtree of one child extends the part of `r`'s subtree that is done. */
  lemma RelevelChild(t: Table, r: RoleId, base: int, done: set<RoleId>, c: RoleId, u: Table)
    requires Forest(t) && c in t && t[c].parent == Some(r)
    requires u == PartlyReleveled(t, r, base, {r} + SubtreesOf(t, done))
    ensures Releveled(u, c, base + 1) == PartlyReleveled(t, r, base, {r} + SubtreesOf(t, done + {c}))
  {
    var v, w := Releveled(u, c, base + 1), PartlyReleveled(t, r, base, {r} + SubtreesOf(t, done + {c}));
    forall x | x in t
      ensures v[x] == w[x]
    {
      RelevelChildAt(t, r, base, done, c, u, x);
    }
  }

  lemma RelevelChildAt(t: Table, r: RoleId, base: int, done: set<RoleId>, c: RoleId, u: Table, x: RoleId)
    requires Forest(t) && c in t && t[c].parent == Some(r) && x in t
    requires u == PartlyReleveled(t, r, base, {r} + SubtreesOf(t, done))
    ensures Releveled(u, c, base + 1)[x] == PartlyReleveled(t, r, base, {r} + SubtreesOf(t, done + {c}))[x]
  {
    BelowSameShape(t, u);
    assert x in SubtreesOf(t, done + {c}) <==> x in SubtreesOf(t, done) || Below(t, c, x);
    if Below(t, c, x) {
      DepthViaChild(t, r, c, x);
      DepthSameShape(t, u, c, x);
    }
  }

  /** Writing the role's own level is the first part done. */
  lemma RelevelRoot(t: Table, r: RoleId, base: int)
    requires Forest(t) && r in t
    ensures t[r := t[r].(level := base)] == PartlyReleveled(t, r, base, {r} + SubtreesOf(t, {}))
  {
    BelowSelf(t, r);
    DepthUnique(t, r, r, 0);
    assert SubtreesOf(t, {}) == {};
  }

  /** The role itself and its children's subtrees are its whole subtree. */
  lemma RelevelAll(t: Table, r: RoleId, base: int, children: set<RoleId>)
    requires Forest(t) && forall c :: c in children <==> c in t && t[c].parent == Some(r)
    ensures PartlyReleveled(t, r, base, {r} + SubtreesOf(t, children)) == Releveled(t, r, base)
  {
    forall x | x in t && Below(t, r, x)
      ensures x in {r} + SubtreesOf(t, children)
    {
      BelowStep(t, r, x);
      if x != r {
        var n: nat :| Up(t, t[x].parent.value, n) == Some(r);
        var c := ChildTowards(t, r, x, n);
        BelowStep(t, c, x);
        assert c in children;
      }
    }
  }

  /** A child, seen in a table of the same shape, is one step further from the top. */
  lemma ChildIsDeeper(t: Table, u: Table, r: RoleId, c: RoleId)
    requires Forest(t) && SameShape(t, u) && c in t && t[c].parent == Some(r)
    ensures Forest(u) && |u.Keys| == |t.Keys| && Rank(t, r) < Rank(u, c) <= |t.Keys|
  {
    ForestSameShape(t, u);
    BelowSameShape(t, u);
    assert Ancestry(t, r) == Ancestry(u, r);
    RankOfParent(u, c);
  }
}

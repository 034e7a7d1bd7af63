/**
  The `roles` table as a parent map: who is above whom, when the parent links are a
  forest, and what reparenting does to them.
  */
module RoleForest {
  import opened Wrappers

  // Identifiers are only ever compared for equality.
  type RoleId = int
  type PermId = int

  datatype Role = Role(
    name: string,
    parent: Option<RoleId>,
    level: int,
    active: bool,
    system: bool,
    perms: set<PermId>)

  type Table = map<RoleId, Role>

  /** The role `n` parent links above `r`, if the chain is that long. */
  function Up(t: Table, r: RoleId, n: nat): Option<RoleId>
    decreases n
  {
    if r !in t then None
    else if n == 0 then Some(r)
    else if t[r].parent.None? then None
    else Up(t, t[r].parent.value, n - 1)
  }

  /** `a` is `d` or one of its ancestors. */
  ghost predicate Below(t: Table, a: RoleId, d: RoleId) {
    exists n: nat :: Up(t, d, n) == Some(a)
  }

  /** `a` is an ancestor of `d` by at least one parent link. */
  ghost predicate ProperlyBelow(t: Table, a: RoleId, d: RoleId) {
    d in t && t[d].parent.Some? && Below(t, a, t[d].parent.value)
  }

  /** The foreign key: parents are rows of the table. */
  ghost predicate Linked(t: Table) {
    forall r :: r in t && t[r].parent.Some? ==> t[r].parent.value in t
  }

  /** No role is found on the chain above itself. */
  ghost predicate Acyclic(t: Table) {
    forall r :: r in t ==> !ProperlyBelow(t, r, r)
  }

  ghost predicate Forest(t: Table) {
    Linked(t) && Acyclic(t)
  }

  /** `r` together with all its descendants. */
  ghost function Subtree(t: Table, r: RoleId): set<RoleId> {
    set d | d in t && Below(t, r, d)
  }

  /** `r` together with all its ancestors. */
  ghost function Ancestry(t: Table, r: RoleId): set<RoleId> {
    set a | a in t && Below(t, a, r)
  }

  /** Two tables with the same rows and the same parent links. */
  ghost predicate SameShape(t: Table, u: Table) {
    t.Keys == u.Keys && forall r :: r in t ==> u[r].parent == t[r].parent
  }

  lemma BelowSelf(t: Table, r: RoleId)
    requires r in t
    ensures Below(t, r, r)
  {
    assert Up(t, r, 0) == Some(r);
  }

  /** The chain above `d` either stops at `d` or continues at its parent. */
  lemma BelowStep(t: Table, a: RoleId, d: RoleId)
    ensures Below(t, a, d) <==> (d in t && (d == a || ProperlyBelow(t, a, d)))
  {
    if Below(t, a, d) {
      var n: nat :| Up(t, d, n) == Some(a);
      if n > 0 {
        assert Up(t, t[d].parent.value, n - 1) == Some(a);
      }
    }
    if d in t && d == a {
      BelowSelf(t, d);
    }
    if ProperlyBelow(t, a, d) {
      var n: nat :| Up(t, t[d].parent.value, n) == Some(a);
      assert Up(t, d, n + 1) == Some(a);
    }
  }

  lemma {:induction false} UpCompose(t: Table, r: RoleId, m: nat, n: nat)
    requires Up(t, r, m).Some?
    ensures Up(t, r, m + n) == Up(t, Up(t, r, m).value, n)
    decreases m
  {
    if m > 0 {
      UpCompose(t, t[r].parent.value, m - 1, n);
    }
  }

  lemma BelowTransitive(t: Table, a: RoleId, b: RoleId, c: RoleId)
    requires Below(t, a, b) && Below(t, b, c)
    ensures Below(t, a, c)
  {
    var m: nat :| Up(t, c, m) == Some(b);
    var n: nat :| Up(t, b, n) == Some(a);
    UpCompose(t, c, m, n);
    assert Up(t, c, m + n) == Some(a);
  }

  lemma {:induction false} UpSameShape(t: Table, u: Table, r: RoleId, n: nat)
    requires SameShape(t, u)
    ensures Up(t, r, n) == Up(u, r, n)
    decreases n
  {
    if r in t && n > 0 && t[r].parent.Some? {
      UpSameShape(t, u, t[r].parent.value, n - 1);
    }
  }

  lemma BelowSameShape(t: Table, u: Table)
    requires SameShape(t, u)
    ensures forall a, d :: Below(t, a, d) <==> Below(u, a, d)
    ensures forall a, d :: ProperlyBelow(t, a, d) <==> ProperlyBelow(u, a, d)
  {
    forall a, d
      ensures Below(t, a, d) <==> Below(u, a, d)
    {
      if Below(t, a, d) {
        var n: nat :| Up(t, d, n) == Some(a);
        UpSameShape(t, u, d, n);
        assert Up(u, d, n) == Some(a);
      }
      if Below(u, a, d) {
        var n: nat :| Up(u, d, n) == Some(a);
        UpSameShape(t, u, d, n);
        assert Up(t, d, n) == Some(a);
      }
    }
  }

  lemma AncestrySameShape(t: Table, u: Table, r: RoleId)
    requires SameShape(t, u)
    ensures Ancestry(u, r) == Ancestry(t, r)
  {
    BelowSameShape(t, u);
  }

  lemma ForestSameShape(t: Table, u: Table)
    requires SameShape(t, u) && Forest(t)
    ensures Forest(u)
  {
    BelowSameShape(t, u);
  }

  // ---------------------------------------------------------------- ranks

  /** The number of roles on the chain from `r` upwards. */
  ghost function Rank(t: Table, r: RoleId): nat {
    |Ancestry(t, r)|
  }

  lemma RankOfParent(t: Table, r: RoleId)
    requires Forest(t) && r in t && t[r].parent.Some?
    ensures Rank(t, t[r].parent.value) < Rank(t, r) <= |t.Keys|
  {
    var p := t[r].parent.value;
    forall a
      ensures a in Ancestry(t, r) <==> a == r || a in Ancestry(t, p)
    {
      BelowStep(t, a, r);
    }
    assert r !in Ancestry(t, p);
    assert Ancestry(t, r) == Ancestry(t, p) + {r};
    SubsetCardinality(Ancestry(t, r), t.Keys);
  }

  /** Parents have a smaller number than their children. */
  ghost predicate Ranked(t: Table, rank: map<RoleId, nat>) {
    t.Keys <= rank.Keys
    && forall r :: r in t && t[r].parent.Some? ==>
         t[r].parent.value in t && rank[t[r].parent.value] < rank[r]
  }

  lemma {:induction false} RankedUp(t: Table, rank: map<RoleId, nat>, r: RoleId, n: nat)
    requires Ranked(t, rank) && Up(t, r, n).Some?
    ensures r in t && Up(t, r, n).value in t
    ensures rank[Up(t, r, n).value] + n <= rank[r]
    decreases n
  {
    if n > 0 {
      RankedUp(t, rank, t[r].parent.value, n - 1);
    }
  }

  /** A table is a forest exactly when its rows can be numbered upwards-decreasing. */
  lemma ForestIffRanked(t: Table)
    ensures Forest(t) <==> exists rank :: Ranked(t, rank)
  {
    if Forest(t) {
      var rank: map<RoleId, nat> := map r | r in t :: Rank(t, r);
      forall r | r in t && t[r].parent.Some?
        ensures rank[t[r].parent.value] < rank[r]
      {
        RankOfParent(t, r);
      }
      assert Ranked(t, rank);
    }
    if exists rank :: Ranked(t, rank) {
      var rank :| Ranked(t, rank);
      forall r | r in t
        ensures !ProperlyBelow(t, r, r)
      {
        if ProperlyBelow(t, r, r) {
          var n: nat :| Up(t, t[r].parent.value, n) == Some(r);
          RankedUp(t, rank, t[r].parent.value, n);
          assert false;
        }
      }
    }
  }

  // ---------------------------------------------------------------- reparenting

  /** `u` is `t` with the roles of `moved` hung under `p` (or made roots). */
  ghost predicate Reparented(t: Table, u: Table, moved: set<RoleId>, p: Option<RoleId>) {
    u.Keys == t.Keys
    && forall r :: r in t ==> u[r].parent == if r in moved then p else t[r].parent
  }

  /**
    Hanging any number of roles under a parent that lies in none of their subtrees keeps
    the table a forest, even when all the subtree checks are made against the table before
    the first role moved.
    */
  lemma ReparentKeepsForest(t: Table, u: Table, moved: set<RoleId>, p: Option<RoleId>)
    requires Forest(t) && Reparented(t, u, moved, p)
    requires p.Some? ==> p.value in t && forall m :: m in moved ==> !Below(t, m, p.value)
    ensures Forest(u)
  {
    ForestIffRanked(t);
    var rank :| Ranked(t, rank);
    var shift := if p.Some? then rank[p.value] + 1 else 0;
    var under := set r | r in t && exists m :: m in moved && Below(t, m, r);
    var rank': map<RoleId, nat> := map r | r in t :: if r in under then rank[r] + shift else rank[r];
    forall r | r in u && u[r].parent.Some?
      ensures u[r].parent.value in u && rank'[u[r].parent.value] < rank'[r]
    {
      if r in moved {
        BelowSelf(t, r);
        assert r in under && p.value !in under;
      } else {
        var q := t[r].parent.value;
        if r in under {
          var m :| m in moved && Below(t, m, r);
          BelowStep(t, m, r);
          assert q in under;
        } else if q in under {
          var m :| m in moved && Below(t, m, q);
          BelowStep(t, m, r);
          assert false;
        }
      }
    }
    assert Ranked(u, rank');
    ForestIffRanked(u);
  }

  /** Adding a row under an existing parent keeps the forest and everyone's chain. */
  lemma AddLeaf(t: Table, r: RoleId, row: Role, u: Table)
    requires Linked(t) && r !in t && (row.parent.Some? ==> row.parent.value in t)
    requires u == t[r := row]
    ensures forall a, d :: d in t ==> (Below(u, a, d) <==> Below(t, a, d))
    ensures forall d :: d != r ==> !Below(u, r, d)
    ensures Below(u, r, r)
    ensures Forest(t) ==> Forest(u)
  {
    forall a, d | d in t
      ensures Below(u, a, d) <==> Below(t, a, d)
    {
      if Below(t, a, d) {
        var n: nat :| Up(t, d, n) == Some(a);
        UpAddLeaf(t, r, row, d, n);
        assert Up(u, d, n) == Some(a);
      }
      if Below(u, a, d) {
        var n: nat :| Up(u, d, n) == Some(a);
        UpAddLeaf(t, r, row, d, n);
        assert Up(t, d, n) == Some(a);
      }
    }
    BelowSelf(u, r);
    forall d | d != r
      ensures !Below(u, r, d)
    {
      if d in t && Below(u, r, d) {
        var n: nat :| Up(t, d, n) == Some(r);
        UpInTable(t, d, n);
        assert false;
      }
    }
  }

  lemma {:induction false} UpAddLeaf(t: Table, r: RoleId, row: Role, d: RoleId, n: nat)
    requires Linked(t) && r !in t && d in t
    ensures Up(t[r := row], d, n) == Up(t, d, n)
    decreases n
  {
    if n > 0 && t[d].parent.Some? {
      UpAddLeaf(t, r, row, t[d].parent.value, n - 1);
    }
  }

  lemma BelowInTable(t: Table, a: RoleId, d: RoleId)
    requires Below(t, a, d)
    ensures a in t && d in t
  {
    var n: nat :| Up(t, d, n) == Some(a);
    UpInTable(t, d, n);
  }

  lemma {:induction false} UpInTable(t: Table, r: RoleId, n: nat)
    requires Up(t, r, n).Some?
    ensures r in t && Up(t, r, n).value in t
    decreases n
  {
    if n > 0 {
      UpInTable(t, t[r].parent.value, n - 1);
    }
  }
}

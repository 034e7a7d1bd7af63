/**
  Upward permission inheritance: the union of a subtree's stored permissions, the methods
  that compute it, and the algebra of writing that union into stored sets.
  */
module RolePermissions {
  import opened Wrappers
  import opened RoleForest
  import opened RoleTraversal

  /** What the stored sets of `a` and all its descendants contain together. */
  ghost function SubtreePerms(t: Table, a: RoleId): set<PermId> {
    set d, p | d in Subtree(t, a) && p in t[d].perms :: p
  }

  /** `p` is stored at some role at least one link below `a`. */
  ghost predicate StoredBelow(t: Table, a: RoleId, p: PermId) {
    exists d :: ProperlyBelow(t, a, d) && p in t[d].perms
  }

  /** `p` is stored at `c` or below it. */
  ghost predicate StoredWithin(t: Table, c: RoleId, p: PermId) {
    c in t && (p in t[c].perms || StoredBelow(t, c, p))
  }

  lemma SubtreePermsSplit(t: Table, a: RoleId)
    ensures forall p :: p in SubtreePerms(t, a) <==> StoredWithin(t, a, p)
  {
    forall p
      ensures p in SubtreePerms(t, a) <==> StoredWithin(t, a, p)
    {
      if p in SubtreePerms(t, a) {
        var d :| d in Subtree(t, a) && p in t[d].perms;
        BelowStep(t, a, d);
        var n: nat :| Up(t, d, n) == Some(a);
        UpInTable(t, d, n);
      }
      if a in t && p in t[a].perms {
        BelowSelf(t, a);
        assert a in Subtree(t, a);
      }
      if StoredBelow(t, a, p) {
        var d :| ProperlyBelow(t, a, d) && p in t[d].perms;
        BelowStep(t, a, d);
        assert d in Subtree(t, a);
      }
    }
  }

  lemma OwnPermsIncluded(t: Table, a: RoleId)
    requires a in t
    ensures t[a].perms <= SubtreePerms(t, a)
  {
    SubtreePermsSplit(t, a);
    forall p | p in t[a].perms
      ensures p in SubtreePerms(t, a)
    {
      assert StoredWithin(t, a, p);
    }
  }

  lemma StoredBelowViaChild(t: Table, a: RoleId, p: PermId)
    ensures StoredBelow(t, a, p) <==>
            exists c :: c in t && t[c].parent == Some(a) && a in t && StoredWithin(t, c, p)
  {
    if StoredBelow(t, a, p) {
      var d :| ProperlyBelow(t, a, d) && p in t[d].perms;
      var n: nat :| Up(t, t[d].parent.value, n) == Some(a);
      var c := ChildTowards(t, a, d, n);
      assert StoredWithin(t, c, p);
    }
    if exists c :: c in t && t[c].parent == Some(a) && a in t && StoredWithin(t, c, p) {
      var c :| c in t && t[c].parent == Some(a) && a in t && StoredWithin(t, c, p);
      BelowSelf(t, a);
      assert ProperlyBelow(t, a, c);
      if p !in t[c].perms {
        var d :| ProperlyBelow(t, c, d) && p in t[d].perms;
        BelowStep(t, a, c);
        BelowTransitive(t, a, c, t[d].parent.value);
        assert ProperlyBelow(t, a, d);
      }
    }
  }

  /** The child of `a` on the way down to `d`. */
  lemma {:induction false} ChildTowards(t: Table, a: RoleId, d: RoleId, n: nat) returns (c: RoleId)
    requires d in t && t[d].parent.Some? && Up(t, t[d].parent.value, n) == Some(a)
    ensures a in t && c in t && t[c].parent == Some(a)
    ensures c == d || ProperlyBelow(t, c, d)
    decreases n
  {
    var p := t[d].parent.value;
    if n == 0 {
      c := d;
    } else {
      c := ChildTowards(t, a, p, n - 1);
      BelowStep(t, c, p);
    }
  }

  // ---------------------------------------------------------------- computing the union

  /** Recursive accumulation of the descendants' permissions (repetitions included). */
  method PermissionsFromDescendants(t: Table, id: RoleId) returns (found: seq<PermId>)
    requires Forest(t)
    ensures forall p :: p in found <==> StoredBelow(t, id, p)
    decreases |t.Keys| - Rank(t, id)
  {
    found := [];
    var descendants := FindChildren(t, id);
    for i := 0 to |descendants|
      invariant forall p :: p in found <==>
                  exists k :: 0 <= k < i && StoredWithin(t, descendants[k], p)
    {
      var descendant := descendants[i];
      assert descendant in descendants;
      RankOfParent(t, descendant);
      var own := SetToSeq(t[descendant].perms);
      var grandChildren := PermissionsFromDescendants(t, descendant);
      found := found + own + grandChildren;
    }
    ChildListCovers(t, id, descendants);
  }

  lemma ChildListCovers(t: Table, id: RoleId, children: seq<RoleId>)
    requires Linked(t) && forall c :: c in children <==> c in t && t[c].parent == Some(id)
    ensures forall p :: StoredBelow(t, id, p) <==>
              exists k :: 0 <= k < |children| && StoredWithin(t, children[k], p)
  {
    assert forall k :: 0 <= k < |children| ==> children[k] in children;
    forall p
      ensures StoredBelow(t, id, p) <==>
              exists k :: 0 <= k < |children| && StoredWithin(t, children[k], p)
    {
      StoredBelowViaChild(t, id, p);
    }
  }

  /** Own permissions and all descendants' permissions, without repetition; none for an unknown role. */
  method CalculateEffectivePermissions(t: Table, id: RoleId) returns (effective: set<PermId>)
    requires Forest(t)
    ensures effective == SubtreePerms(t, id)
  {
    SubtreePermsSplit(t, id);
    if id !in t {
      assert forall p :: p !in SubtreePerms(t, id);
      return {};
    }
    var below := PermissionsFromDescendants(t, id);
    effective := t[id].perms + Elements(below);
    assert forall p :: p in effective <==> p in SubtreePerms(t, id);
  }

  /**
    The second collector of the service: it uses the children that came loaded with the
    role and queries them otherwise; grandchildren are never loaded in advance.
    */
  method InheritedFromChildren(t: Table, id: RoleId, loaded: Option<seq<RoleId>>) returns (found: seq<PermId>)
    requires Forest(t)
    requires loaded.Some? ==> forall c :: c in loaded.value <==> c in t && t[c].parent == Some(id)
    ensures forall p :: p in found <==> StoredBelow(t, id, p)
    decreases |t.Keys| - Rank(t, id)
  {
    found := [];
    var children;
    if loaded.None? {
      children := FindChildren(t, id);
    } else {
      children := loaded.value;
    }
    for i := 0 to |children|
      invariant forall p :: p in found <==>
                  exists k :: 0 <= k < i && StoredWithin(t, children[k], p)
    {
      var child := children[i];
      assert child in children;
      RankOfParent(t, child);
      var direct := SetToSeq(t[child].perms);
      var grandChildren := InheritedFromChildren(t, child, None);
      found := found + direct + grandChildren;
    }
    ChildListCovers(t, id, children);
  }

  /** The public query: refuses unknown and inactive roles. */
  method GetEffectivePermissions(t: Table, id: RoleId) returns (r: Option<set<PermId>>)
    requires Forest(t)
    ensures r == if id in t && t[id].active then Some(SubtreePerms(t, id)) else None
  {
    if id !in t || !t[id].active {
      return None;
    }
    var children := FindChildren(t, id);
    var inherited := InheritedFromChildren(t, id, Some(children));
    SubtreePermsSplit(t, id);
    var effective := t[id].perms + Elements(inherited);
    assert forall p :: p in effective <==> p in SubtreePerms(t, id);
    assert effective == SubtreePerms(t, id);
    r := Some(effective);
  }

  // ---------------------------------------------------------------- writing the union

  /** The stored sets of the roles of `s` replaced by their subtrees' unions. */
  ghost function Saturate(t: Table, s: set<RoleId>): (u: Table)
    ensures SameShape(t, u)
  {
    map r | r in t :: if r in s then t[r].(perms := SubtreePerms(t, r)) else t[r]
  }

  /** Writing subtree unions anywhere does not change any subtree's union. */
  lemma SaturateKeepsUnions(t: Table, s: set<RoleId>)
    ensures forall a :: SubtreePerms(Saturate(t, s), a) == SubtreePerms(t, a)
  {
    var u := Saturate(t, s);
    BelowSameShape(t, u);
    forall a
      ensures SubtreePerms(u, a) == SubtreePerms(t, a)
    {
      assert Subtree(u, a) == Subtree(t, a);
      forall p | p in SubtreePerms(u, a)
        ensures p in SubtreePerms(t, a)
      {
        var d :| d in Subtree(u, a) && p in u[d].perms;
        if d in s {
          var e :| e in Subtree(t, d) && p in t[e].perms;
          BelowTransitive(t, a, d, e);
          assert e in Subtree(t, a);
        }
      }
      forall p | p in SubtreePerms(t, a)
        ensures p in SubtreePerms(u, a)
      {
        var d :| d in Subtree(t, a) && p in t[d].perms;
        BelowSelf(t, d);
        assert d in Subtree(t, d);
        assert d in Subtree(u, a) && p in u[d].perms;
      }
    }
  }

  /** Saturating in two steps, in any order, is saturating the union of the two sets. */
  lemma SaturateTwice(t: Table, s1: set<RoleId>, s2: set<RoleId>)
    ensures Saturate(Saturate(t, s1), s2) == Saturate(t, s1 + s2)
  {
    SaturateKeepsUnions(t, s1);
  }

  /** `u` has the rows and links of `t` and at least its permissions everywhere. */
  ghost predicate Grows(t: Table, u: Table) {
    SameShape(t, u) && forall r :: r in t ==> t[r].perms <= u[r].perms
  }

  /** In `t` each role of `s` already holds everything its subtree holds. */
  ghost predicate Holds(t: Table, s: set<RoleId>) {
    forall r :: r in s && r in t ==> SubtreePerms(t, r) <= t[r].perms
  }

  lemma SubtreePermsMonotone(t: Table, u: Table, a: RoleId)
    requires Grows(t, u)
    ensures SubtreePerms(t, a) <= SubtreePerms(u, a)
  {
    BelowSameShape(t, u);
    forall p | p in SubtreePerms(t, a)
      ensures p in SubtreePerms(u, a)
    {
      var d :| d in Subtree(t, a) && p in t[d].perms;
      assert d in Subtree(u, a);
    }
  }

  /**
    Saturation is the least fixpoint: it only adds, its targets then hold their subtrees,
    saturating again changes nothing, and every other table above `t` whose targets hold
    their subtrees is above it.
    */
  lemma SaturateIsLeastFixpoint(t: Table, s: set<RoleId>)
    ensures Grows(t, Saturate(t, s)) && Holds(Saturate(t, s), s)
    ensures Saturate(Saturate(t, s), s) == Saturate(t, s)
    ensures forall v: Table :: Grows(t, v) && Holds(v, s) ==> Grows(Saturate(t, s), v)
  {
    var u := Saturate(t, s);
    SaturateKeepsUnions(t, s);
    SaturateTwice(t, s, s);
    assert s + s == s;
    forall r | r in t
      ensures t[r].perms <= u[r].perms
    {
      OwnPermsIncluded(t, r);
    }
    forall v: Table | Grows(t, v) && Holds(v, s)
      ensures Grows(u, v)
    {
      forall r | r in t
        ensures u[r].perms <= v[r].perms
      {
        SubtreePermsMonotone(t, v, r);
      }
    }
  }

  // ---------------------------------------------------------------- agreement

  /** Each parent's stored set contains each of its children's stored sets. */
  ghost predicate ParentsContainChildren(t: Table) {
    forall r :: r in t && t[r].parent.Some? && t[r].parent.value in t ==>
      t[r].perms <= t[t[r].parent.value].perms
  }

  lemma {:induction false} ContainedUpwards(t: Table, r: RoleId, n: nat)
    requires ParentsContainChildren(t) && Up(t, r, n).Some?
    ensures r in t && Up(t, r, n).value in t
    ensures t[r].perms <= t[Up(t, r, n).value].perms
    decreases n
  {
    if n > 0 {
      ContainedUpwards(t, t[r].parent.value, n - 1);
    }
  }

  /** Parents contain their children exactly when every stored set equals its recomputation. */
  lemma ContainmentIffAgreement(t: Table)
    requires Linked(t)
    ensures ParentsContainChildren(t) <==> forall a :: a in t ==> SubtreePerms(t, a) == t[a].perms
  {
    if ParentsContainChildren(t) {
      forall a | a in t
        ensures SubtreePerms(t, a) == t[a].perms
      {
        OwnPermsIncluded(t, a);
        forall p | p in SubtreePerms(t, a)
          ensures p in t[a].perms
        {
          var d :| d in Subtree(t, a) && p in t[d].perms;
          var n: nat :| Up(t, d, n) == Some(a);
          ContainedUpwards(t, d, n);
        }
      }
    }
    if forall a :: a in t ==> SubtreePerms(t, a) == t[a].perms {
      forall r | r in t && t[r].parent.Some?
        ensures t[r].perms <= t[t[r].parent.value].perms
      {
        var q := t[r].parent.value;
        BelowSelf(t, q);
        forall p | p in t[r].perms
          ensures p in t[q].perms
        {
          assert ProperlyBelow(t, q, r);
          SubtreePermsSplit(t, q);
          assert StoredBelow(t, q, p);
          assert p in SubtreePerms(t, q);
        }
      }
    }
  }

  datatype Source = Direct | Inherited

  /** How the hierarchy view labels an effective permission. */
  function PermissionSource(p: PermId, direct: set<PermId>): Source {
    if p in direct then Direct else Inherited
  }

  /** The hierarchy view labels every effective permission DIRECT exactly when the stored set is complete. */
  lemma AllDirectIffComplete(t: Table, a: RoleId)
    requires a in t
    ensures (forall p :: p in SubtreePerms(t, a) ==> PermissionSource(p, t[a].perms) == Direct)
            <==> SubtreePerms(t, a) == t[a].perms
  {
    SubtreePermsSplit(t, a);
    if forall p :: p in SubtreePerms(t, a) ==> PermissionSource(p, t[a].perms) == Direct {
      forall p
        ensures p in SubtreePerms(t, a) <==> p in t[a].perms
      {
        if p in SubtreePerms(t, a) {
          assert PermissionSource(p, t[a].perms) == Direct;
        }
      }
    }
  }

  // ---------------------------------------------------------------- dependency closure

  datatype Permission = Permission(active: bool, dependsOn: set<PermId>)
  type Catalog = map<PermId, Permission>

  /** Everything a member directly depends on is a member. */
  ghost predicate DependencyClosed(catalog: Catalog, s: set<PermId>) {
    forall p, q :: p in s && p in catalog && q in catalog[p].dependsOn ==> q in s
  }

  ghost predicate AllDependencyClosed(catalog: Catalog, t: Table) {
    forall r :: r in t ==> DependencyClosed(catalog, t[r].perms)
  }

  /** `q` is required by `p` over a path of `n` dependency links. */
  ghost predicate Requires(catalog: Catalog, p: PermId, q: PermId, n: nat)
    decreases n
  {
    if n == 0 then p == q
    else p in catalog && exists m :: m in catalog[p].dependsOn && Requires(catalog, m, q, n - 1)
  }

  /** A closed set contains everything its members require over any number of links. */
  lemma {:induction false} ClosedHoldsTransitiveDependencies(catalog: Catalog, s: set<PermId>, p: PermId, q: PermId,
                                                             n: nat)
    requires DependencyClosed(catalog, s) && p in s && Requires(catalog, p, q, n)
    ensures q in s
    decreases n
  {
    if n > 0 {
      var m :| m in catalog[p].dependsOn && Requires(catalog, m, q, n - 1);
      ClosedHoldsTransitiveDependencies(catalog, s, m, q, n - 1);
    }
  }

  lemma UnionStaysClosed(catalog: Catalog, t: Table, a: RoleId)
    requires AllDependencyClosed(catalog, t)
    ensures DependencyClosed(catalog, SubtreePerms(t, a))
  {
    forall p, q | p in SubtreePerms(t, a) && p in catalog && q in catalog[p].dependsOn
      ensures q in SubtreePerms(t, a)
    {
      var d :| d in Subtree(t, a) && p in t[d].perms;
      assert q in t[d].perms;
    }
  }

  /** The requested permissions pass every check: some requested, none repeated, all known, active and closed. */
  ghost predicate ValidRequest(catalog: Catalog, ids: seq<PermId>) {
    ids != [] && NoDup(ids)
    && (forall p :: p in ids ==> p in catalog && catalog[p].active)
    && DependencyClosed(catalog, Elements(ids))
  }

  /**
    The chain of checks on requested permission ids. The query returns each row once, so a
    repeated id makes the lengths differ and is refused like a missing one.
    */
  method ValidatePermissions(catalog: Catalog, ids: seq<PermId>) returns (r: Option<set<PermId>>)
    ensures r == if ValidRequest(catalog, ids) then Some(Elements(ids)) else None
  {
    var asked := Elements(ids);
    if |ids| == 0 {
      return None;
    }
    var found := SetToSeq(set p | p in ids && p in catalog);
    FoundAllIff(catalog, ids, found);
    if |found| != |ids| {
      return None;
    }
    for i := 0 to |found|
      invariant forall k :: 0 <= k < i ==> catalog[found[k]].active
    {
      if !catalog[found[i]].active {
        var p := found[i];
        assert p in found && p in ids && !catalog[p].active;
        return None;
      }
    }
    var missing := [];
    for i := 0 to |found|
      invariant missing == [] <==> forall k :: 0 <= k < i ==> catalog[found[k]].dependsOn <= asked
    {
      var dependencies := SetToSeq(catalog[found[i]].dependsOn);
      assert forall m :: 0 <= m < |dependencies| ==> dependencies[m] in dependencies;
      for j := 0 to |dependencies|
        invariant missing == [] <==>
                  (forall k :: 0 <= k < i ==> catalog[found[k]].dependsOn <= asked)
                  && forall m :: 0 <= m < j ==> dependencies[m] in asked
      {
        if dependencies[j] !in asked {
          missing := missing + [(found[i], dependencies[j])];
        }
      }
    }
    if missing != [] {
      ghost var k :| 0 <= k < |found| && !(catalog[found[k]].dependsOn <= asked);
      ghost var p := found[k];
      assert p in found && p in ids && p in asked;
      if DependencyClosed(catalog, asked) {
        assert forall q :: q in catalog[p].dependsOn ==> q in asked;
        assert false;
      }
      return None;
    }
    forall p, q | p in asked && p in catalog && q in catalog[p].dependsOn
      ensures q in asked
    {
      assert p in found;
    }
    r := Some(asked);
  }

  /** As many rows come back as ids were asked for exactly when every id is known and none is repeated. */
  lemma FoundAllIff(catalog: Catalog, ids: seq<PermId>, found: seq<PermId>)
    requires NoDup(found)
    requires forall p :: p in found <==> p in ids && p in catalog
    ensures |found| == |ids| <==> NoDup(ids) && forall p :: p in ids ==> p in catalog
  {
    var f := Elements(found);
    var a := Elements(ids);
    DistinctIffNoDup(found);
    assert f <= a by {
      assert forall p :: p in f ==> p in ids;
    }
    SubsetCardinality(f, a);
    DistinctIffNoDup(ids);
    if |found| == |ids| {
      SubsetOfSameSize(f, a);
      assert forall p :: p in a ==> p in f;
      assert forall p :: p in ids ==> p in a;
    }
    if NoDup(ids) && forall p :: p in ids ==> p in catalog {
      assert forall p :: p in a ==> p in f;
      assert f == a;
    }
  }
}

/**
  The two walks of the roles service over the parent links: the depth-first collection of
  descendants with a visited set, and the climb along the ancestors.
  */
module RoleTraversal {
  import opened Wrappers
  import opened RoleForest

  /** The repository query for the rows whose parent is `id`, in any order. */
  method FindChildren(t: Table, id: RoleId) returns (children: seq<RoleId>)
    ensures NoDup(children)
    ensures forall c :: c in children <==> c in t && t[c].parent == Some(id)
    ensures forall k :: 0 <= k < |children| ==> children[k] in t && t[children[k]].parent == Some(id)
  {
    children := SetToSeq(set c | c in t && t[c].parent == Some(id));
  }

  /**
    The recursive closure of the collection: `visited` and `found` are the captured
    variables. It returns on every parent map, cyclic ones included, because each
    expansion marks one more row.
    */
  method CollectDescendants(t: Table, cur: RoleId, visited: set<RoleId>, found: seq<RoleId>)
    returns (visited': set<RoleId>, found': seq<RoleId>)
    requires Linked(t)
    ensures visited <= visited' && cur in visited'
    ensures forall v :: v in visited' - visited ==> v == cur || ProperlyBelow(t, cur, v)
    ensures forall c :: c in t && t[c].parent.Some? && t[c].parent.value in visited' - visited ==> c in visited'
    ensures found <= found' && NoDup(found'[|found|..])
    ensures forall c :: c in found'[|found|..] <==>
              c in t && t[c].parent.Some? && t[c].parent.value in visited' - visited
    decreases t.Keys - visited, if cur in t then 1 else 2
  {
    visited', found' := visited, found;
    if cur in visited {
      return;
    }
    visited' := visited + {cur};
    var children := FindChildren(t, cur);
    ghost var n := |found|;
    for i := 0 to |children|
      invariant visited + {cur} <= visited'
      invariant forall k :: 0 <= k < i ==> children[k] in visited'
      invariant forall v :: v in visited' - visited ==> v == cur || ProperlyBelow(t, cur, v)
      invariant forall c ::
                  c in t && t[c].parent.Some? && t[c].parent.value in visited' - visited - {cur} ==> c in visited'
      invariant found <= found' && NoDup(found'[n..])
      invariant forall c :: c in found'[n..] <==>
                  (c in t && t[c].parent.Some? && t[c].parent.value in visited' - visited - {cur}) || c in children[..i]
    {
      var child := children[i];
      assert child in children;
      ghost var seen, before := visited', found';
      found' := found' + [child];
      assert found'[n..] == before[n..] + [child];
      assert child !in before[n..];
      ghost var pushed := found';
      visited', found' := CollectDescendants(t, child, visited', found');
      assert found'[n..] == pushed[n..] + found'[|pushed|..];
      forall x | x in pushed[n..]
        ensures x !in found'[|pushed|..]
      {
        assert x in before[n..] || x == child;
        assert x in children ==> t[x].parent.value == cur;
        assert t[x].parent.value in seen;
      }
      NoDupAppend(pushed[n..], found'[|pushed|..]);
      assert children[..i + 1] == children[..i] + [child];
      forall v | v in visited' - seen
        ensures ProperlyBelow(t, cur, v)
      {
        BelowSelf(t, cur);
        BelowStep(t, cur, child);
        if v != child {
          BelowTransitive(t, cur, child, t[v].parent.value);
        }
      }
    }
    assert children[..|children|] == children;
  }

  lemma {:induction false} ClosedContainsBelow(t: Table, visited: set<RoleId>, a: RoleId, d: RoleId, n: nat)
    requires a in visited && Up(t, d, n) == Some(a)
    requires forall c :: c in t && t[c].parent.Some? && t[c].parent.value in visited ==> c in visited
    ensures d in visited
    decreases n
  {
    if n > 0 {
      ClosedContainsBelow(t, visited, a, t[d].parent.value, n - 1);
    }
  }

  /**
    On every parent map, cyclic or not, the result lists each role that lies at least one
    parent link below `root` exactly once.
    */
  method DescendantChain(t: Table, root: RoleId) returns (found: seq<RoleId>)
    requires Linked(t)
    ensures NoDup(found)
    ensures forall d :: d in found <==> ProperlyBelow(t, root, d)
  {
    var visited;
    visited, found := CollectDescendants(t, root, {}, []);
    assert found[0..] == found;
    forall d
      ensures d in found <==> ProperlyBelow(t, root, d)
    {
      if d in found {
        var p := t[d].parent.value;
        BelowStep(t, root, p);
      }
      if ProperlyBelow(t, root, d) {
        var p := t[d].parent.value;
        var n: nat :| Up(t, p, n) == Some(root);
        ClosedContainsBelow(t, visited, root, p, n);
      }
    }
  }

  /**
    The climb from `id` over the parents, bottom-up. On a forest it ends, and position `i`
    of the result is the role `i` links above `id`.
    */
  method AncestorChain(t: Table, id: RoleId) returns (chain: seq<RoleId>)
    requires Forest(t)
    ensures forall i :: 0 <= i < |chain| ==> Up(t, id, i) == Some(chain[i])
    ensures Up(t, id, |chain|) == None
    ensures forall a :: a in chain <==> Below(t, a, id)
  {
    chain := [];
    var current := if id in t then Some(id) else None;
    while current.Some?
      invariant forall i :: 0 <= i < |chain| ==> Up(t, id, i) == Some(chain[i])
      invariant Up(t, id, |chain|) == current
      decreases if current.Some? then Rank(t, current.value) + 1 else 0
    {
      var role := current.value;
      UpInTable(t, id, |chain|);
      if t[role].parent.Some? {
        RankOfParent(t, role);
      }
      UpCompose(t, id, |chain|, 1);
      chain := chain + [role];
      current := if t[role].parent.Some? && t[role].parent.value in t then t[role].parent else None;
    }
    forall a
      ensures a in chain <==> Below(t, a, id)
    {
      if Below(t, a, id) {
        var n: nat :| Up(t, id, n) == Some(a);
        if n >= |chain| {
          UpGapless(t, id, |chain|, n);
        }
        assert chain[n] == a;
      }
    }
  }

  /** Once the chain has ended it stays ended. */
  lemma {:induction false} UpGapless(t: Table, r: RoleId, m: nat, n: nat)
    requires m <= n && Up(t, r, m) == None
    ensures Up(t, r, n) == None
    decreases m
  {
    if m > 0 && r in t && t[r].parent.Some? {
      UpGapless(t, t[r].parent.value, m - 1, n - 1);
    }
  }

  // ---------------------------------------------------------------- levels along a chain

  /** Every parent stands at a strictly smaller level than its child. */
  ghost predicate StrictLevels(t: Table) {
    forall r :: r in t && t[r].parent.Some? && t[r].parent.value in t ==> t[t[r].parent.value].level < t[r].level
  }

  lemma {:induction false} LevelsFallUpwards(t: Table, r: RoleId, n: nat)
    requires StrictLevels(t) && Up(t, r, n).Some?
    ensures r in t && Up(t, r, n).value in t
    ensures t[Up(t, r, n).value].level + n <= t[r].level
    decreases n
  {
    if n > 0 {
      LevelsFallUpwards(t, t[r].parent.value, n - 1);
    }
  }

  /** With strict non-negative levels a role has at most as many ancestors as its level says. */
  lemma AncestorChainIsShort(t: Table, r: RoleId, n: nat)
    requires StrictLevels(t) && (forall x :: x in t ==> t[x].level >= 0)
    requires Up(t, r, n).Some?
    ensures r in t && n <= t[r].level
  {
    LevelsFallUpwards(t, r, n);
    var top := Up(t, r, n).value;
    assert t[top].level >= 0;
  }

  /** Strict levels alone already make the parent links a forest. */
  lemma StrictLevelsMakeForest(t: Table)
    requires Linked(t) && StrictLevels(t)
    ensures Forest(t)
  {
    forall r | r in t
      ensures !ProperlyBelow(t, r, r)
    {
      if ProperlyBelow(t, r, r) {
        var n: nat :| Up(t, t[r].parent.value, n) == Some(r);
        LevelsFallUpwards(t, t[r].parent.value, n);
        assert false;
      }
    }
  }
}

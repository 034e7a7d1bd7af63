/**
  Exactly when the relocation keeps every reference: the rows whose moves can be completed
  must keep out of the way of each other and of the rest. Each way they can fail to is a
  history, built request by request, after which some reference has lost or changed its
  content.
  */
module RelocationLimits {
  import opened Wrappers
  import opened ObjectKeys
  import opened RelocationPlan
  import opened RelocationProtocol

  /** The URL in a slot leads to the content it led to in the first store, if it led to any. */
  ghost predicate Kept(site: Site, s0: Store, s: Store, id: RowId, i: int)
    requires Slot(s0, id, i)
  {
    Slot(s, id, i)
    && (Resolve(site, s0, s0.rows[id].urls[i]).Some? ==>
          Resolve(site, s, s.rows[id].urls[i]) == Resolve(site, s0, s0.rows[id].urls[i]))
  }

  ghost predicate KeepsAll(site: Site, s0: Store, s: Store) {
    forall id, i :: Slot(s0, id, i) ==> Kept(site, s0, s, id, i)
  }

  /** After every step of every history, crashes, failures, retries and deletions included, all references are kept. */
  ghost predicate AlwaysKeepsAll(site: Site, s0: Store) {
    forall cs :: Trace(site, cs) && cs[0] == Config(s0, [], Idle) ==> TraceKeepsAll(site, s0, cs)
  }

  ghost predicate TraceKeepsAll(site: Site, s0: Store, cs: seq<Config>) {
    forall k :: 0 <= k < |cs| ==> KeepsAll(site, s0, cs[k].store)
  }

  /** Every original that is to be moved exists. */
  ghost predicate SourcesExist(site: Site, s: Store) {
    forall id, i, m :: Moving(site, s, id, i, m) ==> m.oldKey in s.bucket
  }

  // ---------------------------------------------------------------- building histories

  lemma Extend(site: Site, cs: seq<Config>, d: Config) returns (more: seq<Config>)
    requires Trace(site, cs) && Next(site, true, cs[|cs| - 1], d)
    ensures more == cs + [d] && Trace(site, more)
  {
    more := cs + [d];
    forall k | 0 <= k < |more| - 1
      ensures Next(site, true, more[k], more[k + 1]) || Next(site, false, more[k], more[k + 1])
    {
      if k < |cs| - 1 {
        assert more[k] == cs[k] && more[k + 1] == cs[k + 1];
      } else {
        assert more[k] == cs[|cs| - 1] && more[k + 1] == d;
      }
    }
  }

  /** A history from the store `s0` that has arrived at `c`. */
  ghost predicate Reaches(site: Site, s0: Store, cs: seq<Config>, c: Config) {
    Trace(site, cs) && cs[0] == Config(s0, [], Idle) && cs[|cs| - 1] == c
  }

  lemma Onward(site: Site, s0: Store, cs: seq<Config>, c: Config, d: Config) returns (more: seq<Config>)
    requires Reaches(site, s0, cs, c) && Next(site, true, c, d)
    ensures Reaches(site, s0, more, d)
  {
    more := Extend(site, cs, d);
  }

  lemma Start(site: Site, s0: Store) returns (cs: seq<Config>)
    ensures Reaches(site, s0, cs, Config(s0, [], Idle))
  {
    cs := [Config(s0, [], Idle)];
  }

  /** All objects of `b` are in `b'`, unchanged. */
  ghost predicate Grown(b: map<string, Content>, b': map<string, Content>) {
    forall k :: k in b ==> k in b' && b'[k] == b[k]
  }

  /** The moves of a plan from the `i`-th up to the `n`-th have a source or a target in the bucket. */
  predicate AllAvailable(s: Store, p: Plan, i: nat, n: nat) {
    i <= n <= |p.objects| && forall k :: i <= k < n ==> Available(s, p.objects[k])
  }

  lemma MoreAvailable(s: Store, s': Store, p: Plan, i: nat, n: nat)
    requires AllAvailable(s, p, i, n) && i < n && Grown(s.bucket, s'.bucket)
    ensures AllAvailable(s', p, i + 1, n)
  {
    forall k | i + 1 <= k < n
      ensures Available(s', p.objects[k])
    {
      assert Available(s, p.objects[k]);
    }
  }

  /** The moves of a plan from the `i`-th up to the `n`-th go elsewhere than to `key`. */
  predicate Elsewhere(p: Plan, key: string, i: nat, n: nat) {
    i <= n <= |p.objects| && forall k :: i <= k < n ==> p.objects[k].newKey != key
  }

  /** The copies of a plan, from the `i`-th up to the `n`-th, without any failure. */
  lemma {:induction false} CopyThrough(site: Site, s0: Store, cs: seq<Config>, s: Store, p: Plan, i: nat, n: nat,
                                       key: string)
    returns (more: seq<Config>, s': Store)
    requires Reaches(site, s0, cs, Config(s, [p], Head(i))) && AllAvailable(s, p, i, n) && CopiedUpTo(s, p, i)
    ensures Reaches(site, s0, more, Config(s', [p], Head(n)))
    ensures s'.rows == s.rows && Grown(s.bucket, s'.bucket) && CopiedUpTo(s', p, n)
    ensures key !in s.bucket && Elsewhere(p, key, i, n) ==> key !in s'.bucket
    decreases n - i
  {
    var c := Config(s, [p], Head(i));
    if i == n {
      more, s' := cs, s;
    } else if p.objects[i].newKey in s.bucket {
      more := Onward(site, s0, cs, c, Config(s, [p], Head(i + 1)));
      MoreAvailable(s, s, p, i, n);
      more, s' := CopyThrough(site, s0, more, s, p, i + 1, n, key);
    } else {
      assert Available(s, p.objects[i]);
      var t := Copied(s, p.objects[i]);
      more := Onward(site, s0, cs, c, Config(s, [p], Source(i)));
      more := Onward(site, s0, more, Config(s, [p], Source(i)), Config(s, [p], Copy(i)));
      more := Onward(site, s0, more, Config(s, [p], Copy(i)), Config(t, [p], Head(i + 1)));
      MoreAvailable(s, t, p, i, n);
      more, s' := CopyThrough(site, s0, more, t, p, i + 1, n, key);
    }
  }

  /** Deleting the originals of a plan from the `i`-th to the `n`-th. */
  lemma {:induction false} DeleteThrough(site: Site, s0: Store, cs: seq<Config>, s: Store, p: Plan, i: nat, n: nat)
    returns (more: seq<Config>, s': Store)
    requires Reaches(site, s0, cs, Config(s, [p], Delete(i))) && i <= n < |p.objects|
    ensures Reaches(site, s0, more, Config(s', [p], Delete(n + 1)))
    ensures s'.rows == s.rows && p.objects[n].oldKey !in s'.bucket
    decreases n - i
  {
    s' := Deleted(s, p.objects[i].oldKey);
    more := Onward(site, s0, cs, Config(s, [p], Delete(i)), Config(s', [p], Delete(i + 1)));
    if i < n {
      more, s' := DeleteThrough(site, s0, more, s', p, i + 1, n);
    }
  }

  /** The row still is as first found, has something to move, and can be completed. */
  ghost predicate Ready(site: Site, s0: Store, s: Store, id: RowId) {
    && id in s0.rows && id in s.rows && s.rows[id] == s0.rows[id]
    && PlanOf(site, id, s0.rows[id]).objects != []
    && AllAvailable(s, PlanOf(site, id, s0.rows[id]), 0, |PlanOf(site, id, s0.rows[id]).objects|)
  }

  lemma CompletableIsReady(site: Site, s0: Store, s: Store, id: RowId, i: int, m: Move)
    requires id in CompletableRows(site, s0) && Moving(site, s0, id, i, m)
    requires id in s.rows && s.rows[id] == s0.rows[id] && Grown(s0.bucket, s.bucket)
    ensures Ready(site, s0, s, id)
  {
    var p := PlanOf(site, id, s0.rows[id]);
    var plans := Plans(site, s0.rows[id].folder, s0.rows[id].urls);
    MovesAreSlots(plans);
    assert plans[i] == Relocate(m);
    forall k | 0 <= k < |p.objects|
      ensures Available(s, p.objects[k])
    {
      assert p.objects[k] in p.objects;
      var j := SlotOfMove(site, s0, p, p.objects[k]);
      assert Available(s0, p.objects[k]);
    }
  }

  /** From an idle moment to the first copies of a row with something to move. */
  lemma BeginRow(site: Site, s0: Store, cs: seq<Config>, s: Store, id: RowId) returns (more: seq<Config>)
    requires Reaches(site, s0, cs, Config(s, [], Idle))
    requires id in s0.rows && id in s.rows && s.rows[id] == s0.rows[id] && PlanOf(site, id, s0.rows[id]).objects != []
    ensures Reaches(site, s0, more, Config(s, [PlanOf(site, id, s0.rows[id])], Head(0)))
  {
    var p := PlanOf(site, id, s0.rows[id]);
    more := Onward(site, s0, cs, Config(s, [], Idle), Config(s, [p], Idle));
    more := Onward(site, s0, more, Config(s, [p], Idle), Config(s, [p], Head(0)));
  }

  /** From an idle moment to the one where a row's copies are made and the row is to be written. */
  lemma ReachWrite(site: Site, s0: Store, cs: seq<Config>, s: Store, id: RowId) returns (more: seq<Config>, s': Store)
    requires Reaches(site, s0, cs, Config(s, [], Idle)) && Ready(site, s0, s, id)
    ensures Reaches(site, s0, more, Config(s', [PlanOf(site, id, s0.rows[id])], Write))
    ensures s'.rows == s.rows && Grown(s.bucket, s'.bucket)
    ensures CopiedUpTo(s', PlanOf(site, id, s0.rows[id]), |PlanOf(site, id, s0.rows[id]).objects|)
  {
    var p := PlanOf(site, id, s0.rows[id]);
    more := BeginRow(site, s0, cs, s, id);
    more, s' := CopyThrough(site, s0, more, s, p, 0, |p.objects|, "");
    more := Onward(site, s0, more, Config(s', [p], Head(|p.objects|)), Config(s', [p], Write));
  }

  /** A row abandoned right after one of its copies, to a key that was free. */
  lemma LeaveStray(site: Site, s0: Store, id: RowId, k: int) returns (cs: seq<Config>, s: Store)
    requires Attempted(site, s0, id, k)
    requires var c := PlanOf(site, id, s0.rows[id]).objects[k]; c.oldKey in s0.bucket && c.newKey !in s0.bucket
    ensures Reaches(site, s0, cs, Config(s, [], Idle)) && s.rows == s0.rows && Grown(s0.bucket, s.bucket)
    ensures var c := PlanOf(site, id, s0.rows[id]).objects[k];
            c.newKey in s.bucket && s.bucket[c.newKey] == s0.bucket[c.oldKey]
  {
    var p := PlanOf(site, id, s0.rows[id]);
    var c := p.objects[k];
    cs := Start(site, s0);
    cs := BeginRow(site, s0, cs, s0, id);
    var t;
    cs, t := CopyThrough(site, s0, cs, s0, p, 0, k, c.newKey);
    cs := Onward(site, s0, cs, Config(t, [p], Head(k)), Config(t, [p], Source(k)));
    cs := Onward(site, s0, cs, Config(t, [p], Source(k)), Config(t, [p], Copy(k)));
    s := Copied(t, c);
    cs := Onward(site, s0, cs, Config(t, [p], Copy(k)), Config(s, [], Idle));
  }

  /** A row migrated without deletion. */
  lemma Migrate(site: Site, s0: Store, cs: seq<Config>, s: Store, id: RowId) returns (more: seq<Config>, s': Store)
    requires Reaches(site, s0, cs, Config(s, [], Idle)) && Ready(site, s0, s, id)
    ensures Reaches(site, s0, more, Config(s', [], Idle))
    ensures s'.rows == s.rows[id := Target(site, s0.rows[id])] && Grown(s.bucket, s'.bucket)
    ensures CopiedUpTo(s', PlanOf(site, id, s0.rows[id]), |PlanOf(site, id, s0.rows[id]).objects|)
  {
    var p := PlanOf(site, id, s0.rows[id]);
    var t;
    more, t := ReachWrite(site, s0, cs, s, id);
    s' := Written(t, p);
    more := Onward(site, s0, more, Config(t, [p], Write), Config(s', [], Idle));
  }

  /** A row migrated with deletion, up to the deletion of one of its originals. */
  lemma MigrateDeleting(site: Site, s0: Store, cs: seq<Config>, s: Store, id: RowId, i: int, m: Move)
    returns (more: seq<Config>, c: Config)
    requires Reaches(site, s0, cs, Config(s, [], Idle)) && Ready(site, s0, s, id) && Moving(site, s0, id, i, m)
    ensures Reaches(site, s0, more, c)
    ensures c.store.rows == s.rows[id := Target(site, s0.rows[id])] && m.oldKey !in c.store.bucket
  {
    var p := PlanOf(site, id, s0.rows[id]);
    var t;
    more, t := ReachWrite(site, s0, cs, s, id);
    var s1 := Written(t, p);
    more := Onward(site, s0, more, Config(t, [p], Write), Config(s1, [p], Delete(0)));
    var plans := Plans(site, s0.rows[id].folder, s0.rows[id].urls);
    MovesAreSlots(plans);
    assert plans[i] == Relocate(m);
    var n :| 0 <= n < |p.objects| && p.objects[n] == m;
    var s2;
    more, s2 := DeleteThrough(site, s0, more, s1, p, 0, n);
    c := Config(s2, [p], Delete(n + 1));
  }

  // ---------------------------------------------------------------- what goes wrong

  /** A moving slot had content, and what it leads to once its row is migrated. */
  lemma MovedSlotResolves(site: Site, s0: Store, s: Store, id: RowId, i: int, m: Move)
    requires Readable(site, s0) && Moving(site, s0, id, i, m) && m.oldKey in s0.bucket
    requires id in s.rows && s.rows[id] == Target(site, s0.rows[id])
    ensures Slot(s, id, i) && Resolve(site, s0, s0.rows[id].urls[i]) == Some(s0.bucket[m.oldKey])
    ensures Resolve(site, s, s.rows[id].urls[i]) == if m.newKey in s.bucket then Some(s.bucket[m.newKey]) else None
  {
    MovingReads(site, s0, id, i, m);
    MovingRowChanges(site, s0, id, i, m);
  }

  /** The configuration a history arrived at keeps all references if all its configurations do. */
  lemma LastIsKept(site: Site, s0: Store, cs: seq<Config>, c: Config, id: RowId, i: int)
    requires AlwaysKeepsAll(site, s0) && Reaches(site, s0, cs, c) && Slot(s0, id, i)
    ensures Kept(site, s0, c.store, id, i)
  {
    assert TraceKeepsAll(site, s0, cs);
    assert KeepsAll(site, s0, cs[|cs| - 1].store);
  }

  /** An original that another row reads too: migrating its row with deletion takes it from the other. */
  lemma SharedOriginalIsLost(site: Site, s0: Store, id: RowId, i: int, m: Move, other: RowId, j: int)
    requires Readable(site, s0)
    requires id in CompletableRows(site, s0) && Moving(site, s0, id, i, m) && m.oldKey in s0.bucket
    requires other != id && Reads(site, s0, other, j, m.oldKey)
    ensures !AlwaysKeepsAll(site, s0)
  {
    CompletableIsReady(site, s0, s0, id, i, m);
    MovingReads(site, s0, id, i, m);
    var cs := Start(site, s0);
    var c;
    cs, c := MigrateDeleting(site, s0, cs, s0, id, i, m);
    assert c.store.rows[other] == s0.rows[other];
    assert !Kept(site, s0, c.store, other, j);
    if AlwaysKeepsAll(site, s0) {
      LastIsKept(site, s0, cs, c, other, j);
      assert false;
    }
  }

  /** Once a different object lies at the target key of a row that can be completed, it is taken for the copy. */
  lemma TakenForCopy(site: Site, s0: Store, cs: seq<Config>, s: Store, id: RowId, i: int, m: Move)
    requires Readable(site, s0)
    requires id in CompletableRows(site, s0) && Moving(site, s0, id, i, m) && m.oldKey in s0.bucket
    requires Reaches(site, s0, cs, Config(s, [], Idle)) && s.rows == s0.rows && Grown(s0.bucket, s.bucket)
    requires m.newKey in s.bucket && s.bucket[m.newKey] != s0.bucket[m.oldKey]
    ensures !AlwaysKeepsAll(site, s0)
  {
    CompletableIsReady(site, s0, s, id, i, m);
    var more, s' := Migrate(site, s0, cs, s, id);
    MovedSlotResolves(site, s0, s', id, i, m);
    if AlwaysKeepsAll(site, s0) {
      LastIsKept(site, s0, more, Config(s', [], Idle), id, i);
      assert false;
    }
  }

  /** A different object that was at the target key from the start. */
  lemma ForeignTargetIsTaken(site: Site, s0: Store, id: RowId, i: int, m: Move)
    requires Readable(site, s0)
    requires id in CompletableRows(site, s0) && Moving(site, s0, id, i, m) && m.oldKey in s0.bucket
    requires m.newKey in s0.bucket && s0.bucket[m.newKey] != s0.bucket[m.oldKey]
    ensures !AlwaysKeepsAll(site, s0)
  {
    var cs := Start(site, s0);
    TakenForCopy(site, s0, cs, s0, id, i, m);
  }

  /** A different object that an abandoned row has left at the target key. */
  lemma StrayCopyIsTaken(site: Site, s0: Store, id: RowId, i: int, m: Move, other: RowId, k: int)
    requires Readable(site, s0)
    requires id in CompletableRows(site, s0) && Moving(site, s0, id, i, m) && m.oldKey in s0.bucket
    requires m.newKey !in s0.bucket && Attempted(site, s0, other, k)
    requires !StrayAgrees(s0, m, PlanOf(site, other, s0.rows[other]).objects[k])
    ensures !AlwaysKeepsAll(site, s0)
  {
    var cs, s := LeaveStray(site, s0, other, k);
    TakenForCopy(site, s0, cs, s, id, i, m);
  }

  /** Two originals with different content and the same target: one of them is replaced by the other. */
  lemma ClashingTargetsMix(site: Site, s0: Store, id: RowId, i: int, m: Move, other: RowId, j: int, m': Move)
    requires Readable(site, s0) && id in CompletableRows(site, s0) && other in CompletableRows(site, s0)
    requires Moving(site, s0, id, i, m) && Moving(site, s0, other, j, m')
    requires m.newKey == m'.newKey && m.oldKey in s0.bucket && m'.oldKey in s0.bucket
    requires s0.bucket[m.oldKey] != s0.bucket[m'.oldKey]
    ensures !AlwaysKeepsAll(site, s0)
  {
    CompletableIsReady(site, s0, s0, id, i, m);
    var cs := Start(site, s0);
    var s;
    cs, s := Migrate(site, s0, cs, s0, id);
    if other != id {
      CompletableIsReady(site, s0, s, other, j, m');
      cs, s := Migrate(site, s0, cs, s, other);
    }
    MovedSlotResolves(site, s0, s, id, i, m);
    MovedSlotResolves(site, s0, s, other, j, m');
    if AlwaysKeepsAll(site, s0) {
      LastIsKept(site, s0, cs, Config(s, [], Idle), id, i);
      LastIsKept(site, s0, cs, Config(s, [], Idle), other, j);
      assert false;
    }
  }

  /** An object moved to a key that another row moves away: deleting that row's original takes it. */
  lemma MovedAwayTargetIsLost(site: Site, s0: Store, id: RowId, i: int, m: Move, other: RowId, j: int, m': Move)
    requires Readable(site, s0) && id in CompletableRows(site, s0) && other in CompletableRows(site, s0)
    requires Moving(site, s0, id, i, m) && Moving(site, s0, other, j, m') && m.oldKey in s0.bucket
    requires id != other && m.newKey == m'.oldKey
    ensures !AlwaysKeepsAll(site, s0)
  {
    CompletableIsReady(site, s0, s0, id, i, m);
    var cs := Start(site, s0);
    var s;
    cs, s := Migrate(site, s0, cs, s0, id);
    CompletableIsReady(site, s0, s, other, j, m');
    var c;
    cs, c := MigrateDeleting(site, s0, cs, s, other, j, m');
    MovedSlotResolves(site, s0, c.store, id, i, m);
    if AlwaysKeepsAll(site, s0) {
      LastIsKept(site, s0, cs, c, id, i);
      assert false;
    }
  }

  // ---------------------------------------------------------------- the exact condition

  lemma SeparateKeepsAll(site: Site, s0: Store, live: set<RowId>)
    requires Origin(site, s0, live)
    ensures AlwaysKeepsAll(site, s0)
  {
    forall cs: seq<Config> | Trace(site, cs) && cs[0] == Config(s0, [], Idle)
      ensures TraceKeepsAll(site, s0, cs)
    {
      forall k, id, i | 0 <= k < |cs| && Slot(s0, id, i)
        ensures Kept(site, s0, cs[k].store, id, i)
      {
        EveryReferenceKeepsItsContent(site, s0, live, cs, k, id, i);
      }
    }
  }

  lemma KeepingAllNeedsOwners(site: Site, s0: Store)
    requires Readable(site, s0) && AlwaysKeepsAll(site, s0)
    ensures OriginalsOwned(site, s0, CompletableRows(site, s0))
  {
    var live := CompletableRows(site, s0);
    forall id, i, m, id', i' | Moving(site, s0, id, i, m) && id in live && m.oldKey in s0.bucket && id' != id
      ensures !Reads(site, s0, id', i', m.oldKey)
    {
      if Reads(site, s0, id', i', m.oldKey) {
        SharedOriginalIsLost(site, s0, id, i, m, id', i');
        assert false;
      }
    }
  }

  lemma KeepingAllNeedsTargets(site: Site, s0: Store)
    requires Readable(site, s0) && AlwaysKeepsAll(site, s0)
    ensures TargetsAgree(site, s0, CompletableRows(site, s0)) && TargetsStay(site, s0, CompletableRows(site, s0))
  {
    var live := CompletableRows(site, s0);
    forall id, i, m, id', i', m' |
      Moving(site, s0, id, i, m) && Moving(site, s0, id', i', m') && id in live && id' in live && m.oldKey in s0.bucket
      ensures m.newKey == m'.newKey && m'.oldKey in s0.bucket ==> s0.bucket[m.oldKey] == s0.bucket[m'.oldKey]
      ensures id != id' ==> m.newKey != m'.oldKey
    {
      if m.newKey == m'.newKey && m'.oldKey in s0.bucket && s0.bucket[m.oldKey] != s0.bucket[m'.oldKey] {
        ClashingTargetsMix(site, s0, id, i, m, id', i', m');
        assert false;
      }
      if id != id' && m.newKey == m'.oldKey {
        MovedAwayTargetIsLost(site, s0, id, i, m, id', i', m');
        assert false;
      }
    }
  }

  lemma KeepingAllNeedsCopies(site: Site, s0: Store)
    requires Readable(site, s0) && AlwaysKeepsAll(site, s0)
    ensures TargetsAreCopies(site, s0, CompletableRows(site, s0))
    ensures StrayCopiesAgree(site, s0, CompletableRows(site, s0))
  {
    var live := CompletableRows(site, s0);
    forall id, i, m | Moving(site, s0, id, i, m) && id in live && m.oldKey in s0.bucket && m.newKey in s0.bucket
      ensures s0.bucket[m.newKey] == s0.bucket[m.oldKey]
    {
      if s0.bucket[m.newKey] != s0.bucket[m.oldKey] {
        ForeignTargetIsTaken(site, s0, id, i, m);
        assert false;
      }
    }
    forall id, i, m, id', k |
      Moving(site, s0, id, i, m) && id in live && m.oldKey in s0.bucket && m.newKey !in s0.bucket
      && Attempted(site, s0, id', k)
      ensures StrayAgrees(s0, m, PlanOf(site, id', s0.rows[id']).objects[k])
    {
      if !StrayAgrees(s0, m, PlanOf(site, id', s0.rows[id']).objects[k]) {
        StrayCopyIsTaken(site, s0, id, i, m, id', k);
        assert false;
      }
    }
  }

  /** In every store, the rows that can be completed have to be separate. */
  lemma KeepingAllIsSeparate(site: Site, s0: Store)
    requires Readable(site, s0) && AlwaysKeepsAll(site, s0)
    ensures SeparateOn(site, s0, CompletableRows(site, s0))
  {
    KeepingAllNeedsOwners(site, s0);
    KeepingAllNeedsTargets(site, s0);
    KeepingAllNeedsCopies(site, s0);
  }

  /**
    Where nothing helps the rows that cannot be completed, every history keeps every
    reference exactly when, for the rows that can, no original is read by another row, equal
    targets have equal originals, abandoned rows leave nothing else at a target, what lies
    at a target is a copy, and no target is moved away by another row.
    */
  lemma ContentIsKeptIff(site: Site, s0: Store)
    requires Readable(site, s0) && Unaided(site, s0)
    ensures AlwaysKeepsAll(site, s0) <==> SeparateOn(site, s0, CompletableRows(site, s0))
  {
    if SeparateOn(site, s0, CompletableRows(site, s0)) {
      SeparateKeepsAll(site, s0, CompletableRows(site, s0));
    }
    if AlwaysKeepsAll(site, s0) {
      KeepingAllIsSeparate(site, s0);
    }
  }

  /** Where all originals exist, all rows count. */
  lemma ContentIsKeptWithAllSourcesIff(site: Site, s0: Store)
    requires Readable(site, s0) && SourcesExist(site, s0)
    ensures AlwaysKeepsAll(site, s0) <==> Separate(site, s0)
  {
    assert forall id :: id in s0.rows ==> Completable(site, s0, id);
    assert CompletableRows(site, s0) == s0.rows.Keys;
    ContentIsKeptIff(site, s0);
  }

  /**
    Where a file name stands for one object and one row, missing originals or not, all
    references are kept exactly when what lies at the targets of the rows that can be
    completed is a copy.
    */
  lemma UniqueNamesAreKeptIff(site: Site, s0: Store)
    requires Readable(site, s0) && UniqueNames(site, s0)
    ensures AlwaysKeepsAll(site, s0) <==> TargetsAreCopies(site, s0, CompletableRows(site, s0))
  {
    var live := CompletableRows(site, s0);
    if TargetsAreCopies(site, s0, live) {
      UniqueNamesSeparate(site, s0, live);
      SeparateKeepsAll(site, s0, live);
    }
    if AlwaysKeepsAll(site, s0) {
      KeepingAllNeedsCopies(site, s0);
    }
  }

  // ---------------------------------------------------------------- foreign addresses

  /**
    A file under any other domain, of which no object exists under its path or its target,
    blocks its row for good: no history ever updates the row, so its other files stay too.
    */
  lemma ForeignUrlBlocksRow(site: Site, s0: Store, live: set<RowId>, cs: seq<Config>, k: nat, id: RowId, i: int,
                            key: string)
    requires Origin(site, s0, live) && Trace(site, cs) && cs[0] == Config(s0, [], Idle) && k < |cs|
    requires Slot(s0, id, i) && ForeignUrl(site, s0.rows[id].urls[i], key)
    requires var target := s0.rows[id].folder + "/" + FileName(key);
             key != target && target !in s0.bucket && Unaimed(site, s0, target)
    ensures id in cs[k].store.rows && cs[k].store.rows[id] == s0.rows[id]
  {
    ForeignUrlIsPlanned(site, s0.rows[id].urls[i], s0.rows[id].folder);
    var m := Move(key, s0.rows[id].folder + "/" + FileName(key));
    assert SlotPlan(site, s0, id, i) == Relocate(m);
    MissingSourceBlocksRow(site, s0, live, cs, k, id, i, m);
  }
}

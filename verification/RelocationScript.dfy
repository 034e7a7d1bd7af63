/**
  The script itself: collect the plans, then apply them one after the other. Every request
  leaves a configuration in the recorded trace, so what is proved of traces holds of each
  moment of a run; stopping the process anywhere is cutting the trace there.
  */
module RelocationScript {
  import opened Wrappers
  import opened ObjectKeys
  import opened RelocationPlan
  import opened RelocationProtocol

  datatype Outcome = Migrated | SourceMissing | Error

  ghost predicate AllMigrated(outcomes: seq<Outcome>) {
    forall o :: o in outcomes ==> o == Migrated
  }

  lemma MigratedStep(outcomes: seq<Outcome>, outcome: Outcome)
    ensures AllMigrated(outcomes + [outcome]) <==> AllMigrated(outcomes) && outcome == Migrated
  {
    assert outcome in outcomes + [outcome];
    assert forall o :: o in outcomes ==> o in outcomes + [outcome];
  }

  /** No object disappears or changes but for the originals of the given moves. */
  ghost predicate LostOnly(before: map<string, Content>, after: map<string, Content>, moves: seq<Move>) {
    forall k :: k in before ==> (k in after && after[k] == before[k]) || exists m :: m in moves && m.oldKey == k
  }

  lemma LostLess(b0: map<string, Content>, b1: map<string, Content>, b2: map<string, Content>, moves: seq<Move>)
    requires LostOnly(b0, b1, []) && LostOnly(b1, b2, moves)
    ensures LostOnly(b0, b2, moves)
  {
  }

  class Migration {
    const site: Site
    const deleteSource: bool
    var store: Store
    ghost var trace: seq<Config>

    constructor (site: Site, deleteSource: bool, store: Store)
      ensures this.site == site && this.deleteSource == deleteSource && this.store == store
      ensures trace == [Config(store, [], Idle)] && At([], Idle)
    {
      this.site, this.deleteSource, this.store := site, deleteSource, store;
      trace := [Config(store, [], Idle)];
    }

    /** The trace is a history of the machine that has arrived here. */
    ghost predicate At(queue: seq<Plan>, phase: Phase)
      reads this
    {
      Trace(site, trace) && trace[|trace| - 1] == Config(store, queue, phase)
    }

    ghost method Record(queue: seq<Plan>, phase: Phase)
      requires Trace(site, trace)
      requires Next(site, deleteSource, trace[|trace| - 1], Config(store, queue, phase))
      modifies this`trace
      ensures At(queue, phase) && trace == old(trace) + [Config(store, queue, phase)]
    {
      trace := trace + [Config(store, queue, phase)];
    }

    /** Brings one object to its target key, unless an earlier run already did. */
    method CopyObject(plan: Plan, ghost rest: seq<Plan>, i: nat) returns (failure: Option<Outcome>)
      requires At([plan] + rest, Head(i)) && i < |plan.objects|
      modifies this`store, this`trace
      ensures old(trace) <= trace && store.rows == old(store.rows)
      ensures failure == None ==> At([plan] + rest, Head(i + 1)) && plan.objects[i].newKey in store.bucket
      ensures failure.Some? ==> At(rest, Idle) && failure.value != Migrated
      ensures failure == Some(SourceMissing) ==>
                store == old(store)
                && plan.objects[i].oldKey !in store.bucket && plan.objects[i].newKey !in store.bucket
      ensures store.bucket == old(store.bucket)
              || (plan.objects[i].newKey !in old(store.bucket) && plan.objects[i].oldKey in old(store.bucket)
                  && store.bucket ==
                     old(store.bucket)[plan.objects[i].newKey := old(store.bucket)[plan.objects[i].oldKey]])
    {
      ghost var queue := [plan] + rest;
      assert queue[0] == plan && queue[1..] == rest;
      var move := plan.objects[i];
      var headFails: bool := *;
      if headFails {
        Record(rest, Idle);
        return Some(Error);
      }
      if move.newKey in store.bucket {
        Record(queue, Head(i + 1));
        return None;
      }
      Record(queue, Source(i));
      var sourceHeadFails: bool := *;
      if sourceHeadFails {
        Record(rest, Idle);
        return Some(Error);
      }
      if move.oldKey !in store.bucket {
        Record(rest, Idle);
        return Some(SourceMissing);
      }
      Record(queue, Copy(i));
      var copyFails, copiedAnyway: bool := *, *;
      if !copyFails || copiedAnyway {
        store := Copied(store, move);
      }
      if copyFails {
        Record(rest, Idle);
        return Some(Error);
      }
      Record(queue, Head(i + 1));
      failure := None;
    }

    /** The one update of all the row's columns. */
    method UpdateRow(plan: Plan, ghost rest: seq<Plan>) returns (failed: bool)
      requires At([plan] + rest, Head(|plan.objects|))
      modifies this`store, this`trace
      ensures old(trace) <= trace && store.bucket == old(store.bucket)
      ensures store.rows == old(store.rows)[plan.id := plan.target] || (failed && store.rows == old(store.rows))
      ensures if !failed && deleteSource then At([plan] + rest, Delete(0)) else At(rest, Idle)
    {
      ghost var queue := [plan] + rest;
      assert queue[0] == plan && queue[1..] == rest;
      Record(queue, Write);
      var updatedAnyway: bool := *;
      failed := *;
      if !failed || updatedAnyway {
        store := Written(store, plan);
      }
      if !failed && deleteSource {
        Record(queue, Delete(0));
      } else {
        Record(rest, Idle);
      }
    }

    /** A failed deletion only leaves an orphan behind, which is reported. */
    method DeleteOriginals(plan: Plan, ghost rest: seq<Plan>) returns (orphans: seq<string>)
      requires At([plan] + rest, Delete(0))
      modifies this`store, this`trace
      ensures At(rest, Idle) && old(trace) <= trace && store.rows == old(store.rows)
      ensures forall m :: m in plan.objects && m.oldKey !in orphans ==> m.oldKey !in store.bucket
      ensures LostOnly(old(store.bucket), store.bucket, plan.objects)
    {
      orphans := [];
      ghost var queue := [plan] + rest;
      assert queue[0] == plan && queue[1..] == rest;
      for i := 0 to |plan.objects|
        invariant At(queue, Delete(i)) && old(trace) <= trace && store.rows == old(store.rows)
        invariant forall k :: 0 <= k < i && plan.objects[k].oldKey !in orphans ==>
                    plan.objects[k].oldKey !in store.bucket
        invariant LostOnly(old(store.bucket), store.bucket, plan.objects)
      {
        var deleteFails: bool := *;
        assert plan.objects[i] in plan.objects;
        if deleteFails {
          orphans := orphans + [plan.objects[i].oldKey];
        } else {
          store := Deleted(store, plan.objects[i].oldKey);
        }
        Record(queue, Delete(i + 1));
      }
      Record(rest, Idle);
    }

    /** Copy, update the row, then optionally delete; a missing source abandons the row unchanged. */
    method ApplyPlan(plan: Plan, ghost rest: seq<Plan>) returns (outcome: Outcome, orphans: seq<string>)
      requires At([plan] + rest, Idle)
      modifies this`store, this`trace
      ensures At(rest, Idle) && old(trace) <= trace
      ensures outcome == Migrated ==> store.rows == old(store.rows)[plan.id := plan.target]
      ensures outcome == SourceMissing ==> store.rows == old(store.rows)
      ensures outcome == Error ==>
                store.rows == old(store.rows) || store.rows == old(store.rows)[plan.id := plan.target]
      ensures LostOnly(old(store.bucket), store.bucket,
                       if deleteSource && outcome == Migrated then plan.objects else [])
      ensures outcome == Migrated && !deleteSource ==> forall m :: m in plan.objects ==> m.newKey in store.bucket
      ensures outcome == Migrated && deleteSource ==>
                forall m :: m in plan.objects && m.oldKey !in orphans ==> m.oldKey !in store.bucket
    {
      orphans := [];
      ghost var queue := [plan] + rest;
      assert queue[0] == plan;
      Record(queue, Head(0));
      for i := 0 to |plan.objects|
        invariant At(queue, Head(i)) && old(trace) <= trace
        invariant store.rows == old(store.rows) && LostOnly(old(store.bucket), store.bucket, [])
        invariant forall k :: 0 <= k < i ==> plan.objects[k].newKey in store.bucket
      {
        var failure := CopyObject(plan, rest, i);
        if failure.Some? {
          return failure.value, [];
        }
      }
      var failed := UpdateRow(plan, rest);
      if failed {
        return Error, [];
      }
      ghost var copied := store.bucket;
      if deleteSource {
        orphans := DeleteOriginals(plan, rest);
        LostLess(old(store.bucket), copied, store.bucket, plan.objects);
      }
      outcome := Migrated;
    }

    predicate HasMoves(row: Row) {
      Moves(site, row.folder, row.urls) != []
    }

    ghost predicate RowParses(row: Row) {
      Parses(site, row.folder, row.urls)
    }

    method PlanRow(id: RowId, row: Row) returns (threw: bool, plan: Option<Plan>)
      requires row.tracksPublicId ==> |row.urls| == 1
      ensures threw <==> !RowParses(row)
      ensures !threw ==> plan == if HasMoves(row) then Some(PlanOf(site, id, row)) else None
      ensures HasMoves(row) <==> PlanOf(site, id, row).objects != []
    {
      if |row.urls| == 1 {
        threw, plan := PlanSimple(site, id, row);
      } else {
        threw, plan := PlanSlots(site, id, row);
      }
    }

    ghost predicate PlansFor(ids: seq<RowId>, rows: map<RowId, Row>, plans: seq<Plan>) {
      forall j :: 0 <= j < |ids| && ids[j] in rows && HasMoves(rows[ids[j]]) ==>
        PlanOf(site, ids[j], rows[ids[j]]) in plans
    }

    ghost predicate AllParse(ids: seq<RowId>, rows: map<RowId, Row>)
      requires forall j :: 0 <= j < |ids| ==> ids[j] in rows
    {
      forall j :: 0 <= j < |ids| ==> RowParses(rows[ids[j]])
    }

    /** Each selected row with something to move has its target columns. */
    ghost predicate Arrives(ids: seq<RowId>, before: map<RowId, Row>, after: map<RowId, Row>)
      requires forall j :: 0 <= j < |ids| ==> ids[j] in before
    {
      forall j :: 0 <= j < |ids| && HasMoves(before[ids[j]]) ==>
        ids[j] in after && after[ids[j]] == Target(site, before[ids[j]])
    }

    lemma PlansArrive(ids: seq<RowId>, before: map<RowId, Row>, plans: seq<Plan>, after: map<RowId, Row>)
      requires forall j :: 0 <= j < |ids| ==> ids[j] in before
      requires PlansFor(ids, before, plans) && Arrived(after, plans)
      ensures Arrives(ids, before, after)
    {
      forall j | 0 <= j < |ids| && HasMoves(before[ids[j]])
        ensures ids[j] in after && after[ids[j]] == Target(site, before[ids[j]])
      {
        var p := PlanOf(site, ids[j], before[ids[j]]);
        assert p in plans && p.id == ids[j] && p.target == Target(site, before[ids[j]]);
      }
    }

    /** Each row is as it was or, if it was selected, has its target columns. */
    ghost predicate OnlyMigrated(ids: seq<RowId>, before: map<RowId, Row>, after: map<RowId, Row>) {
      after.Keys == before.Keys
      && forall id :: id in before ==>
           after[id] == before[id] || (id in ids && after[id] == Target(site, before[id]))
    }

    lemma MigratesOne(ids: seq<RowId>, first: Store, p: Plan, before: map<RowId, Row>, after: map<RowId, Row>)
      requires OnlyMigrated(ids, first.rows, before) && p.id in ids && p.id in first.rows
      requires p == PlanOf(site, p.id, first.rows[p.id])
      requires after == before || after == before[p.id := p.target]
      ensures OnlyMigrated(ids, first.rows, after)
    {
    }

    /** Every plan is of a selected row. */
    ghost predicate AllFrom(plans: seq<Plan>, ids: seq<RowId>) {
      forall p :: p in plans ==> p.id in ids
    }

    lemma PlansForMore(ids: seq<RowId>, k: nat, rows: map<RowId, Row>, plans: seq<Plan>, more: seq<Plan>)
      requires k < |ids| && ids[k] in rows && PlansFor(ids[..k], rows, plans)
      requires HasMoves(rows[ids[k]]) ==> PlanOf(site, ids[k], rows[ids[k]]) in more
      ensures PlansFor(ids[..k + 1], rows, plans + more)
    {
      forall j | 0 <= j < k + 1 && ids[j] in rows && HasMoves(rows[ids[j]])
        ensures PlanOf(site, ids[j], rows[ids[j]]) in plans + more
      {
        if j < k {
          assert ids[..k][j] == ids[j];
        }
      }
    }

    lemma PlanCollects(id: RowId, plan: Option<Plan>)
      requires id in store.rows
      requires plan == if HasMoves(store.rows[id]) then Some(PlanOf(site, id, store.rows[id])) else None
      ensures Collected(site, store, Listed(plan))
      ensures HasMoves(store.rows[id]) ==> PlanOf(site, id, store.rows[id]) in Listed(plan)
    {
    }

    lemma OneMoreCollected(ids: seq<RowId>, k: nat, plans: seq<Plan>, plan: Option<Plan>)
      requires k < |ids| && ids[k] in store.rows
      requires Collected(site, store, plans) && PlansFor(ids[..k], store.rows, plans)
      requires plan == if HasMoves(store.rows[ids[k]]) then Some(PlanOf(site, ids[k], store.rows[ids[k]])) else None
      ensures Collected(site, store, plans + Listed(plan))
      requires AllFrom(plans, ids)
      ensures PlansFor(ids[..k + 1], store.rows, plans + Listed(plan)) && AllFrom(plans + Listed(plan), ids)
    {
      PlanCollects(ids[k], plan);
      PlansForMore(ids, k, store.rows, plans, Listed(plan));
      CollectedMore(site, store, plans, Listed(plan));
    }

    /** The collection over the selected rows; a URL that cannot be decoded ends it. */
    method Collect(ids: seq<RowId>) returns (threw: bool, plans: seq<Plan>)
      requires forall j :: 0 <= j < |ids| ==> ids[j] in store.rows
      requires forall id :: id in store.rows && store.rows[id].tracksPublicId ==> |store.rows[id].urls| == 1
      ensures !threw ==> Collected(site, store, plans) && PlansFor(ids, store.rows, plans)
      ensures threw <==> !AllParse(ids, store.rows)
      ensures AllFrom(plans, ids)
    {
      plans := [];
      for k := 0 to |ids|
        invariant AllFrom(plans, ids)
        invariant Collected(site, store, plans) && PlansFor(ids[..k], store.rows, plans)
        invariant forall j :: 0 <= j < k ==> RowParses(store.rows[ids[j]])
      {
        assert ids[k] in store.rows;
        var failed, plan := PlanRow(ids[k], store.rows[ids[k]]);
        if failed {
          return true, [];
        }
        OneMoreCollected(ids, k, plans, plan);
        plans := plans + Listed(plan);
      }
      assert ids[..|ids|] == ids;
      threw := false;
    }

    /** The plans one after the other. */
    method ApplyAll(plans: seq<Plan>, ghost ids: seq<RowId>) returns (outcomes: seq<Outcome>)
      requires At(plans, Idle) && Collected(site, store, plans) && AllFrom(plans, ids)
      modifies this`store, this`trace
      ensures At([], Idle) && old(trace) <= trace
      ensures AllMigrated(outcomes) ==> Arrived(store.rows, plans)
      ensures OnlyMigrated(ids, old(store.rows), store.rows)
      ensures !deleteSource ==> LostOnly(old(store.bucket), store.bucket, [])
    {
      outcomes := [];
      ghost var first := store;
      assert plans[0..] == plans;
      for k := 0 to |plans|
        invariant At(plans[k..], Idle) && old(trace) <= trace
        invariant AllMigrated(outcomes) ==> Arrived(store.rows, plans[..k])
        invariant OnlyMigrated(ids, first.rows, store.rows)
        invariant !deleteSource ==> LostOnly(first.bucket, store.bucket, [])
      {
        assert plans[k..] == [plans[k]] + plans[k + 1..] && plans[k] in plans;
        ghost var before := store;
        var outcome, orphans := ApplyPlan(plans[k], plans[k + 1..]);
        MigratesOne(ids, first, plans[k], before.rows, store.rows);
        if !deleteSource {
          LostLess(first.bucket, before.bucket, store.bucket, []);
        }
        MigratedStep(outcomes, outcome);
        if outcome == Migrated && AllMigrated(outcomes) {
          OneMoreArrived(site, first, plans, k, before.rows);
        }
        outcomes := outcomes + [outcome];
      }
      assert plans[|plans|..] == [] && plans[..|plans|] == plans;
    }

    /**
      A whole run over the selected rows. When every plan was migrated, each selected row
      with something to move has its target columns.
      */
    method Run(ids: seq<RowId>) returns (outcomes: seq<Outcome>)
      requires At([], Idle)
      requires forall j :: 0 <= j < |ids| ==> ids[j] in store.rows
      requires forall id :: id in store.rows && store.rows[id].tracksPublicId ==> |store.rows[id].urls| == 1
      modifies this`store, this`trace
      ensures At([], Idle) && old(trace) <= trace
      ensures AllMigrated(outcomes) && AllParse(ids, old(store.rows)) ==> Arrives(ids, old(store.rows), store.rows)
      ensures OnlyMigrated(ids, old(store.rows), store.rows)
      ensures !deleteSource ==> LostOnly(old(store.bucket), store.bucket, [])
    {
      outcomes := [];
      var threw, plans := Collect(ids);
      if threw {
        assert !AllParse(ids, store.rows);
        return;
      }
      ghost var first := store;
      Record(plans, Idle);
      outcomes := ApplyAll(plans, ids);
      if AllMigrated(outcomes) {
        PlansArrive(ids, first.rows, plans, store.rows);
      }
    }
  }

  /** The rows of these plans have their targets. */
  ghost predicate Arrived(rows: map<RowId, Row>, plans: seq<Plan>) {
    forall p :: p in plans ==> p.id in rows && rows[p.id] == p.target
  }

  lemma OneMoreArrived(site: Site, s: Store, plans: seq<Plan>, k: nat, rows: map<RowId, Row>)
    requires Collected(site, s, plans) && k < |plans| && Arrived(rows, plans[..k])
    ensures Arrived(rows[plans[k].id := plans[k].target], plans[..k + 1])
  {
    var rows' := rows[plans[k].id := plans[k].target];
    forall p | p in plans[..k + 1]
      ensures p.id in rows' && rows'[p.id] == p.target
    {
      assert plans[..k + 1] == plans[..k] + [plans[k]];
      assert p in plans && plans[k] in plans;
    }
  }

  function Listed(plan: Option<Plan>): seq<Plan> {
    if plan.Some? then [plan.value] else []
  }

  lemma CollectedMore(site: Site, s: Store, plans: seq<Plan>, more: seq<Plan>)
    requires Collected(site, s, plans) && Collected(site, s, more)
    ensures Collected(site, s, plans + more)
  {
    forall p | p in plans + more
      ensures p.id in s.rows && p.objects != [] && p == PlanOf(site, p.id, s.rows[p.id])
    {
      assert p in plans || p in more;
    }
  }
}

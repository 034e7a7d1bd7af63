/** The special numbers service: its steps, its methods, and what holds over every run. */
module SpecialNumbersService {
  import opened Wrappers
  import opened SpecialNumbers

  /** One effect on rows and cache. Reads may fill the cache, and any cached list may expire. */
  datatype Op =
    | Read(complexId: ComplexId)
    | Expire(key: string)
    | Create(newId: Id, scope: Option<ComplexId>, order: Option<int>, data: string)
    | Update(id: Id, newOrder: Option<int>, newData: Option<string>)
    | Remove(id: Id, remaining: seq<Id>)
    | Reorder(scope: Option<ComplexId>, ids: seq<Id>)

  function NextOrder(rows: Table, scope: Option<ComplexId>): int {
    |ScopeIds(rows, scope)| + 1
  }

  function Changed(row: Row, order: Option<int>, data: Option<string>): Row {
    Row(row.scope, if order.Some? then order.value else row.order, if data.Some? then data.value else row.data)
  }

  /** `ids` lists the rows of a scope other than `gone` by ascending order. */
  ghost predicate Remaining(rows: Table, scope: Option<ComplexId>, gone: Id, ids: seq<Id>) {
    NoDup(ids)
    && (forall id :: id in ids <==> id in rows && rows[id].scope == scope && id != gone)
    && (forall i :: 0 <= i < |ids| ==> ids[i] in rows && ids[i] != gone && rows[ids[i]].scope == scope)
    && forall i, j :: 0 <= i < j < |ids| ==> rows[ids[i]].order <= rows[ids[j]].order
  }

  /** `ids` lists all rows of a scope by ascending order. */
  ghost predicate Listing(rows: Table, scope: Option<ComplexId>, ids: seq<Id>) {
    NoDup(ids)
    && (forall id :: id in ids <==> id in rows && rows[id].scope == scope)
    && forall i, j :: 0 <= i < j < |ids| ==>
         ids[i] in rows && ids[j] in rows && rows[ids[i]].order <= rows[ids[j]].order
  }

  ghost predicate WithinScope(rows: Table, scope: Option<ComplexId>, ids: seq<Id>) {
    forall i :: 0 <= i < |ids| ==> ids[i] in rows && rows[ids[i]].scope == scope
  }

  ghost predicate Step(s: State, op: Op, s': State) {
    match op
    case Read(c) =>
      s' == s
      || (ListKey(c) !in s.cache && ListKey(c) in s'.cache
          && Answer(Visible(s.rows, c), s'.cache[ListKey(c)])
          && s' == s.(cache := s.cache[ListKey(c) := s'.cache[ListKey(c)]]))
    case Expire(key) => s' == s.(cache := s.cache - {key})
    case Create(id, scope, order, data) =>
      id !in s.rows
      && (scope.Some? ==> |ScopeIds(s.rows, scope)| < MAX_NUMBERS_PER_COMPLEX)
      && s' == State(s.rows[id := Row(scope, if order.Some? then order.value else NextOrder(s.rows, scope), data)],
                     WithoutPrefix(s.cache, ScopePrefix(scope)))
    case Update(id, order, data) =>
      id in s.rows
      && s' == State(s.rows[id := Changed(s.rows[id], order, data)],
                     WithoutPrefix(s.cache, ScopePrefix(s.rows[id].scope)))
    case Remove(id, remaining) =>
      id in s.rows && Remaining(s.rows, s.rows[id].scope, id, remaining)
      && s' == State(Renumber(s.rows - {id}, remaining), WithoutPrefix(s.cache, ScopePrefix(s.rows[id].scope)))
    case Reorder(scope, ids) =>
      WithinScope(s.rows, scope, ids)
      && s' == State(Renumber(s.rows, ids), WithoutPrefix(s.cache, ScopePrefix(scope)))
  }

  ghost predicate Trace(states: seq<State>, ops: seq<Op>) {
    |states| == |ops| + 1 && forall k :: 0 <= k < |ops| ==> Step(states[k], ops[k], states[k + 1])
  }

  // ---------------------------------------------------------------- the service

  predicate HasAccess(user: User, c: ComplexId) {
    user.superAdmin || (c != "" && user.complexId == Some(c))
  }

  predicate MayWrite(user: User, scope: Option<ComplexId>) {
    if scope.None? then user.superAdmin else HasAccess(user, scope.value)
  }

  /** Global rows are written by super administrators, others by these and by the complex itself. */
  predicate Writable(user: User, scope: Option<ComplexId>) {
    user.superAdmin || (scope.Some? && scope.value != "" && user.complexId == scope)
  }

  lemma SortedIsAnswer(visible: Table, ids: seq<Id>, numbers: seq<Entry>)
    requires NoDup(ids) && |numbers| == |ids| && forall id :: id in ids <==> id in visible
    requires forall i :: 0 <= i < |ids| ==> ids[i] in visible && numbers[i] == Entry(ids[i], visible[ids[i]])
    requires forall i, j :: 0 <= i < j < |ids| ==> NotAfter(visible[ids[i]], visible[ids[j]])
    ensures Answer(visible, numbers)
  {
    forall id | id in visible
      ensures exists i :: 0 <= i < |numbers| && numbers[i].id == id
    {
      assert id in ids;
      var i :| 0 <= i < |ids| && ids[i] == id;
      assert numbers[i].id == id;
    }
  }

  class Service {
    var rows: Table
    var cache: Cache

    constructor ()
      ensures rows == map[] && cache == map[]
    {
      rows, cache := map[], map[];
    }

    ghost function Now(): State
      reads this
    {
      State(rows, cache)
    }

    method DeleteByPrefix(prefix: string)
      modifies this`cache
      ensures cache == WithoutPrefix(old(cache), prefix)
      ensures DroppedPrefix(old(cache), cache, prefix)
    {
      cache := WithoutPrefix(cache, prefix);
    }

    method FindByComplex(c: ComplexId, user: User) returns (r: Option<seq<Entry>>)
      modifies this`cache
      ensures Step(old(Now()), Read(c), Now())
      ensures r.None? ==> Now() == old(Now())
      ensures r.Some? && (old(Agrees(Now())) || ListKey(c) !in old(cache)) ==> Answer(Visible(rows, c), r.value)
      ensures r.Some? <==> user.superAdmin || (c != "" && user.complexId == Some(c))
      ensures r.Some? && (old(Agrees(Now())) || ("sn:" + c) !in old(cache)) ==> Shows(rows, c, r.value)
      ensures r.Some? ==> ("sn:" + c) in cache && r.value == cache["sn:" + c]
      ensures forall k :: k != "sn:" + c || k in old(cache) ==>
                (k in cache <==> k in old(cache)) && (k in cache ==> cache[k] == old(cache)[k])
    {
      if !HasAccess(user, c) {
        return None;
      }
      if ListKey(c) in cache {
        AnswerShows(rows, c, cache[ListKey(c)]);
        return Some(cache[ListKey(c)]);
      }
      var visible := Visible(rows, c);
      var ids := QuerySorted(visible, visible.Keys);
      var numbers := seq(|ids|, i requires 0 <= i < |ids| => Entry(ids[i], visible[ids[i]]));
      SortedIsAnswer(visible, ids, numbers);
      AnswerShows(rows, c, numbers);
      cache := cache[ListKey(c) := numbers];
      r := Some(numbers);
    }

    method CreateNumber(id: Id, isGlobal: bool, complexId: Option<ComplexId>, order: Option<int>, data: string,
                        user: User)
      returns (ok: bool)
      requires id !in rows
      modifies this
      ensures ok ==> Step(old(Now()), Create(id, if isGlobal then None else complexId, order, data), Now())
      ensures !ok ==> Now() == old(Now())
      ensures ok <==>
              if isGlobal then user.superAdmin
              else complexId.Some? && complexId.value != "" && (user.superAdmin || user.complexId == complexId)
                   && CountIn(old(rows), complexId) < 20
      ensures ok ==>
                var scope := if isGlobal then None else complexId;
                rows == old(rows)[id := Row(
                  scope, if order.Some? then order.value else CountIn(old(rows), scope) + 1, data)]
      ensures ok ==> DroppedPrefix(old(cache), cache, if isGlobal then "sn:" else "sn:" + complexId.value)
    {
      if isGlobal {
        if !user.superAdmin {
          return false;
        }
      } else {
        if complexId.None? || complexId.value == "" || !HasAccess(user, complexId.value) {
          return false;
        }
        var count := |ScopeIds(rows, complexId)|;
        if count >= MAX_NUMBERS_PER_COMPLEX {
          return false;
        }
      }
      var scope := if isGlobal then None else complexId;
      var newOrder := if order.Some? then order.value else NextOrder(rows, scope);
      rows := rows[id := Row(scope, newOrder, data)];
      DeleteByPrefix(ScopePrefix(scope));
      ok := true;
    }

    method UpdateNumber(id: Id, order: Option<int>, data: Option<string>, user: User) returns (ok: bool)
      modifies this
      ensures ok ==> Step(old(Now()), Update(id, order, data), Now())
      ensures !ok ==> Now() == old(Now())
      ensures ok <==> id in old(rows) && Writable(user, old(rows)[id].scope)
      ensures ok ==> rows.Keys == old(rows).Keys && forall x :: x in rows && x != id ==> rows[x] == old(rows)[x]
      ensures ok ==> rows[id].scope == old(rows)[id].scope
                     && rows[id].order == (if order.Some? then order.value else old(rows)[id].order)
                     && rows[id].data == (if data.Some? then data.value else old(rows)[id].data)
      ensures ok ==> DroppedPrefix(old(cache), cache,
                                   if old(rows)[id].scope == None then "sn:" else "sn:" + old(rows)[id].scope.value)
    {
      if id !in rows || !MayWrite(user, rows[id].scope) {
        return false;
      }
      var scope := rows[id].scope;
      rows := rows[id := Changed(rows[id], order, data)];
      DeleteByPrefix(ScopePrefix(scope));
      ok := true;
    }

    method RemoveNumber(id: Id, user: User) returns (ok: bool, ghost remaining: seq<Id>)
      modifies this
      ensures ok ==> Step(old(Now()), Remove(id, remaining), Now())
      ensures !ok ==> Now() == old(Now())
      ensures ok <==> id in old(rows) && Writable(user, old(rows)[id].scope)
      ensures ok ==> Remaining(old(rows), old(rows)[id].scope, id, remaining)
                     && Renumbered(old(rows) - {id}, rows, remaining)
      ensures ok ==> DroppedPrefix(old(cache), cache,
                                   if old(rows)[id].scope == None then "sn:" else "sn:" + old(rows)[id].scope.value)
    {
      remaining := [];
      if id !in rows || !MayWrite(user, rows[id].scope) {
        return false, [];
      }
      var scope := rows[id].scope;
      rows := rows - {id};
      var left := QuerySorted(rows, ScopeIds(rows, scope));
      rows := RenumberInPlace(rows, left);
      remaining := left;
      DeleteByPrefix(ScopePrefix(scope));
      ok := true;
    }

    method ReorderComplex(c: ComplexId, ids: seq<Id>, user: User) returns (r: Option<seq<Entry>>)
      modifies this
      ensures r.Some? ==> exists mid: State :: Step(old(Now()), Reorder(Some(c), ids), mid) && Step(mid, Read(c), Now())
      ensures r.Some? ==> Answer(Visible(rows, c), r.value)
      ensures r.None? ==> Now() == old(Now())
      ensures r.Some? <==> (user.superAdmin || (c != "" && user.complexId == Some(c)))
                           && WithinScope(old(rows), Some(c), ids)
      ensures r.Some? ==> Renumbered(old(rows), rows, ids) && Shows(rows, c, r.value)
    {
      if !HasAccess(user, c) {
        return None;
      }
      var valid := IdsWithinScope(rows, Some(c), ids);
      if !valid {
        return None;
      }
      rows := RenumberInPlace(rows, ids);
      DeleteByPrefix(ScopePrefix(Some(c)));
      ghost var mid := Now();
      assert ListKey(c) !in cache;
      r := FindByComplex(c, user);
      assert Step(old(Now()), Reorder(Some(c), ids), mid) && Step(mid, Read(c), Now());
    }

    method ReorderGlobal(ids: seq<Id>, user: User) returns (r: Option<seq<Id>>)
      modifies this
      ensures r.Some? <==> user.superAdmin && WithinScope(old(rows), None, ids)
      ensures r.Some? ==> Step(old(Now()), Reorder(None, ids), Now())
      ensures r.Some? ==> Numbered(rows, None, ids) ==> r.value == ids
      ensures r.None? ==> Now() == old(Now())
      ensures r.Some? ==> Renumbered(old(rows), rows, ids)
      ensures r.Some? ==> Listing(rows, None, r.value)
      ensures r.Some? ==> forall k :: k in cache <==> k in old(cache) && !("sn:" <= k)
    {
      if !user.superAdmin {
        return None;
      }
      var valid := IdsWithinScope(rows, None, ids);
      if !valid {
        return None;
      }
      rows := RenumberInPlace(rows, ids);
      DeleteByPrefix("sn:");
      var listed := QuerySorted(rows, ScopeIds(rows, None));
      if Numbered(rows, None, ids) {
        NumberedListIsUnique(rows, None, ids, listed);
      }
      r := Some(listed);
    }
  }

  method IdsWithinScope(rows: Table, scope: Option<ComplexId>, ids: seq<Id>) returns (ok: bool)
    ensures ok <==> WithinScope(rows, scope, ids)
  {
    var existing := ScopeIds(rows, scope);
    for i := 0 to |ids|
      invariant forall k :: 0 <= k < i ==> ids[k] in existing
    {
      if ids[i] !in existing {
        return false;
      }
    }
    ok := true;
  }

  /** The loop that writes position plus one into each listed row. */
  method RenumberInPlace(rows: Table, ids: seq<Id>) returns (r: Table)
    requires forall i :: 0 <= i < |ids| ==> ids[i] in rows
    ensures r == Renumber(rows, ids)
    ensures Renumbered(rows, r, ids)
  {
    r := rows;
    for i := 0 to |ids|
      invariant r == Renumber(rows, ids[..i])
    {
      assert ids[..i + 1][..i] == ids[..i];
      r := r[ids[i] := r[ids[i]].(order := i + 1)];
    }
    assert ids[..|ids|] == ids;
    RenumberRenumbers(rows, ids);
  }

  // ---------------------------------------------------------------- cache agreement

  /** A write outside what `c` sees, or one that dropped `c`'s list, leaves `c`'s entry in order. */
  lemma StepKeepsAgreement(s: State, op: Op, s': State)
    requires Agrees(s) && Step(s, op, s')
    ensures Agrees(s')
  {
    forall c | ListKey(c) in s'.cache
      ensures Answer(Visible(s'.rows, c), s'.cache[ListKey(c)])
    {
      match op
      case Read(c') =>
        if c' != c {
          assert ListKey(c)[3..] == c && ListKey(c')[3..] == c';
        }
      case Expire(key) =>
      case Create(id, scope, order, data) => SurvivorSeesNoChange(s, s', scope, c);
      case Update(id, order, data) => SurvivorSeesNoChange(s, s', s.rows[id].scope, c);
      case Remove(id, remaining) =>
        RenumberOrders(s.rows - {id}, remaining);
        SurvivorSeesNoChange(s, s', s.rows[id].scope, c);
      case Reorder(scope, ids) =>
        RenumberFrame(s.rows, ids);
        SurvivorSeesNoChange(s, s', scope, c);
    }
  }

  /** A list that outlives the invalidation of `scope` shows none of its rows. */
  lemma SurvivorSeesNoChange(s: State, s': State, scope: Option<ComplexId>, c: ComplexId)
    requires s'.cache == WithoutPrefix(s.cache, ScopePrefix(scope)) && ListKey(c) in s'.cache
    requires forall id :: id in s.rows && s.rows[id].scope != scope ==> id in s'.rows && s'.rows[id] == s.rows[id]
    requires forall id :: id in s'.rows && s'.rows[id].scope != scope ==> id in s.rows && s'.rows[id] == s.rows[id]
    ensures scope != None && scope != Some(c)
    ensures Visible(s'.rows, c) == Visible(s.rows, c)
    ensures s'.cache[ListKey(c)] == s.cache[ListKey(c)]
  {
    assert "sn:" <= ListKey(c);
    assert scope != None && scope != Some(c);
    var before, after := Visible(s.rows, c), Visible(s'.rows, c);
    assert forall id :: id in after <==> id in before;
    assert forall id :: id in before ==> after[id] == before[id];
  }

  /** In every state of every run each cached list equals a fresh query's answer. */
  lemma {:induction false} CacheAlwaysAgrees(states: seq<State>, ops: seq<Op>, k: nat)
    requires Trace(states, ops) && Agrees(states[0]) && k < |states|
    ensures Agrees(states[k])
    decreases k
  {
    if k > 0 {
      CacheAlwaysAgrees(states, ops, k - 1);
      StepKeepsAgreement(states[k - 1], ops[k - 1], states[k - 1 + 1]);
    }
  }

  // ---------------------------------------------------------------- what was written is read

  ghost predicate HasEntry(list: seq<Entry>, id: Id, data: string) {
    exists i :: 0 <= i < |list| && list[i].id == id && list[i].row.data == data
  }

  /** The step writes `data` into row `id`, which then belongs to `scope`. */
  ghost predicate Writes(s: State, op: Op, id: Id, scope: Option<ComplexId>, data: string) {
    || (op.Create? && op.newId == id && op.scope == scope && op.data == data)
    || (op.Update? && op.id == id && op.newData == Some(data) && id in s.rows && s.rows[id].scope == scope)
  }

  /** The step may overwrite the data of row `id` or take the row away. */
  predicate Touches(op: Op, id: Id) {
    (op.Update? && op.id == id && op.newData.Some?) || (op.Remove? && op.id == id)
  }

  lemma StepKeepsData(s: State, op: Op, s': State, id: Id)
    requires Step(s, op, s') && id in s.rows && !Touches(op, id)
    ensures id in s'.rows && s'.rows[id].scope == s.rows[id].scope && s'.rows[id].data == s.rows[id].data
  {
  }

  lemma {:induction false} DataStays(states: seq<State>, ops: seq<Op>, k: nat, j: nat, id: Id,
                                     scope: Option<ComplexId>, data: string)
    requires Trace(states, ops) && k < j < |states| && Writes(states[k], ops[k], id, scope, data)
    requires forall n :: k < n < j ==> !Touches(ops[n], id)
    ensures id in states[j].rows && states[j].rows[id].scope == scope && states[j].rows[id].data == data
    decreases j
  {
    assert Step(states[j - 1], ops[j - 1], states[j - 1 + 1]);
    if k < j - 1 {
      DataStays(states, ops, k, j - 1, id, scope, data);
      StepKeepsData(states[j - 1], ops[j - 1], states[j], id);
    }
  }

  lemma ShownWithData(rows: Table, c: ComplexId, list: seq<Entry>, id: Id)
    requires Shows(rows, c, list) && id in rows && (rows[id].scope == None || rows[id].scope == Some(c))
    ensures HasEntry(list, id, rows[id].data)
  {
    var i :| 0 <= i < |list| && list[i].id == id;
    assert list[i].row == rows[list[i].id];
  }

  /**
    What a creation or an update writes is read back until it is overwritten or removed: in
    every later state each list that shows the row to a complex, fresh or cached, holds the
    entry with that content.
    */
  lemma WrittenDataIsRead(states: seq<State>, ops: seq<Op>, k: nat, j: nat, id: Id,
                          scope: Option<ComplexId>, data: string, c: ComplexId)
    requires Trace(states, ops) && Agrees(states[0]) && k < j < |states|
    requires Writes(states[k], ops[k], id, scope, data) && (scope == None || scope == Some(c))
    requires forall n :: k < n < j ==> !Touches(ops[n], id)
    ensures forall list :: Shows(states[j].rows, c, list) ==> HasEntry(list, id, data)
    ensures ("sn:" + c) in states[j].cache ==> HasEntry(states[j].cache["sn:" + c], id, data)
  {
    DataStays(states, ops, k, j, id, scope, data);
    CacheAlwaysAgrees(states, ops, j);
    forall list | Shows(states[j].rows, c, list)
      ensures HasEntry(list, id, data)
    {
      ShownWithData(states[j].rows, c, list, id);
    }
    if ListKey(c) in states[j].cache {
      AnswerShows(states[j].rows, c, states[j].cache[ListKey(c)]);
    }
  }

  /** Right after the write no list that shows the row is cached. */
  lemma WriteDropsLists(s: State, op: Op, s': State, id: Id, scope: Option<ComplexId>, data: string, c: ComplexId)
    requires Step(s, op, s') && Writes(s, op, id, scope, data) && (scope == None || scope == Some(c))
    ensures ("sn:" + c) !in s'.cache
  {
    assert "sn:" <= "sn:" + c;
  }

  // ---------------------------------------------------------------- limits

  ghost predicate Capped(rows: Table) {
    forall c :: |ScopeIds(rows, Some(c))| <= MAX_NUMBERS_PER_COMPLEX
  }

  /** A step adds at most the row it creates to a scope. */
  lemma ScopeGrowsByCreate(s: State, op: Op, s': State, scope: Option<ComplexId>)
    requires Step(s, op, s')
    ensures ScopeIds(s'.rows, scope) <=
            ScopeIds(s.rows, scope) + if op.Create? && op.scope == scope then {op.newId} else {}
  {
  }

  lemma StepKeepsCapped(s: State, op: Op, s': State)
    requires Step(s, op, s') && Capped(s.rows)
    ensures Capped(s'.rows)
  {
    forall c
      ensures |ScopeIds(s'.rows, Some(c))| <= MAX_NUMBERS_PER_COMPLEX
    {
      var before := ScopeIds(s.rows, Some(c));
      ScopeGrowsByCreate(s, op, s', Some(c));
      var bound := before + if op.Create? && op.scope == Some(c) then {op.newId} else {};
      SubsetCardinality(ScopeIds(s'.rows, Some(c)), bound);
    }
  }

  /** No complex ever holds more than twenty numbers. */
  lemma {:induction false} AlwaysCapped(states: seq<State>, ops: seq<Op>, k: nat)
    requires Trace(states, ops) && Capped(states[0].rows) && k < |states|
    ensures Capped(states[k].rows)
    decreases k
  {
    if k > 0 {
      AlwaysCapped(states, ops, k - 1);
      StepKeepsCapped(states[k - 1], ops[k - 1], states[k - 1 + 1]);
    }
  }

  // ---------------------------------------------------------------- numbering

  /** The calls that leave the orders to the service, and reorders that list a whole scope. */
  ghost predicate KeepsNumbering(s: State, op: Op) {
    match op
    case Create(_, _, order, _) => order.None?
    case Update(_, order, _) => order.None?
    case Reorder(scope, ids) => NoDup(ids) && forall id :: id in ScopeIds(s.rows, scope) ==> id in ids
    case _ => true
  }

  ghost predicate AllDense(rows: Table) {
    forall scope :: Dense(rows, scope)
  }

  /** A new number without a given order goes to the end of its scope. */
  lemma CreateAppends(rows: Table, scope: Option<ComplexId>, ids: seq<Id>, id: Id, data: string)
    requires Numbered(rows, scope, ids) && id !in rows
    ensures Numbered(rows[id := Row(scope, NextOrder(rows, scope), data)], scope, ids + [id])
  {
    DistinctIffNoDup(ids);
    assert forall x :: x in Elements(ids) <==> x in ScopeIds(rows, scope);
    assert Elements(ids) == ScopeIds(rows, scope);
    assert forall i :: 0 <= i < |ids| ==> ids[i] in ids;
    NoDupAppend(ids, [id]);
  }

  /** Removal renumbers what remains as 1..n-1 and keeps its relative order. */
  lemma RemoveRenumbers(rows: Table, scope: Option<ComplexId>, gone: Id, remaining: seq<Id>)
    requires gone in rows && rows[gone].scope == scope && Remaining(rows, scope, gone, remaining)
    ensures Numbered(Renumber(rows - {gone}, remaining), scope, remaining)
    ensures forall x, y :: x in remaining && y in remaining && rows[x].order < rows[y].order ==>
              Renumber(rows - {gone}, remaining)[x].order < Renumber(rows - {gone}, remaining)[y].order
  {
    var after := Renumber(rows - {gone}, remaining);
    RenumberOrders(rows - {gone}, remaining);
    forall x, y | x in remaining && y in remaining && rows[x].order < rows[y].order
      ensures after[x].order < after[y].order
    {
      OrderIsPosition(after, scope, remaining, x);
      OrderIsPosition(after, scope, remaining, y);
    }
  }

  /** Reordering a whole scope makes the given sequence the one every later query reads back. */
  lemma ReorderReadsBack(rows: Table, scope: Option<ComplexId>, ids: seq<Id>)
    requires WithinScope(rows, scope, ids) && NoDup(ids)
    requires forall id :: id in ScopeIds(rows, scope) ==> id in ids
    ensures Numbered(Renumber(rows, ids), scope, ids)
  {
    RenumberOrders(rows, ids);
  }

  /** The rows a complex sees as one numbered scope: `n` globals, then its own. */
  ghost function Merged(rows: Table, c: ComplexId, n: nat): Table {
    map id | id in Visible(rows, c) ::
      rows[id].(scope := None, order := if rows[id].scope.None? then rows[id].order else n + rows[id].order)
  }

  lemma MergedIsNumbered(rows: Table, c: ComplexId, globals: seq<Id>, own: seq<Id>)
    requires Numbered(rows, None, globals) && Numbered(rows, Some(c), own)
    ensures Numbered(Merged(rows, c, |globals|), None, globals + own)
  {
    var merged := Merged(rows, c, |globals|);
    forall x | x in globals
      ensures x !in own
    {
      assert rows[x].scope == None;
    }
    NoDupAppend(globals, own);
    forall i | 0 <= i < |globals|
      ensures globals[i] in merged && merged[globals[i]].order == i + 1
    {
      var x := globals[i];
      assert x in globals && rows[x].scope == None && x in Visible(rows, c);
    }
    forall i | 0 <= i < |own|
      ensures own[i] in merged && merged[own[i]].order == |globals| + i + 1
    {
      var x := own[i];
      assert x in own && rows[x].scope == Some(c) && x in Visible(rows, c);
    }
    NumberedInTwoParts(merged, None, globals, own);
  }

  lemma MergedOrder(rows: Table, c: ComplexId, globals: seq<Id>, own: seq<Id>, a: Id, b: Id)
    requires Numbered(rows, None, globals) && Numbered(rows, Some(c), own)
    requires a in Visible(rows, c) && b in Visible(rows, c) && NotAfter(rows[a], rows[b])
    ensures NotAfter(Merged(rows, c, |globals|)[a], Merged(rows, c, |globals|)[b])
  {
    if rows[a].scope.None? && rows[b].scope.Some? {
      OrderIsPosition(rows, None, globals, a);
      OrderIsPosition(rows, Some(c), own, b);
    }
  }

  /** Over numbered scopes the answer for a complex is exactly the globals in order, then its own in order. */
  lemma AnswerIsGlobalsThenOwn(rows: Table, c: ComplexId, list: seq<Entry>, globals: seq<Id>, own: seq<Id>)
    requires Answer(Visible(rows, c), list) && Numbered(rows, None, globals) && Numbered(rows, Some(c), own)
    ensures seq(|list|, i requires 0 <= i < |list| => list[i].id) == globals + own
  {
    var ids := seq(|list|, i requires 0 <= i < |list| => list[i].id);
    var merged := Merged(rows, c, |globals|);
    MergedIsNumbered(rows, c, globals, own);
    forall i, j | 0 <= i < j < |ids|
      ensures ids[i] in merged && ids[j] in merged && NotAfter(merged[ids[i]], merged[ids[j]])
    {
      MergedOrder(rows, c, globals, own, ids[i], ids[j]);
    }
    forall id
      ensures id in ids <==> id in merged && merged[id].scope == None
    {
      if id in merged {
        var i :| 0 <= i < |list| && list[i].id == id;
        assert ids[i] == id;
      }
    }
    NumberedListIsUnique(merged, None, globals + own, ids);
  }

  /** A scope whose rows did not change stays numbered. */
  lemma DenseFrame(rows: Table, rows': Table, scope: Option<ComplexId>)
    requires Dense(rows, scope)
    requires forall id :: id in rows && rows[id].scope == scope ==>
               id in rows' && rows'[id].scope == scope && rows'[id].order == rows[id].order
    requires forall id :: id in rows' && rows'[id].scope == scope ==> id in rows && rows[id].scope == scope
    ensures Dense(rows', scope)
  {
    var ids :| Numbered(rows, scope, ids);
    forall i | 0 <= i < |ids|
      ensures ids[i] in rows' && rows'[ids[i]].order == i + 1
    {
      var x := ids[i];
      assert x in ids && x in rows && rows[x].scope == scope;
    }
    assert Numbered(rows', scope, ids);
  }

  lemma StepKeepsDense(s: State, op: Op, s': State)
    requires AllDense(s.rows) && Step(s, op, s') && KeepsNumbering(s, op)
    ensures AllDense(s'.rows)
  {
    forall scope
      ensures Dense(s'.rows, scope)
    {
      assert Dense(s.rows, scope);
      match op
      case Create(id, sc, order, data) =>
        if sc == scope {
          var ids :| Numbered(s.rows, scope, ids);
          CreateAppends(s.rows, scope, ids, id, data);
        } else {
          DenseFrame(s.rows, s'.rows, scope);
        }
      case Remove(id, remaining) =>
        RenumberOrders(s.rows - {id}, remaining);
        if s.rows[id].scope == scope {
          RemoveRenumbers(s.rows, scope, id, remaining);
        } else {
          DenseFrame(s.rows, s'.rows, scope);
        }
      case Reorder(sc, ids) =>
        RenumberFrame(s.rows, ids);
        if sc == scope {
          ReorderReadsBack(s.rows, scope, ids);
        } else {
          DenseFrame(s.rows, s'.rows, scope);
        }
      case _ => DenseFrame(s.rows, s'.rows, scope);
    }
  }

  /** In such runs every scope's orders are exactly 1..n at every moment. */
  lemma {:induction false} OrdersAreAlwaysDense(states: seq<State>, ops: seq<Op>, k: nat)
    requires Trace(states, ops) && AllDense(states[0].rows) && k < |states|
    requires forall j :: 0 <= j < |ops| ==> KeepsNumbering(states[j], ops[j])
    ensures AllDense(states[k].rows)
    decreases k
  {
    if k > 0 {
      OrdersAreAlwaysDense(states, ops, k - 1);
      StepKeepsDense(states[k - 1], ops[k - 1], states[k - 1 + 1]);
    }
  }

  /**
    A reorder that lists only some rows, each once, keeps the numbering exactly when the
    listed rows are the first ones of the scope.
    */
  lemma PartialReorderKeepsNumberingIff(rows: Table, scope: Option<ComplexId>, listed: seq<Id>, ids: seq<Id>)
    requires Numbered(rows, scope, listed) && WithinScope(rows, scope, ids) && NoDup(ids)
    ensures Dense(Renumber(rows, ids), scope) <==> forall id :: id in ids ==> rows[id].order <= |ids|
  {
    ListedAreFewer(rows, scope, listed, ids);
    if forall id :: id in ids ==> rows[id].order <= |ids| {
      ListedAreFirst(rows, scope, listed, ids);
      NumberedAfterPrefix(rows, scope, listed, ids);
    } else {
      var i := LeftOut(rows, scope, listed, ids);
      ClashingOrders(rows, Renumber(rows, ids), scope, listed, ids, i);
    }
  }

  lemma ListedAreFewer(rows: Table, scope: Option<ComplexId>, listed: seq<Id>, ids: seq<Id>)
    requires Numbered(rows, scope, listed) && WithinScope(rows, scope, ids) && NoDup(ids)
    ensures Elements(ids) <= Elements(listed) && |ids| <= |listed|
  {
    DistinctIffNoDup(ids);
    DistinctIffNoDup(listed);
    assert Elements(ids) <= Elements(listed);
    SubsetCardinality(Elements(ids), Elements(listed));
  }

  lemma TakeIsNoDup(s: seq<Id>, m: nat)
    requires NoDup(s) && m <= |s|
    ensures NoDup(s[..m]) && |Elements(s[..m])| == m
    ensures s == s[..m] + s[m..]
  {
    DistinctIffNoDup(s[..m]);
  }

  lemma ListedAreFirst(rows: Table, scope: Option<ComplexId>, listed: seq<Id>, ids: seq<Id>)
    requires Numbered(rows, scope, listed) && NoDup(ids) && |ids| <= |listed| && Elements(ids) <= Elements(listed)
    requires forall id :: id in ids ==> id in rows && rows[id].order <= |ids|
    ensures Elements(ids) == Elements(listed[..|ids|])
  {
    var first := listed[..|ids|];
    forall id | id in Elements(ids)
      ensures id in Elements(first)
    {
      assert id in Elements(listed);
      var i :| 0 <= i < |listed| && listed[i] == id;
      assert first[i] == id;
    }
    TakeIsNoDup(listed, |ids|);
    DistinctIffNoDup(ids);
    SubsetOfSameSize(Elements(ids), Elements(first));
  }

  /** If a listed row is not among the first ones, one of these is not listed. */
  lemma LeftOut(rows: Table, scope: Option<ComplexId>, listed: seq<Id>, ids: seq<Id>) returns (i: nat)
    requires Numbered(rows, scope, listed) && NoDup(ids) && |ids| <= |listed|
    requires forall id :: id in ids ==> id in rows
    requires exists id :: id in ids && rows[id].order > |ids|
    ensures i < |ids| && listed[i] !in ids
  {
    var first := listed[..|ids|];
    var x :| x in ids && rows[x].order > |ids|;
    assert x !in Elements(first) && x in Elements(ids);
    TakeIsNoDup(listed, |ids|);
    DistinctIffNoDup(ids);
    if Elements(first) <= Elements(ids) {
      SubsetOfSameSize(Elements(first), Elements(ids));
      assert false;
    }
    var id :| id in Elements(first) && id !in Elements(ids);
    i :| 0 <= i < |first| && first[i] == id;
  }

  lemma NumberedAfterPrefix(rows: Table, scope: Option<ComplexId>, listed: seq<Id>, ids: seq<Id>)
    requires Numbered(rows, scope, listed) && WithinScope(rows, scope, ids) && NoDup(ids) && |ids| <= |listed|
    requires Elements(ids) == Elements(listed[..|ids|])
    ensures Numbered(Renumber(rows, ids), scope, ids + listed[|ids|..])
  {
    var m := |ids|;
    var rest := listed[m..];
    var rows' := Renumber(rows, ids);
    RestIsNotFirst(listed, ids);
    NoDupAppend(ids, rest);
    RenumberOrders(rows, ids);
    forall id
      ensures id in ids || id in rest <==> id in rows' && rows'[id].scope == scope
    {
      SameMembers(listed, ids, id);
    }
    forall x | x in rest
      ensures x in rows' && rows'[x] == rows[x]
    {
      assert x !in ids && x in listed;
    }
    RestKeepsOrders(rows, rows', scope, listed, m);
    NumberedInTwoParts(rows', scope, ids, rest);
  }

  lemma RestKeepsOrders(rows: Table, rows': Table, scope: Option<ComplexId>, listed: seq<Id>, m: nat)
    requires Numbered(rows, scope, listed) && m <= |listed|
    requires forall x :: x in listed[m..] ==> x in rows' && rows'[x] == rows[x]
    ensures forall i :: 0 <= i < |listed[m..]| ==> listed[m..][i] in rows' && rows'[listed[m..][i]].order == m + i + 1
  {
    forall i | 0 <= i < |listed[m..]|
      ensures listed[m..][i] in rows' && rows'[listed[m..][i]].order == m + i + 1
    {
      var x := listed[m..][i];
      assert x in listed[m..] && x == listed[m + i];
    }
  }

  lemma NumberedInTwoParts(rows: Table, scope: Option<ComplexId>, a: seq<Id>, b: seq<Id>)
    requires NoDup(a + b)
    requires forall id :: id in a || id in b <==> id in rows && rows[id].scope == scope
    requires forall i :: 0 <= i < |a| ==> a[i] in rows && rows[a[i]].order == i + 1
    requires forall i :: 0 <= i < |b| ==> b[i] in rows && rows[b[i]].order == |a| + i + 1
    ensures Numbered(rows, scope, a + b)
  {
    forall id
      ensures id in a + b <==> id in rows && rows[id].scope == scope
    {
    }
  }

  lemma SameMembers(listed: seq<Id>, ids: seq<Id>, x: Id)
    requires |ids| <= |listed| && Elements(ids) == Elements(listed[..|ids|])
    ensures x in ids || x in listed[|ids|..] <==> x in listed
  {
    assert listed == listed[..|ids|] + listed[|ids|..];
    assert x in ids <==> x in Elements(listed[..|ids|]);
  }

  lemma RestIsNotFirst(listed: seq<Id>, ids: seq<Id>)
    requires NoDup(listed) && |ids| <= |listed| && Elements(ids) == Elements(listed[..|ids|])
    ensures forall x :: x in ids ==> x !in listed[|ids|..]
  {
    forall x | x in ids
      ensures x !in listed[|ids|..]
    {
      assert x in Elements(listed[..|ids|]);
      var i :| 0 <= i < |ids| && listed[i] == x;
    }
  }

  /** In a numbered scope different rows have different orders. */
  lemma DenseOrdersDiffer(rows: Table, scope: Option<ComplexId>, a: Id, b: Id)
    requires Dense(rows, scope) && a in rows && b in rows && rows[a].scope == rows[b].scope == scope && a != b
    ensures rows[a].order != rows[b].order
  {
    var ids :| Numbered(rows, scope, ids);
    OrderIsPosition(rows, scope, ids, a);
    OrderIsPosition(rows, scope, ids, b);
  }

  /** A row left out keeps an order that a listed row was given too. */
  lemma ClashingOrders(rows: Table, rows': Table, scope: Option<ComplexId>, listed: seq<Id>, ids: seq<Id>, i: nat)
    requires Numbered(rows, scope, listed) && WithinScope(rows, scope, ids) && NoDup(ids)
    requires rows' == Renumber(rows, ids) && i < |ids| <= |listed| && listed[i] !in ids
    ensures !Dense(rows', scope)
  {
    RenumberOrders(rows, ids);
    var a, b := listed[i], ids[i];
    assert a in listed && b in ids;
    assert a in rows' && b in rows' && rows'[a].scope == rows'[b].scope == scope;
    if Dense(rows', scope) {
      DenseOrdersDiffer(rows', scope, a, b);
      assert false;
    }
  }
}

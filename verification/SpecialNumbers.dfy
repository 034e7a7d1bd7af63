/**
  Special numbers: rows ordered within a scope (global, or one complex), and a cache of the
  merged list per complex that writes invalidate by key prefix.
  */
module SpecialNumbers {
  import opened Wrappers

  type Id = int
  type ComplexId = string

  const MAX_NUMBERS_PER_COMPLEX := 20

  /** `scope` is `None` for a global number. */
  datatype Row = Row(scope: Option<ComplexId>, order: int, data: string)
  datatype Entry = Entry(id: Id, row: Row)
  datatype User = User(superAdmin: bool, complexId: Option<ComplexId>)

  type Table = map<Id, Row>
  type Cache = map<string, seq<Entry>>

  datatype State = State(rows: Table, cache: Cache)

  function ListKey(c: ComplexId): string {
    "sn:" + c
  }

  function WithoutPrefix(cache: Cache, prefix: string): Cache {
    map k | k in cache && !(prefix <= k) :: cache[k]
  }

  function ScopePrefix(scope: Option<ComplexId>): string {
    if scope.None? then "sn:" else ListKey(scope.value)
  }

  function ScopeIds(rows: Table, scope: Option<ComplexId>): set<Id> {
    set id | id in rows && rows[id].scope == scope
  }

  // ---------------------------------------------------------------- lists

  /** Globals first, then by order. */
  predicate NotAfter(a: Row, b: Row) {
    if a.scope.None? != b.scope.None? then a.scope.None? else a.order <= b.order
  }

  /** The rows shown to complex `c`. */
  function Visible(rows: Table, c: ComplexId): Table {
    map id | id in rows && (rows[id].scope == None || rows[id].scope == Some(c)) :: rows[id]
  }

  /** `list` could be the answer of the list query over these rows: all of them once, in order. */
  ghost predicate Answer(visible: Table, list: seq<Entry>) {
    && (forall i, j :: 0 <= i < j < |list| ==> list[i].id != list[j].id && NotAfter(list[i].row, list[j].row))
    && (forall i :: 0 <= i < |list| ==> list[i].id in visible && list[i].row == visible[list[i].id])
    && (forall id :: id in visible ==> exists i :: 0 <= i < |list| && list[i].id == id)
  }

  /**
    `list` shows complex `c` exactly the global rows and its own, each once and as it is now:
    the globals first, and by rising order within both groups.
    */
  ghost predicate Shows(rows: Table, c: ComplexId, list: seq<Entry>) {
    && (forall i :: 0 <= i < |list| ==>
          list[i].id in rows && list[i].row == rows[list[i].id]
          && (list[i].row.scope == None || list[i].row.scope == Some(c)))
    && (forall id :: id in rows && (rows[id].scope == None || rows[id].scope == Some(c)) ==>
          exists i :: 0 <= i < |list| && list[i].id == id)
    && (forall i, j :: 0 <= i < j < |list| ==>
          list[i].id != list[j].id
          && (list[j].row.scope == None ==> list[i].row.scope == None)
          && (list[i].row.scope == list[j].row.scope ==> list[i].row.order <= list[j].row.order))
  }

  /** Among rows shown to the same complex. */
  lemma NotAfterMeans(a: Row, b: Row, c: ComplexId)
    requires a.scope == None || a.scope == Some(c)
    requires b.scope == None || b.scope == Some(c)
    ensures NotAfter(a, b) <==> (b.scope == None ==> a.scope == None) && (a.scope == b.scope ==> a.order <= b.order)
  {
  }

  lemma AnswerShows(rows: Table, c: ComplexId, list: seq<Entry>)
    ensures Answer(Visible(rows, c), list) <==> Shows(rows, c, list)
  {
    var visible := Visible(rows, c);
    assert forall id :: id in visible <==> id in rows && (rows[id].scope == None || rows[id].scope == Some(c));
    if forall i :: 0 <= i < |list| ==> list[i].id in visible && list[i].row == visible[list[i].id] {
      forall i, j | 0 <= i < j < |list|
        ensures NotAfter(list[i].row, list[j].row) <==>
                (list[j].row.scope == None ==> list[i].row.scope == None)
                && (list[i].row.scope == list[j].row.scope ==> list[i].row.order <= list[j].row.order)
      {
        NotAfterMeans(list[i].row, list[j].row, c);
      }
    }
  }

  /** The cache after every list whose key starts with `prefix` was dropped. */
  ghost predicate DroppedPrefix(before: Cache, after: Cache, prefix: string) {
    forall k :: if k in before && !(prefix <= k) then k in after && after[k] == before[k] else k !in after
  }

  /** The rows of a scope, counted. */
  function CountIn(rows: Table, scope: Option<ComplexId>): nat {
    |set id | id in rows && rows[id].scope == scope|
  }

  /** Every cached list is a possible answer of a fresh query. */
  ghost predicate Agrees(s: State) {
    forall c :: ListKey(c) in s.cache ==> Answer(Visible(s.rows, c), s.cache[ListKey(c)])
  }

  lemma {:induction false} FirstExists(rows: Table, ids: set<Id>)
    requires ids != {} && ids <= rows.Keys
    ensures exists x :: x in ids && forall y :: y in ids ==> NotAfter(rows[x], rows[y])
  {
    var x := Pick(ids);
    if ids != {x} {
      FirstExists(rows, ids - {x});
      var m :| m in ids - {x} && forall y :: y in ids - {x} ==> NotAfter(rows[m], rows[y]);
      var first := if NotAfter(rows[x], rows[m]) then x else m;
      assert first in ids && forall y :: y in ids ==> NotAfter(rows[first], rows[y]);
    }
  }

  /** A query with ORDER BY: some ordering of the rows that respects it. */
  method QuerySorted(rows: Table, wanted: set<Id>) returns (ids: seq<Id>)
    requires wanted <= rows.Keys
    ensures NoDup(ids) && forall id :: id in ids <==> id in wanted
    ensures forall i :: 0 <= i < |ids| ==> ids[i] in wanted
    ensures forall i, j :: 0 <= i < j < |ids| ==> NotAfter(rows[ids[i]], rows[ids[j]])
  {
    ids := [];
    var rest := wanted;
    while rest != {}
      invariant rest <= wanted && NoDup(ids)
      invariant forall id :: id in ids <==> id in wanted && id !in rest
      invariant forall i :: 0 <= i < |ids| ==> ids[i] in wanted
      invariant forall i, j :: 0 <= i < j < |ids| ==> NotAfter(rows[ids[i]], rows[ids[j]])
      invariant forall i, y :: 0 <= i < |ids| && y in rest ==> NotAfter(rows[ids[i]], rows[y])
      decreases rest
    {
      FirstExists(rows, rest);
      var x :| x in rest && forall y :: y in rest ==> NotAfter(rows[x], rows[y]);
      ids, rest := ids + [x], rest - {x};
    }
  }

  // ---------------------------------------------------------------- numbering

  /** The scope's orders are exactly 1..n, in the order of `ids`. */
  ghost predicate Numbered(rows: Table, scope: Option<ComplexId>, ids: seq<Id>) {
    NoDup(ids)
    && (forall id :: id in ids <==> id in rows && rows[id].scope == scope)
    && forall i :: 0 <= i < |ids| ==> ids[i] in rows && rows[ids[i]].order == i + 1
  }

  ghost predicate Dense(rows: Table, scope: Option<ComplexId>) {
    exists ids :: Numbered(rows, scope, ids)
  }

  /** Position by position, the listed rows get orders 1, 2, …; a repeated id keeps the last. */
  function Renumber(rows: Table, ids: seq<Id>): (r: Table)
    requires forall i :: 0 <= i < |ids| ==> ids[i] in rows
    ensures r.Keys == rows.Keys
    ensures forall id :: id in rows ==> r[id].scope == rows[id].scope && r[id].data == rows[id].data
  {
    if ids == [] then rows
    else
      var n := |ids|;
      var before := Renumber(rows, ids[..n - 1]);
      before[ids[n - 1] := before[ids[n - 1]].(order := n)]
  }

  lemma {:induction false} RenumberOrders(rows: Table, ids: seq<Id>)
    requires forall i :: 0 <= i < |ids| ==> ids[i] in rows
    requires NoDup(ids)
    ensures forall i :: 0 <= i < |ids| ==> Renumber(rows, ids)[ids[i]].order == i + 1
    ensures forall id :: id in rows && id !in ids ==> Renumber(rows, ids)[id] == rows[id]
  {
    if ids != [] {
      var init := ids[..|ids| - 1];
      RenumberOrders(rows, init);
      assert ids == init + [ids[|ids| - 1]];
      assert forall i :: 0 <= i < |init| ==> init[i] == ids[i];
    }
  }

  /** A repeated id keeps its last position. */
  lemma {:induction false} RenumberKeepsLast(rows: Table, ids: seq<Id>, i: nat)
    requires forall k :: 0 <= k < |ids| ==> ids[k] in rows
    requires i < |ids| && forall j :: i < j < |ids| ==> ids[j] != ids[i]
    ensures Renumber(rows, ids)[ids[i]].order == i + 1
  {
    var init := ids[..|ids| - 1];
    if i < |init| {
      assert init[i] == ids[i] && forall j :: i < j < |init| ==> init[j] == ids[j];
      RenumberKeepsLast(rows, init, i);
    }
  }

  /**
    Only orders change, and only those of the listed rows: each gets its position, counted
    from one, and a row listed more than once its last.
    */
  ghost predicate Renumbered(before: Table, after: Table, ids: seq<Id>) {
    && after.Keys == before.Keys
    && (forall id :: id in before ==> after[id] == before[id].(order := after[id].order))
    && (forall id :: id in before && id !in ids ==> after[id] == before[id])
    && forall i :: 0 <= i < |ids| && (forall j :: i < j < |ids| ==> ids[j] != ids[i]) ==>
         ids[i] in after && after[ids[i]].order == i + 1
  }

  lemma {:induction false} RenumberFrame(rows: Table, ids: seq<Id>)
    requires forall i :: 0 <= i < |ids| ==> ids[i] in rows
    ensures forall id :: id in rows && id !in ids ==> Renumber(rows, ids)[id] == rows[id]
  {
    if ids != [] {
      var init := ids[..|ids| - 1];
      RenumberFrame(rows, init);
      assert ids == init + [ids[|ids| - 1]];
    }
  }

  lemma RenumberRenumbers(rows: Table, ids: seq<Id>)
    requires forall i :: 0 <= i < |ids| ==> ids[i] in rows
    ensures Renumbered(rows, Renumber(rows, ids), ids)
  {
    RenumberFrame(rows, ids);
    forall i | 0 <= i < |ids| && forall j :: i < j < |ids| ==> ids[j] != ids[i]
      ensures Renumber(rows, ids)[ids[i]].order == i + 1
    {
      RenumberKeepsLast(rows, ids, i);
    }
  }

  ghost predicate Rising(q: seq<int>) {
    forall i, j :: 0 <= i < j < |q| ==> q[i] < q[j]
  }

  lemma {:induction false} RisingClimbs(q: seq<int>, i: nat, j: nat)
    requires Rising(q) && i <= j < |q|
    ensures q[j] - q[i] >= j - i
    decreases j
  {
    if i < j {
      RisingClimbs(q, i, j - 1);
    }
  }

  /** Position and order of a row in a numbered scope determine each other. */
  lemma OrderIsPosition(rows: Table, scope: Option<ComplexId>, ids: seq<Id>, x: Id)
    requires Numbered(rows, scope, ids) && x in ids
    ensures x in rows && 1 <= rows[x].order <= |ids| && ids[rows[x].order - 1] == x
  {
    var i :| 0 <= i < |ids| && ids[i] == x;
  }

  lemma OrdersRise(rows: Table, scope: Option<ComplexId>, ids: seq<Id>, other: seq<Id>)
    requires Numbered(rows, scope, ids) && NoDup(other)
    requires forall i :: 0 <= i < |other| ==> other[i] in ids && other[i] in rows
    requires forall i, j :: 0 <= i < j < |other| ==> rows[other[i]].order <= rows[other[j]].order
    ensures Rising(seq(|other|, i requires 0 <= i < |other| => rows[other[i]].order))
  {
    forall i, j | 0 <= i < j < |other|
      ensures rows[other[i]].order < rows[other[j]].order
    {
      OrderIsPosition(rows, scope, ids, other[i]);
      OrderIsPosition(rows, scope, ids, other[j]);
    }
  }

  /** `q` rises within 1..|q|, so it is 1, 2, ... */
  lemma RisingIsDense(q: seq<int>)
    requires Rising(q) && forall i :: 0 <= i < |q| ==> 1 <= q[i] <= |q|
    ensures forall i :: 0 <= i < |q| ==> q[i] == i + 1
  {
    forall i | 0 <= i < |q|
      ensures q[i] == i + 1
    {
      RisingClimbs(q, 0, i);
      RisingClimbs(q, i, |q| - 1);
    }
  }

  lemma SameMembersSameLength(a: seq<Id>, b: seq<Id>)
    requires NoDup(a) && NoDup(b) && forall id :: id in a <==> id in b
    ensures |a| == |b|
  {
    DistinctIffNoDup(a);
    DistinctIffNoDup(b);
    assert Elements(a) == Elements(b);
  }

  /** A sorted listing of a numbered scope has order `i + 1` at position `i`. */
  lemma SortedOrders(rows: Table, scope: Option<ComplexId>, ids: seq<Id>, other: seq<Id>)
    requires Numbered(rows, scope, ids) && NoDup(other) && |other| == |ids|
    requires forall i :: 0 <= i < |other| ==> other[i] in ids && other[i] in rows
    requires forall i, j :: 0 <= i < j < |other| ==> rows[other[i]].order <= rows[other[j]].order
    ensures forall i :: 0 <= i < |other| ==> rows[other[i]].order == i + 1
  {
    OrdersRise(rows, scope, ids, other);
    var q := seq(|other|, i requires 0 <= i < |other| => rows[other[i]].order);
    forall i | 0 <= i < |q|
      ensures 1 <= q[i] <= |q|
    {
      OrderIsPosition(rows, scope, ids, other[i]);
    }
    RisingIsDense(q);
    assert forall i :: 0 <= i < |other| ==> q[i] == rows[other[i]].order;
  }

  /** The listing of a densely numbered scope is unique, whatever way the query broke ties. */
  lemma NumberedListIsUnique(rows: Table, scope: Option<ComplexId>, ids: seq<Id>, other: seq<Id>)
    requires Numbered(rows, scope, ids) && NoDup(other)
    requires forall id :: id in other <==> id in rows && rows[id].scope == scope
    requires forall i, j :: 0 <= i < j < |other| ==>
               other[i] in rows && other[j] in rows && NotAfter(rows[other[i]], rows[other[j]])
    ensures other == ids
  {
    SameMembersSameLength(ids, other);
    forall i | 0 <= i < |other|
      ensures other[i] in ids && other[i] in rows && rows[other[i]].scope == scope
    {
      var x := other[i];
      assert x in other;
    }
    SortedOrders(rows, scope, ids, other);
    forall i | 0 <= i < |other|
      ensures other[i] == ids[i]
    {
      OrderIsPosition(rows, scope, ids, other[i]);
    }
  }
}

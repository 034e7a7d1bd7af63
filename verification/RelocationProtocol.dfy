/**
  The relocation as a machine of single requests: a head, a copy, a row update or a delete
  is one step, any of them may fail, and the process may stop after any step and be started
  again. Safety is stated against the store found before the first run.
  */
module RelocationProtocol {
  import opened Wrappers
  import opened ObjectKeys
  import opened RelocationPlan

  type Content = int

  datatype Store = Store(bucket: map<string, Content>, rows: map<RowId, Row>)

  /** The content a URL leads to. */
  function Resolve(site: Site, s: Store, url: string): Option<Content> {
    var k := KeyFromUrl(site, url);
    if k.Found? && k.key != "" && k.key in s.bucket then Some(s.bucket[k.key]) else None
  }

  // ---------------------------------------------------------------- the machine

  /** Where the current plan, the first of the queue, stands. */
  datatype Phase = Idle | Head(i: nat) | Source(i: nat) | Copy(i: nat) | Write | Delete(i: nat)

  datatype Config = Config(store: Store, queue: seq<Plan>, phase: Phase)

  function Drop(c: Config): Config
    requires c.queue != []
  {
    Config(c.store, c.queue[1..], Idle)
  }

  function Copied(s: Store, m: Move): Store
    requires m.oldKey in s.bucket
  {
    s.(bucket := s.bucket[m.newKey := s.bucket[m.oldKey]])
  }

  function Deleted(s: Store, key: string): Store {
    s.(bucket := s.bucket - {key})
  }

  function Written(s: Store, p: Plan): Store {
    s.(rows := s.rows[p.id := p.target])
  }

  /** A collection: plans of current rows, for any selection of rows and in any order. */
  ghost predicate Collected(site: Site, s: Store, queue: seq<Plan>) {
    forall p :: p in queue ==>
      p.id in s.rows && p.objects != [] && p == PlanOf(site, p.id, s.rows[p.id])
  }

  /** One step on plan `p`. A failed request drops the plan; a failed write may still have happened. */
  ghost predicate StepOn(deleteSource: bool, c: Config, p: Plan, d: Config)
    requires c.queue != []
  {
    match c.phase
    case Idle => d == c.(phase := Head(0))
    case Head(i) =>
      if i >= |p.objects| then d == c.(phase := Write)
      else
        d == Drop(c)
        || d == c.(phase := if p.objects[i].newKey in c.store.bucket then Head(i + 1) else Source(i))
    case Source(i) =>
      i < |p.objects|
      && (d == Drop(c) || (p.objects[i].oldKey in c.store.bucket && d == c.(phase := Copy(i))))
    case Copy(i) =>
      i < |p.objects| && p.objects[i].oldKey in c.store.bucket
      && (d == Drop(c)
          || d == Drop(c.(store := Copied(c.store, p.objects[i])))
          || d == c.(store := Copied(c.store, p.objects[i]), phase := Head(i + 1)))
    case Write =>
      d == Drop(c)
      || d == Drop(c.(store := Written(c.store, p)))
      || (deleteSource && d == c.(store := Written(c.store, p), phase := Delete(0)))
    case Delete(i) =>
      if i >= |p.objects| then d == Drop(c)
      else
        d == c.(phase := Delete(i + 1))
        || d == c.(store := Deleted(c.store, p.objects[i].oldKey), phase := Delete(i + 1))
  }

  ghost predicate Next(site: Site, deleteSource: bool, c: Config, d: Config) {
    || d == Config(c.store, [], Idle)
    || (c.phase.Idle? && c.queue == [] && d == c.(queue := d.queue) && Collected(site, c.store, d.queue))
    || (c.queue != [] && StepOn(deleteSource, c, c.queue[0], d))
  }

  /** A history of configurations; the deletion option may differ from step to step, as between runs. */
  ghost predicate Trace(site: Site, cs: seq<Config>) {
    cs != [] && forall k :: 0 <= k < |cs| - 1 ==>
      Next(site, true, cs[k], cs[k + 1]) || Next(site, false, cs[k], cs[k + 1])
  }

  lemma TraceStep(site: Site, cs: seq<Config>, k: nat) returns (deleteSource: bool)
    requires Trace(site, cs) && k + 1 < |cs|
    ensures Next(site, deleteSource, cs[k], cs[k + 1])
  {
    deleteSource := Next(site, true, cs[k], cs[k + 1]);
  }

  // ---------------------------------------------------------------- what is asked of the first store

  ghost predicate Slot(s: Store, id: RowId, i: int) {
    id in s.rows && 0 <= i < |s.rows[id].urls|
  }

  /** The plan of a slot, seen from the first store. */
  function SlotPlan(site: Site, s: Store, id: RowId, i: int): MovePlan
    requires id in s.rows && 0 <= i < |s.rows[id].urls|
  {
    PlanMove(site, s.rows[id].urls[i], s.rows[id].folder)
  }

  /** Slot `i` of row `id` asks for the move `m`. */
  ghost predicate Moving(site: Site, s: Store, id: RowId, i: int, m: Move) {
    Slot(s, id, i) && SlotPlan(site, s, id, i) == Relocate(m)
  }

  /** The URL in slot `i` of row `id` leads to the object `key`. */
  ghost predicate Reads(site: Site, s: Store, id: RowId, i: int, key: string) {
    Slot(s, id, i) && KeyFromUrl(site, s.rows[id].urls[i]) == Found(key)
  }

  /** A move the first store allows: its original is there, or something already lies at its target. */
  predicate Available(s: Store, m: Move) {
    m.oldKey in s.bucket || m.newKey in s.bucket
  }

  ghost predicate Completable(site: Site, s: Store, id: RowId) {
    forall i, m :: Moving(site, s, id, i, m) ==> Available(s, m)
  }

  /** The rows whose moves can all be completed. */
  ghost function CompletableRows(site: Site, s: Store): set<RowId> {
    set id | id in s.rows && Completable(site, s, id)
  }

  /** No move of an existing original goes to `key`. */
  ghost predicate Unaimed(site: Site, s: Store, key: string) {
    forall id, i, m :: Moving(site, s, id, i, m) && m.oldKey in s.bucket ==> m.newKey != key
  }

  /** No other move supplies what a move that is not available lacks. */
  ghost predicate Unaided(site: Site, s: Store) {
    forall id, i, m :: Moving(site, s, id, i, m) && !Available(s, m) ==>
      Unaimed(site, s, m.oldKey) && Unaimed(site, s, m.newKey)
  }

  /** A run comes to the `k`-th move of a row: those before it are available, and go elsewhere. */
  ghost predicate Attempted(site: Site, s: Store, id: RowId, k: int) {
    && id in s.rows && 0 <= k < |PlanOf(site, id, s.rows[id]).objects|
    && forall j :: 0 <= j < k ==>
         Available(s, PlanOf(site, id, s.rows[id]).objects[j])
         && PlanOf(site, id, s.rows[id]).objects[j].newKey != PlanOf(site, id, s.rows[id]).objects[k].newKey
  }

  /** No slot of another row leads to an original that a live row moves. */
  ghost predicate OriginalsOwned(site: Site, s: Store, live: set<RowId>) {
    forall id, i, m, id', i' ::
      Moving(site, s, id, i, m) && id in live && m.oldKey in s.bucket && id' != id ==>
        !Reads(site, s, id', i', m.oldKey)
  }

  /** Originals that live rows move to the same key have the same content. */
  ghost predicate TargetsAgree(site: Site, s: Store, live: set<RowId>) {
    forall id, i, m, id', i', m' ::
      Moving(site, s, id, i, m) && Moving(site, s, id', i', m') && id in live && id' in live && m.newKey == m'.newKey
      && m.oldKey in s.bucket && m'.oldKey in s.bucket ==>
        s.bucket[m.oldKey] == s.bucket[m'.oldKey]
  }

  /** What the other rows leave behind at the free target of a live row has the content of its original. */
  ghost predicate StrayCopiesAgree(site: Site, s: Store, live: set<RowId>) {
    forall id, i, m, id', k ::
      Moving(site, s, id, i, m) && id in live && m.oldKey in s.bucket && m.newKey !in s.bucket
      && Attempted(site, s, id', k) && id' !in live ==>
        StrayAgrees(s, m, PlanOf(site, id', s.rows[id']).objects[k])
  }

  predicate StrayAgrees(s: Store, m: Move, stray: Move) {
    m.newKey == stray.newKey && m.oldKey in s.bucket && stray.oldKey in s.bucket ==>
      s.bucket[m.oldKey] == s.bucket[stray.oldKey]
  }

  /** What already lies at a target key of a live row has the content of the original. */
  ghost predicate TargetsAreCopies(site: Site, s: Store, live: set<RowId>) {
    forall id, i, m ::
      Moving(site, s, id, i, m) && id in live && m.oldKey in s.bucket && m.newKey in s.bucket ==>
        s.bucket[m.newKey] == s.bucket[m.oldKey]
  }

  /** No object is moved to a key that another live row is to move away. */
  ghost predicate TargetsStay(site: Site, s: Store, live: set<RowId>) {
    forall id, i, m, id', i', m' ::
      Moving(site, s, id, i, m) && Moving(site, s, id', i', m') && id in live && id' in live && id != id'
      && m.oldKey in s.bucket ==>
        m.newKey != m'.oldKey
  }

  /** The live rows keep out of each other's way. */
  ghost predicate SeparateOn(site: Site, s: Store, live: set<RowId>) {
    && OriginalsOwned(site, s, live) && TargetsAgree(site, s, live) && StrayCopiesAgree(site, s, live)
    && TargetsAreCopies(site, s, live) && TargetsStay(site, s, live)
  }

  /** All rows keep out of each other's way. */
  ghost predicate Separate(site: Site, s: Store) {
    SeparateOn(site, s, s.rows.Keys)
  }

  /** A usable public address, and relocated keys that survive the trip through a URL. */
  ghost predicate Readable(site: Site, s: Store) {
    Configured(site) && forall id :: id in s.rows ==> Relocatable(site, s.rows[id])
  }

  /** The live rows are all of them, or those that can be completed where nothing helps the others. */
  ghost predicate Origin(site: Site, s: Store, live: set<RowId>) {
    && Readable(site, s) && SeparateOn(site, s, live)
    && (live == s.rows.Keys || (live == CompletableRows(site, s) && Unaided(site, s)))
  }

  lemma MovingReads(site: Site, s: Store, id: RowId, i: int, m: Move)
    requires Moving(site, s, id, i, m)
    ensures Reads(site, s, id, i, m.oldKey) && m.oldKey != "" && m.oldKey != m.newKey
    ensures m.newKey == s.rows[id].folder + "/" + FileName(m.oldKey)
  {
  }

  ghost predicate Planned(site: Site, s0: Store, p: Plan) {
    p.id in s0.rows && p == PlanOf(site, p.id, s0.rows[p.id])
  }

  /** The slot a planned move belongs to. */
  lemma SlotOfMove(site: Site, s0: Store, p: Plan, m: Move) returns (i: int)
    requires Planned(site, s0, p) && m in p.objects
    ensures Moving(site, s0, p.id, i, m)
  {
    var row := s0.rows[p.id];
    var plans := Plans(site, row.folder, row.urls);
    MovesAreSlots(plans);
    i :| 0 <= i < |plans| && plans[i] == Relocate(m);
  }

  /** A row with something to move is not yet as it will be. */
  lemma MovingRowChanges(site: Site, s: Store, id: RowId, i: int, m: Move)
    requires Readable(site, s) && Moving(site, s, id, i, m)
    ensures Target(site, s.rows[id]) != s.rows[id]
    ensures Target(site, s.rows[id]).urls[i] == UrlFromKey(site, m.newKey)
    ensures KeyFromUrl(site, UrlFromKey(site, m.newKey)) == Found(m.newKey)
  {
    assert Relocatable(site, s.rows[id]);
    MovingReads(site, s, id, i, m);
    PlanMoveIsProjection(site, s.rows[id].urls[i], s.rows[id].folder);
  }

  /** A file name stands for one object, and that for one row, which may list it more than once. */
  ghost predicate UniqueNames(site: Site, s: Store) {
    forall id, i, k, id', i', k' ::
      Reads(site, s, id, i, k) && Reads(site, s, id', i', k') && FileName(k) == FileName(k') ==>
        k == k' && id == id'
  }

  /** Unique file names keep the rows apart; only what already lies at the targets is left to ask for. */
  lemma UniqueNamesSeparate(site: Site, s: Store, live: set<RowId>)
    requires UniqueNames(site, s) && TargetsAreCopies(site, s, live)
    ensures SeparateOn(site, s, live) && Unaided(site, s)
  {
    forall id, i, m | Moving(site, s, id, i, m)
      ensures Reads(site, s, id, i, m.oldKey) && FileName(m.newKey) == FileName(m.oldKey)
    {
      MovingReads(site, s, id, i, m);
      FileNameIsStable(s.rows[id].folder, m.oldKey);
    }
    forall id', k | Attempted(site, s, id', k)
      ensures exists j :: Moving(site, s, id', j, PlanOf(site, id', s.rows[id']).objects[k])
    {
      var p := PlanOf(site, id', s.rows[id']);
      assert p.objects[k] in p.objects;
      var j := SlotOfMove(site, s, p, p.objects[k]);
    }
  }

  /** Within a row no target is another slot's original: that slot would be in its place. */
  lemma RowTargetsStay(site: Site, s: Store, id: RowId, i: int, m: Move, i': int, m': Move)
    requires Moving(site, s, id, i, m) && Moving(site, s, id, i', m')
    ensures m.newKey != m'.oldKey
  {
    MovingReads(site, s, id, i, m);
    MovingReads(site, s, id, i', m');
    FileNameIsStable(s.rows[id].folder, m.oldKey);
  }

  /** Within a row a slot that reads an original to be moved is moved too. */
  lemma RowReadersMove(site: Site, s: Store, id: RowId, i: int, m: Move, i': int)
    requires Moving(site, s, id, i, m) && Reads(site, s, id, i', m.oldKey)
    ensures Moving(site, s, id, i', m)
  {
    MovingReads(site, s, id, i, m);
    NoUrlIsExternal(site);
  }

  // ---------------------------------------------------------------- the invariant

  /**
    Where the object of a slot is. An original stays until its row is updated, and from then
    on its content is at the target. Targets of live rows never hold anything else and are
    never lost, and no key comes into being that no existing original is moved to.
    */
  ghost predicate SlotSafe(site: Site, s0: Store, live: set<RowId>, s: Store, id: RowId, i: int)
    requires Slot(s0, id, i) && id in s.rows
  {
    match SlotPlan(site, s0, id, i)
    case Relocate(m) => MoveSafe(site, s0, live, s.bucket, m, id in live, s.rows[id] == Target(site, s0.rows[id]))
    case InPlace =>
      var k := KeyFromUrl(site, s0.rows[id].urls[i]);
      k.Found? && k.key in s0.bucket ==> k.key in s.bucket && s.bucket[k.key] == s0.bucket[k.key]
    case _ => true
  }

  ghost predicate MoveSafe(site: Site, s0: Store, live: set<RowId>, now: map<string, Content>,
                           m: Move, isLive: bool, updated: bool) {
    if m.oldKey in s0.bucket then
      && (!updated ==> m.oldKey in now && now[m.oldKey] == s0.bucket[m.oldKey])
      && (updated ==> m.newKey in now)
      && (isLive && m.newKey in now ==> now[m.newKey] == s0.bucket[m.oldKey])
      && (isLive && m.newKey in s0.bucket ==> m.newKey in now)
    else
      && (m.oldKey in now ==> m.newKey in s0.bucket && live != s0.rows.Keys)
      && (m.newKey in now ==> m.newKey in s0.bucket || !Unaimed(site, s0, m.newKey))
  }

  /** Each row is untouched or, if live, completely updated, and each slot's object is where its URL says. */
  ghost predicate Safe(site: Site, s0: Store, live: set<RowId>, s: Store) {
    && s.rows.Keys == s0.rows.Keys
    && (forall id :: id in s0.rows ==>
          s.rows[id] == s0.rows[id] || (id in live && s.rows[id] == Target(site, s0.rows[id])))
    && forall id, i :: Slot(s0, id, i) ==> SlotSafe(site, s0, live, s, id, i)
  }

  /** The first `n` target keys of a plan exist. */
  ghost predicate CopiedUpTo(s: Store, p: Plan, n: nat) {
    n <= |p.objects| && forall k :: 0 <= k < n ==> p.objects[k].newKey in s.bucket
  }

  /** The next target key is still free. */
  ghost predicate Uncopied(s: Store, p: Plan, i: nat) {
    i < |p.objects| && p.objects[i].newKey !in s.bucket
  }

  ghost predicate Inv(site: Site, s0: Store, live: set<RowId>, c: Config) {
    && Safe(site, s0, live, c.store)
    && (forall p :: p in c.queue ==> Planned(site, s0, p))
    && (!c.phase.Idle? ==> c.queue != [])
    && match c.phase
       case Idle => true
       case Head(i) => CopiedUpTo(c.store, c.queue[0], i)
       case Source(i) => CopiedUpTo(c.store, c.queue[0], i) && Uncopied(c.store, c.queue[0], i)
       case Copy(i) => CopiedUpTo(c.store, c.queue[0], i) && Uncopied(c.store, c.queue[0], i)
       case Write => CopiedUpTo(c.store, c.queue[0], |c.queue[0].objects|)
       case Delete(i) => c.queue[0].id in c.store.rows && c.store.rows[c.queue[0].id] == c.queue[0].target
  }

  lemma TargetWasCopied(site: Site, s0: Store, s: Store, p: Plan, i: int, m: Move)
    requires Planned(site, s0, p) && Moving(site, s0, p.id, i, m) && CopiedUpTo(s, p, |p.objects|)
    ensures m.newKey in s.bucket
  {
    var row := s0.rows[p.id];
    var plans := Plans(site, row.folder, row.urls);
    MovesAreSlots(plans);
    assert plans[i] == Relocate(m);
    var k :| 0 <= k < |p.objects| && p.objects[k] == m;
    assert p.objects[k].newKey in s.bucket;
  }

  // ---------------------------------------------------------------- preservation

  /** A copy to a free key: of an original, or to a key that had something in the first store. */
  ghost predicate CopyFits(site: Site, s0: Store, live: set<RowId>, now: map<string, Content>, m: Move) {
    && m.oldKey in now && m.newKey !in now
    && if m.oldKey in s0.bucket then now[m.oldKey] == s0.bucket[m.oldKey] && !Unaimed(site, s0, m.newKey)
       else m.newKey in s0.bucket && live != s0.rows.Keys
  }

  /** What the copy `c` may do to the move `m`: bring the right content, and not the source it lacks. */
  predicate CopySuits(s0: Store, live: set<RowId>, c: Move, m: Move, isLive: bool) {
    c.oldKey in s0.bucket ==>
      && (isLive && c.newKey == m.newKey && m.newKey !in s0.bucket ==> StrayAgrees(s0, m, c))
      && (c.newKey == m.oldKey && m.oldKey !in s0.bucket ==> m.newKey in s0.bucket && live != s0.rows.Keys)
  }

  lemma CopyKeepsMove(site: Site, s0: Store, live: set<RowId>, now: map<string, Content>, c: Move,
                      m: Move, isLive: bool, updated: bool)
    requires CopyFits(site, s0, live, now, c) && CopySuits(s0, live, c, m, isLive)
    requires MoveSafe(site, s0, live, now, m, isLive, updated)
    ensures MoveSafe(site, s0, live, now[c.newKey := now[c.oldKey]], m, isLive, updated)
  {
  }

  /** What an unavailable move lacks is never supplied; where all rows are live no source is. */
  lemma LackingSource(site: Site, s0: Store, live: set<RowId>, src: RowId, j: int, c: Move, id: RowId, i: int, m: Move)
    requires Origin(site, s0, live) && Moving(site, s0, src, j, c) && Moving(site, s0, id, i, m)
    requires c.oldKey in s0.bucket && m.oldKey !in s0.bucket && c.newKey == m.oldKey
    ensures m.newKey in s0.bucket && live != s0.rows.Keys
  {
    if src == id {
      RowTargetsStay(site, s0, id, j, c, i, m);
    }
    assert !Unaimed(site, s0, m.oldKey);
  }

  /** The copies a run comes to suit every move. */
  lemma AttemptedSuits(site: Site, s0: Store, live: set<RowId>, src: RowId, j: int, k: int, id: RowId, i: int, m: Move)
    requires Origin(site, s0, live) && Moving(site, s0, id, i, m)
    requires src in s0.rows && 0 <= k < |PlanOf(site, src, s0.rows[src]).objects|
    requires Moving(site, s0, src, j, PlanOf(site, src, s0.rows[src]).objects[k])
    requires src !in live ==> Attempted(site, s0, src, k)
    ensures CopySuits(s0, live, PlanOf(site, src, s0.rows[src]).objects[k], m, id in live)
  {
    var c := PlanOf(site, src, s0.rows[src]).objects[k];
    if c.oldKey in s0.bucket && c.newKey == m.oldKey && m.oldKey !in s0.bucket {
      LackingSource(site, s0, live, src, j, c, id, i, m);
    }
    if id in live && m.oldKey in s0.bucket && m.newKey !in s0.bucket && src !in live {
      assert StrayAgrees(s0, m, PlanOf(site, src, s0.rows[src]).objects[k]);
    }
  }

  /** A key that exists is the target of an available move, or of one that others supply. */
  lemma CopiedIsAvailable(site: Site, s0: Store, live: set<RowId>, s: Store, p: Plan, m: Move)
    requires Unaided(site, s0) && Safe(site, s0, live, s) && Planned(site, s0, p) && m in p.objects
    requires m.newKey in s.bucket
    ensures Available(s0, m)
  {
    var i := SlotOfMove(site, s0, p, m);
    assert SlotSafe(site, s0, live, s, p.id, i);
  }

  lemma CopyIsAttempted(site: Site, s0: Store, live: set<RowId>, s: Store, p: Plan, k: nat)
    requires Unaided(site, s0) && Safe(site, s0, live, s) && Planned(site, s0, p)
    requires CopiedUpTo(s, p, k) && Uncopied(s, p, k)
    ensures Attempted(site, s0, p.id, k)
  {
    forall j | 0 <= j < k
      ensures Available(s0, p.objects[j]) && p.objects[j].newKey != p.objects[k].newKey
    {
      assert p.objects[j] in p.objects;
      CopiedIsAvailable(site, s0, live, s, p, p.objects[j]);
    }
  }

  /** The source of a copy is an original as first found, unless nobody cares for the target. */
  lemma PlannedCopyFits(site: Site, s0: Store, live: set<RowId>, s: Store, src: RowId, j: int, c: Move)
    requires Safe(site, s0, live, s) && Moving(site, s0, src, j, c) && c.oldKey in s.bucket && c.newKey !in s.bucket
    ensures CopyFits(site, s0, live, s.bucket, c)
  {
    assert SlotSafe(site, s0, live, s, src, j);
  }

  /** Copying to a free key disturbs no slot. */
  lemma CopyKeepsSafe(site: Site, s0: Store, live: set<RowId>, s: Store, p: Plan, k: nat)
    requires Origin(site, s0, live) && Safe(site, s0, live, s) && Planned(site, s0, p)
    requires CopiedUpTo(s, p, k) && Uncopied(s, p, k) && p.objects[k].oldKey in s.bucket
    ensures Safe(site, s0, live, Copied(s, p.objects[k]))
  {
    var c := p.objects[k];
    assert c in p.objects;
    var j := SlotOfMove(site, s0, p, c);
    PlannedCopyFits(site, s0, live, s, p.id, j, c);
    if p.id !in live {
      CopyIsAttempted(site, s0, live, s, p, k);
    }
    forall id, i | Slot(s0, id, i)
      ensures SlotSafe(site, s0, live, Copied(s, c), id, i)
    {
      assert SlotSafe(site, s0, live, s, id, i);
      var plan := SlotPlan(site, s0, id, i);
      if plan.Relocate? {
        AttemptedSuits(site, s0, live, p.id, j, k, id, i, plan.move);
        CopyKeepsMove(site, s0, live, s.bucket, c, plan.move, id in live, s.rows[id] == Target(site, s0.rows[id]));
      }
    }
  }

  lemma DeleteKeepsMove(site: Site, s0: Store, live: set<RowId>, now: map<string, Content>, key: string,
                        m: Move, isLive: bool, updated: bool)
    requires MoveSafe(site, s0, live, now, m, isLive, updated)
    requires m.oldKey in s0.bucket && !updated ==> key != m.oldKey
    requires m.oldKey in s0.bucket && (updated || isLive) ==> key != m.newKey
    ensures MoveSafe(site, s0, live, now - {key}, m, isLive, updated)
  {
  }

  /** The original of an updated row is no other row's, nor the target of a live row. */
  lemma DeleteSuits(site: Site, s0: Store, live: set<RowId>, src: RowId, j: int, d: Move, id: RowId, i: int, m: Move)
    requires Origin(site, s0, live) && Moving(site, s0, src, j, d) && src in live && Moving(site, s0, id, i, m)
    ensures m.oldKey in s0.bucket && id != src ==> d.oldKey != m.oldKey
    ensures m.oldKey in s0.bucket && id in live ==> d.oldKey != m.newKey
  {
    MovingReads(site, s0, id, i, m);
    if id == src {
      RowTargetsStay(site, s0, id, i, m, j, d);
    }
  }

  /** The original of an updated row is not what a slot in its place leads to. */
  lemma DeleteSuitsInPlace(site: Site, s0: Store, live: set<RowId>, src: RowId, j: int, d: Move, id: RowId, i: int)
    requires Origin(site, s0, live) && Moving(site, s0, src, j, d) && src in live && d.oldKey in s0.bucket
    requires Slot(s0, id, i) && SlotPlan(site, s0, id, i) == InPlace
    ensures !Reads(site, s0, id, i, d.oldKey)
  {
    if Reads(site, s0, id, i, d.oldKey) && id == src {
      RowReadersMove(site, s0, id, j, d, i);
    }
  }

  /** Deleting an original of an updated row disturbs no slot. */
  lemma DeleteKeepsSlot(site: Site, s0: Store, live: set<RowId>, s: Store, id: RowId, i: int, src: RowId, j: int,
                        d: Move)
    requires Origin(site, s0, live) && Moving(site, s0, src, j, d) && src in live
    requires Slot(s0, id, i) && id in s.rows && src in s.rows && s.rows[src] == Target(site, s0.rows[src])
    requires s.rows[id] == s0.rows[id] || id in live
    requires SlotSafe(site, s0, live, s, id, i)
    ensures SlotSafe(site, s0, live, Deleted(s, d.oldKey), id, i)
  {
    var plan := SlotPlan(site, s0, id, i);
    if plan.Relocate? {
      var updated := s.rows[id] == Target(site, s0.rows[id]);
      DeleteSuits(site, s0, live, src, j, d, id, i, plan.move);
      MovingRowChanges(site, s0, id, i, plan.move);
      DeleteKeepsMove(site, s0, live, s.bucket, d.oldKey, plan.move, id in live, updated);
    } else if plan.InPlace? && d.oldKey in s0.bucket {
      DeleteSuitsInPlace(site, s0, live, src, j, d, id, i);
    }
  }

  lemma DeleteKeepsSafe(site: Site, s0: Store, live: set<RowId>, s: Store, p: Plan, d: Move)
    requires Origin(site, s0, live) && Safe(site, s0, live, s) && Planned(site, s0, p) && d in p.objects
    requires s.rows[p.id] == p.target
    ensures Safe(site, s0, live, Deleted(s, d.oldKey))
  {
    var j := SlotOfMove(site, s0, p, d);
    MovingRowChanges(site, s0, p.id, j, d);
    forall id, i | Slot(s0, id, i)
      ensures SlotSafe(site, s0, live, Deleted(s, d.oldKey), id, i)
    {
      assert SlotSafe(site, s0, live, s, id, i);
      DeleteKeepsSlot(site, s0, live, s, id, i, p.id, j, d);
    }
  }

  /** Only live rows get all their targets. */
  lemma CopiedIsLive(site: Site, s0: Store, live: set<RowId>, s: Store, p: Plan)
    requires Origin(site, s0, live) && Safe(site, s0, live, s)
    requires Planned(site, s0, p) && CopiedUpTo(s, p, |p.objects|)
    ensures p.id in live
  {
    if p.id !in live {
      forall i, m | Moving(site, s0, p.id, i, m)
        ensures Available(s0, m)
      {
        TargetWasCopied(site, s0, s, p, i, m);
        assert SlotSafe(site, s0, live, s, p.id, i);
      }
      assert Completable(site, s0, p.id);
    }
  }

  lemma WriteKeepsSafe(site: Site, s0: Store, live: set<RowId>, s: Store, p: Plan)
    requires Origin(site, s0, live) && Safe(site, s0, live, s)
    requires Planned(site, s0, p) && CopiedUpTo(s, p, |p.objects|)
    ensures Safe(site, s0, live, Written(s, p))
  {
    CopiedIsLive(site, s0, live, s, p);
    forall id, i | Slot(s0, id, i)
      ensures SlotSafe(site, s0, live, Written(s, p), id, i)
    {
      assert SlotSafe(site, s0, live, s, id, i);
      var plan := SlotPlan(site, s0, id, i);
      if id == p.id && plan.Relocate? {
        TargetWasCopied(site, s0, s, p, i, plan.move);
      }
    }
  }

  /** A row that was already updated is never collected again, so every collected plan is the first one. */
  lemma CollectedIsPlanned(site: Site, s0: Store, live: set<RowId>, s: Store, queue: seq<Plan>)
    requires Origin(site, s0, live) && Safe(site, s0, live, s) && Collected(site, s, queue)
    ensures forall p :: p in queue ==> Planned(site, s0, p) && s.rows[p.id] != Target(site, s0.rows[p.id])
  {
    forall p | p in queue
      ensures Planned(site, s0, p) && s.rows[p.id] != Target(site, s0.rows[p.id])
    {
      TargetIsSettled(site, s0.rows[p.id]);
    }
  }

  /** Leaving the current plan, with or without a last write, only needs the store to be safe. */
  lemma DropKeepsInv(site: Site, s0: Store, live: set<RowId>, c: Config, s: Store)
    requires Inv(site, s0, live, c) && c.queue != [] && Safe(site, s0, live, s)
    ensures Inv(site, s0, live, Drop(c.(store := s)))
  {
    forall p | p in c.queue[1..]
      ensures Planned(site, s0, p)
    {
      assert p in c.queue;
    }
  }

  lemma CopyStepKeepsInv(site: Site, s0: Store, live: set<RowId>, deleteSource: bool, c: Config, d: Config)
    requires Origin(site, s0, live) && Inv(site, s0, live, c) && c.phase.Copy?
    requires StepOn(deleteSource, c, c.queue[0], d)
    ensures Inv(site, s0, live, d)
  {
    var p, i := c.queue[0], c.phase.i;
    var s := Copied(c.store, p.objects[i]);
    assert p in c.queue && p.objects[i] in p.objects;
    CopyKeepsSafe(site, s0, live, c.store, p, i);
    DropKeepsInv(site, s0, live, c, c.store);
    DropKeepsInv(site, s0, live, c, s);
    assert CopiedUpTo(s, p, i + 1);
  }

  lemma WriteStepKeepsInv(site: Site, s0: Store, live: set<RowId>, deleteSource: bool, c: Config, d: Config)
    requires Origin(site, s0, live) && Inv(site, s0, live, c) && c.phase.Write?
    requires StepOn(deleteSource, c, c.queue[0], d)
    ensures Inv(site, s0, live, d)
  {
    var p := c.queue[0];
    var s := Written(c.store, p);
    assert p in c.queue;
    WriteKeepsSafe(site, s0, live, c.store, p);
    DropKeepsInv(site, s0, live, c, c.store);
    DropKeepsInv(site, s0, live, c, s);
    assert p.id in s.rows && s.rows[p.id] == p.target;
  }

  lemma DeleteStepKeepsInv(site: Site, s0: Store, live: set<RowId>, deleteSource: bool, c: Config, d: Config)
    requires Origin(site, s0, live) && Inv(site, s0, live, c) && c.phase.Delete?
    requires StepOn(deleteSource, c, c.queue[0], d)
    ensures Inv(site, s0, live, d)
  {
    var p, i := c.queue[0], c.phase.i;
    assert p in c.queue;
    DropKeepsInv(site, s0, live, c, c.store);
    if i < |p.objects| {
      assert p.objects[i] in p.objects;
      DeleteKeepsSafe(site, s0, live, c.store, p, p.objects[i]);
    }
  }

  lemma StepKeepsInv(site: Site, s0: Store, live: set<RowId>, deleteSource: bool, c: Config, d: Config)
    requires Origin(site, s0, live) && Inv(site, s0, live, c) && Next(site, deleteSource, c, d)
    ensures Inv(site, s0, live, d)
  {
    if d == Config(c.store, [], Idle) {
      assert Safe(site, s0, live, d.store);
    } else if c.queue == [] {
      CollectedIsPlanned(site, s0, live, c.store, d.queue);
    } else {
      match c.phase
      case Copy(_) => CopyStepKeepsInv(site, s0, live, deleteSource, c, d);
      case Write => WriteStepKeepsInv(site, s0, live, deleteSource, c, d);
      case Delete(_) => DeleteStepKeepsInv(site, s0, live, deleteSource, c, d);
      case _ => DropKeepsInv(site, s0, live, c, c.store);
    }
  }

  // ---------------------------------------------------------------- whole histories

  lemma OriginIsSafe(site: Site, s0: Store, live: set<RowId>)
    requires Origin(site, s0, live)
    ensures Safe(site, s0, live, s0)
  {
    forall id, i | Slot(s0, id, i)
      ensures SlotSafe(site, s0, live, s0, id, i)
    {
      var plan := SlotPlan(site, s0, id, i);
      if plan.Relocate? {
        assert Moving(site, s0, id, i, plan.move);
        MovingRowChanges(site, s0, id, i, plan.move);
      }
    }
  }

  /** What a safe store means to a reader of the rows. */
  lemma SafeResolves(site: Site, s0: Store, live: set<RowId>, s: Store, id: RowId, i: int)
    requires Origin(site, s0, live) && Safe(site, s0, live, s) && Slot(s0, id, i)
    ensures Slot(s, id, i)
    ensures Resolve(site, s0, s0.rows[id].urls[i]).Some? ==>
              Resolve(site, s, s.rows[id].urls[i]) == Resolve(site, s0, s0.rows[id].urls[i])
  {
    assert SlotSafe(site, s0, live, s, id, i);
    assert Relocatable(site, s0.rows[id]);
    PlanMoveIsProjection(site, s0.rows[id].urls[i], s0.rows[id].folder);
  }

  lemma {:induction false} TraceInv(site: Site, s0: Store, live: set<RowId>, cs: seq<Config>, k: nat)
    requires Origin(site, s0, live) && Trace(site, cs) && cs[0] == Config(s0, [], Idle) && k < |cs|
    ensures Inv(site, s0, live, cs[k])
    decreases k
  {
    if k == 0 {
      OriginIsSafe(site, s0, live);
    } else {
      TraceInv(site, s0, live, cs, k - 1);
      var del := TraceStep(site, cs, k - 1);
      StepKeepsInv(site, s0, live, del, cs[k - 1], cs[k]);
    }
  }

  /**
    After every step of every history, crashes, failures, retries and deletions included,
    each row is either as it was or has all its planned columns, and every URL that led to
    some content before the first run leads to the same content now.
    */
  lemma EveryReferenceKeepsItsContent(site: Site, s0: Store, live: set<RowId>, cs: seq<Config>, k: nat, id: RowId,
                                      i: int)
    requires Origin(site, s0, live) && Trace(site, cs) && cs[0] == Config(s0, [], Idle) && k < |cs| && Slot(s0, id, i)
    ensures id in cs[k].store.rows
    ensures cs[k].store.rows[id] == s0.rows[id] || cs[k].store.rows[id] == Target(site, s0.rows[id])
    ensures i < |cs[k].store.rows[id].urls|
    ensures Resolve(site, s0, s0.rows[id].urls[i]).Some? ==>
              Resolve(site, cs[k].store, cs[k].store.rows[id].urls[i]) == Resolve(site, s0, s0.rows[id].urls[i])
  {
    TraceInv(site, s0, live, cs, k);
    SafeResolves(site, s0, live, cs[k].store, id, i);
  }

  /**
    Once every row has its target, no later run does anything at all. In particular a second
    pass with deletion switched on finds no plan and removes none of the originals.
    */
  lemma {:induction false} SettledStoreStays(site: Site, s0: Store, live: set<RowId>, cs: seq<Config>, k: nat)
    requires Origin(site, s0, live) && cs != [] && Safe(site, s0, live, cs[0].store)
    requires forall id :: id in s0.rows ==> cs[0].store.rows[id] == Target(site, s0.rows[id])
    requires Trace(site, cs) && cs[0].queue == [] && cs[0].phase == Idle && k < |cs|
    ensures cs[k] == cs[0]
    decreases k
  {
    if k > 0 {
      SettledStoreStays(site, s0, live, cs, k - 1);
      var c, d := cs[k - 1], cs[k - 1 + 1];
      assert Next(site, true, c, d) || Next(site, false, c, d);
      if cs[k].queue != [] {
        var p := cs[k].queue[0];
        assert p in cs[k].queue;
        CollectedIsPlanned(site, s0, live, cs[0].store, cs[k].queue);
        assert false;
      }
    }
  }

  // ---------------------------------------------------------------- what a later pass leaves alone

  /** Row `id` is migrated, none of its plans is queued, and the object `key` exists. */
  ghost predicate Spared(site: Site, s0: Store, c: Config, id: RowId, key: string) {
    id in s0.rows && id in c.store.rows && c.store.rows[id] == Target(site, s0.rows[id]) && key in c.store.bucket
    && forall p :: p in c.queue ==> p.id != id
  }

  /** An original of a live row is not among those the plan of another row deletes. */
  lemma DeletesOnlyItsOwn(site: Site, s0: Store, live: set<RowId>, p: Plan, gone: Move, id: RowId, i: int, m: Move)
    requires OriginalsOwned(site, s0, live) && Planned(site, s0, p) && gone in p.objects
    requires Moving(site, s0, id, i, m) && id in live && m.oldKey in s0.bucket && id != p.id
    ensures gone.oldKey != m.oldKey
  {
    var j := SlotOfMove(site, s0, p, gone);
    MovingReads(site, s0, p.id, j, gone);
  }

  /** A step on another row's plan that deletes something else. */
  lemma PlanSpares(site: Site, s0: Store, deleteSource: bool, c: Config, p: Plan, d: Config, id: RowId, key: string)
    requires c.queue != [] && c.queue[0] == p && p.id != id && StepOn(deleteSource, c, p, d)
    requires forall m :: m in p.objects ==> m.oldKey != key
    requires Spared(site, s0, c, id, key)
    ensures Spared(site, s0, d, id, key)
  {
    assert forall q :: q in c.queue[1..] ==> q in c.queue;
    if c.phase.Delete? && c.phase.i < |p.objects| {
      assert p.objects[c.phase.i] in p.objects;
    }
  }

  lemma StepSpares(site: Site, s0: Store, live: set<RowId>, deleteSource: bool, c: Config, d: Config,
                   id: RowId, i: int, m: Move)
    requires Origin(site, s0, live) && Inv(site, s0, live, c) && Next(site, deleteSource, c, d)
    requires Moving(site, s0, id, i, m) && id in live && m.oldKey in s0.bucket && Spared(site, s0, c, id, m.oldKey)
    ensures Spared(site, s0, d, id, m.oldKey)
  {
    if d == Config(c.store, [], Idle) {
    } else if c.queue == [] {
      CollectedIsPlanned(site, s0, live, c.store, d.queue);
    } else {
      var p := c.queue[0];
      assert p in c.queue;
      forall gone | gone in p.objects
        ensures gone.oldKey != m.oldKey
      {
        DeletesOnlyItsOwn(site, s0, live, p, gone, id, i, m);
      }
      PlanSpares(site, s0, deleteSource, c, p, d, id, m.oldKey);
    }
  }

  ghost predicate SafelySpared(site: Site, s0: Store, live: set<RowId>, c: Config, id: RowId, key: string) {
    Inv(site, s0, live, c) && Spared(site, s0, c, id, key)
  }

  lemma StepSparesSafely(site: Site, s0: Store, live: set<RowId>, cs: seq<Config>, k: nat,
                         id: RowId, i: int, m: Move)
    requires Origin(site, s0, live) && Trace(site, cs) && k + 1 < |cs|
    requires Moving(site, s0, id, i, m) && id in live && m.oldKey in s0.bucket
    requires SafelySpared(site, s0, live, cs[k], id, m.oldKey)
    ensures SafelySpared(site, s0, live, cs[k + 1], id, m.oldKey)
  {
    var del := TraceStep(site, cs, k);
    StepKeepsInv(site, s0, live, del, cs[k], cs[k + 1]);
    StepSpares(site, s0, live, del, cs[k], cs[k + 1], id, i, m);
  }

  lemma {:induction false} OwnOriginalSurvives(site: Site, s0: Store, live: set<RowId>, cs: seq<Config>, k: nat,
                                               id: RowId, i: int, m: Move)
    requires Origin(site, s0, live) && Trace(site, cs) && k < |cs|
    requires Moving(site, s0, id, i, m) && id in live && m.oldKey in s0.bucket
    requires SafelySpared(site, s0, live, cs[0], id, m.oldKey)
    ensures SafelySpared(site, s0, live, cs[k], id, m.oldKey)
    decreases k
  {
    if k > 0 {
      OwnOriginalSurvives(site, s0, live, cs, k - 1, id, i, m);
      StepSparesSafely(site, s0, live, cs, k - 1, id, i, m);
    }
  }

  /**
    The originals of a migrated row that were not deleted then are never deleted: whatever
    the other rows do and however later runs are started, with deletion or without.
    */
  lemma MigratedOriginalsSurvive(site: Site, s0: Store, live: set<RowId>, cs: seq<Config>, k: nat,
                                 id: RowId, i: int, m: Move)
    requires Origin(site, s0, live) && Trace(site, cs) && k < |cs|
    requires Safe(site, s0, live, cs[0].store) && cs[0].queue == [] && cs[0].phase == Idle
    requires Moving(site, s0, id, i, m) && (live == s0.rows.Keys || m.oldKey in s0.bucket)
    requires cs[0].store.rows[id] == Target(site, s0.rows[id]) && m.oldKey in cs[0].store.bucket
    ensures Inv(site, s0, live, cs[k]) && Spared(site, s0, cs[k], id, m.oldKey)
  {
    MovingRowChanges(site, s0, id, i, m);
    assert SlotSafe(site, s0, live, cs[0].store, id, i);
    OwnOriginalSurvives(site, s0, live, cs, k, id, i, m);
  }

  /** Row `id` is as it was found, and the target key of one of its moves is free. */
  ghost predicate Blocked(s0: Store, c: Config, id: RowId, key: string) {
    id in s0.rows && id in c.store.rows && c.store.rows[id] == s0.rows[id] && key !in c.store.bucket
  }

  /** A key that no existing original is moved to stays free. */
  lemma UnaimedStaysFree(site: Site, s0: Store, live: set<RowId>, s: Store, id: RowId, i: int, m: Move)
    requires Safe(site, s0, live, s) && Moving(site, s0, id, i, m)
    requires m.newKey !in s0.bucket && Unaimed(site, s0, m.newKey)
    ensures m.newKey !in s.bucket
  {
    assert SlotSafe(site, s0, live, s, id, i);
  }

  /** Only the write of the row's own plan changes the row. */
  lemma RowStays(deleteSource: bool, c: Config, p: Plan, d: Config, id: RowId)
    requires c.queue != [] && c.queue[0] == p && StepOn(deleteSource, c, p, d) && id in c.store.rows
    requires !(c.phase.Write? && p.id == id)
    ensures id in d.store.rows && d.store.rows[id] == c.store.rows[id]
  {
  }

  lemma StepStaysBlocked(site: Site, s0: Store, live: set<RowId>, deleteSource: bool, c: Config, d: Config,
                         id: RowId, i: int, m: Move)
    requires Inv(site, s0, live, c) && Next(site, deleteSource, c, d) && Safe(site, s0, live, d.store)
    requires Moving(site, s0, id, i, m) && m.newKey !in s0.bucket && Unaimed(site, s0, m.newKey)
    requires Blocked(s0, c, id, m.newKey)
    ensures Blocked(s0, d, id, m.newKey)
  {
    UnaimedStaysFree(site, s0, live, d.store, id, i, m);
    if d != Config(c.store, [], Idle) && c.queue != [] {
      var p := c.queue[0];
      assert p in c.queue;
      if c.phase.Write? && p.id == id {
        TargetWasCopied(site, s0, c.store, p, i, m);
        assert false;
      }
      RowStays(deleteSource, c, p, d, id);
    }
  }

  /**
    A row with one slot whose source does not exist, and whose target no other move creates,
    is never updated in any history: its other files never move either.
    */
  lemma {:induction false} MissingSourceBlocksRow(site: Site, s0: Store, live: set<RowId>, cs: seq<Config>, k: nat,
                                                  id: RowId, i: int, m: Move)
    requires Origin(site, s0, live) && Trace(site, cs) && cs[0] == Config(s0, [], Idle) && k < |cs|
    requires Moving(site, s0, id, i, m) && m.newKey !in s0.bucket && Unaimed(site, s0, m.newKey)
    ensures Inv(site, s0, live, cs[k]) && Blocked(s0, cs[k], id, m.newKey)
    decreases k
  {
    if k == 0 {
      OriginIsSafe(site, s0, live);
    } else {
      MissingSourceBlocksRow(site, s0, live, cs, k - 1, id, i, m);
      var c, d := cs[k - 1], cs[k];
      var del := TraceStep(site, cs, k - 1);
      StepKeepsInv(site, s0, live, del, c, d);
      StepStaysBlocked(site, s0, live, del, c, d, id, i, m);
    }
  }
}

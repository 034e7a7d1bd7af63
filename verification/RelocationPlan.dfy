/** Planning the relocation of a row: which objects move and what the row becomes. */
module RelocationPlan {
  import opened Wrappers
  import opened ObjectKeys

  type RowId = int

  /**
    A row of one migration group: the folder its files belong in, its URL slots (one for
    most groups, two for complex documents, a list for notes; "" where no URL is stored),
    and the stored object key where the entity keeps one.
    */
  datatype Row = Row(folder: string, urls: seq<string>, tracksPublicId: bool, publicId: string)

  datatype Plan = Plan(id: RowId, objects: seq<Move>, target: Row)

  /** What each slot asks for. */
  function Plans(site: Site, folder: string, urls: seq<string>): (r: seq<MovePlan>)
    ensures |r| == |urls|
  {
    seq(|urls|, i requires 0 <= i < |urls| => PlanMove(site, urls[i], folder))
  }

  /** The moves among some slot plans, in slot order. */
  function MovesOf(plans: seq<MovePlan>): seq<Move> {
    if plans == [] then []
    else
      var init, last := MovesOf(plans[..|plans| - 1]), plans[|plans| - 1];
      if last.Relocate? then init + [last.move] else init
  }

  function Moves(site: Site, folder: string, urls: seq<string>): seq<Move> {
    MovesOf(Plans(site, folder, urls))
  }

  function TargetUrls(site: Site, folder: string, urls: seq<string>): (r: seq<string>)
    ensures |r| == |urls|
  {
    seq(|urls|, i requires 0 <= i < |urls| => TargetUrl(site, urls[i], folder))
  }

  /** The row after its update; where a key is stored next to the URL it follows the last move. */
  function Target(site: Site, row: Row): Row {
    var moves := Moves(site, row.folder, row.urls);
    row.(urls := TargetUrls(site, row.folder, row.urls),
         publicId := if row.tracksPublicId && moves != [] then moves[|moves| - 1].newKey else row.publicId)
  }

  /** No URL of the list makes the key decoding throw, which would end the whole collection. */
  ghost predicate Parses(site: Site, folder: string, urls: seq<string>) {
    NoneThrew(Plans(site, folder, urls))
  }

  ghost predicate NoneThrew(plans: seq<MovePlan>) {
    forall p :: p in plans ==> p != Threw
  }

  function PlanOf(site: Site, id: RowId, row: Row): Plan {
    Plan(id, Moves(site, row.folder, row.urls), Target(site, row))
  }

  /** Every relocating slot has its move in the list, and every move its slot. */
  lemma {:induction false} MovesAreSlots(plans: seq<MovePlan>)
    ensures forall i :: 0 <= i < |plans| && plans[i].Relocate? ==> plans[i].move in MovesOf(plans)
    ensures forall m :: m in MovesOf(plans) ==> Relocate(m) in plans
    ensures MovesOf(plans) == [] <==> forall i :: 0 <= i < |plans| ==> !plans[i].Relocate?
  {
    if plans != [] {
      var init, last := plans[..|plans| - 1], plans[|plans| - 1];
      MovesAreSlots(init);
      assert plans == init + [last];
    }
  }

  /** How one more slot extends plans, moves and target URLs. */
  lemma SlotStep(site: Site, folder: string, urls: seq<string>, i: nat)
    requires i < |urls|
    ensures Plans(site, folder, urls[..i + 1]) == Plans(site, folder, urls[..i]) + [PlanMove(site, urls[i], folder)]
    ensures TargetUrls(site, folder, urls[..i + 1]) ==
            TargetUrls(site, folder, urls[..i]) + [TargetUrl(site, urls[i], folder)]
    ensures PlanMove(site, urls[i], folder) in Plans(site, folder, urls)
    ensures urls[..|urls|] == urls
  {
    assert urls[..i + 1] == urls[..i] + [urls[i]];
    assert Plans(site, folder, urls)[i] == PlanMove(site, urls[i], folder);
  }

  lemma MovesStep(plans: seq<MovePlan>, last: MovePlan)
    ensures MovesOf(plans + [last]) == MovesOf(plans) + if last.Relocate? then [last.move] else []
    ensures NoneThrew(plans + [last]) <==> NoneThrew(plans) && last != Threw
  {
    assert (plans + [last])[..|plans|] == plans;
    assert last in plans + [last];
    assert forall p :: p in plans ==> p in plans + [last];
  }

  /** The update of a row: each relocating slot gets the address of its new key, all else is kept. */
  ghost predicate Relocated(site: Site, row: Row, objects: seq<Move>, target: Row) {
    && |target.urls| == |row.urls| && target.folder == row.folder && target.tracksPublicId == row.tracksPublicId
    && (forall i :: 0 <= i < |row.urls| ==>
          match PlanMove(site, row.urls[i], row.folder)
          case Relocate(m) => m in objects && target.urls[i] == site.publicUrl + "/" + m.newKey
          case _ => target.urls[i] == row.urls[i])
    && (forall m :: m in objects ==>
          exists i :: 0 <= i < |row.urls| && PlanMove(site, row.urls[i], row.folder) == Relocate(m))
    && target.publicId ==
       if row.tracksPublicId && objects != [] then objects[|objects| - 1].newKey else row.publicId
  }

  lemma TargetRelocates(site: Site, row: Row)
    ensures Relocated(site, row, Moves(site, row.folder, row.urls), Target(site, row))
  {
    var plans := Plans(site, row.folder, row.urls);
    MovesAreSlots(plans);
    forall i | 0 <= i < |row.urls|
      ensures plans[i] == PlanMove(site, row.urls[i], row.folder)
    {
    }
    forall m | m in Moves(site, row.folder, row.urls)
      ensures exists i :: 0 <= i < |row.urls| && PlanMove(site, row.urls[i], row.folder) == Relocate(m)
    {
      var i :| 0 <= i < |plans| && plans[i] == Relocate(m);
      assert PlanMove(site, row.urls[i], row.folder) == Relocate(m);
    }
  }

  // ---------------------------------------------------------------- collecting

  /** Some address of the row cannot be decoded. */
  ghost predicate Undecodable(site: Site, row: Row) {
    exists i :: 0 <= i < |row.urls| && PlanMove(site, row.urls[i], row.folder) == Threw
  }

  /** No slot of the row asks for a move. */
  ghost predicate InOrder(site: Site, row: Row) {
    forall i :: 0 <= i < |row.urls| ==> !PlanMove(site, row.urls[i], row.folder).Relocate?
  }

  lemma ParsesIff(site: Site, row: Row)
    ensures Parses(site, row.folder, row.urls) <==> !Undecodable(site, row)
  {
    var plans := Plans(site, row.folder, row.urls);
    if Undecodable(site, row) {
      var i :| 0 <= i < |row.urls| && PlanMove(site, row.urls[i], row.folder) == Threw;
      assert plans[i] == Threw && plans[i] in plans;
    }
    if !NoneThrew(plans) {
      var i :| 0 <= i < |plans| && plans[i] == Threw;
      assert PlanMove(site, row.urls[i], row.folder) == Threw;
    }
  }

  lemma MovesIff(site: Site, row: Row)
    ensures Moves(site, row.folder, row.urls) == [] <==> InOrder(site, row)
  {
    var plans := Plans(site, row.folder, row.urls);
    MovesAreSlots(plans);
    assert forall i :: 0 <= i < |row.urls| ==> plans[i] == PlanMove(site, row.urls[i], row.folder);
  }

  /**
    The slot loop of the groups with several URLs per row. A relocated slot gets its new
    URL, every other slot keeps its own, and the row is planned only if something moved.
    */
  method PlanSlots(site: Site, id: RowId, row: Row) returns (threw: bool, plan: Option<Plan>)
    requires !row.tracksPublicId
    ensures threw <==> !Parses(site, row.folder, row.urls)
    ensures !threw ==> plan == if Moves(site, row.folder, row.urls) == [] then None else Some(PlanOf(site, id, row))
    ensures threw <==> Undecodable(site, row)
    ensures !threw ==> (plan.None? <==> InOrder(site, row))
    ensures !threw && plan.Some? ==>
              plan.value.id == id && Relocated(site, row, plan.value.objects, plan.value.target)
  {
    ParsesIff(site, row);
    MovesIff(site, row);
    TargetRelocates(site, row);
    var objects: seq<Move> := [];
    var newUrls: seq<string> := [];
    for i := 0 to |row.urls|
      invariant objects == Moves(site, row.folder, row.urls[..i])
      invariant newUrls == TargetUrls(site, row.folder, row.urls[..i])
      invariant Parses(site, row.folder, row.urls[..i])
    {
      var url := row.urls[i];
      var step := PlanMove(site, url, row.folder);
      SlotStep(site, row.folder, row.urls, i);
      MovesStep(Plans(site, row.folder, row.urls[..i]), step);
      if step.Threw? {
        return true, None;
      }
      if step.Relocate? {
        objects := objects + [step.move];
        newUrls := newUrls + [UrlFromKey(site, step.move.newKey)];
      } else {
        newUrls := newUrls + [url];
      }
    }
    assert row.urls[..|row.urls|] == row.urls;
    assert Target(site, row) == row.(urls := newUrls);
    threw := false;
    plan := if objects == [] then None else Some(Plan(id, objects, row.(urls := newUrls)));
  }

  /** A row with one slot: its plan is the slot's. */
  lemma OneSlot(site: Site, folder: string, url: string)
    ensures Plans(site, folder, [url]) == [PlanMove(site, url, folder)]
    ensures TargetUrls(site, folder, [url]) == [TargetUrl(site, url, folder)]
    ensures Moves(site, folder, [url]) ==
            if PlanMove(site, url, folder).Relocate? then [PlanMove(site, url, folder).move] else []
    ensures Parses(site, folder, [url]) <==> PlanMove(site, url, folder) != Threw
  {
    var plan := PlanMove(site, url, folder);
    MovesStep([], plan);
    assert [] + [plan] == [plan];
  }

  /** The groups with one URL column, which may keep the object key in a second column. */
  method PlanSimple(site: Site, id: RowId, row: Row) returns (threw: bool, plan: Option<Plan>)
    requires |row.urls| == 1
    ensures threw <==> !Parses(site, row.folder, row.urls)
    ensures !threw ==> plan == if Moves(site, row.folder, row.urls) == [] then None else Some(PlanOf(site, id, row))
    ensures threw <==> Undecodable(site, row)
    ensures !threw ==> (plan.None? <==> InOrder(site, row))
    ensures !threw && plan.Some? ==>
              plan.value.id == id && Relocated(site, row, plan.value.objects, plan.value.target)
  {
    ParsesIff(site, row);
    MovesIff(site, row);
    TargetRelocates(site, row);
    var url := row.urls[0];
    var step := PlanMove(site, url, row.folder);
    OneSlot(site, row.folder, url);
    assert row.urls == [url];
    if step.Threw? {
      return true, None;
    }
    if !step.Relocate? {
      return false, None;
    }
    var target := row.(urls := [UrlFromKey(site, step.move.newKey)]);
    if row.tracksPublicId {
      target := target.(publicId := step.move.newKey);
    }
    return false, Some(Plan(id, [step.move], target));
  }

  /** Rows whose relocated keys survive the trip through a URL. */
  ghost predicate Relocatable(site: Site, row: Row) {
    forall i :: 0 <= i < |row.urls| && PlanMove(site, row.urls[i], row.folder).Relocate? ==>
      CleanKey(PlanMove(site, row.urls[i], row.folder).move.newKey)
  }

  /** After its update a row has nothing left to move, and keeps its slots in number and order. */
  lemma TargetIsSettled(site: Site, row: Row)
    requires Configured(site) && Relocatable(site, row)
    ensures Moves(site, row.folder, Target(site, row).urls) == []
    ensures Target(site, Target(site, row)) == Target(site, row)
    ensures |Target(site, row).urls| == |row.urls|
    ensures forall i :: 0 <= i < |row.urls| && !PlanMove(site, row.urls[i], row.folder).Relocate? ==>
              Target(site, row).urls[i] == row.urls[i]
  {
    var urls := Target(site, row).urls;
    forall i | 0 <= i < |urls|
      ensures !PlanMove(site, urls[i], row.folder).Relocate?
    {
      PlanMoveIsProjection(site, row.urls[i], row.folder);
    }
    MovesAreSlots(Plans(site, row.folder, urls));
    assert TargetUrls(site, row.folder, urls) == urls;
  }
}

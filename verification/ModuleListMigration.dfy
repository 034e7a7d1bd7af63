/**
  The data step that gives SERVICIOS to every complex with CLASIFICADOS, and its undo. The
  module list is one comma-separated text per complex, edited as a string.
  */
module ModuleListMigration {
  import opened Wrappers
  import opened Strings

  const SERVICES := "SERVICIOS"
  const CLASSIFIEDS := "CLASIFICADOS"

  function InCommas(s: string): string {
    "," + s + ","
  }

  /** The LIKE test on the comma-wrapped text. */
  predicate Listed(s: string, name: string) {
    Contains(InCommas(s), InCommas(name))
  }

  /** `TRIM(BOTH ',' FROM s)`. */
  function TrimCommas(s: string): string {
    if s != "" && s[0] == ',' then TrimCommas(s[1..])
    else if s != "" && s[|s| - 1] == ',' then TrimCommas(s[..|s| - 1])
    else s
  }

  predicate OnlyCommas(s: string) {
    forall i :: 0 <= i < |s| ==> s[i] == ','
  }

  /** Exactly the commas at both ends are trimmed, however many. */
  lemma {:induction false} TrimCommasKeepsCore(a: string, core: string, b: string)
    requires OnlyCommas(a) && OnlyCommas(b)
    requires core == "" || (core[0] != ',' && core[|core| - 1] != ',')
    ensures TrimCommas(a + core + b) == core
    decreases |a| + |b|
  {
    var s := a + core + b;
    if a != "" {
      assert s[1..] == a[1..] + core + b;
      TrimCommasKeepsCore(a[1..], core, b);
    } else if b != "" {
      if core == "" {
        assert s == b && s[1..] == "" + core + b[1..];
        TrimCommasKeepsCore("", core, b[1..]);
      } else {
        assert s[..|s| - 1] == a + core + b[..|b| - 1];
        TrimCommasKeepsCore(a, core, b[..|b| - 1]);
      }
    } else {
      assert s == core;
    }
  }

  /** A nullable column value after the forward update. */
  function UpCell(v: Option<string>): Option<string> {
    if v.Some? && v.value != "" && Listed(v.value, CLASSIFIEDS) && !Listed(v.value, SERVICES)
    then Some(v.value + [','] + SERVICES) else v
  }

  function Removed(s: string, name: string): string {
    TrimCommas(ReplaceAll(InCommas(s), InCommas(name), ","))
  }

  function DownCell(v: Option<string>): Option<string> {
    if v.Some? && Listed(v.value, SERVICES) then Some(Removed(v.value, SERVICES)) else v
  }

  type ComplexId = int

  class ComplexTable {
    var enabledModules: Cells

    constructor (rows: Cells)
      ensures enabledModules == rows
    {
      enabledModules := rows;
    }

    /**
      Lists with CLASIFICADOS and without SERVICIOS gain exactly that last entry; every other
      cell, NULL and the empty text included, stays.
      */
    method Up()
      modifies this
      ensures enabledModules.Keys == old(enabledModules).Keys
      ensures forall id :: id in enabledModules ==> GainedServices(old(enabledModules)[id], enabledModules[id])
      ensures enabledModules == UpTable(old(enabledModules))
    {
      forall id | id in enabledModules
        ensures GainedServices(enabledModules[id], UpCell(enabledModules[id]))
      {
        UpGains(enabledModules[id]);
      }
      enabledModules := map id | id in enabledModules :: UpCell(enabledModules[id]);
    }

    /**
      Lists with SERVICIOS lose it where it does not follow a removed one directly, and the
      commas at their ends; every other cell stays.
      */
    method Down()
      modifies this
      ensures enabledModules.Keys == old(enabledModules).Keys
      ensures forall id :: id in enabledModules ==> LostServices(old(enabledModules)[id], enabledModules[id])
      ensures enabledModules == DownTable(old(enabledModules))
    {
      forall id | id in enabledModules
        ensures LostServices(enabledModules[id], DownCell(enabledModules[id]))
      {
        DownLoses(enabledModules[id]);
      }
      enabledModules := map id | id in enabledModules :: DownCell(enabledModules[id]);
    }

    /** Going forward and back restores the table exactly when every cell can be restored. */
    method UpThenDown()
      modifies this
      ensures enabledModules == old(enabledModules) <==>
              forall id :: id in old(enabledModules) ==> Restorable(old(enabledModules)[id])
    {
      TableRestoredIff(enabledModules);
      Up();
      Down();
    }
  }

  type Cells = map<ComplexId, Option<string>>

  function UpTable(rows: Cells): Cells {
    map id | id in rows :: UpCell(rows[id])
  }

  function DownTable(rows: Cells): Cells {
    map id | id in rows :: DownCell(rows[id])
  }

  /** What the forward edit makes of a cell, in terms of its list. */
  ghost predicate GainedServices(before: Option<string>, after: Option<string>) {
    if before.Some? && before.value != ""
       && "CLASIFICADOS" in Split(before.value, ',') && "SERVICIOS" !in Split(before.value, ',')
    then after.Some? && Split(after.value, ',') == Split(before.value, ',') + ["SERVICIOS"]
    else after == before
  }

  /** What the undo makes of a cell, in terms of its list. */
  ghost predicate LostServices(before: Option<string>, after: Option<string>) {
    if before.Some? && "SERVICIOS" in Split(before.value, ',')
    then after == Some(TrimCommas(Wrapped(Dropped(Split(before.value, ','), "SERVICIOS"))))
    else after == before
  }

  // ---------------------------------------------------------------- the text as a list

  /** A list with a comma before, between and after its names. */
  function Wrapped(names: seq<string>): string {
    if names == [] then "," else "," + names[0] + Wrapped(names[1..])
  }

  predicate CommaFree(names: seq<string>) {
    forall i :: 0 <= i < |names| ==> ',' !in names[i]
  }

  lemma {:induction false} WrappedIsJoined(names: seq<string>)
    requires names != []
    ensures Wrapped(names) == InCommas(Join(names, ','))
  {
    if |names| > 1 {
      WrappedIsJoined(names[1..]);
    }
  }

  lemma SplitIsCommaFree(s: string)
    ensures CommaFree(Split(s, ',')) && Wrapped(Split(s, ',')) == InCommas(s)
  {
    SplitAtoms(s, ',');
    JoinSplit(s, ',');
    WrappedIsJoined(Split(s, ','));
    forall i | 0 <= i < |Split(s, ',')|
      ensures ',' !in Split(s, ',')[i]
    {
      assert Split(s, ',')[i] in Split(s, ',');
    }
  }

  lemma {:induction false} WrappedConcat(a: seq<string>, name: string, b: seq<string>)
    returns (pre: string, post: string)
    ensures Wrapped(a + [name] + b) == pre + InCommas(name) + post
  {
    var names := a + [name] + b;
    if a == [] {
      pre, post := "", Wrapped(b)[1..];
      assert names[0] == name && names[1..] == b;
      assert Wrapped(b) == "," + post;
    } else {
      var pre';
      pre', post := WrappedConcat(a[1..], name, b);
      assert names[0] == a[0] && names[1..] == a[1..] + [name] + b;
      pre := "," + a[0] + pre';
      assert Wrapped(names) == pre + InCommas(name) + post;
    }
  }

  lemma InListIsListed(s: string, name: string)
    requires name in Split(s, ',')
    ensures Listed(s, name)
  {
    var names := Split(s, ',');
    SplitIsCommaFree(s);
    var j :| 0 <= j < |names| && names[j] == name;
    assert names == names[..j] + [name] + names[j + 1..];
    var pre, post := WrappedConcat(names[..j], name, names[j + 1..]);
    FoundAfter(pre, InCommas(name), post, InCommas(s));
  }

  lemma FoundAfter(pre: string, probe: string, post: string, text: string)
    requires text == pre + probe + post
    ensures Contains(text, probe)
  {
    assert text[|pre|..] == probe + post;
    assert OccursAt(text, probe, |pre|);
  }

  lemma AroundName(a: string, name: string, b: string)
    ensures a + InCommas(name) + b == a + [','] + (name + [','] + b)
  {
  }

  /** The parts of a text around and including a name between commas. */
  lemma SplitAround(a: string, name: string, b: string)
    requires ',' !in name
    ensures Split(a + InCommas(name) + b, ',') == Split(a, ',') + [name] + Split(b, ',')
  {
    AroundName(a, name, b);
    SplitConcat(a, ',', name + [','] + b);
    SplitConcat(name, ',', b);
    SplitAtoms(name, ',');
    assert Split(a, ',') + ([name] + Split(b, ',')) == Split(a, ',') + [name] + Split(b, ',');
  }

  /** The outer commas only add an empty part on each side. */
  lemma SplitInCommas(s: string)
    ensures Split(InCommas(s), ',') == [""] + Split(s, ',') + [""]
  {
    assert InCommas(s) == "" + [','] + (s + [','] + "");
    SplitConcat("", ',', s + [','] + "");
    SplitConcat(s, ',', "");
    assert [""] + (Split(s, ',') + [""]) == [""] + Split(s, ',') + [""];
  }

  lemma ListedIsInList(s: string, name: string)
    requires ',' !in name && Listed(s, name)
    ensures name in Split(s, ',')
  {
    var wrapped, probe, names := InCommas(s), InCommas(name), Split(s, ',');
    var i := WhereContained(wrapped, probe);
    var a, b := wrapped[..i], wrapped[i + |probe|..];
    assert wrapped == a + probe + b;
    SplitAround(a, name, b);
    SplitInCommas(s);
    var parts, k := Split(wrapped, ','), |Split(a, ',')|;
    assert parts[k] == name && 1 <= k < |parts| - 1;
    assert names[k - 1] == name;
  }

  /** The LIKE test holds exactly when the name is one of the listed names. */
  lemma ListedIffInList(s: string, name: string)
    requires ',' !in name
    ensures Listed(s, name) <==> name in Split(s, ',')
  {
    if name in Split(s, ',') {
      InListIsListed(s, name);
    } else if Listed(s, name) {
      ListedIsInList(s, name);
      assert false;
    }
  }

  lemma SplitAppended(s: string, name: string)
    requires ',' !in name
    ensures Split(s + [','] + name, ',') == Split(s, ',') + [name]
  {
    SplitConcat(s, ',', name);
    SplitAtoms(name, ',');
  }

  /** The forward edit appends the name to exactly the lists with CLASIFICADOS and without SERVICIOS. */
  lemma UpAppends(s: string)
    ensures UpCell(Some(s)).Some?
    ensures Split(UpCell(Some(s)).value, ',') ==
            if CLASSIFIEDS in Split(s, ',') && SERVICES !in Split(s, ',')
            then Split(s, ',') + [SERVICES] else Split(s, ',')
  {
    ListedIffInList(s, CLASSIFIEDS);
    ListedIffInList(s, SERVICES);
    SplitAppended(s, SERVICES);
    assert Split("", ',') == [""];
  }

  lemma UpGains(v: Option<string>)
    ensures GainedServices(v, UpCell(v))
  {
    if v.Some? {
      UpAppends(v.value);
      ListedIffInList(v.value, CLASSIFIEDS);
      ListedIffInList(v.value, SERVICES);
    }
  }

  lemma DownLoses(v: Option<string>)
    ensures LostServices(v, DownCell(v))
  {
    if v.Some? {
      ListedIffInList(v.value, SERVICES);
      RemovedIsListEdit(v.value, SERVICES);
    }
  }

  /** A second forward edit changes nothing. */
  lemma UpIsIdempotent(v: Option<string>)
    ensures UpCell(UpCell(v)) == UpCell(v)
  {
    if v.Some? {
      SplitAppended(v.value, SERVICES);
      ListedIffInList(v.value + [','] + SERVICES, SERVICES);
    }
  }

  // ---------------------------------------------------------------- the undo

  /** What left-to-right replacement does to a list: the name right after a removed one always stays. */
  function Dropped(names: seq<string>, x: string): seq<string> {
    if names == [] then []
    else if names[0] != x then [names[0]] + Dropped(names[1..], x)
    else if |names| == 1 then []
    else [names[1]] + Dropped(names[2..], x)
  }

  lemma {:induction false} CopiesName(name: string, rest: string, p: string, r: string)
    requires ',' !in name && p != "" && p[0] == ','
    ensures ReplaceAll(name + rest, p, r) == name + ReplaceAll(rest, p, r)
  {
    if name == "" {
      assert name + rest == rest;
    } else {
      var text, tail := name + rest, name[1..] + rest;
      assert text == [name[0]] + tail && text[1..] == tail;
      assert name[0] in name;
      ReplaceStep(text, p, r);
      CopiesName(name[1..], rest, p, r);
      Reassemble(name, ReplaceAll(rest, p, r));
    }
  }

  lemma Reassemble(name: string, rest: string)
    requires name != ""
    ensures [name[0]] + (name[1..] + rest) == name + rest
  {
  }

  /** Texts that agree up to a comma-free name and its comma start with the same name. */
  lemma SameFirstName(a: string, x: string, b: string, y: string)
    requires ',' !in a && ',' !in b && a + [','] + x == b + [','] + y
    ensures a == b
  {
    SplitConcat(a, ',', x);
    SplitConcat(b, ',', y);
    SplitAtoms(a, ',');
    SplitAtoms(b, ',');
    assert ([a] + Split(x, ','))[0] == ([b] + Split(y, ','))[0];
  }

  lemma PrefixTail(p: string, t: string)
    requires p <= t
    ensures t == p + t[|p|..]
  {
  }

  lemma WrappedParts(names: seq<string>)
    requires names != []
    ensures Wrapped(names) == [','] + (names[0] + Wrapped(names[1..]))
    ensures Wrapped(names)[1..] == names[0] + Wrapped(names[1..])
    ensures Wrapped(names)[1..] == names[0] + [','] + Wrapped(names[1..])[1..]
  {
    var rest := Wrapped(names[1..]);
    assert rest == [','] + rest[1..];
    assert names[0] + [','] + rest[1..] == names[0] + rest;
  }

  lemma FirstNameOf(name: string, rest: string, x: string)
    requires ',' !in name && ',' !in x && InCommas(x) <= [','] + (name + [','] + rest)
    ensures name == x
  {
    var w := [','] + (name + [','] + rest);
    var y := w[|InCommas(x)|..];
    PrefixTail(InCommas(x), w);
    assert w[1..] == name + [','] + rest && w[1..] == x + [','] + y;
    SameFirstName(name, rest, x, y);
  }

  lemma WrappedStartsWith(names: seq<string>, x: string)
    requires CommaFree(names) && ',' !in x
    ensures InCommas(x) <= Wrapped(names) <==> names != [] && names[0] == x
  {
    if names != [] {
      var w := Wrapped(names);
      var rest := Wrapped(names[1..])[1..];
      WrappedParts(names);
      assert w == [','] + (names[0] + [','] + rest);
      if names[0] == x {
        assert w == InCommas(x) + rest;
      }
      if InCommas(x) <= w {
        FirstNameOf(names[0], rest, x);
      }
    }
  }

  lemma AfterName(names: seq<string>, x: string)
    requires names != [] && names[0] == x
    ensures |InCommas(x)| <= |Wrapped(names)| && Wrapped(names)[|InCommas(x)|..] == Wrapped(names[1..])[1..]
  {
    var rest := Wrapped(names[1..])[1..];
    WrappedParts(names);
    assert Wrapped(names) == InCommas(x) + rest;
  }

  /** A wrapped list that starts with another name: that name is copied. */
  lemma ReplaceOther(names: seq<string>, x: string)
    requires CommaFree(names) && ',' !in x && names != [] && names[0] != x
    ensures ReplaceAll(Wrapped(names), InCommas(x), ",") ==
            "," + names[0] + ReplaceAll(Wrapped(names[1..]), InCommas(x), ",")
  {
    var rest := Wrapped(names[1..]);
    WrappedStartsWith(names, x);
    WrappedParts(names);
    ReplaceStep(Wrapped(names), InCommas(x), ",");
    CopiesName(names[0], rest, InCommas(x), ",");
    Associate(",", names[0], ReplaceAll(rest, InCommas(x), ","));
  }

  lemma NothingInEmpty(p: string, r: string)
    requires p != ""
    ensures ReplaceAll("", p, r) == "" && (|p| > 1 ==> ReplaceAll(",", p, r) == ",")
  {
  }

  /** A wrapped list that starts with the name loses it, and the name after it is copied. */
  lemma ReplaceName(names: seq<string>, x: string)
    requires CommaFree(names) && ',' !in x && names != [] && names[0] == x
    ensures ReplaceAll(Wrapped(names), InCommas(x), ",") ==
            if |names| == 1 then ","
            else "," + names[1] + ReplaceAll(Wrapped(names[2..]), InCommas(x), ",")
  {
    var rest := names[1..];
    WrappedStartsWith(names, x);
    AfterName(names, x);
    ReplaceStep(Wrapped(names), InCommas(x), ",");
    if rest == [] {
      NothingInEmpty(InCommas(x), ",");
      assert Wrapped(rest)[1..] == "";
    } else {
      WrappedParts(rest);
      assert rest[1..] == names[2..];
      var rest2 := Wrapped(names[2..]);
      CopiesName(rest[0], rest2, InCommas(x), ",");
      Associate(",", rest[0], ReplaceAll(rest2, InCommas(x), ","));
    }
  }

  /** The textual replacement on a wrapped list is the list edit. */
  lemma {:induction false} ReplaceIsDropped(names: seq<string>, x: string)
    requires CommaFree(names) && ',' !in x
    ensures ReplaceAll(Wrapped(names), InCommas(x), ",") == Wrapped(Dropped(names, x))
    decreases |names|
  {
    if names == [] {
      NothingInEmpty(InCommas(x), ",");
    } else if names[0] != x {
      ReplaceOther(names, x);
      ReplaceIsDropped(names[1..], x);
      WrappedCons(names[0], Dropped(names[1..], x));
    } else {
      ReplaceName(names, x);
      if |names| > 1 {
        ReplaceIsDropped(names[2..], x);
        WrappedCons(names[1], Dropped(names[2..], x));
      }
    }
  }

  lemma WrappedCons(name: string, names: seq<string>)
    ensures Wrapped([name] + names) == "," + name + Wrapped(names)
  {
    assert ([name] + names)[1..] == names;
  }

  /** The undo on any text: the list edit, wrapped, with the commas at the ends stripped. */
  lemma RemovedIsListEdit(s: string, x: string)
    requires ',' !in x
    ensures Removed(s, x) == TrimCommas(Wrapped(Dropped(Split(s, ','), x)))
  {
    SplitIsCommaFree(s);
    ReplaceIsDropped(Split(s, ','), x);
  }

  function Without(names: seq<string>, name: string): seq<string> {
    if names == [] then []
    else if names[0] == name then Without(names[1..], name) else [names[0]] + Without(names[1..], name)
  }

  /** No two neighbours of the list are both `x`. */
  ghost predicate NoNeighbours(names: seq<string>, x: string) {
    |names| > 1 ==> !(names[0] == x == names[1]) && NoNeighbours(names[1..], x)
  }

  lemma {:induction false} NeighboursMeaning(names: seq<string>, x: string)
    ensures NoNeighbours(names, x) <==>
            forall i, j :: 0 <= i < j < |names| && j == i + 1 ==> !(names[i] == x == names[j])
  {
    if |names| > 1 {
      var rest := names[1..];
      NeighboursMeaning(rest, x);
      if NoNeighbours(names, x) {
        forall i, j | 0 <= i < j < |names| && j == i + 1
          ensures !(names[i] == x == names[j])
        {
          if i > 0 {
            assert names[i] == rest[i - 1] && names[j] == rest[j - 1];
          }
        }
      } else if names[0] == x == names[1] {
        assert !(forall i, j :: 0 <= i < j < |names| && j == i + 1 ==> !(names[i] == x == names[j]));
      } else {
        var i, j :| 0 <= i < j < |rest| && j == i + 1 && rest[i] == x == rest[j];
        assert names[i + 1] == x == names[j + 1];
      }
    }
  }

  lemma {:induction false} NeverListed(names: seq<string>, x: string)
    ensures x !in Without(names, x)
  {
    if names != [] {
      NeverListed(names[1..], x);
    }
  }

  /** The list edit removes every occurrence exactly when no two of them are neighbours. */
  lemma {:induction false} DropsAllIffNoNeighbours(names: seq<string>, x: string)
    ensures Dropped(names, x) == Without(names, x) <==> NoNeighbours(names, x)
    decreases |names|
  {
    if names != [] {
      var rest := names[1..];
      if names[0] != x {
        DropsAllIffNoNeighbours(rest, x);
        SameTails(names[0], Dropped(rest, x), Without(rest, x));
      } else if rest != [] {
        if rest[0] == x {
          NeverListed(rest, x);
          assert Dropped(names, x)[0] == x;
        } else {
          assert names[2..] == rest[1..];
          DropsAllIffNoNeighbours(rest[1..], x);
          SameTails(rest[0], Dropped(rest[1..], x), Without(rest[1..], x));
        }
      }
    }
  }

  lemma SameTails(x: string, a: seq<string>, b: seq<string>)
    ensures [x] + a == [x] + b <==> a == b
  {
    assert ([x] + a)[1..] == a && ([x] + b)[1..] == b;
  }

  // ---------------------------------------------------------------- undoing the forward edit

  lemma {:induction false} DroppedUnlisted(names: seq<string>, x: string)
    requires x !in names
    ensures Dropped(names, x) == names && Dropped(names + [x], x) == names
  {
    if names == [] {
      assert [] + [x] == [x];
    } else {
      assert names[0] in names && forall n :: n in names[1..] ==> n in names;
      DroppedUnlisted(names[1..], x);
      assert (names + [x])[1..] == names[1..] + [x];
    }
  }

  /** Removing at least one name makes the text shorter. */
  lemma {:induction false} DroppedIsShorter(names: seq<string>, x: string)
    ensures |Wrapped(Dropped(names, x))| <= |Wrapped(names)|
    ensures x in names ==> |Wrapped(Dropped(names, x))| + |x| + 1 <= |Wrapped(names)|
    decreases |names|
  {
    if names != [] {
      assert names == [names[0]] + names[1..];
      if names[0] != x {
        DroppedIsShorter(names[1..], x);
      } else if |names| > 1 {
        assert names[1..][1..] == names[2..];
        DroppedIsShorter(names[2..], x);
      }
    }
  }

  lemma {:induction false} TrimCommasBounds(s: string)
    ensures |TrimCommas(s)| <= |s|
    ensures TrimCommas(s) != "" ==> TrimCommas(s)[0] != ',' && TrimCommas(s)[|TrimCommas(s)| - 1] != ','
    ensures s == "" || (s[0] != ',' && s[|s| - 1] != ',') ==> TrimCommas(s) == s
    decreases |s|
  {
    if s != "" && s[0] == ',' {
      TrimCommasBounds(s[1..]);
    } else if s != "" && s[|s| - 1] == ',' {
      TrimCommasBounds(s[..|s| - 1]);
    }
  }

  predicate NoneEmpty(names: seq<string>) {
    forall i :: 0 <= i < |names| ==> names[i] != ""
  }

  predicate OpenEnds(s: string) {
    s == "" || (s[0] != ',' && s[|s| - 1] != ',')
  }

  /** Unwrapping gives the text back exactly when it has no comma at its ends. */
  lemma UnwrapsIff(s: string)
    requires s != ""
    ensures TrimCommas(InCommas(s)) == s <==> OpenEnds(s)
  {
    var w := InCommas(s);
    TrimCommasBounds(w);
    if OpenEnds(s) {
      assert w[1..] == s + ",";
      assert TrimCommas(w) == TrimCommas(s + ",");
      assert (s + ",")[..|s|] == s;
      assert TrimCommas(s + ",") == TrimCommas(s);
      TrimCommasBounds(s);
    }
  }

  lemma RemovedIsShorter(s: string, x: string)
    requires ',' !in x && |x| > 1 && Listed(s, x)
    ensures |Removed(s, x)| < |s|
  {
    var names := Split(s, ',');
    ListedIffInList(s, x);
    SplitIsCommaFree(s);
    RemovedIsListEdit(s, x);
    DroppedIsShorter(names, x);
    TrimCommasBounds(Wrapped(Dropped(names, x)));
  }

  lemma AppendedIsRemoved(s: string, x: string)
    requires ',' !in x && !Listed(s, x)
    ensures Listed(s + [','] + x, x) && Removed(s + [','] + x, x) == TrimCommas(InCommas(s))
  {
    var t := s + [','] + x;
    ListedIffInList(s, x);
    SplitAppended(s, x);
    ListedIffInList(t, x);
    RemovedIsListEdit(t, x);
    DroppedUnlisted(Split(s, ','), x);
    SplitIsCommaFree(s);
  }

  /**
    For every text: the undo restores what the forward edit changed exactly when SERVICIOS
    was not listed before and, if CLASIFICADOS was, the text has no comma at its ends.
    */
  lemma DownUndoesUpIff(s: string)
    ensures DownCell(UpCell(Some(s))) == Some(s) <==>
            !Listed(s, SERVICES) && (Listed(s, CLASSIFIEDS) ==> OpenEnds(s))
  {
    if Listed(s, SERVICES) {
      RemovedIsShorter(s, SERVICES);
    } else if s != "" && Listed(s, CLASSIFIEDS) {
      AppendedIsRemoved(s, SERVICES);
      UnwrapsIff(s);
    }
  }

  /** A cell the undo restores: SERVICIOS is not listed and, if CLASIFICADOS is, no comma stands at an end. */
  ghost predicate Restorable(v: Option<string>) {
    v.Some? ==>
      SERVICES !in Split(v.value, ',') && (CLASSIFIEDS in Split(v.value, ',') ==> OpenEnds(v.value))
  }

  lemma CellRestoredIff(v: Option<string>)
    ensures DownCell(UpCell(v)) == v <==> Restorable(v)
  {
    if v.Some? {
      DownUndoesUpIff(v.value);
      ListedIffInList(v.value, CLASSIFIEDS);
      ListedIffInList(v.value, SERVICES);
    }
  }

  /** The undo after the forward edit restores a table exactly when it restores each of its cells. */
  lemma TableRestoredIff(rows: Cells)
    ensures DownTable(UpTable(rows)) == rows <==> forall id :: id in rows ==> Restorable(rows[id])
  {
    var back := DownTable(UpTable(rows));
    forall id | id in rows
      ensures back[id] == rows[id] <==> Restorable(rows[id])
    {
      CellRestoredIff(rows[id]);
    }
    if forall id :: id in rows ==> Restorable(rows[id]) {
      assert forall id :: id in rows ==> back[id] == rows[id];
      assert back.Keys == rows.Keys;
      assert back == rows;
    } else {
      var id :| id in rows && !Restorable(rows[id]);
      assert back[id] != rows[id];
    }
  }

  /** In particular every comma-joined list of non-empty names without SERVICIOS is restored. */
  lemma NameListsAreRestored(names: seq<string>)
    requires CommaFree(names) && NoneEmpty(names) && SERVICES !in names
    ensures DownCell(UpCell(Some(Join(names, ',')))) == Some(Join(names, ','))
  {
    var s := Join(names, ',');
    assert !Listed(s, SERVICES) && OpenEnds(s) by {
      JoinedUnlisted(names, SERVICES);
    }
    DownUndoesUpIff(s);
  }

  lemma JoinedUnlisted(names: seq<string>, x: string)
    requires CommaFree(names) && ',' !in x && x != "" && x !in names
    requires NoneEmpty(names)
    ensures !Listed(Join(names, ','), x) && OpenEnds(Join(names, ','))
  {
    ListedIffInList(Join(names, ','), x);
    if names == [] {
      assert Split("", ',') == [""];
    } else {
      JoinedSplits(names);
      JoinedEnds(names);
    }
  }

  lemma {:induction false} WithoutKeeps(names: seq<string>, x: string)
    requires CommaFree(names) && NoneEmpty(names)
    ensures CommaFree(Without(names, x)) && NoneEmpty(Without(names, x))
    ensures x !in names ==> Without(names, x) == names
  {
    if names != [] {
      WithoutKeeps(names[1..], x);
      assert names == [names[0]] + names[1..];
    }
  }

  lemma UnwrapJoined(names: seq<string>)
    requires CommaFree(names) && NoneEmpty(names)
    ensures TrimCommas(Wrapped(names)) == Join(names, ',')
  {
    if names == [] {
      assert TrimCommas(",") == TrimCommas("") == "";
    } else {
      WrappedIsJoined(names);
      JoinedEnds(names);
      UnwrapsIff(Join(names, ','));
    }
  }

  /** On a list of non-empty names in which no two SERVICIOS are neighbours the undo removes exactly them. */
  lemma DownRemovesAll(names: seq<string>)
    requires CommaFree(names) && NoneEmpty(names) && NoNeighbours(names, SERVICES)
    ensures DownCell(Some(Join(names, ','))) == Some(Join(Without(names, SERVICES), ','))
  {
    var s := Join(names, ',');
    if SERVICES in names {
      JoinedSplits(names);
      DropsAllIffNoNeighbours(names, SERVICES);
      WithoutKeeps(names, SERVICES);
      UnwrapJoined(Without(names, SERVICES));
    } else {
      JoinedUnlisted(names, SERVICES);
      WithoutKeeps(names, SERVICES);
    }
    DownLoses(Some(s));
    ListedIffInList(s, SERVICES);
  }

  lemma JoinedSplits(names: seq<string>)
    requires CommaFree(names) && names != []
    ensures Split(Join(names, ','), ',') == names
  {
    forall p | p in names
      ensures ',' !in p
    {
    }
    SplitJoin(names, ',');
  }

  lemma {:induction false} JoinedEnds(names: seq<string>)
    requires names != [] && CommaFree(names)
    requires NoneEmpty(names)
    ensures Join(names, ',') != ""
    ensures OpenEnds(Join(names, ','))
  {
    assert names[0][0] in names[0] && names[0][|names[0]| - 1] in names[0];
    if |names| > 1 {
      JoinedEnds(names[1..]);
    }
  }
}

/** The string operations of JavaScript and SQL that the modelled code is built from. */
module Strings {

  // ---------------------------------------------------------------- split and join

  /** The parts between the separators, at least one. */
  function Split(s: string, sep: char): (parts: seq<string>)
    ensures |parts| > 0
  {
    if s == "" then [""]
    else
      var rest := Split(s[1..], sep);
      Prepend(s[0], rest, sep)
  }

  function Join(parts: seq<string>, sep: char): string {
    if parts == [] then ""
    else if |parts| == 1 then parts[0]
    else parts[0] + [sep] + Join(parts[1..], sep)
  }

  lemma {:induction false} SplitAtoms(s: string, sep: char)
    ensures forall p :: p in Split(s, sep) ==> sep !in p
    ensures sep !in s ==> Split(s, sep) == [s]
  {
    if s != "" {
      SplitAtoms(s[1..], sep);
      assert s == [s[0]] + s[1..];
    }
  }

  /** One more character in front of a split string. */
  function Prepend(c: char, parts: seq<string>, sep: char): seq<string>
    requires |parts| > 0
  {
    if c == sep then [""] + parts else [[c] + parts[0]] + parts[1..]
  }

  lemma SplitStep(c: char, rest: string, sep: char)
    ensures Split([c] + rest, sep) == Prepend(c, Split(rest, sep), sep)
  {
    assert ([c] + rest)[1..] == rest;
  }

  lemma PrependConcat(c: char, a: seq<string>, b: seq<string>, sep: char)
    requires |a| > 0
    ensures Prepend(c, a + b, sep) == Prepend(c, a, sep) + b
  {
  }

  lemma {:induction false} SplitConcat(a: string, sep: char, b: string)
    ensures Split(a + [sep] + b, sep) == Split(a, sep) + Split(b, sep)
  {
    if a == "" {
      assert a + [sep] + b == [sep] + b;
      SplitStep(sep, b, sep);
    } else {
      var rest := a[1..];
      var tail := rest + [sep] + b;
      SplitConcat(rest, sep, b);
      assert a + [sep] + b == [a[0]] + tail;
      SplitStep(a[0], tail, sep);
      assert a == [a[0]] + rest;
      SplitStep(a[0], rest, sep);
      PrependConcat(a[0], Split(rest, sep), Split(b, sep), sep);
    }
  }

  /** Splitting a joined list of separator-free parts gives the list back. */
  lemma {:induction false} SplitJoin(parts: seq<string>, sep: char)
    requires parts != [] && forall p :: p in parts ==> sep !in p
    ensures Split(Join(parts, sep), sep) == parts
  {
    SplitAtoms(parts[0], sep);
    if |parts| > 1 {
      SplitJoin(parts[1..], sep);
      SplitConcat(parts[0], sep, Join(parts[1..], sep));
      assert parts == [parts[0]] + parts[1..];
    }
  }

  lemma {:induction false} JoinSplit(s: string, sep: char)
    ensures Join(Split(s, sep), sep) == s
  {
    if s != "" {
      JoinSplit(s[1..], sep);
      var rest := Split(s[1..], sep);
      if s[0] == sep {
        assert ([""] + rest)[1..] == rest;
      } else {
        var parts := [[s[0]] + rest[0]] + rest[1..];
        assert parts[1..] == rest[1..];
      }
    }
  }

  // ---------------------------------------------------------------- trimming

  /** The characters `String.prototype.trim` strips. */
  predicate IsSpace(c: char) {
    c == ' ' || '\U{0009}' <= c <= '\U{000D}' || c == '\U{00A0}' || c == '\U{1680}' || '\U{2000}' <= c <= '\U{200A}'
    || c == '\U{2028}' || c == '\U{2029}' || c == '\U{202F}' || c == '\U{205F}' || c == '\U{3000}' || c == '\U{FEFF}'
  }

  function TrimStart(s: string): string {
    if s != "" && IsSpace(s[0]) then TrimStart(s[1..]) else s
  }

  function TrimEnd(s: string): string {
    if s != "" && IsSpace(s[|s| - 1]) then TrimEnd(s[..|s| - 1]) else s
  }

  function Trim(s: string): string {
    TrimEnd(TrimStart(s))
  }

  /** The white space and line terminators of ECMA-262 (sixth edition), sections 11.2 and 11.3. */
  const WHITE_SPACE :=
    "\t\n\U{000B}\U{000C}\r \U{00A0}\U{1680}"
    + "\U{2000}\U{2001}\U{2002}\U{2003}\U{2004}\U{2005}\U{2006}\U{2007}\U{2008}\U{2009}\U{200A}"
    + "\U{2028}\U{2029}\U{202F}\U{205F}\U{3000}\U{FEFF}"

  predicate NotSpace(c: char) {
    c !in WHITE_SPACE
  }

  predicate AllSpace(s: string) {
    forall c :: c in s ==> c in WHITE_SPACE
  }

  lemma SpaceIsListed(c: char)
    ensures IsSpace(c) <==> c in WHITE_SPACE
  {
  }

  lemma {:induction false} TrimStartSkips(a: string, s: string)
    requires AllSpace(a) && (s == "" || NotSpace(s[0]))
    ensures TrimStart(a + s) == s
  {
    if a == "" {
      assert a + s == s;
      if s != "" {
        SpaceIsListed(s[0]);
      }
    } else {
      SpaceIsListed(a[0]);
      assert a[0] in a && (a + s)[1..] == a[1..] + s;
      TrimStartSkips(a[1..], s);
    }
  }

  lemma {:induction false} TrimEndSkips(s: string, b: string)
    requires AllSpace(b) && (s == "" || NotSpace(s[|s| - 1]))
    ensures TrimEnd(s + b) == s
  {
    if b == "" {
      assert s + b == s;
      if s != "" {
        SpaceIsListed(s[|s| - 1]);
      }
    } else {
      SpaceIsListed(b[|b| - 1]);
      assert b[|b| - 1] in b && (s + b)[..|s + b| - 1] == s + b[..|b| - 1];
      TrimEndSkips(s, b[..|b| - 1]);
    }
  }

  /** Trimming takes exactly the white space off both ends. */
  lemma TrimKeepsCore(a: string, core: string, b: string)
    requires AllSpace(a) && AllSpace(b)
    requires core == "" || (NotSpace(core[0]) && NotSpace(core[|core| - 1]))
    ensures Trim(a + core + b) == core
  {
    if core == "" {
      assert a + core + b == (a + b) + "";
      TrimStartSkips(a + b, "");
    } else {
      assert a + core + b == a + (core + b);
      TrimStartSkips(a, core + b);
      TrimEndSkips(core, b);
    }
  }

  lemma {:induction false} TrimEndLeavesNoSpace(s: string)
    ensures TrimEnd(s) <= s
    ensures TrimEnd(s) != "" ==> !IsSpace(TrimEnd(s)[|TrimEnd(s)| - 1])
    ensures TrimEnd(s) == s <==> s == "" || !IsSpace(s[|s| - 1])
  {
    if s != "" && IsSpace(s[|s| - 1]) {
      TrimEndLeavesNoSpace(s[..|s| - 1]);
    }
  }

  /** Trimming at the end keeps a prefix that ends in a non-space character. */
  lemma {:induction false} TrimEndKeepsPrefix(a: string, b: string)
    requires a != "" && !IsSpace(a[|a| - 1])
    ensures TrimEnd(a + b) == a + TrimEnd(b)
  {
    if b == "" {
      assert a + b == a;
    } else if IsSpace(b[|b| - 1]) {
      assert (a + b)[..|a + b| - 1] == a + b[..|b| - 1];
      TrimEndKeepsPrefix(a, b[..|b| - 1]);
    }
  }

  // ---------------------------------------------------------------- occurrences and replacement

  predicate OccursAt(text: string, s: string, i: int) {
    0 <= i <= |text| && s <= text[i..]
  }

  predicate Contains(text: string, s: string) {
    exists i :: 0 <= i <= |text| && OccursAt(text, s, i)
  }

  /** `text.split("").join(r)`. */
  function Interspersed(text: string, r: string): string {
    if |text| <= 1 then text else [text[0]] + r + Interspersed(text[1..], r)
  }

  /** `text.split(s).join(r)`: each occurrence, found from left to right without overlap, becomes `r`. */
  function ReplaceAll(text: string, s: string, r: string): string
    decreases |text|
  {
    if s == "" then Interspersed(text, r)
    else if |text| < |s| then text
    else if s <= text then r + ReplaceAll(text[|s|..], s, r)
    else [text[0]] + ReplaceAll(text[1..], s, r)
  }

  lemma ReplaceStep(text: string, s: string, r: string)
    requires s != "" && text != ""
    ensures ReplaceAll(text, s, r) ==
            if s <= text then r + ReplaceAll(text[|s|..], s, r) else [text[0]] + ReplaceAll(text[1..], s, r)
  {
    if |text| < |s| {
      assert text == [text[0]] + text[1..];
    }
  }

  lemma WhereContained(text: string, s: string) returns (i: nat)
    requires Contains(text, s)
    ensures OccursAt(text, s, i) && i + |s| <= |text|
    ensures forall k :: 0 <= k < |s| ==> s[k] == text[i + k]
  {
    i :| 0 <= i <= |text| && OccursAt(text, s, i);
    assert forall k :: 0 <= k < |s| ==> s[k] == text[i..][k];
  }

  lemma AbsentIsNonEmpty(text: string, s: string)
    requires !Contains(text, s)
    ensures s != ""
  {
    assert s == "" ==> OccursAt(text, s, 0);
  }

  lemma PrefixIsContained(text: string, s: string)
    ensures s[0..] <= text ==> s <= text && Contains(text, s)
  {
    if s[0..] <= text {
      assert s[0..] == s;
      assert OccursAt(text, s, 0);
    }
  }

  lemma ContainsTail(text: string, s: string, n: nat)
    requires n <= |text| && Contains(text[n..], s)
    ensures Contains(text, s)
  {
    var i :| 0 <= i <= |text[n..]| && OccursAt(text[n..], s, i);
    assert text[n..][i..] == text[n + i..];
    assert OccursAt(text, s, n + i);
  }

  /** Without an occurrence nothing is replaced. */
  lemma {:induction false} NothingToReplace(text: string, s: string, r: string)
    requires s != "" && !Contains(text, s)
    ensures ReplaceAll(text, s, r) == text
    decreases |text|
  {
    if |text| >= |s| {
      PrefixIsContained(text, s);
      assert s[0..] == s;
      if Contains(text[1..], s) {
        ContainsTail(text, s, 1);
        assert false;
      }
      NothingToReplace(text[1..], s, r);
    }
  }

  ghost predicate NoneBefore(text: string, s: string, n: nat) {
    forall i :: 0 <= i < n ==> !OccursAt(text, s, i)
  }

  lemma NoneBeforeTail(text: string, s: string, n: nat)
    requires 0 < n && text != "" && NoneBefore(text, s, n)
    ensures !(s <= text) && NoneBefore(text[1..], s, n - 1)
  {
    if s <= text {
      assert OccursAt(text, s, 0);
      assert false;
    }
    forall i | 0 <= i < n - 1
      ensures !OccursAt(text[1..], s, i)
    {
      assert !OccursAt(text, s, i + 1);
      if i < |text| {
        assert text[1..][i..] == text[i + 1..];
      }
    }
  }

  lemma Associate(a: string, b: string, c: string)
    ensures a + (b + c) == a + b + c
  {
  }

  lemma TailSlices(text: string, n: nat, rest: string)
    requires 0 < n <= |text|
    ensures text[1..][n - 1..] == text[n..]
    ensures [text[0]] + (text[1..][..n - 1] + rest) == text[..n] + rest
  {
  }

  /** What stands before the first occurrence is copied. */
  lemma {:induction false} CopiedUpTo(text: string, s: string, r: string, n: nat)
    requires s != "" && n + |s| <= |text| && NoneBefore(text, s, n)
    ensures ReplaceAll(text, s, r) == text[..n] + ReplaceAll(text[n..], s, r)
    decreases n
  {
    if n == 0 {
      assert text[0..] == text;
    } else {
      NoneBeforeTail(text, s, n);
      CopiedUpTo(text[1..], s, r, n - 1);
      TailSlices(text, n, ReplaceAll(text[n..], s, r));
    }
  }

  /** The first occurrence becomes `r`, what stands before it is copied, and the search goes on behind it. */
  lemma FirstIsReplaced(text: string, s: string, r: string, n: nat)
    requires s != "" && n <= |text| && OccursAt(text, s, n) && NoneBefore(text, s, n)
    ensures n + |s| <= |text|
    ensures ReplaceAll(text, s, r) == text[..n] + r + ReplaceAll(text[n + |s|..], s, r)
  {
    CopiedUpTo(text, s, r, n);
    assert text[n..][|s|..] == text[n + |s|..];
    Associate(text[..n], r, ReplaceAll(text[n + |s|..], s, r));
  }

  /** An empty pattern puts `r` between any two characters, and nowhere else. */
  lemma {:induction false} InterspersedConcat(a: string, b: string, r: string)
    requires a != "" && b != ""
    ensures ReplaceAll(a + b, "", r) == ReplaceAll(a, "", r) + r + ReplaceAll(b, "", r)
    ensures |a| == 1 ==> ReplaceAll(a, "", r) == a
  {
    if |a| == 1 {
      assert (a + b)[1..] == b && [(a + b)[0]] == a;
    } else {
      assert (a + b)[1..] == a[1..] + b;
      InterspersedConcat(a[1..], b, r);
      Associate([a[0]] + r, Interspersed(a[1..], r), r + Interspersed(b, r));
    }
  }
}

/** Which values of the environment are secrets, and in which order they are replaced. */
module SecretValues {
  import opened Wrappers
  import opened Strings
  import opened SecretScrubber

  const MIN_SECRET_LENGTH := 8

  function UpperChar(c: char): char {
    if 'a' <= c <= 'z' then c - 'a' + 'A' else c
  }

  function Upper(s: string): string {
    seq(|s|, i requires 0 <= i < |s| => UpperChar(s[i]))
  }

  predicate EndsWith(s: string, t: string) {
    |t| <= |s| && s[|s| - |t|..] == t
  }

  /** The names whose values count as secret, in any letter case. */
  predicate SecretName(name: string) {
    var n := Upper(name);
    Contains(n, "SECRET") || Contains(n, "PASSWORD") || Contains(n, "PASSDB") || Contains(n, "TOKEN")
    || Contains(n, "PRIVATE") || EndsWith(n, "_KEY") || EndsWith(n, "_KEYS") || Contains(n, "ACCESS_KEY_ID")
    || Contains(n, "ACCOUNT_ID") || Contains(n, "DSN")
  }

  /** `w` spells `mark`, which is in capital letters, in any letter case. */
  predicate Spells(w: string, mark: string) {
    |w| == |mark|
    && forall i :: 0 <= i < |w| ==>
         w[i] == mark[i] || ('A' <= mark[i] <= 'Z' && w[i] == mark[i] - 'A' + 'a')
  }

  predicate SpelledAt(name: string, mark: string, i: int) {
    0 <= i && i + |mark| <= |name| && Spells(name[i..i + |mark|], mark)
  }

  predicate HasMark(name: string, mark: string) {
    exists i :: 0 <= i <= |name| && SpelledAt(name, mark, i)
  }

  predicate EndsInMark(name: string, mark: string) {
    |mark| <= |name| && Spells(name[|name| - |mark|..], mark)
  }

  predicate IsCapital(mark: string) {
    forall i :: 0 <= i < |mark| ==> 'A' <= mark[i] <= 'Z' || mark[i] == '_'
  }

  lemma UpperSpells(w: string, mark: string)
    requires IsCapital(mark)
    ensures Upper(w) == mark <==> Spells(w, mark)
  {
    assert |Upper(w)| == |w| && forall i :: 0 <= i < |w| ==> Upper(w)[i] == UpperChar(w[i]);
  }

  lemma UpperPart(name: string, i: nat, j: nat)
    requires i <= j <= |name|
    ensures Upper(name)[i..j] == Upper(name[i..j])
  {
  }

  lemma SpelledAtIff(name: string, mark: string, i: nat)
    requires IsCapital(mark) && i <= |name|
    ensures OccursAt(Upper(name), mark, i) <==> SpelledAt(name, mark, i)
  {
    if i + |mark| <= |name| {
      UpperPart(name, i, i + |mark|);
      UpperSpells(name[i..i + |mark|], mark);
      assert Upper(name)[i..][..|mark|] == Upper(name)[i..i + |mark|];
    }
  }

  lemma MarkIff(name: string, mark: string)
    requires IsCapital(mark)
    ensures Contains(Upper(name), mark) <==> HasMark(name, mark)
    ensures EndsWith(Upper(name), mark) <==> EndsInMark(name, mark)
  {
    forall i | 0 <= i <= |name|
      ensures OccursAt(Upper(name), mark, i) <==> SpelledAt(name, mark, i)
    {
      SpelledAtIff(name, mark, i);
    }
    if |mark| <= |name| {
      var k := |name| - |mark|;
      UpperPart(name, k, |name|);
      assert name[k..|name|] == name[k..] && Upper(name)[k..|name|] == Upper(name)[k..];
      UpperSpells(name[k..], mark);
    }
  }

  /** The name has one of the marks of a secret, in any letter case. */
  predicate NamesSecret(name: string) {
    || HasMark(name, "SECRET") || HasMark(name, "PASSWORD") || HasMark(name, "PASSDB") || HasMark(name, "TOKEN")
    || HasMark(name, "PRIVATE") || HasMark(name, "ACCESS_KEY_ID") || HasMark(name, "ACCOUNT_ID")
    || HasMark(name, "DSN") || EndsInMark(name, "_KEY") || EndsInMark(name, "_KEYS")
  }

  lemma SecretNameIff(name: string)
    ensures SecretName(name) <==> NamesSecret(name)
  {
    MarkIff(name, "SECRET");
    MarkIff(name, "PASSWORD");
    MarkIff(name, "PASSDB");
    MarkIff(name, "TOKEN");
    MarkIff(name, "PRIVATE");
    MarkIff(name, "ACCESS_KEY_ID");
    MarkIff(name, "ACCOUNT_ID");
    MarkIff(name, "DSN");
    MarkIff(name, "_KEY");
    MarkIff(name, "_KEYS");
  }

  function CommasOnly(s: string): string {
    seq(|s|, i requires 0 <= i < |s| => if s[i] == ';' then ',' else s[i])
  }

  /** The pieces between commas and semicolons. */
  function ListParts(s: string): seq<string> {
    Split(CommasOnly(s), ',')
  }

  lemma CommasOnlyConcat(a: string, b: string)
    ensures CommasOnly(a + b) == CommasOnly(a) + CommasOnly(b)
  {
  }

  /** No piece holds a separator, and a text without one is its own only piece. */
  lemma PartsAreCut(s: string)
    ensures forall p :: p in ListParts(s) ==> ',' !in p && ';' !in p
    ensures ',' !in s && ';' !in s ==> ListParts(s) == [s]
  {
    var commas := CommasOnly(s);
    SplitAtoms(commas, ',');
    SplitKeepsChars(commas, ',');
    if ',' !in s && ';' !in s {
      assert commas == s;
    }
  }

  lemma {:induction false} SplitKeepsChars(s: string, sep: char)
    ensures forall p, c :: p in Split(s, sep) && c in p ==> c in s
  {
    if s != "" {
      SplitKeepsChars(s[1..], sep);
      assert s == [s[0]] + s[1..];
    }
  }

  /** The list is cut at every comma and at every semicolon. */
  lemma PartsOfTwo(a: string, c: char, b: string)
    requires c == ',' || c == ';'
    ensures ListParts(a + [c] + b) == ListParts(a) + ListParts(b)
  {
    CommasOnlyConcat(a + [c], b);
    CommasOnlyConcat(a, [c]);
    assert CommasOnly([c]) == [','];
    SplitConcat(CommasOnly(a), ',', CommasOnly(b));
  }

  predicate IsDigit(c: char) {
    '0' <= c <= '9'
  }

  function SkipDigits(s: string): string {
    if s != "" && IsDigit(s[0]) then SkipDigits(s[1..]) else s
  }

  /** Drops a leading version number with its colon, and surrounding space. */
  function CleanPart(part: string): string {
    var digits := TrimStart(part);
    var after := SkipDigits(digits);
    Trim(if |after| < |digits| && after != "" && after[0] == ':' then after[1..] else part)
  }

  /** The pieces hold everything but the separators, in order. */
  lemma PartsRejoin(s: string)
    ensures |Join(ListParts(s), ',')| == |s|
    ensures forall i :: 0 <= i < |s| ==> Join(ListParts(s), ',')[i] == if s[i] == ';' then ',' else s[i]
    ensures forall p :: p in ListParts(s) ==> ',' !in p
  {
    JoinSplit(CommasOnly(s), ',');
    SplitAtoms(CommasOnly(s), ',');
  }

  lemma {:induction false} DigitsSkipped(digits: string, rest: string)
    requires (forall c :: c in digits ==> IsDigit(c)) && (rest == "" || !IsDigit(rest[0]))
    ensures SkipDigits(digits + rest) == rest
  {
    if digits == "" {
      assert digits + rest == rest;
    } else {
      assert digits[0] in digits && forall c :: c in digits[1..] ==> c in digits;
      assert (digits + rest)[1..] == digits[1..] + rest;
      DigitsSkipped(digits[1..], rest);
    }
  }

  /** White space, digits and a colon in front of a key. */
  ghost predicate IsVersion(s: string) {
    exists space, digits :: AllSpace(space) && AllDigits(digits) && digits != "" && s == space + digits + ":"
  }

  predicate AllDigits(s: string) {
    forall c :: c in s ==> c in "0123456789"
  }

  lemma DigitIsListed(c: char)
    ensures IsDigit(c) <==> c in "0123456789"
  {
  }

  /** A versioned key counts without its version, and every other part as it is, trimmed. */
  lemma VersionIsDropped(version: string, key: string)
    ensures IsVersion(version) ==> CleanPart(version + key) == Trim(key)
    ensures (forall n :: 0 <= n <= |key| ==> !IsVersion(key[..n])) ==> CleanPart(key) == Trim(key)
  {
    if IsVersion(version) {
      var space, digits :| AllSpace(space) && AllDigits(digits) && digits != "" && version == space + digits + ":";
      var rest := [':'] + key;
      assert version + key == space + (digits + rest);
      assert digits[0] in digits && digits[0] in "0123456789";
      TrimStartSkips(space, digits + rest);
      forall c | c in digits
        ensures IsDigit(c)
      {
        DigitIsListed(c);
      }
      DigitsSkipped(digits, rest);
      assert rest[1..] == key;
    }
    var digits := TrimStart(key);
    var after := SkipDigits(digits);
    if |after| < |digits| && after != "" && after[0] == ':' {
      var n := VersionPrefix(key);
      assert IsVersion(key[..n]);
    }
  }

  lemma {:induction false} SpaceBefore(s: string) returns (space: string)
    ensures AllSpace(space) && s == space + TrimStart(s)
  {
    space := "";
    if s != "" && IsSpace(s[0]) {
      SpaceIsListed(s[0]);
      var more := SpaceBefore(s[1..]);
      space := [s[0]] + more;
      assert s == [s[0]] + s[1..];
    }
  }

  lemma {:induction false} DigitsBefore(s: string) returns (digits: string)
    ensures AllDigits(digits) && s == digits + SkipDigits(s)
  {
    digits := "";
    if s != "" && IsDigit(s[0]) {
      DigitIsListed(s[0]);
      var more := DigitsBefore(s[1..]);
      digits := [s[0]] + more;
      assert s == [s[0]] + s[1..];
    }
  }

  /** Where the version ends that cleaning a part would drop. */
  lemma VersionPrefix(part: string) returns (n: nat)
    requires var digits := TrimStart(part);
             var after := SkipDigits(digits);
             |after| < |digits| && after != "" && after[0] == ':'
    ensures n <= |part| && IsVersion(part[..n])
  {
    var space := SpaceBefore(part);
    var digits := DigitsBefore(TrimStart(part));
    n := |space| + |digits| + 1;
    assert part == space + (digits + SkipDigits(TrimStart(part)));
    assert part[..n] == space + digits + ":";
  }

  function Candidates(value: string): seq<string> {
    [value] + ListParts(value)
  }

  type Env = seq<(string, string)>

  /** `v` is the cleaned form of one of the parts. */
  ghost predicate FromParts(parts: seq<string>, v: string) {
    exists part :: part in parts && v == CleanPart(part)
  }

  ghost predicate FromEntry(e: (string, string), v: string) {
    e.1 != "" && SecretName(e.0) && FromParts(Candidates(e.1), v)
  }

  /** `v` is a long enough cleaned part of the value of a secret variable. */
  ghost predicate IsSecret(env: Env, v: string) {
    |v| >= MIN_SECRET_LENGTH && exists e :: e in env && FromEntry(e, v)
  }

  /** Insertion by falling length, after the entries of the same length. */
  function InsertByLength(v: string, sorted: seq<string>): (r: seq<string>)
    ensures |r| == |sorted| + 1
  {
    if sorted == [] || |sorted[|sorted| - 1]| >= |v| then sorted + [v]
    else InsertByLength(v, sorted[..|sorted| - 1]) + [sorted[|sorted| - 1]]
  }

  ghost predicate LongestFirst(values: seq<string>) {
    forall i, j :: 0 <= i < j < |values| ==> |values[i]| >= |values[j]|
  }

  /** Insertion adds exactly the new element. */
  lemma {:induction false} InsertAdds(v: string, sorted: seq<string>)
    ensures Elements(InsertByLength(v, sorted)) == Elements(sorted) + {v}
  {
    if sorted != [] && |sorted[|sorted| - 1]| < |v| {
      var init, last := sorted[..|sorted| - 1], sorted[|sorted| - 1];
      assert sorted == init + [last];
      InsertAdds(v, init);
      assert Elements(InsertByLength(v, sorted)) == Elements(InsertByLength(v, init)) + {last};
    }
  }

  lemma {:induction false} InsertKeeps(v: string, sorted: seq<string>)
    requires LongestFirst(sorted) && NoDup(sorted) && v !in sorted
    ensures LongestFirst(InsertByLength(v, sorted)) && NoDup(InsertByLength(v, sorted))
  {
    if sorted == [] || |sorted[|sorted| - 1]| >= |v| {
      NoDupAppend(sorted, [v]);
    } else {
      var init, last := sorted[..|sorted| - 1], sorted[|sorted| - 1];
      assert sorted == init + [last];
      InsertKeeps(v, init);
      InsertAdds(v, init);
      AppendShorter(InsertByLength(v, init), last, v, init);
    }
  }

  lemma AppendShorter(s: seq<string>, last: string, v: string, init: seq<string>)
    requires LongestFirst(s) && NoDup(s) && Elements(s) == Elements(init) + {v}
    requires last !in init && last != v && |v| >= |last| && LongestFirst(init + [last])
    ensures LongestFirst(s + [last]) && NoDup(s + [last])
  {
    forall i | 0 <= i < |s|
      ensures |s[i]| >= |last| && s[i] != last
    {
      assert s[i] in Elements(s);
      if s[i] != v {
        var k :| 0 <= k < |init| && init[k] == s[i];
        assert (init + [last])[k] == s[i] && (init + [last])[|init|] == last;
      }
    }
  }

  /** The long enough cleaned parts, collected from the left. */
  ghost function LongParts(parts: seq<string>): set<string> {
    if parts == [] then {}
    else
      var v := CleanPart(parts[|parts| - 1]);
      LongParts(parts[..|parts| - 1]) + if |v| >= MIN_SECRET_LENGTH then {v} else {}
  }

  ghost function Secrets(env: Env): set<string> {
    if env == [] then {}
    else
      var e := env[|env| - 1];
      Secrets(env[..|env| - 1]) + if e.1 != "" && SecretName(e.0) then LongParts(Candidates(e.1)) else {}
  }

  lemma {:induction false} LongPartsAre(parts: seq<string>, v: string)
    ensures v in LongParts(parts) <==> |v| >= MIN_SECRET_LENGTH && FromParts(parts, v)
  {
    if parts != [] {
      var init, last := parts[..|parts| - 1], parts[|parts| - 1];
      assert parts == init + [last];
      LongPartsAre(init, v);
      assert last in parts;
      assert FromParts(parts, v) <==> FromParts(init, v) || v == CleanPart(last);
    }
  }

  lemma {:induction false} SecretsAre(env: Env, v: string)
    ensures v in Secrets(env) <==> IsSecret(env, v)
  {
    if env != [] {
      var init, last := env[..|env| - 1], env[|env| - 1];
      assert env == init + [last];
      SecretsAre(init, v);
      LongPartsAre(Candidates(last.1), v);
      assert last in env;
    }
  }

  /** The secret values of the environment, each once, longest first. */
  method SecretValuesFrom(env: Env) returns (values: seq<string>)
    ensures forall v :: v in values <==> IsSecret(env, v)
    ensures forall v :: v in values <==> CountsAsSecret(env, v)
    ensures NoDup(values) && LongestFirst(values)
  {
    var found: seq<string> := [];
    for i := 0 to |env|
      invariant NoDup(found) && Elements(found) == Secrets(env[..i])
    {
      assert env[..i + 1][..i] == env[..i];
      if env[i].1 == "" || !SecretName(env[i].0) {
        continue;
      }
      found := AddParts(Candidates(env[i].1), found);
    }
    assert env[..|env|] == env;
    values := SortByLength(found);
    forall v
      ensures v in values <==> IsSecret(env, v)
    {
      SecretsAre(env, v);
      assert v in Elements(found) <==> v in Elements(values);
    }
    forall v
      ensures IsSecret(env, v) <==> CountsAsSecret(env, v)
    {
      IsSecretIff(env, v);
    }
  }

  lemma AppendNew(s: seq<string>, v: string)
    requires NoDup(s) && v !in s
    ensures NoDup(s + [v]) && Elements(s + [v]) == Elements(s) + {v}
  {
    NoDupAppend(s, [v]);
  }

  /** The inner loop: the whole value first, then each piece of it. */
  method AddParts(parts: seq<string>, before: seq<string>) returns (found: seq<string>)
    requires NoDup(before)
    ensures NoDup(found) && Elements(found) == Elements(before) + LongParts(parts)
  {
    found := before;
    for j := 0 to |parts|
      invariant NoDup(found) && Elements(found) == Elements(before) + LongParts(parts[..j])
    {
      assert parts[..j + 1][..j] == parts[..j];
      var v := CleanPart(parts[j]);
      if |v| >= MIN_SECRET_LENGTH && v !in found {
        AppendNew(found, v);
        found := found + [v];
      }
    }
    assert parts[..|parts|] == parts;
  }

  lemma NotAmongEarlier(s: seq<string>, i: nat)
    requires NoDup(s) && i < |s|
    ensures s[i] !in Elements(s[..i])
  {
  }

  method SortByLength(found: seq<string>) returns (values: seq<string>)
    requires NoDup(found)
    ensures NoDup(values) && LongestFirst(values)
    ensures Elements(values) == Elements(found)
  {
    values := [];
    for i := 0 to |found|
      invariant NoDup(values) && LongestFirst(values)
      invariant Elements(values) == Elements(found[..i])
    {
      ElementsStep(found, i);
      NotAmongEarlier(found, i);
      assert found[i] !in Elements(values);
      InsertKeeps(found[i], values);
      InsertAdds(found[i], values);
      values := InsertByLength(found[i], values);
    }
    assert found[..|found|] == found;
  }

  lemma LongContainedIsWhole(text: string, s: string)
    requires |s| >= |text| && Contains(text, s)
    ensures s == text
  {
    var k := WhereContained(text, s);
    assert k == 0 && text[0..] == text;
  }

  /** In such a list no secret is part of a later one, so a longer secret is never cut up first. */
  lemma EarlierNotInsideLater(values: seq<string>, i: nat, j: nat)
    requires NoDup(values) && LongestFirst(values) && i < j < |values|
    ensures !Contains(values[j], values[i])
  {
    if Contains(values[j], values[i]) {
      LongContainedIsWhole(values[j], values[i]);
      assert false;
    }
  }

  /** The secrets before the `k`-th leave it alone, and its own turn replaces it. */
  lemma ReplacedOnItsTurn(values: seq<string>, k: nat, r: string)
    requires NoDup(values) && LongestFirst(values) && k < |values| && values[k] != ""
    ensures Redacted(values[k], values[..k + 1], r) == r
  {
    forall s | s in values[..k]
      ensures !Contains(values[k], s)
    {
      var i :| 0 <= i < k && values[i] == s;
      EarlierNotInsideLater(values, i, k);
    }
    TextWithoutSecrets(values[k], values[..k], r);
    assert values[..k + 1][..k] == values[..k];
    SecretAloneIsReplaced(values[k], r);
  }

  lemma {:induction false} ReplacementStays(text: string, values: seq<string>, from: nat, n: nat, r: string)
    requires from <= n <= |values| && Redacted(text, values[..from], r) == r && NoneTouches(values, r)
    ensures Redacted(text, values[..n], r) == r
    decreases n
  {
    if from < n {
      ReplacementStays(text, values, from, n - 1, r);
      assert values[..n][..n - 1] == values[..n - 1];
      assert values[n - 1] in values;
      UntouchedReplacement(values[n - 1], r);
    }
  }

  /** A text that is exactly one of the secrets becomes exactly the replacement. */
  lemma WholeSecretIsReplacedWhole(values: seq<string>, k: nat, r: string)
    requires NoDup(values) && LongestFirst(values) && k < |values| && NoneTouches(values, r)
    ensures Redacted(values[k], values, r) == r
  {
    assert values[k] in values;
    ReplacedOnItsTurn(values, k, r);
    ReplacementStays(values[k], values, k + 1, |values|, r);
    assert values[..|values|] == values;
  }

  lemma InsideTouches(r: string, s: string)
    requires s != "" && Contains(r, s)
    ensures Touches(s, r)
  {
    var i := WhereContained(r, s);
    assert AgreesAt(s, r, i);
  }

  lemma UntouchedReplacement(s: string, r: string)
    requires s != "" && !Touches(s, r)
    ensures ReplaceAll(r, s, r) == r
  {
    if Contains(r, s) {
      InsideTouches(r, s);
      assert false;
    }
    NothingToReplace(r, s, r);
  }

  predicate IsSeparator(c: char) {
    c == ',' || c == ';'
  }

  /** `value[i..k]` lies between two separators or ends, and holds none. */
  ghost predicate IsPiece(value: string, i: int, k: int) {
    && 0 <= i <= k <= |value|
    && (i == 0 || IsSeparator(value[i - 1])) && (k == |value| || IsSeparator(value[k]))
    && forall n :: i <= n < k ==> !IsSeparator(value[n])
  }

  /** What counts of a part: what follows its version, or all of it, trimmed. */
  ghost predicate CountsAs(part: string, v: string) {
    if exists n :: 0 <= n <= |part| && IsVersion(part[..n])
    then exists n :: 0 <= n <= |part| && IsVersion(part[..n]) && v == Trim(part[n..])
    else v == Trim(part)
  }

  lemma CleanPartCounts(part: string, v: string)
    ensures CountsAs(part, v) <==> v == CleanPart(part)
  {
    if exists n :: 0 <= n <= |part| && IsVersion(part[..n]) {
      forall n | 0 <= n <= |part| && IsVersion(part[..n])
        ensures CleanPart(part) == Trim(part[n..])
      {
        VersionIsDropped(part[..n], part[n..]);
        assert part == part[..n] + part[n..];
      }
    } else {
      VersionIsDropped("", part);
    }
  }

  /** The first separator, or the end. */
  function FirstCut(s: string): (n: nat)
    ensures n <= |s| && (n < |s| ==> IsSeparator(s[n])) && forall i :: 0 <= i < n ==> !IsSeparator(s[i])
  {
    if s == "" || IsSeparator(s[0]) then 0 else 1 + FirstCut(s[1..])
  }

  lemma PieceBehind(a: string, c: char, b: string, i: int, k: int)
    requires IsSeparator(c) && IsPiece(b, i, k)
    ensures IsPiece(a + [c] + b, |a| + 1 + i, |a| + 1 + k)
    ensures (a + [c] + b)[|a| + 1 + i..|a| + 1 + k] == b[i..k]
  {
    assert forall n :: 0 <= n < |b| ==> (a + [c] + b)[|a| + 1 + n] == b[n];
  }

  lemma {:induction false} PartIsPiece(value: string, part: string) returns (i: nat, k: nat)
    requires part in ListParts(value)
    ensures IsPiece(value, i, k) && part == value[i..k]
    decreases |value|
  {
    var n := FirstCut(value);
    i, k := 0, n;
    if n == |value| {
      PartsAreCut(value);
    } else {
      var a, b := value[..n], value[n + 1..];
      assert value == a + [value[n]] + b;
      PartsOfTwo(a, value[n], b);
      PartsAreCut(a);
      if part != a {
        i, k := PartIsPiece(b, part);
        PieceBehind(a, value[n], b, i, k);
        i, k := n + 1 + i, n + 1 + k;
      }
    }
  }

  lemma PartOfLonger(a: string, c: char, b: string, part: string)
    requires IsSeparator(c) && (part in ListParts(a) || part in ListParts(b))
    ensures part in ListParts(a + [c] + b)
  {
    PartsOfTwo(a, c, b);
  }

  lemma PieceIsPart(value: string, i: nat, k: nat)
    requires IsPiece(value, i, k)
    ensures value[i..k] in ListParts(value)
  {
    var piece := value[i..k];
    PartsAreCut(piece);
    assert value[..k] == value[..i] + piece;
    if i == 0 {
      assert value[..k] == piece;
    } else {
      PartOfLonger(value[..i - 1], value[i - 1], piece, piece);
      assert value[..i - 1] + [value[i - 1]] + piece == value[..k];
    }
    if k == |value| {
      assert value[..k] == value;
    } else {
      PartOfLonger(value[..k], value[k], value[k + 1..], piece);
      assert value[..k] + [value[k]] + value[k + 1..] == value;
    }
  }

  /** The value itself counts, and each piece of it. */
  ghost predicate ValueCounts(value: string, v: string) {
    CountsAs(value, v) || exists i, k :: IsPiece(value, i, k) && CountsAs(value[i..k], v)
  }

  lemma ValueCountsIff(value: string, v: string)
    ensures ValueCounts(value, v) <==> FromParts(Candidates(value), v)
  {
    CleanPartCounts(value, v);
    if i, k :| IsPiece(value, i, k) && CountsAs(value[i..k], v) {
      PieceIsPart(value, i, k);
      CleanPartCounts(value[i..k], v);
      assert value[i..k] in Candidates(value);
    }
    if FromParts(Candidates(value), v) {
      var part :| part in Candidates(value) && v == CleanPart(part);
      if part in ListParts(value) {
        var i, k := PartIsPiece(value, part);
        CleanPartCounts(part, v);
      }
    }
    assert value in Candidates(value);
  }

  /**
    Exactly the following count as secrets: of each variable with the name of a secret its
    value and all pieces of it between commas and semicolons, without version, trimmed, and
    if at least eight characters remain.
    */
  ghost predicate CountsAsSecret(env: Env, v: string) {
    |v| >= 8 && exists name, value :: (name, value) in env && NamesSecret(name) && ValueCounts(value, v)
  }

  lemma EmptyCountsAsEmpty(v: string)
    requires ValueCounts("", v)
    ensures v == ""
  {
    assert !IsVersion(""[..0]);
    forall i, k | IsPiece("", i, k)
      ensures ""[i..k] == ""
    {
    }
  }

  lemma IsSecretIff(env: Env, v: string)
    ensures IsSecret(env, v) <==> CountsAsSecret(env, v)
  {
    forall e | e in env && |v| >= 8
      ensures FromEntry(e, v) <==> NamesSecret(e.0) && ValueCounts(e.1, v)
    {
      SecretNameIff(e.0);
      ValueCountsIff(e.1, v);
      if e.1 == "" && ValueCounts("", v) {
        EmptyCountsAsEmpty(v);
      }
    }
    if CountsAsSecret(env, v) {
      var name, value :| (name, value) in env && NamesSecret(name) && ValueCounts(value, v);
      assert FromEntry((name, value), v);
    }
    if IsSecret(env, v) {
      var e :| e in env && FromEntry(e, v);
      assert (e.0, e.1) in env;
    }
  }

  /** Each versioned key of a list, whichever separators it uses, is a secret by itself. */
  lemma ListedKeyIsSecret(env: Env, name: string, value: string, i: int, j: int, k: int)
    requires (name, value) in env && NamesSecret(name) && i <= j <= k && IsPiece(value, i, k)
    requires IsVersion(value[i..j]) && |Trim(value[j..k])| >= 8
    ensures CountsAsSecret(env, Trim(value[j..k]))
  {
    var part := value[i..k];
    assert part[..j - i] == value[i..j] && part[j - i..] == value[j..k];
    assert CountsAs(part, Trim(value[j..k]));
  }

  /** Bracket-free and not a piece of the word inside the replacement. */
  ghost predicate Ordinary(v: string) {
    '[' !in v && ']' !in v && !Contains("redactado", v)
  }

  /** All secrets of the environment are ordinary. */
  ghost predicate AllOrdinary(env: Env) {
    forall v :: CountsAsSecret(env, v) ==> Ordinary(v)
  }

  /** The whole scrubber: whatever the text, an ordinary secret of the environment is not in the result. */
  method ScrubSecrets(env: Env, text: string) returns (out: string)
    ensures AllOrdinary(env) ==> forall v :: CountsAsSecret(env, v) ==> !Contains(out, v)
    ensures (forall v :: CountsAsSecret(env, v) ==> !Contains(text, v)) ==> out == text
    ensures AllOrdinary(env) && CountsAsSecret(env, text) ==> out == "[redactado]"
  {
    var values := SecretValuesFrom(env);
    out := RedactSecrets(text, values);
    forall v
      ensures v in values <==> CountsAsSecret(env, v)
    {
      IsSecretIff(env, v);
    }
    if AllOrdinary(env) {
      forall s | s in values
        ensures s != "" && !Touches(s, REDACTED)
      {
        BracketFreeSecretsNeverTouch(s);
      }
      if CountsAsSecret(env, text) {
        ghost var k :| 0 <= k < |values| && values[k] == text;
        WholeSecretIsReplacedWhole(values, k, REDACTED);
      }
    }
  }
}

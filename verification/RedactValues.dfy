/**
  The rewriting of rejected values in validation messages, `with value "…"`, as the
  left-to-right scan that the regular expression replacement performs.
  */
module RedactValues {
  import opened SecretScrubber
  import opened Strings
  import opened Wrappers

  const MARK := "with value "

  predicate IsQuote(c: char) {
    c == '"' || c == '\''
  }

  /** The characters that `.` does not match. */
  predicate IsLineBreak(c: char) {
    c == '\n' || c == '\r' || c == '\U{2028}' || c == '\U{2029}'
  }

  /** The position of the first `q`, if no line break comes before it. */
  function Closing(q: char, s: string): (r: Option<nat>)
    ensures r.Some? ==> r.value < |s| && s[r.value] == q
  {
    if s == "" then None
    else if s[0] == q then Some(0)
    else if IsLineBreak(s[0]) then None
    else
      var rest := Closing(q, s[1..]);
      if rest.None? then None else Some(rest.value + 1)
  }

  /** The length of the match at the head of `t`. */
  function MatchLength(t: string): (n: Option<nat>)
    ensures n.Some? ==> |MARK| + 2 <= n.value <= |t|
  {
    if MARK <= t && |t| > |MARK| && IsQuote(t[|MARK|]) then
      var end := Closing(t[|MARK|], t[|MARK| + 1..]);
      if end.None? then None else Some(|MARK| + 1 + end.value + 1)
    else None
  }

  function Replacement(q: char): string {
    MARK + [q] + REDACTED + [q]
  }

  /** The whole replacement: matches are taken from the left and not looked into. */
  function RedactValues(t: string): string
    decreases |t|
  {
    if t == "" then ""
    else
      var n := MatchLength(t);
      if n.Some? then Replacement(t[|MARK|]) + RedactValues(t[n.value..])
      else [t[0]] + RedactValues(t[1..])
  }

  /** Every marker followed by a quote that closes on its line holds exactly the replacement. */
  ghost predicate Clean(t: string) {
    forall i :: 0 <= i <= |t| ==> CleanAt(t[i..])
  }

  ghost predicate CleanAt(s: string) {
    MatchLength(s).Some? ==> s[..MatchLength(s).value] == Replacement(s[|MARK|])
  }

  // ---------------------------------------------------------------- what the scan keeps

  ghost predicate OneLineWithout(q: char, a: string) {
    forall c :: c in a ==> c != q && !IsLineBreak(c)
  }

  /** A stretch without quote and break only moves the closing position. */
  lemma {:induction false} ClosingSkips(q: char, a: string, b: string)
    requires OneLineWithout(q, a)
    ensures Closing(q, a + b) == if Closing(q, b).None? then None else Some(|a| + Closing(q, b).value)
  {
    if a == "" {
      assert a + b == b;
    } else {
      assert (a + b)[1..] == a[1..] + b;
      assert a[0] in a;
      assert forall c :: c in a[1..] ==> c in a;
      ClosingSkips(q, a[1..], b);
    }
  }

  /** What lies before the closing quote contains neither the quote nor a break. */
  lemma {:induction false} BeforeClosing(q: char, s: string)
    requires Closing(q, s).Some?
    ensures OneLineWithout(q, s[..Closing(q, s).value])
  {
    if s[0] != q {
      BeforeClosing(q, s[1..]);
      var n := Closing(q, s).value;
      assert s[..n] == [s[0]] + s[1..][..n - 1];
    }
  }

  /** If `q` does not close on the first line, neither does it when the line goes on after other characters. */
  lemma {:induction false} StaysOpenAfter(q: char, a: string, b: string)
    requires Closing(q, a + b).None? && forall c :: c in a ==> !IsLineBreak(c)
    ensures OneLineWithout(q, a) && Closing(q, b).None?
  {
    if a == "" {
      assert a + b == b;
    } else {
      assert (a + b)[1..] == a[1..] + b && (a + b)[0] == a[0];
      assert a[0] in a;
      assert forall c :: c in a[1..] ==> c in a;
      StaysOpenAfter(q, a[1..], b);
      assert forall c :: c in a ==> c == a[0] || c in a[1..];
    }
  }

  lemma MarkHasNoQuoteOrBreak(q: char)
    requires IsQuote(q)
    ensures OneLineWithout(q, MARK) && OneLineWithout(q, REDACTED)
  {
  }

  lemma CutAround(m: string, t: string, n: nat)
    requires m <= t && |m| + 1 + n < |t|
    ensures t == m + [t[|m|]] + t[|m| + 1..][..n] + [t[|m| + 1..][n]] + t[|m| + 1 + n + 1..]
  {
  }

  /** The matched stretch: marker, quote, a line of anything else, the same quote. */
  lemma MatchShape(t: string) returns (q: char, body: string, rest: string)
    requires MatchLength(t).Some?
    ensures q == t[|MARK|] && IsQuote(q) && rest == t[MatchLength(t).value..]
    ensures t == MARK + [q] + body + [q] + rest && OneLineWithout(q, body)
  {
    q := t[|MARK|];
    var after := t[|MARK| + 1..];
    var n := Closing(q, after).value;
    BeforeClosing(q, after);
    CutAround(MARK, t, n);
    body, rest := after[..n], t[MatchLength(t).value..];
  }

  /** What the expression allows between two quotes `q`: neither that quote nor a line terminator. */
  ghost predicate IsBody(q: char, body: string) {
    forall c :: c in body ==> c != q && c !in "\n\r\U{2028}\U{2029}"
  }

  /** The regular expression itself: the first `n` characters are marker, quote, body and closing quote. */
  ghost predicate IsMatch(t: string, n: int) {
    0 <= n <= |t|
    && exists q, body :: (q == '"' || q == '\'') && IsBody(q, body) && t[..n] == "with value " + [q] + body + [q]
  }

  lemma BodyIff(q: char, body: string)
    ensures IsBody(q, body) <==> OneLineWithout(q, body)
  {
  }

  lemma ScannedIsMatch(t: string)
    requires MatchLength(t).Some?
    ensures IsMatch(t, MatchLength(t).value)
  {
    var q, body, rest := MatchShape(t);
    assert t[..MatchLength(t).value] == MARK + [q] + body + [q];
    BodyIff(q, body);
  }

  lemma MatchIsScanned(t: string, q: char, body: string, rest: string)
    requires IsQuote(q) && OneLineWithout(q, body) && t == MARK + [q] + body + [q] + rest
    ensures MatchLength(t) == Some(|MARK| + 1 + |body| + 1)
  {
    assert t == MARK + [q] + (body + ([q] + rest));
    assert t[|MARK| + 1..] == body + ([q] + rest);
    ClosingSkips(q, body, [q] + rest);
  }

  /** The scanner finds a match exactly where the regular expression has one, and its exact extent. */
  lemma MatchLengthIff(t: string, n: nat)
    ensures MatchLength(t) == Some(n) <==> IsMatch(t, n)
  {
    if MatchLength(t) == Some(n) {
      ScannedIsMatch(t);
    }
    if IsMatch(t, n) {
      var q, body :| (q == '"' || q == '\'') && IsBody(q, body) && t[..n] == "with value " + [q] + body + [q];
      BodyIff(q, body);
      assert t == t[..n] + t[n..];
      MatchIsScanned(t, q, body, t[n..]);
    }
  }

  /** A quote that does not close on its line in the text does not close in the output either. */
  lemma {:induction false} StaysOpen(q: char, t: string)
    requires IsQuote(q) && Closing(q, t).None?
    ensures Closing(q, RedactValues(t)).None?
    decreases |t|
  {
    if t != "" {
      if MatchLength(t).Some? {
        var q', body, rest := MatchShape(t);
        var a := MARK + [q'] + body + [q'];
        MarkHasNoQuoteOrBreak(q);
        assert t == a + rest;
        StaysOpenAfter(q, a, rest);
        assert q' in a;
        StaysOpen(q, rest);
        ClosingSkips(q, Replacement(q'), RedactValues(rest));
      } else if t[0] != q && !IsLineBreak(t[0]) {
        StaysOpen(q, t[1..]);
        var out := RedactValues(t);
        assert out[1..] == RedactValues(t[1..]);
      }
    }
  }

  ghost predicate NoMatchBefore(t: string, n: nat) {
    forall i :: 0 <= i < n && i <= |t| ==> MatchLength(t[i..]).None?
  }

  lemma NoMatchBeforeTail(t: string, n: nat)
    requires 0 < n && t != "" && NoMatchBefore(t, n)
    ensures MatchLength(t).None? && NoMatchBefore(t[1..], n - 1)
  {
    assert t[0..] == t;
    forall i | 0 <= i < n - 1 && i <= |t[1..]|
      ensures MatchLength(t[1..][i..]).None?
    {
      assert t[1..][i..] == t[i + 1..];
    }
  }

  /** Text before the first match is copied. */
  lemma {:induction false} CopiesUpToFirstMatch(t: string, n: nat)
    requires n <= |t| && NoMatchBefore(t, n)
    ensures RedactValues(t) == t[..n] + RedactValues(t[n..])
    decreases n
  {
    if n == 0 {
      assert t[0..] == t;
    } else {
      NoMatchBeforeTail(t, n);
      CopiesUpToFirstMatch(t[1..], n - 1);
      TailSlices(t, n, RedactValues(t[n..]));
    }
  }

  /** No match of the expression starts before `at`. */
  ghost predicate NoneStartsBefore(t: string, at: nat) {
    forall i, n :: 0 <= i < at && i <= |t| ==> !IsMatch(t[i..], n)
  }

  lemma NoneStartsIff(t: string, at: nat)
    ensures NoneStartsBefore(t, at) <==> NoMatchBefore(t, at)
  {
    forall i | 0 <= i < at && i <= |t|
      ensures MatchLength(t[i..]).None? <==> forall n :: !IsMatch(t[i..], n)
    {
      forall n: nat
        ensures MatchLength(t[i..]) == Some(n) <==> IsMatch(t[i..], n)
      {
        MatchLengthIff(t[i..], n);
      }
      if MatchLength(t[i..]).Some? {
        assert IsMatch(t[i..], MatchLength(t[i..]).value);
      }
    }
  }

  /** The first match is rewritten, what stands before it is copied, and the scan goes on behind it. */
  lemma FirstMatchIsRewritten(t: string, at: nat, n: nat)
    requires at <= |t| && NoneStartsBefore(t, at) && IsMatch(t[at..], n)
    ensures at + n <= |t| && at + 11 < |t|
    ensures var q := t[at + 11];
            RedactValues(t) ==
            t[..at] + ("with value " + [q] + "[redactado]" + [q]) + RedactValues(t[at + n..])
  {
    NoneStartsIff(t, at);
    MatchLengthIff(t[at..], n);
    TailPositions(t, at, |MARK|, n);
    CopiesUpToFirstMatch(t, at);
    MatchIsRewritten(t[at..], n);
    Associate(t[..at], Replacement(t[at + |MARK|]), RedactValues(t[at + n..]));
  }

  /** A text without a match is left alone. */
  lemma NoMatchLeavesText(t: string)
    requires NoneStartsBefore(t, |t|)
    ensures RedactValues(t) == t
  {
    NoneStartsIff(t, |t|);
    CopiesUpToFirstMatch(t, |t|);
  }

  lemma MatchIsRewritten(s: string, n: nat)
    requires MatchLength(s) == Some(n)
    ensures RedactValues(s) == Replacement(s[|MARK|]) + RedactValues(s[n..])
  {
  }

  lemma TailPositions(t: string, at: nat, m: nat, n: nat)
    requires at <= |t| && m < |t[at..]| && n <= |t[at..]|
    ensures at + m < |t| && t[at..][m] == t[at + m]
    ensures at + n <= |t| && t[at..][n..] == t[at + n..]
  {
  }

  /** The marker starts with the only `w` it contains, so no match begins inside a copied marker. */
  lemma {:induction false} MarkerWasCopied(t: string, q: char, n: nat)
    requires IsQuote(q) && n <= |MARK| + 1 && MatchLength(t).None? && MARK + [q] <= RedactValues(t)
    ensures n <= |t| && NoMatchBefore(t, n)
    decreases n
  {
    assert t[0..] == t;
    if n > 1 {
      MarkerWasCopied(t, q, n - 1);
      CopiesUpToFirstMatch(t, n - 1);
      var rest := t[n - 1..];
      PrefixAt(MARK + [q], t[..n - 1], RedactValues(rest));
      MarkerHasOneW(q, n - 1);
      MatchStartsWithW(rest);
    }
  }

  lemma PrefixAt(m: string, a: string, b: string)
    requires m <= a + b && |a| < |m|
    ensures b != "" && b[0] == m[|a|]
  {
  }

  lemma MarkerHasOneW(q: char, i: nat)
    requires IsQuote(q) && 0 < i <= |MARK|
    ensures (MARK + [q])[i] != 'w'
  {
  }

  lemma MatchStartsWithW(t: string)
    ensures MatchLength(t).Some? ==> RedactValues(t) != "" && RedactValues(t)[0] == 'w'
  {
  }

  /** An unmatched position never becomes the start of a match in the output. */
  lemma NoNewMatch(t: string)
    requires t != "" && MatchLength(t).None?
    ensures MatchLength(RedactValues(t)).None?
  {
    var out := RedactValues(t);
    if MARK <= out && |out| > |MARK| && IsQuote(out[|MARK|]) {
      var q, k := out[|MARK|], |MARK| + 1;
      assert out[..k] == MARK + [q];
      MarkerWasCopied(t, q, k);
      CopiesUpToFirstMatch(t, k);
      assert t[..k] == out[..k] && out[k..] == RedactValues(t[k..]);
      assert MARK <= t && t[|MARK|] == q;
      StaysOpen(q, t[k..]);
    }
  }

  // ---------------------------------------------------------------- the output

  lemma ReplacementHasNoInnerMark(q: char, s: string, i: nat)
    requires IsQuote(q) && 0 < i < |Replacement(q)|
    ensures MatchLength((Replacement(q) + s)[i..]).None?
  {
    var r := Replacement(q);
    assert r[i] != 'w' by {
      if i < |MARK| {
        assert r[i] == MARK[i];
      } else if |MARK| + 1 <= i < |MARK| + 1 + |REDACTED| {
        assert r[i] == REDACTED[i - |MARK| - 1];
      }
    }
    assert (r + s)[i..][0] == r[i];
  }

  lemma ReplacementIsClean(q: char, s: string)
    requires IsQuote(q)
    ensures CleanAt(Replacement(q) + s)
  {
    var t := Replacement(q) + s;
    assert t == MARK + ([q] + REDACTED + [q] + s);
    assert t[|MARK| + 1..] == REDACTED + ([q] + s);
    MarkHasNoQuoteOrBreak(q);
    ClosingSkips(q, REDACTED, [q] + s);
    assert t[..|Replacement(q)|] == Replacement(q);
  }

  /** In the output every closed marker holds exactly the replacement. */
  lemma {:induction false} OutputIsClean(t: string)
    ensures Clean(RedactValues(t))
    decreases |t|
  {
    var out := RedactValues(t);
    if t != "" {
      var n := MatchLength(t);
      var q := if n.Some? then t[|MARK|] else 'x';
      var head := if n.Some? then Replacement(q) else [t[0]];
      var rest := if n.Some? then t[n.value..] else t[1..];
      OutputIsClean(rest);
      assert out == head + RedactValues(rest);
      forall i | 0 <= i <= |out|
        ensures CleanAt(out[i..])
      {
        if i >= |head| {
          assert out[i..] == RedactValues(rest)[i - |head|..];
        } else if n.None? {
          assert out[0..] == out;
          NoNewMatch(t);
        } else if i == 0 {
          assert out[0..] == out;
          ReplacementIsClean(q, RedactValues(rest));
        } else {
          ReplacementHasNoInnerMark(q, RedactValues(rest), i);
        }
      }
    }
  }

  lemma CleanTail(t: string, n: nat)
    requires Clean(t) && n <= |t|
    ensures CleanAt(t) && Clean(t[n..])
  {
    assert t[0..] == t;
    forall i | 0 <= i <= |t[n..]|
      ensures CleanAt(t[n..][i..])
    {
      assert t[n..][i..] == t[n + i..];
    }
  }

  lemma HeadAndTail(t: string, n: nat)
    requires 0 < n <= |t|
    ensures t == t[..n] + t[n..] && t[..1] == [t[0]]
  {
  }

  /** A clean text is left as it is. */
  lemma {:induction false} CleanIsFixed(t: string)
    requires Clean(t)
    ensures RedactValues(t) == t
    decreases |t|
  {
    if t != "" {
      var n := if MatchLength(t).Some? then MatchLength(t).value else 1;
      CleanTail(t, n);
      CleanIsFixed(t[n..]);
      HeadAndTail(t, n);
    }
  }

  /** The rewriting is idempotent, and the texts it leaves alone are exactly the clean ones. */
  lemma RedactionIsProjection(t: string)
    ensures RedactValues(RedactValues(t)) == RedactValues(t)
    ensures RedactValues(t) == t <==> Clean(t)
  {
    OutputIsClean(t);
    CleanIsFixed(RedactValues(t));
    if Clean(t) {
      CleanIsFixed(t);
    }
  }
}

/** The removal of secrets from a text before it is logged. */
module SecretScrubber {
  import opened Strings

  const REDACTED := "[redactado]"

  // ---------------------------------------------------------------- when a replacement can form a secret

  /** Laid over `r` at offset `d`, with at least one shared position, `s` agrees with it everywhere they meet. */
  ghost predicate AgreesAt(s: string, r: string, d: int) {
    -|s| < d < |r| && forall k :: 0 <= k < |s| && 0 <= d + k < |r| ==> s[k] == r[d + k]
  }

  /** `s` can overlap, contain or lie inside an occurrence of `r`. */
  ghost predicate Touches(s: string, r: string) {
    exists d :: AgreesAt(s, r, d)
  }

  /** A tail of `s` at the head of the result was at the head of the text. */
  lemma {:induction false} HeadWasThere(text: string, s1: string, r: string, s: string, k: nat)
    requires s1 != "" && r != "" && !Touches(s, r) && k <= |s|
    requires s[k..] <= ReplaceAll(text, s1, r)
    ensures s[k..] <= text
    decreases |text|
  {
    var out := ReplaceAll(text, s1, r);
    if k < |s| && |text| >= |s1| {
      if s1 <= text {
        TailTouches(s, r, k, ReplaceAll(text[|s1|..], s1, r));
        assert false;
      }
      assert s[k..] == [s[k]] + s[k + 1..];
      assert out[1..] == ReplaceAll(text[1..], s1, r);
      HeadWasThere(text[1..], s1, r, s, k + 1);
      assert text == [text[0]] + text[1..];
    }
  }

  lemma TailTouches(s: string, r: string, k: nat, rest: string)
    requires k < |s| && r != "" && s[k..] <= r + rest
    ensures Touches(s, r)
  {
    var d: int := 0 - k;
    forall j | 0 <= j < |s| && 0 <= d + j < |r|
      ensures s[j] == r[d + j]
    {
      assert s[j] == s[k..][j - k] == (r + rest)[j - k];
    }
    assert AgreesAt(s, r, d);
  }

  /** Where an occurrence in a concatenation lies. */
  lemma OccurrenceSplits(head: string, rest: string, s: string, i: nat)
    requires s != "" && OccursAt(head + rest, s, i)
    ensures i >= |head| ==> Contains(rest, s)
    ensures i < |head| ==> Touches(s, head)
    ensures i == 0 ==> s[0..] <= head + rest
  {
    var text := head + rest;
    assert forall k :: 0 <= k < |s| ==> s[k] == text[i..][k] == text[i + k];
    if i >= |head| {
      assert rest[i - |head|..] == text[i..];
      assert OccursAt(rest, s, i - |head|);
    } else {
      assert AgreesAt(s, head, i);
    }
  }

  /** Replacing `s1` leaves no `s1` and brings in no other string that cannot touch the replacement. */
  lemma {:induction false} ReplaceLeavesAbsent(text: string, s1: string, r: string, s: string)
    requires s1 != "" && r != "" && s != "" && !Touches(s, r) && (s == s1 || !Contains(text, s))
    ensures !Contains(ReplaceAll(text, s1, r), s)
    decreases |text|
  {
    var out := ReplaceAll(text, s1, r);
    if |text| < |s1| {
      if Contains(text, s) {
        var i := WhereContained(text, s);
        assert false;
      }
    } else {
      var n := if s1 <= text then |s1| else 1;
      if s != s1 && Contains(text[n..], s) {
        ContainsTail(text, s, n);
        assert false;
      }
      ReplaceLeavesAbsent(text[n..], s1, r, s);
      if Contains(out, s) {
        var i := WhereContained(out, s);
        OccurrenceSplits(if s1 <= text then r else [text[0]], ReplaceAll(text[n..], s1, r), s, i);
        PrefixIsContained(text, s);
        HeadWasThere(text, s1, r, s, 0);
        assert false;
      }
    }
  }

  // ---------------------------------------------------------------- redaction

  /** The text after the secrets of the list have been replaced by `r` one after the other. */
  function Redacted(text: string, secrets: seq<string>, r: string): string {
    if secrets == [] then text
    else ReplaceAll(Redacted(text, secrets[..|secrets| - 1], r), secrets[|secrets| - 1], r)
  }

  /** No secret can touch the replacement. */
  ghost predicate NoneTouches(secrets: seq<string>, r: string) {
    forall s :: s in secrets ==> s != "" && !Touches(s, r)
  }

  ghost predicate NoneOccurs(secrets: seq<string>, text: string) {
    forall s :: s in secrets ==> !Contains(text, s)
  }

  method RedactSecrets(text: string, secrets: seq<string>) returns (out: string)
    ensures out == Redacted(text, secrets, REDACTED)
    ensures NoneOccurs(secrets, text) ==> out == text
    ensures NoneTouches(secrets, REDACTED) ==> NoneOccurs(secrets, out)
  {
    out := text;
    for i := 0 to |secrets|
      invariant out == Redacted(text, secrets[..i], REDACTED)
    {
      var secret := secrets[i];
      assert secrets[..i + 1][..i] == secrets[..i];
      if Contains(out, secret) {
        out := ReplaceAll(out, secret, REDACTED);
      } else {
        AbsentIsNonEmpty(out, secret);
        NothingToReplace(out, secret, REDACTED);
      }
    }
    assert secrets[..|secrets|] == secrets;
    if NoneOccurs(secrets, text) {
      TextWithoutSecrets(text, secrets, REDACTED);
    }
    if NoneTouches(secrets, REDACTED) {
      NoSecretLeft(text, secrets, REDACTED);
    }
  }

  /** If no secret can touch the replacement, none is left, whatever their order. */
  lemma {:induction false} NoSecretLeft(text: string, secrets: seq<string>, r: string)
    requires r != "" && NoneTouches(secrets, r)
    ensures NoneOccurs(secrets, Redacted(text, secrets, r))
  {
    if secrets != [] {
      var init, last := secrets[..|secrets| - 1], secrets[|secrets| - 1];
      assert secrets == init + [last];
      assert last in secrets && forall s :: s in init ==> s in secrets;
      NoSecretLeft(text, init, r);
      forall s | s in secrets
        ensures !Contains(Redacted(text, secrets, r), s)
      {
        assert s == last || s in init;
        ReplaceLeavesAbsent(Redacted(text, init, r), last, r, s);
      }
    }
  }

  /** One secret is replaced throughout, and a list is worked off from the front. */
  lemma {:induction false} RedactedInParts(text: string, s: string, a: seq<string>, b: seq<string>, r: string)
    ensures Redacted(text, [], r) == text && Redacted(text, [s], r) == ReplaceAll(text, s, r)
    ensures Redacted(text, a + b, r) == Redacted(Redacted(text, a, r), b, r)
    decreases |b|
  {
    assert [s][..0] == [];
    if b == [] {
      assert a + b == a;
    } else {
      var n := |b| - 1;
      RedactedInParts(text, s, a, b[..n], r);
      assert (a + b)[..|a + b| - 1] == a + b[..n];
    }
  }

  lemma {:induction false} TextWithoutSecrets(text: string, secrets: seq<string>, r: string)
    requires NoneOccurs(secrets, text)
    ensures Redacted(text, secrets, r) == text
  {
    if secrets != [] {
      var init, last := secrets[..|secrets| - 1], secrets[|secrets| - 1];
      assert secrets == init + [last];
      assert last in secrets;
      TextWithoutSecrets(text, init, r);
      AbsentIsNonEmpty(text, last);
      NothingToReplace(text, last, r);
    }
  }

  /** A second pass changes nothing. */
  lemma RedactionIsIdempotent(text: string, secrets: seq<string>, r: string)
    requires r != "" && NoneTouches(secrets, r)
    ensures Redacted(Redacted(text, secrets, r), secrets, r) == Redacted(text, secrets, r)
  {
    NoSecretLeft(text, secrets, r);
    TextWithoutSecrets(Redacted(text, secrets, r), secrets, r);
  }

  /** A secret without square brackets that is not a piece of the word inside cannot touch the replacement. */
  lemma BracketFreeSecretsNeverTouch(s: string)
    requires s != "" && '[' !in s && ']' !in s && !Contains("redactado", s)
    ensures !Touches(s, REDACTED)
  {
    var word, last := "redactado", |REDACTED| - 1;
    assert REDACTED == "[" + word + "]";
    forall d
      ensures !AgreesAt(s, REDACTED, d)
    {
      if 1 <= d && d + |s| <= last {
        var k :| 0 <= k < |s| && s[k] != word[d - 1 + k] by {
          if forall k :: 0 <= k < |s| ==> s[k] == word[d - 1 + k] {
            assert s <= word[d - 1..];
            assert OccursAt(word, s, d - 1);
            assert false;
          }
        }
        assert REDACTED[d + k] == word[d - 1 + k];
      } else if -|s| < d <= 0 {
        assert s[-d] != REDACTED[d + -d];
      } else if 1 <= d <= last {
        assert s[last - d] != REDACTED[d + (last - d)];
      }
    }
  }

  // ---------------------------------------------------------------- the exact condition for one secret

  /** What of `s` sticks out before and after `r`, when `s` is laid over `r` at `d`. */
  function Before(s: string, d: int): string
    requires -|s| < d
  {
    if d < 0 then s[..-d] else ""
  }

  function After(s: string, r: string, d: int): string
    requires d < |r|
  {
    if |r| - d <= |s| then s[|r| - d..] else ""
  }

  /**
    Laid over `r` at `d`, `s` agrees with it, and the part of `s` before `r` can stand in
    front of an occurrence of `s` without starting an earlier one.
    */
  ghost predicate Exposed(s: string, r: string, d: int) {
    AgreesAt(s, r, d) && NoneBefore(Before(s, d) + s, s, |Before(s, d)|)
  }

  ghost predicate NeverExposed(s: string, r: string) {
    forall d :: -|s| < d < |r| ==> !Exposed(s, r, d)
  }

  lemma EarlyMatchFits(a: string, s: string, b: string, i: nat)
    requires i <= |a| && OccursAt(a + s + b, s, i)
    ensures OccursAt(a + s, s, i)
  {
    assert (a + s)[i..] == (a + s + b)[i..][..|a + s| - i];
  }

  /** A match that starts early enough lies within the text in front of `b`. */
  lemma NoneBeforeLonger(a: string, s: string, b: string)
    requires NoneBefore(a + s, s, |a|)
    ensures NoneBefore(a + s + b, s, |a|)
  {
    forall i | 0 <= i < |a|
      ensures !OccursAt(a + s + b, s, i)
    {
      if OccursAt(a + s + b, s, i) {
        EarlyMatchFits(a, s, b, i);
        assert false;
      }
    }
  }

  /** Replacing `s` inside its own surroundings copies these and puts `r` in its place. */
  lemma ReplacedInPlace(a: string, s: string, b: string, r: string)
    requires s != "" && |b| < |s| && NoneBefore(a + s, s, |a|)
    ensures ReplaceAll(a + s + b, s, r) == a + r + b
  {
    var text := a + s + b;
    NoneBeforeLonger(a, s, b);
    CopiedUpTo(text, s, r, |a|);
    assert text[..|a|] == a && text[|a|..] == s + b;
    assert (s + b)[|s|..] == b;
    assert ReplaceAll(b, s, r) == b;
    Associate(a, r, b);
  }

  /** Where `r` and what sticks out of it stand side by side, `s` stands too. */
  lemma OverlapSpells(s: string, r: string, d: int)
    requires s != "" && AgreesAt(s, r, d)
    ensures Contains(Before(s, d) + r + After(s, r, d), s)
  {
    var a, b := Before(s, d), After(s, r, d);
    var out, at := a + r + b, |a| + d;
    assert at >= 0 && at + |s| <= |out|;
    forall k | 0 <= k < |s|
      ensures out[at..][k] == s[k]
    {
      assert out[at..][k] == out[at + k];
      if 0 <= d + k < |r| {
        assert s[k] == r[d + k];
      }
    }
    assert OccursAt(out, s, at);
  }

  lemma OnlySecret(text: string, s: string, r: string)
    ensures Redacted(text, [s], r) == ReplaceAll(text, s, r)
  {
    assert [s][..0] == [];
  }

  /** An exposed secret is put together again from its own redaction. */
  lemma ExposedSecretLeaks(s: string, r: string, d: int)
    requires s != "" && Exposed(s, r, d)
    ensures Contains(Redacted(Before(s, d) + s + After(s, r, d), [s], r), s)
  {
    OnlySecret(Before(s, d) + s + After(s, r, d), s, r);
    ReplacedInPlace(Before(s, d), s, After(s, r, d), r);
    OverlapSpells(s, r, d);
  }

  lemma SamePrefixStep(s: string, text: string, k: nat)
    requires k < |s| && text != "" && s[k] == text[0]
    ensures s[..k + 1] + text[1..] == s[..k] + text
  {
  }

  /** One copied character more: nothing starts in front of what is left either. */
  lemma NoneBeforeStep(s: string, text: string, k: nat)
    requires k < |s| && text != "" && s[k] == text[0] && !(s <= text) && NoneBefore(s[..k] + text, s, k)
    ensures NoneBefore(s[..k + 1] + text[1..], s, k + 1)
  {
    SamePrefixStep(s, text, k);
    assert (s[..k] + text)[k..] == text;
    assert !OccursAt(s[..k] + text, s, k);
  }

  lemma ShorterStart(a: string, s: string, text: string, i: nat)
    requires s <= text && i <= |a| && OccursAt(a + s, s, i)
    ensures OccursAt(a + text, s, i)
  {
    assert (a + s)[i..] <= (a + text)[i..];
  }

  lemma OverlapAtHead(s: string, r: string, k: nat, d: int, text: string, rest: string)
    requires k < |s| && d == 0 - k && r != "" && s[k..] <= r + rest
    requires s <= text && NoneBefore(s[..k] + text, s, k)
    ensures Exposed(s, r, d)
  {
    forall j | 0 <= j < |s| && 0 <= d + j < |r|
      ensures s[j] == r[d + j]
    {
      assert s[j] == s[k..][j - k] == (r + rest)[j - k];
    }
    assert Before(s, d) == s[..k];
    forall i | 0 <= i < k
      ensures !OccursAt(s[..k] + s, s, i)
    {
      if OccursAt(s[..k] + s, s, i) {
        ShorterStart(s[..k], s, text, i);
        assert false;
      }
    }
  }

  lemma TailsAgree(s: string, k: nat, c: char, rest: string)
    requires k < |s|
    ensures s[k..] <= [c] + rest <==> s[k] == c && s[k + 1..] <= rest
  {
    assert s[k..] == [s[k]] + s[k + 1..];
    assert ([c] + rest)[1..] == rest;
    if s[k..] <= [c] + rest {
      assert s[k..][1..] == s[k + 1..];
    }
  }

  /**
    A tail of `s` at the head of the output was at the head of the text, if the missing part
    of `s` in front of the text starts no occurrence.
    */
  lemma {:induction false} HeadWasThereUnexposed(text: string, r: string, s: string, k: nat)
    requires s != "" && r != "" && NeverExposed(s, r) && k <= |s|
    requires NoneBefore(s[..k] + text, s, k) && s[k..] <= ReplaceAll(text, s, r)
    ensures s[k..] <= text
    decreases |text|
  {
    if k < |s| && |text| >= |s| {
      ReplaceStep(text, s, r);
      if s <= text {
        OverlapAtHead(s, r, k, 0 - k, text, ReplaceAll(text[|s|..], s, r));
        assert false;
      }
      TailsAgree(s, k, text[0], ReplaceAll(text[1..], s, r));
      NoneBeforeStep(s, text, k);
      HeadWasThereUnexposed(text[1..], r, s, k + 1);
      TailsAgree(s, k, text[0], text[1..]);
      assert text == [text[0]] + text[1..];
    }
  }

  lemma InsideIsExposed(s: string, r: string, rest: string, i: nat)
    requires s != "" && i < |r| && OccursAt(r + rest, s, i)
    ensures Exposed(s, r, i)
  {
    assert forall k :: 0 <= k < |s| ==> s[k] == (r + rest)[i..][k] == (r + rest)[i + k];
  }

  /** A secret that is never exposed is gone after its replacement. */
  lemma {:induction false} UnexposedIsGone(text: string, s: string, r: string)
    requires s != "" && r != "" && NeverExposed(s, r)
    ensures !Contains(ReplaceAll(text, s, r), s)
    decreases |text|
  {
    var out := ReplaceAll(text, s, r);
    if |text| < |s| {
      if Contains(text, s) {
        var i := WhereContained(text, s);
        assert false;
      }
    } else {
      var n := if s <= text then |s| else 1;
      var head := if s <= text then r else [text[0]];
      UnexposedIsGone(text[n..], s, r);
      if Contains(out, s) {
        var i := WhereContained(out, s);
        OccurrenceSplits(head, ReplaceAll(text[n..], s, r), s, i);
        if s <= text {
          InsideIsExposed(s, r, ReplaceAll(text[n..], s, r), i);
          assert false;
        } else {
          assert s[0..] == s && s[..0] + text == text;
          HeadWasThereUnexposed(text, r, s, 0);
          assert false;
        }
      }
    }
  }

  /** `s` survives no redaction of which it is the only secret. */
  ghost predicate AlwaysGone(s: string, r: string) {
    forall text :: !Contains(Redacted(text, [s], r), s)
  }

  lemma SurvivorRefutes(text: string, s: string, r: string)
    requires AlwaysGone(s, r)
    ensures !Contains(Redacted(text, [s], r), s)
  {
  }

  /** Whatever the text, a secret is gone after its own redaction exactly when it is never exposed. */
  lemma AlwaysGoneIffNeverExposed(s: string, r: string)
    requires s != "" && r != ""
    ensures AlwaysGone(s, r) <==> NeverExposed(s, r)
  {
    if NeverExposed(s, r) {
      forall text
        ensures !Contains(Redacted(text, [s], r), s)
      {
        OnlySecret(text, s, r);
        UnexposedIsGone(text, s, r);
      }
    } else {
      var d :| -|s| < d < |r| && Exposed(s, r, d);
      ExposedSecretLeaks(s, r, d);
      if AlwaysGone(s, r) {
        SurvivorRefutes(Before(s, d) + s + After(s, r, d), s, r);
        assert false;
      }
    }
  }

  /** A text that is exactly one secret becomes exactly the replacement. */
  lemma SecretAloneIsReplaced(s: string, r: string)
    requires s != ""
    ensures ReplaceAll(s, s, r) == r
  {
    assert s[|s|..] == "";
    assert ReplaceAll("", s, r) == "";
    assert r + "" == r;
  }
}

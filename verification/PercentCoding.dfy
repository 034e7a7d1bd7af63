/**
  Percent triplets over UTF-8: the decoder that reads keys out of URLs and the encoder that
  writes the source of a copy request.
  */
module PercentCoding {
  import opened Wrappers

  // ---------------------------------------------------------------- decoding

  function HexValue(c: char): Option<int> {
    if '0' <= c <= '9' then Some(c as int - '0' as int)
    else if 'a' <= c <= 'f' then Some(c as int - 'a' as int + 10)
    else if 'A' <= c <= 'F' then Some(c as int - 'A' as int + 10)
    else None
  }

  /** The octet of a percent triplet at the head of `s`. */
  function Octet(s: string): (b: Option<int>)
    ensures b.Some? ==> |s| >= 3 && 0 <= b.value < 256
  {
    if |s| < 3 || s[0] != '%' then None
    else
      var hi, lo := HexValue(s[1]), HexValue(s[2]);
      if hi.None? || lo.None? then None else Some(16 * hi.value + lo.value)
  }

  /** The value of `n` continuation octets at the head of `s` appended to `acc`. */
  function Continuation(s: string, n: nat, acc: int): (v: Option<int>)
    ensures v.Some? ==> |s| >= 3 * n
    decreases n
  {
    if n == 0 then Some(acc)
    else
      var b := Octet(s);
      if b.None? || b.value / 64 != 2 then None
      else Continuation(s[3..], n - 1, 64 * acc + b.value % 64)
  }

  /** How many continuation octets follow a leading octet; none if it cannot lead a longer character. */
  function TailLength(b: int): nat {
    if b / 32 == 6 then 1 else if b / 16 == 14 then 2 else if b / 8 == 30 then 3 else 0
  }

  function LeadBits(b: int): int {
    if b / 32 == 6 then b % 32 else if b / 16 == 14 then b % 16 else b % 8
  }

  /** The smallest value that needs `n` continuation octets. */
  function LeastValue(n: nat): int {
    if n == 1 then 0x80 else if n == 2 then 0x800 else 0x10000
  }

  predicate IsScalar(v: int) {
    0 <= v < 0xD800 || 0xE000 <= v <= 0x10FFFF
  }

  /** One UTF-8 character written in percent triplets at the head of `s`, and the length it takes. */
  function EncodedChar(s: string): (r: Option<(char, nat)>)
    ensures r.Some? ==> 3 <= r.value.1 <= |s|
  {
    var b := Octet(s);
    if b.None? then None
    else if b.value < 0x80 then Some((b.value as char, 3))
    else
      var n := TailLength(b.value);
      var v := if n == 0 then None else Continuation(s[3..], n, LeadBits(b.value));
      if v.None? || v.value < LeastValue(n) || !IsScalar(v.value) then None
      else Some((v.value as char, 3 + 3 * n))
  }

  /** `decodeURIComponent`; `None` where it throws. */
  function PercentDecode(s: string): Option<string>
    decreases |s|
  {
    if s == "" then Some("")
    else
      var head := if s[0] != '%' then Some((s[0], 1)) else EncodedChar(s);
      if head.None? then None
      else
        var tail := PercentDecode(s[head.value.1..]);
        if tail.None? then None else Some([head.value.0] + tail.value)
  }

  lemma {:induction false} DecodeWithoutPercent(s: string)
    requires '%' !in s
    ensures PercentDecode(s) == Some(s)
  {
    if s != "" {
      DecodeWithoutPercent(s[1..]);
      assert s == [s[0]] + s[1..];
    }
  }

  /** Decoding never lengthens a text, and a text with a `%` becomes shorter. */
  lemma {:induction false} DecodeShortens(s: string, d: string)
    requires PercentDecode(s) == Some(d)
    ensures |d| <= |s|
    ensures '%' in s ==> |d| < |s|
    decreases |s|
  {
    if s != "" {
      var n := if s[0] != '%' then 1 else EncodedChar(s).value.1;
      DecodeShortens(s[n..], d[1..]);
      assert s == s[..n] + s[n..];
    }
  }

  // ---------------------------------------------------------------- encoding

  function HexDigit(n: int): char
    requires 0 <= n < 16
  {
    if n < 10 then ('0' as int + n) as char else ('A' as int + n - 10) as char
  }

  function Triplet(b: int): string
    requires 0 <= b < 256
  {
    ['%', HexDigit(b / 16), HexDigit(b % 16)]
  }

  /** The low six bits of `v` as a continuation octet. */
  function Tail6(v: int): string
    requires v >= 0
  {
    Triplet(0x80 + v % 64)
  }

  /** The UTF-8 octets of a character, each as a triplet. */
  function EscapedChar(c: char): string {
    var v := c as int;
    if v < 0x80 then Triplet(v)
    else if v < 0x800 then Triplet(0xC0 + v / 64) + Tail6(v)
    else if v < 0x10000 then Triplet(0xE0 + v / 64 / 64) + Tail6(v / 64) + Tail6(v)
    else Triplet(0xF0 + v / 64 / 64 / 64) + Tail6(v / 64 / 64) + Tail6(v / 64) + Tail6(v)
  }

  /** The characters `encodeURI` leaves as they are. */
  predicate Unescaped(c: char) {
    'A' <= c <= 'Z' || 'a' <= c <= 'z' || '0' <= c <= '9'
    || c == ';' || c == '/' || c == '?' || c == ':' || c == '@' || c == '&' || c == '=' || c == '+' || c == '$'
    || c == ',' || c == '#' || c == '-' || c == '_' || c == '.' || c == '!' || c == '~' || c == '*' || c == '\''
    || c == '(' || c == ')'
  }

  /** `encodeURI`. */
  function EncodeUri(s: string): string {
    if s == "" then "" else (if Unescaped(s[0]) then [s[0]] else EscapedChar(s[0])) + EncodeUri(s[1..])
  }

  // ---------------------------------------------------------------- the decoder undoes the encoder

  lemma OctetOfTriplet(b: int, rest: string)
    requires 0 <= b < 256
    ensures Octet(Triplet(b) + rest) == Some(b) && (Triplet(b) + rest)[3..] == rest
  {
    assert HexValue(HexDigit(b / 16)) == Some(b / 16) && HexValue(HexDigit(b % 16)) == Some(b % 16);
  }

  lemma ContinuationStep(v: int, rest: string, n: nat)
    requires v >= 0
    ensures Continuation(Tail6(v) + rest, n + 1, v / 64) == Continuation(rest, n, v)
  {
    OctetOfTriplet(0x80 + v % 64, rest);
  }

  lemma Leads(h: int)
    ensures 0 <= h < 32 ==> TailLength(0xC0 + h) == 1 && LeadBits(0xC0 + h) == h
    ensures 0 <= h < 16 ==> TailLength(0xE0 + h) == 2 && LeadBits(0xE0 + h) == h
    ensures 0 <= h < 8 ==> TailLength(0xF0 + h) == 3 && LeadBits(0xF0 + h) == h
  {
  }

  /** A leading octet with the right tail gives the character. */
  lemma Assembled(lead: int, tail: string, c: char, n: nat)
    requires 0x80 <= lead < 256 && n == TailLength(lead) > 0 && LeastValue(n) <= c as int
    requires Continuation(tail, n, LeadBits(lead)) == Some(c as int)
    ensures EncodedChar(Triplet(lead) + tail) == Some((c, 3 + 3 * n))
  {
    OctetOfTriplet(lead, tail);
  }

  lemma OneTail(v: int, rest: string)
    requires v >= 0
    ensures Continuation(Tail6(v) + rest, 1, v / 64) == Some(v)
  {
    ContinuationStep(v, rest, 0);
  }

  lemma TwoTails(v: int, rest: string)
    requires v >= 0
    ensures Continuation(Tail6(v / 64) + (Tail6(v) + rest), 2, v / 64 / 64) == Some(v)
  {
    ContinuationStep(v / 64, Tail6(v) + rest, 1);
    OneTail(v, rest);
  }

  /** The tails of a character put all its bits back together. */
  lemma ThreeTails(v: int, rest: string)
    requires v >= 0
    ensures Continuation(Tail6(v / 64 / 64) + (Tail6(v / 64) + (Tail6(v) + rest)), 3, v / 64 / 64 / 64) == Some(v)
  {
    ContinuationStep(v / 64 / 64, Tail6(v / 64) + (Tail6(v) + rest), 2);
    TwoTails(v, rest);
  }

  lemma Regroup(a: string, b: string, c: string, d: string, rest: string)
    ensures a + d + rest == a + (d + rest)
    ensures a + c + d + rest == a + (c + (d + rest))
    ensures a + b + c + d + rest == a + (b + (c + (d + rest)))
  {
  }

  lemma OneOctet(c: char, rest: string)
    requires c as int < 0x80
    ensures EncodedChar(EscapedChar(c) + rest) == Some((c, |EscapedChar(c)|))
  {
    OctetOfTriplet(c as int, rest);
  }

  lemma TwoOctets(c: char, rest: string)
    requires 0x80 <= c as int < 0x800
    ensures EncodedChar(EscapedChar(c) + rest) == Some((c, |EscapedChar(c)|))
  {
    var v := c as int;
    OneTail(v, rest);
    Leads(v / 64);
    Assembled(0xC0 + v / 64, Tail6(v) + rest, c, 1);
    Regroup(Triplet(0xC0 + v / 64), "", "", Tail6(v), rest);
  }

  lemma ThreeOctets(c: char, rest: string)
    requires 0x800 <= c as int < 0x10000
    ensures EncodedChar(EscapedChar(c) + rest) == Some((c, |EscapedChar(c)|))
  {
    var v := c as int;
    var lead := v / 64 / 64;
    TwoTails(v, rest);
    Leads(lead);
    Assembled(0xE0 + lead, Tail6(v / 64) + (Tail6(v) + rest), c, 2);
    Regroup(Triplet(0xE0 + lead), "", Tail6(v / 64), Tail6(v), rest);
  }

  /** A leading octet with three continuation octets. */
  lemma LedByFour(lead: int, tail: string, c: char)
    requires 0 <= lead < 8 && 0x10000 <= c as int && Continuation(tail, 3, lead) == Some(c as int)
    ensures EncodedChar(Triplet(0xF0 + lead) + tail) == Some((c, 12))
  {
    Leads(lead);
    Assembled(0xF0 + lead, tail, c, 3);
  }

  lemma FourOctetsApart(c: char, rest: string)
    requires 0x10000 <= c as int
    ensures var v := c as int;
            EscapedChar(c) + rest ==
            Triplet(0xF0 + v / 64 / 64 / 64) + (Tail6(v / 64 / 64) + (Tail6(v / 64) + (Tail6(v) + rest)))
  {
    var v := c as int;
    Regroup(Triplet(0xF0 + v / 64 / 64 / 64), Tail6(v / 64 / 64), Tail6(v / 64), Tail6(v), rest);
  }

  lemma FourOctets(c: char, rest: string)
    requires 0x10000 <= c as int
    ensures EncodedChar(EscapedChar(c) + rest) == Some((c, |EscapedChar(c)|))
  {
    var v := c as int;
    ThreeTails(v, rest);
    LedByFour(v / 64 / 64 / 64, Tail6(v / 64 / 64) + (Tail6(v / 64) + (Tail6(v) + rest)), c);
    FourOctetsApart(c, rest);
  }

  lemma EscapedCharDecodes(c: char, rest: string)
    ensures EncodedChar(EscapedChar(c) + rest) == Some((c, |EscapedChar(c)|))
  {
    if c as int < 0x80 {
      OneOctet(c, rest);
    } else if c as int < 0x800 {
      TwoOctets(c, rest);
    } else if c as int < 0x10000 {
      ThreeOctets(c, rest);
    } else {
      FourOctets(c, rest);
    }
  }

  /** Every text is read back from its encoding. */
  lemma {:induction false} DecodeEncode(s: string)
    ensures PercentDecode(EncodeUri(s)) == Some(s)
  {
    if s != "" {
      var c, rest := s[0], EncodeUri(s[1..]);
      DecodeEncode(s[1..]);
      assert s == [c] + s[1..];
      if Unescaped(c) {
        assert ([c] + rest)[1..] == rest;
      } else {
        EscapedCharDecodes(c, rest);
        assert (EscapedChar(c) + rest)[0] == '%';
        assert (EscapedChar(c) + rest)[|EscapedChar(c)|..] == rest;
      }
    }
  }

  // ---------------------------------------------------------------- exactly what is decoded

  function FoldedHex(c: char): char {
    if 'a' <= c <= 'f' then c - 'a' + 'A' else c
  }

  /** The text with its small hexadecimal letters made capital. */
  function Folded(s: string): (r: string)
    ensures |r| == |s| && forall i :: 0 <= i < |s| ==> r[i] == FoldedHex(s[i])
  {
    seq(|s|, i requires 0 <= i < |s| => FoldedHex(s[i]))
  }

  /**
    `s` writes the characters of `d` one after the other: each as it is, if it is not the
    percent sign, or as the triplets of its UTF-8 octets, in either letter case.
    */
  predicate Spells(s: string, d: string)
    decreases |d|
  {
    if d == "" then s == ""
    else
      var e := EscapedChar(d[0]);
      || (s != "" && s[0] == d[0] != '%' && Spells(s[1..], d[1..]))
      || (|e| <= |s| && Folded(s[..|e|]) == e && Spells(s[|e|..], d[1..]))
  }

  lemma FoldedDrop(s: string, n: nat)
    requires n <= |s|
    ensures Folded(s)[n..] == Folded(s[n..])
  {
  }

  lemma FoldedTail(s: string, n: nat)
    requires n <= |s|
    ensures Folded(s)[n..] == Folded(s[n..]) && Folded(s)[..n] == Folded(s[..n])
    ensures Folded(s) == Folded(s[..n]) + Folded(s[n..])
  {
  }

  lemma OctetFolds(s: string)
    ensures Octet(Folded(s)) == Octet(s)
  {
    if |s| >= 3 {
      assert HexValue(FoldedHex(s[1])) == HexValue(s[1]) && HexValue(FoldedHex(s[2])) == HexValue(s[2]);
    }
  }

  /** The continuation depends on the first octet and on the continuation behind it. */
  lemma ContinuationSame(s: string, s': string, n: nat, acc: int)
    requires n > 0 && Octet(s) == Octet(s')
    requires Octet(s).Some? ==>
               var next := 64 * acc + Octet(s).value % 64;
               Continuation(s[3..], n - 1, next) == Continuation(s'[3..], n - 1, next)
    ensures Continuation(s, n, acc) == Continuation(s', n, acc)
  {
  }

  lemma {:induction false} ContinuationFolds(s: string, n: nat, acc: int)
    ensures Continuation(Folded(s), n, acc) == Continuation(s, n, acc)
    decreases n
  {
    if n > 0 {
      OctetFolds(s);
      if Octet(s).Some? {
        FoldedDrop(s, 3);
        ContinuationFolds(s[3..], n - 1, 64 * acc + Octet(s).value % 64);
      }
      ContinuationSame(Folded(s), s, n, acc);
    }
  }

  /** The decoder does not care about the letter case of the triplets. */
  lemma EncodedCharFolds(s: string)
    ensures EncodedChar(Folded(s)) == EncodedChar(s)
  {
    OctetFolds(s);
    var b := Octet(s);
    if b.Some? && b.value >= 0x80 {
      FoldedTail(s, 3);
      ContinuationFolds(s[3..], TailLength(b.value), LeadBits(b.value));
    }
  }

  /** An octet is read from exactly its own triplet. */
  lemma OctetIsTriplet(s: string)
    requires Octet(s).Some?
    ensures |s| >= 3 && 0 <= Octet(s).value < 256 && Folded(s[..3]) == Triplet(Octet(s).value)
  {
    var hi, lo := HexValue(s[1]).value, HexValue(s[2]).value;
    var b := 16 * hi + lo;
    assert b / 16 == hi && b % 16 == lo;
    assert FoldedHex(s[1]) == HexDigit(hi) && FoldedHex(s[2]) == HexDigit(lo);
  }

  lemma TailOfOctet(acc: int, b: int, v: int)
    requires acc >= 0 && 0 <= b < 256 && b / 64 == 2 && v == 64 * acc + b % 64
    ensures v >= 0 && v / 64 == acc && Tail6(v) == Triplet(b)
  {
  }

  lemma OneTailRead(s: string, acc: int, v: int)
    requires acc >= 0 && Continuation(s, 1, acc) == Some(v)
    ensures |s| >= 3 && v >= 0 && v / 64 == acc && Folded(s[..3]) == Tail6(v)
  {
    var b := Octet(s).value;
    OctetIsTriplet(s);
    assert Continuation(s[3..], 0, 64 * acc + b % 64) == Some(v);
    TailOfOctet(acc, b, v);
  }

  lemma TwoTailsRead(s: string, acc: int, v: int)
    requires acc >= 0 && Continuation(s, 2, acc) == Some(v)
    ensures |s| >= 6 && v >= 0 && v / 64 / 64 == acc && Folded(s[..6]) == Tail6(v / 64) + Tail6(v)
  {
    var b := Octet(s).value;
    OctetIsTriplet(s);
    OneTailRead(s[3..], 64 * acc + b % 64, v);
    TailOfOctet(acc, b, v / 64);
    FoldedTail(s[..6], 3);
    assert s[..6][..3] == s[..3] && s[..6][3..] == s[3..][..3];
  }

  lemma ThreeTailsRead(s: string, acc: int, v: int)
    requires acc >= 0 && Continuation(s, 3, acc) == Some(v)
    ensures |s| >= 9 && v >= 0 && v / 64 / 64 / 64 == acc
    ensures Folded(s[..9]) == Tail6(v / 64 / 64) + Tail6(v / 64) + Tail6(v)
  {
    var b := Octet(s).value;
    OctetIsTriplet(s);
    TwoTailsRead(s[3..], 64 * acc + b % 64, v);
    TailOfOctet(acc, b, v / 64 / 64);
    FoldedTail(s[..9], 3);
    assert s[..9][..3] == s[..3] && s[..9][3..] == s[3..][..6];
    Associate(Tail6(v / 64 / 64), Tail6(v / 64), Tail6(v));
  }

  lemma Associate(a: string, b: string, c: string)
    ensures a + (b + c) == a + b + c
  {
  }

  lemma LeadIs(b: int)
    requires 0x80 <= b < 256
    ensures TailLength(b) == 1 ==> b == 0xC0 + LeadBits(b) && 0 <= LeadBits(b) < 32
    ensures TailLength(b) == 2 ==> b == 0xE0 + LeadBits(b) && 0 <= LeadBits(b) < 16
    ensures TailLength(b) == 3 ==> b == 0xF0 + LeadBits(b) && 0 <= LeadBits(b) < 8
  {
  }

  lemma FoldedParts(s: string, n: nat, head: string, tail: string)
    requires 3 <= n <= |s| && Folded(s[..3]) == head && Folded(s[3..][..n - 3]) == tail
    ensures Folded(s[..n]) == head + tail
  {
    FoldedTail(s[..n], 3);
    assert s[..n][..3] == s[..3] && s[..n][3..] == s[3..][..n - 3];
  }

  lemma TwoOctetsRead(s: string, b: int, v: int)
    requires 0x80 <= b < 256 && TailLength(b) == 1 && |s| >= 3 && Folded(s[..3]) == Triplet(b)
    requires 0x80 <= v < 0xD800 && v / 64 == LeadBits(b) && |s| >= 6 && Folded(s[3..][..3]) == Tail6(v)
    ensures |s| >= 6 && |EscapedChar(v as char)| == 6 && Folded(s[..6]) == EscapedChar(v as char)
  {
    LeadIs(b);
    FoldedParts(s, 6, Triplet(b), Tail6(v));
  }

  lemma ThreeOctetsRead(s: string, b: int, v: int)
    requires 0x80 <= b < 256 && TailLength(b) == 2 && |s| >= 3 && Folded(s[..3]) == Triplet(b)
    requires 0x800 <= v && IsScalar(v) && v / 64 / 64 == LeadBits(b)
    requires |s| >= 9 && Folded(s[3..][..6]) == Tail6(v / 64) + Tail6(v)
    ensures |s| >= 9 && |EscapedChar(v as char)| == 9 && Folded(s[..9]) == EscapedChar(v as char)
  {
    LeadIs(b);
    FoldedParts(s, 9, Triplet(b), Tail6(v / 64) + Tail6(v));
    Associate(Triplet(b), Tail6(v / 64), Tail6(v));
  }

  lemma FourOctetsEscaped(c: char)
    requires c as int >= 0x10000
    ensures var v := c as int;
            EscapedChar(c) ==
            Triplet(0xF0 + v / 64 / 64 / 64) + (Tail6(v / 64 / 64) + Tail6(v / 64) + Tail6(v))
    ensures |EscapedChar(c)| == 12
  {
    var v := c as int;
    Associate(Triplet(0xF0 + v / 64 / 64 / 64), Tail6(v / 64 / 64), Tail6(v / 64));
    Associate(Triplet(0xF0 + v / 64 / 64 / 64), Tail6(v / 64 / 64) + Tail6(v / 64), Tail6(v));
  }

  lemma FourOctetsRead(s: string, b: int, c: char)
    requires 0xF0 <= b < 0xF8 && |s| >= 3 && Folded(s[..3]) == Triplet(b)
    requires c as int >= 0x10000 && c as int / 64 / 64 / 64 == b - 0xF0
    requires |s| >= 12
    requires Folded(s[3..][..9]) == Tail6(c as int / 64 / 64) + Tail6(c as int / 64) + Tail6(c as int)
    ensures |EscapedChar(c)| == 12 && Folded(s[..12]) == EscapedChar(c)
  {
    FourOctetsEscaped(c);
    FoldedParts(s, 12, Triplet(b), Tail6(c as int / 64 / 64) + Tail6(c as int / 64) + Tail6(c as int));
  }

  lemma LongCharIsEncoded(s: string, b: int, n: nat, c: char)
    requires 0x80 <= b < 256 && |s| >= 3 && Folded(s[..3]) == Triplet(b) && 0 < n == TailLength(b)
    requires Continuation(s[3..], n, LeadBits(b)) == Some(c as int) && LeastValue(n) <= c as int
    ensures 3 + 3 * n == |EscapedChar(c)| <= |s| && Folded(s[..3 + 3 * n]) == EscapedChar(c)
  {
    LeadIs(b);
    if n == 1 {
      OneTailRead(s[3..], LeadBits(b), c as int);
      TwoOctetsRead(s, b, c as int);
    } else if n == 2 {
      TwoTailsRead(s[3..], LeadBits(b), c as int);
      ThreeOctetsRead(s, b, c as int);
    } else {
      ThreeTailsRead(s[3..], LeadBits(b), c as int);
      FourOctetsRead(s, b, c);
    }
  }

  /** A character is read from exactly its own encoding: no overlong form and no surrogate is accepted. */
  lemma ReadCharIsEncoded(s: string, c: char, n: nat)
    requires EncodedChar(s) == Some((c, n))
    ensures n == |EscapedChar(c)| <= |s| && Folded(s[..n]) == EscapedChar(c)
  {
    var b := Octet(s).value;
    OctetIsTriplet(s);
    if b >= 0x80 {
      LongCharIsEncoded(s, b, TailLength(b), c);
    }
  }

  /** The encoding of a character, in either letter case, is read as that character. */
  lemma EncodedIsRead(s: string, c: char)
    requires |EscapedChar(c)| <= |s| && Folded(s[..|EscapedChar(c)|]) == EscapedChar(c)
    ensures EncodedChar(s) == Some((c, |EscapedChar(c)|)) && s[0] == '%'
  {
    var n := |EscapedChar(c)|;
    FoldedTail(s, n);
    EscapedCharDecodes(c, Folded(s[n..]));
    EncodedCharFolds(s);
    assert EscapedChar(c)[0] == '%' == FoldedHex(s[..n][0]);
  }

  /** Decoding yields `d` exactly from the texts that spell it, and fails on every other text. */
  lemma {:induction false} DecodeIff(s: string, d: string)
    ensures PercentDecode(s) == Some(d) <==> Spells(s, d)
    decreases |d|
  {
    if d != "" {
      var e := EscapedChar(d[0]);
      assert d == [d[0]] + d[1..];
      if |e| <= |s| && Folded(s[..|e|]) == e {
        EncodedIsRead(s, d[0]);
        DecodeIff(s[|e|..], d[1..]);
      } else if s != "" && s[0] != '%' {
        DecodeIff(s[1..], d[1..]);
      } else if s != "" && EncodedChar(s).Some? {
        ReadCharIsEncoded(s, EncodedChar(s).value.0, EncodedChar(s).value.1);
      }
    } else if PercentDecode(s) == Some("") && s != "" {
      assert false;
    }
  }

  /** Letters, digits and the marks of RFC 3986, sections 2.2 and 2.3, but for the square brackets. */
  predicate IsPlain(c: char) {
    'a' <= c <= 'z' || 'A' <= c <= 'Z' || '0' <= c <= '9' || c in "-_.~" || c in ":/?#@" || c in "!$&'()*+,;="
  }

  predicate PlainOrPercent(s: string) {
    forall c :: c in s ==> IsPlain(c) || c == '%'
  }

  lemma UnescapedIsPlain(c: char)
    ensures Unescaped(c) <==> IsPlain(c)
  {
  }

  lemma TripletIsPlain(b: int)
    requires 0 <= b < 256
    ensures PlainOrPercent(Triplet(b))
  {
    HexIsPlain(b / 16);
    HexIsPlain(b % 16);
  }

  lemma HexIsPlain(n: int)
    requires 0 <= n < 16
    ensures IsPlain(HexDigit(n))
  {
    UnescapedIsPlain(HexDigit(n));
  }

  lemma BothPlain(a: string, b: string)
    requires PlainOrPercent(a) && PlainOrPercent(b)
    ensures PlainOrPercent(a + b)
  {
  }

  lemma TailIsPlain(v: int)
    requires v >= 0
    ensures PlainOrPercent(Tail6(v))
  {
    TripletIsPlain(0x80 + v % 64);
  }

  lemma EscapedIsPlain(e: char)
    ensures PlainOrPercent(EscapedChar(e))
  {
    var v := e as int;
    if v < 0x80 {
      TripletIsPlain(v);
    } else {
      TailIsPlain(v);
      TailIsPlain(v / 64);
      TailIsPlain(v / 64 / 64);
      if v < 0x800 {
        TripletIsPlain(0xC0 + v / 64);
        BothPlain(Triplet(0xC0 + v / 64), Tail6(v));
      } else if v < 0x10000 {
        TripletIsPlain(0xE0 + v / 64 / 64);
        BothPlain(Triplet(0xE0 + v / 64 / 64), Tail6(v / 64));
        BothPlain(Triplet(0xE0 + v / 64 / 64) + Tail6(v / 64), Tail6(v));
      } else {
        TripletIsPlain(0xF0 + v / 64 / 64 / 64);
        BothPlain(Triplet(0xF0 + v / 64 / 64 / 64), Tail6(v / 64 / 64));
        BothPlain(Triplet(0xF0 + v / 64 / 64 / 64) + Tail6(v / 64 / 64), Tail6(v / 64));
        BothPlain(Triplet(0xF0 + v / 64 / 64 / 64) + Tail6(v / 64 / 64) + Tail6(v / 64), Tail6(v));
      }
    }
  }

  /** Plain text is left as it is, and nothing but plain characters and triplets comes out. */
  lemma {:induction false} EncodingIsPlain(s: string)
    ensures (forall c :: c in s ==> IsPlain(c)) ==> EncodeUri(s) == s
    ensures PlainOrPercent(EncodeUri(s))
  {
    if s != "" {
      var head := if Unescaped(s[0]) then [s[0]] else EscapedChar(s[0]);
      assert s == [s[0]] + s[1..];
      UnescapedIsPlain(s[0]);
      EscapedIsPlain(s[0]);
      EncodingIsPlain(s[1..]);
      BothPlain(head, EncodeUri(s[1..]));
      assert s[0] in s;
    }
  }
}

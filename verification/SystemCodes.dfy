/**
  The two data migrations that give every user a system code, against a column whose unique
  index is live: the table's invariant is that index, and every single update must keep it.
  */
module SystemCodes {
  import opened Wrappers

  type UserId = int
  type Codes = map<UserId, Option<string>>
  type Octet = b: int | 0 <= b < 256

  const ALPHABET := "ABCDEFGHJKLMNPQRSTUVWXYZ23456789"
  const CODE_LENGTH := 5
  const PREFIX := "RES-"

  // ---------------------------------------------------------------- codes

  predicate IsAlnum(c: char) {
    'A' <= c <= 'Z' || 'a' <= c <= 'z' || '0' <= c <= '9'
  }

  /** The canonical pattern `^RES-[A-Za-z0-9]{5}$`. */
  predicate Conforms(code: string) {
    |code| == |PREFIX| + CODE_LENGTH && code[..|PREFIX|] == PREFIX
    && forall i :: |PREFIX| <= i < |code| ==> IsAlnum(code[i])
  }

  type Bytes = s: seq<Octet> | |s| == CODE_LENGTH witness [0, 0, 0, 0, 0]

  function CodeOf(bytes: Bytes): string {
    PREFIX + seq(CODE_LENGTH, i requires 0 <= i < CODE_LENGTH => ALPHABET[bytes[i] % |ALPHABET|])
  }

  /** The generator's loop over the random octets. */
  method GenerateSystemCode(bytes: Bytes) returns (code: string)
    ensures code == CodeOf(bytes) && Conforms(code)
    ensures |code| == 9 && code[..4] == "RES-"
    ensures forall i :: 0 <= i < 5 ==> code[4 + i] == "ABCDEFGHJKLMNPQRSTUVWXYZ23456789"[bytes[i] % 32]
  {
    var segment := "";
    for i := 0 to CODE_LENGTH
      invariant |segment| == i
      invariant forall k :: 0 <= k < i ==> segment[k] == ALPHABET[bytes[k] % |ALPHABET|]
    {
      segment := segment + [ALPHABET[bytes[i] % |ALPHABET|]];
    }
    code := PREFIX + segment;
    GeneratedConforms(bytes);
    assert code == CodeOf(bytes);
  }

  /** The pattern written out: the prefix and five letters or digits. */
  lemma ConformsIff(code: string)
    ensures Conforms(code) <==>
            exists segment :: code == "RES-" + segment && |segment| == 5 && AllAlnum(segment)
  {
    if Conforms(code) {
      assert code == "RES-" + code[4..] && AllAlnum(code[4..]);
    }
    if segment :| code == "RES-" + segment && |segment| == 5 && AllAlnum(segment) {
      assert code[..4] == "RES-";
    }
  }

  predicate AllAlnum(s: string) {
    forall i :: 0 <= i < |s| ==> 'A' <= s[i] <= 'Z' || 'a' <= s[i] <= 'z' || '0' <= s[i] <= '9'
  }

  /** Where in the alphabet a character stands. */
  lemma AlphabetAt(k: int)
    requires 0 <= k < 32
    ensures ALPHABET[k] as int ==
            if k < 8 then 'A' as int + k else if k < 13 then 'J' as int + k - 8
            else if k < 24 then 'P' as int + k - 13 else '2' as int + k - 24
  {
  }

  /** Different octets, modulo the 32 symbols, give different codes. */
  lemma CodesMeetIff(a: Bytes, b: Bytes)
    ensures CodeOf(a) == CodeOf(b) <==> forall i :: 0 <= i < 5 ==> a[i] % 32 == b[i] % 32
  {
    if CodeOf(a) == CodeOf(b) {
      forall i | 0 <= i < 5
        ensures a[i] % 32 == b[i] % 32
      {
        assert CodeOf(a)[4 + i] == ALPHABET[a[i] % 32] && CodeOf(b)[4 + i] == ALPHABET[b[i] % 32];
        AlphabetAt(a[i] % 32);
        AlphabetAt(b[i] % 32);
      }
    }
  }

  lemma AlphabetIsAlnum(k: int)
    requires 0 <= k < |ALPHABET|
    ensures IsAlnum(ALPHABET[k])
  {
  }

  /** Every generated code matches the canonical pattern. */
  lemma GeneratedConforms(bytes: Bytes)
    ensures Conforms(CodeOf(bytes))
  {
    var code := CodeOf(bytes);
    forall i | |PREFIX| <= i < |code|
      ensures IsAlnum(code[i])
    {
      AlphabetIsAlnum(bytes[i - |PREFIX|] % |ALPHABET|);
    }
  }

  /** The draws never stay for ever within fewer than `n` codes. */
  ghost predicate KeepsVarying(draws: nat -> Bytes, n: nat) {
    forall used, from :: |used| < n ==> Yields(draws, used, from)
  }

  /** From draw `from` on, some code outside `used` comes up. */
  ghost predicate Yields(draws: nat -> Bytes, used: set<string>, from: nat) {
    exists m: nat :: m >= from && CodeOf(draws(m)) !in used
  }

  // ---------------------------------------------------------------- the table

  ghost predicate Unique(codes: Codes) {
    forall a, b :: a in codes && b in codes && a != b && codes[a].Some? ==> codes[a] != codes[b]
  }

  predicate IsConforming(codes: Codes, id: UserId)
    requires id in codes
  {
    codes[id].Some? && Conforms(codes[id].value)
  }

  lemma {:induction false} ImageCardinality(codes: Codes, ids: set<UserId>)
    requires ids <= codes.Keys && forall id :: id in ids ==> codes[id].Some?
    ensures |set id | id in ids :: codes[id].value| <= |ids|
  {
    if ids == {} {
      assert (set id | id in ids :: codes[id].value) == {};
    } else {
      var x := Pick(ids);
      ImageCardinality(codes, ids - {x});
      assert (set id | id in ids :: codes[id].value) ==
             (set id | id in ids - {x} :: codes[id].value) + {codes[x].value};
    }
  }

  /** All conforming codes are among `used`. */
  ghost predicate ConformingIn(codes: Codes, used: set<string>) {
    forall id :: id in codes && IsConforming(codes, id) ==> codes[id].value in used
  }

  /** The same users, and the same codes outside the listed ones. */
  ghost predicate OthersKept(before: Codes, after: Codes, ids: seq<UserId>) {
    after.Keys == before.Keys && forall id :: id in before && id !in ids ==> after[id] == before[id]
  }

  /** A conforming code outside `used` belongs to nobody, not even to a row still to be rewritten. */
  lemma FreshIsUnused(codes: Codes, used: set<string>, code: string)
    requires ConformingIn(codes, used) && Conforms(code) && code !in used
    ensures forall id :: id in codes ==> codes[id] != Some(code)
    ensures forall id :: id in codes ==> ConformingIn(codes[id := Some(code)], used + {code})
  {
    forall id | id in codes
      ensures codes[id] != Some(code)
    {
      if codes[id] == Some(code) {
        assert IsConforming(codes, id);
        assert false;
      }
    }
    forall id | id in codes
      ensures ConformingIn(codes[id := Some(code)], used + {code})
    {
      var after := codes[id := Some(code)];
      forall x | x in after && IsConforming(after, x)
        ensures after[x].value in used + {code}
      {
        if x != id {
          assert IsConforming(codes, x);
        }
      }
    }
  }

  lemma KeptStep(before: Codes, now: Codes, ids: seq<UserId>, i: nat, code: string)
    requires i < |ids| && ids[i] in now && OthersKept(before, now, ids[..i])
    ensures OthersKept(before, now[ids[i] := Some(code)], ids[..i + 1])
  {
    assert ids[..i + 1] == ids[..i] + [ids[i]];
  }

  class Users {
    var codes: Codes

    constructor (codes: Codes)
      requires Unique(codes)
      ensures this.codes == codes && Valid()
    {
      this.codes := codes;
    }

    /** The unique index. */
    ghost predicate Valid()
      reads this
    {
      Unique(codes)
    }

    /** One UPDATE; the index would reject a code another row has. */
    method SetCode(id: UserId, code: string)
      requires Valid() && id in codes
      requires forall other :: other in codes && other != id ==> codes[other] != Some(code)
      modifies this
      ensures Valid() && codes == old(codes)[id := Some(code)]
    {
      codes := codes[id := Some(code)];
    }

    /** Draws until a code is free. */
    method FreshCode(used: set<string>, draws: nat -> Bytes, from: nat, ghost n: nat) returns (code: string, next: nat)
      requires KeepsVarying(draws, n) && |used| < n
      ensures Conforms(code) && code !in used && next > from && code == CodeOf(draws(next - 1))
    {
      assert Yields(draws, used, from);
      ghost var free: nat :| free >= from && CodeOf(draws(free)) !in used;
      next := from;
      code := GenerateSystemCode(draws(next));
      while code in used
        invariant from <= next <= free
        invariant code == CodeOf(draws(next)) && Conforms(code)
        decreases free - next
      {
        next := next + 1;
        code := GenerateSystemCode(draws(next));
      }
      next := next + 1;
    }

    /** The loop of both migrations: one fresh code and one UPDATE per pending row. */
    method AssignCodes(pending: seq<UserId>, existing: set<string>, draws: nat -> Bytes, from: nat) returns (next: nat)
      requires Valid() && KeepsVarying(draws, |codes|)
      requires NoDup(pending)
      requires forall i :: 0 <= i < |pending| ==> pending[i] in codes && !IsConforming(codes, pending[i])
      requires ConformingIn(codes, existing)
      requires |existing| + |pending| <= |codes|
      modifies this
      ensures Valid() && OthersKept(old(codes), codes, pending)
      ensures forall id :: id in pending ==> id in codes && IsConforming(codes, id)
    {
      next := from;
      var used := existing;
      for i := 0 to |pending|
        invariant Valid() && OthersKept(old(codes), codes, pending[..i])
        invariant |used| + |pending| <= |old(codes)| + i
        invariant ConformingIn(codes, used)
        invariant forall k :: 0 <= k < i ==> IsConforming(codes, pending[k])
      {
        var id := pending[i];
        var code;
        code, next := FreshCode(used, draws, next, |old(codes)|);
        FreshIsUnused(codes, used, code);
        KeptStep(old(codes), codes, pending, i, code);
        SetCode(id, code);
        used := used + {code};
      }
      assert pending[..|pending|] == pending;
    }

    /** Fills the missing codes. */
    method Backfill(draws: nat -> Bytes, from: nat) returns (next: nat)
      requires Valid() && KeepsVarying(draws, |codes|)
      modifies this
      ensures Valid() && codes.Keys == old(codes).Keys
      ensures forall id :: id in codes ==>
                if old(codes)[id].None? then IsConforming(codes, id) else codes[id] == old(codes)[id]
    {
      next := from;
      var missing := set id | id in codes && codes[id].None?;
      var pending := SetToSeq(missing);
      if |pending| == 0 {
        assert forall id :: id in codes ==> id !in missing;
        return;
      }
      var rest := set id | id in codes && codes[id].Some?;
      var existing := set id | id in rest :: codes[id].value;
      ImageCardinality(codes, rest);
      CountBoth(missing, rest, codes.Keys, pending);
      next := AssignCodes(pending, existing, draws, from);
    }

    /** Replaces every code outside the pattern; if none is, nothing is written or drawn. */
    method Normalize(draws: nat -> Bytes, from: nat) returns (next: nat)
      requires Valid() && KeepsVarying(draws, |codes|)
      modifies this
      ensures Valid() && codes.Keys == old(codes).Keys
      ensures forall id :: id in codes ==>
                IsConforming(codes, id) && (IsConforming(old(codes), id) ==> codes[id] == old(codes)[id])
      ensures (forall id :: id in old(codes) ==> IsConforming(old(codes), id)) ==> codes == old(codes) && next == from
    {
      next := from;
      var wrong := set id | id in codes && !IsConforming(codes, id);
      var pending := SetToSeq(wrong);
      if |pending| == 0 {
        assert forall id :: id in codes ==> id !in wrong;
        return;
      }
      assert pending[0] in wrong;
      var rest := set id | id in codes && IsConforming(codes, id);
      var existing := set id | id in rest :: codes[id].value;
      ImageCardinality(codes, rest);
      CountBoth(wrong, rest, codes.Keys, pending);
      next := AssignCodes(pending, existing, draws, from);
    }

    /**
      Both migrations in order: afterwards every user has a conforming code, all different,
      and the codes that already conformed are untouched.
      */
    method BackfillThenNormalize(draws: nat -> Bytes, from: nat) returns (next: nat)
      requires Valid() && KeepsVarying(draws, |codes|)
      modifies this
      ensures Valid() && codes.Keys == old(codes).Keys
      ensures forall id :: id in codes ==>
                IsConforming(codes, id) && (IsConforming(old(codes), id) ==> codes[id] == old(codes)[id])
      ensures (forall id :: id in old(codes) ==> IsConforming(old(codes), id)) ==> codes == old(codes)
    {
      ghost var before := codes;
      next := Backfill(draws, from);
      if forall id :: id in before ==> IsConforming(before, id) {
        forall id | id in before
          ensures codes[id] == before[id]
        {
          assert IsConforming(before, id);
        }
        assert codes.Keys == before.Keys;
        assert codes == before;
      }
      assert |codes| == |codes.Keys| == |old(codes).Keys| == |old(codes)|;
      next := Normalize(draws, next);
    }
  }

  lemma CountBoth(a: set<UserId>, b: set<UserId>, all: set<UserId>, listed: seq<UserId>)
    requires a * b == {} && a + b == all
    requires NoDup(listed) && forall x :: x in listed <==> x in a
    ensures |listed| + |b| == |all|
  {
    DistinctIffNoDup(listed);
    assert forall x :: x in Elements(listed) <==> x in a;
    assert Elements(listed) == a;
    assert |a + b| == |a| + |b|;
  }
}

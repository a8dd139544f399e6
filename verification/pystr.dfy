/** The parts of Python's `str` behaviour the scraper relies on: `isspace`,
    `strip`, `startswith`, slicing with possibly negative bounds, and `join`. */
module PyStr {
  import opened Seqs

  /** Python's `str.isspace` for a single character: the ASCII controls
      tab..carriage return and the file/group/record/unit separators, space,
      NEL, no-break space and the Unicode space separators. */
  predicate IsSpace(c: char)
  {
    var x := c as int;
    || 9 <= x <= 13
    || 28 <= x <= 32
    || x == 0x85
    || x == 0xA0
    || x == 0x1680
    || 0x2000 <= x <= 0x200A
    || x == 0x2028
    || x == 0x2029
    || x == 0x202F
    || x == 0x205F
    || x == 0x3000
  }

  /** Neither the first nor the last character is whitespace. */
  predicate Trimmed(s: string)
  {
    |s| > 0 ==> !IsSpace(s[0]) && !IsSpace(s[|s| - 1])
  }

  predicate AllSpace(s: string)
  {
    forall i :: 0 <= i < |s| ==> IsSpace(s[i])
  }

  /** `s.lstrip()`: the longest suffix of `s` that does not start with whitespace. */
  function LStrip(s: string): (r: string)
    ensures |r| <= |s| && r == s[|s| - |r|..]
    ensures AllSpace(s[..|s| - |r|])
    ensures |r| > 0 ==> !IsSpace(r[0])
  {
    if |s| > 0 && IsSpace(s[0]) then LStrip(s[1..]) else s
  }

  /** `s.rstrip()`: the longest prefix of `s` that does not end with whitespace. */
  function RStrip(s: string): (r: string)
    ensures |r| <= |s| && r == s[..|r|]
    ensures AllSpace(s[|r|..])
    ensures |r| > 0 ==> !IsSpace(r[|r| - 1])
  {
    if |s| > 0 && IsSpace(s[|s| - 1]) then RStrip(s[..|s| - 1]) else s
  }

  /** `r` is the infix of `s` starting at `k`, with only whitespace around it. */
  ghost predicate StrippedInfix(s: string, r: string, k: int)
  {
    && 0 <= k <= |s| - |r|
    && r == s[k..k + |r|]
    && AllSpace(s[..k])
    && AllSpace(s[k + |r|..])
  }

  /** `s.strip()`: the infix of `s` left once the whitespace at both ends is
      removed; it is empty exactly when `s` is all whitespace. */
  function Strip(s: string): (r: string)
    ensures |r| <= |s|
    ensures exists k :: StrippedInfix(s, r, k)
    ensures Trimmed(r)
    ensures r == [] <==> AllSpace(s)
  {
    var l := LStrip(s);
    var r := RStrip(l);
    InfixOfTrims(s, l, r);
    r
  }

  /** Trimming whitespace off the front of `s` (giving `l`) and then off the
      back of `l` (giving `r`) leaves the infix `Strip` promises. */
  lemma InfixOfTrims(s: string, l: string, r: string)
    requires |l| <= |s| && l == s[|s| - |l|..] && AllSpace(s[..|s| - |l|])
    requires |l| > 0 ==> !IsSpace(l[0])
    requires |r| <= |l| && r == l[..|r|] && AllSpace(l[|r|..])
    requires |r| > 0 ==> !IsSpace(r[|r| - 1])
    ensures |r| <= |s|
    ensures StrippedInfix(s, r, |s| - |l|)
    ensures Trimmed(r)
    ensures r == [] <==> AllSpace(s)
  {
    var k := |s| - |l|;
    assert r == s[k..k + |r|];
    assert AllSpace(s[k + |r|..]) by {
      assert s[k + |r|..] == l[|r|..];
    }
    if r == [] {
      assert s == s[..k] + l;
      assert l == l[|r|..];
    } else {
      assert r[0] == l[0] == s[k];
    }
  }

  /** Stripping only removes characters. */
  lemma StripChars(s: string)
    ensures forall c :: c in Strip(s) ==> c in s
  {
    var r := Strip(s);
    var k :| StrippedInfix(s, r, k);
    InfixChars(s, r, k);
  }

  lemma InfixChars(s: string, r: string, k: nat)
    requires k + |r| <= |s| && r == s[k..k + |r|]
    ensures forall c :: c in r ==> c in s
  {
    forall c | c in r
      ensures c in s
    {
      var i :| 0 <= i < |r| && r[i] == c;
      assert s[k + i] == c;
    }
  }

  /** Stripping text that already has no whitespace at its ends changes nothing. */
  lemma {:induction false} StripTrimmed(s: string)
    requires Trimmed(s)
    ensures Strip(s) == s
  {
    if |s| > 0 {
      assert LStrip(s) == s;
      assert RStrip(s) == s;
    }
  }

  /** `strip` is idempotent. */
  lemma StripIdempotent(s: string)
    ensures Strip(Strip(s)) == Strip(s)
  {
    StripTrimmed(Strip(s));
  }

  /** `s.startswith(p)`. */
  predicate StartsWith(s: string, p: string)
  {
    |p| <= |s| && s[..|p|] == p
  }

  function Min(a: int, b: int): int { if a <= b then a else b }

  function Max(a: int, b: int): int { if a <= b then b else a }

  /** Where a Python slice bound `k` lands in a string of length `n`: a negative
      bound counts from the end, and either kind is clamped to `0..n`. */
  function SliceBound(n: nat, k: int): (b: nat)
    ensures b <= n
    ensures 0 <= k ==> b == Min(k, n)
    ensures k < 0 ==> b == Max(0, n + k)
  {
    if 0 <= k then Min(k, n) else Max(0, n + k)
  }

  /** `s[:k]`, a prefix of `s`. */
  function SliceTo(s: string, k: int): (r: string)
    ensures |r| <= |s| && r == s[..|r|]
    ensures 0 <= k ==> |r| == Min(k, |s|)
    ensures k < 0 ==> |r| == Max(0, |s| + k)
  {
    s[..SliceBound(|s|, k)]
  }

  /** `s[k:]`, a suffix of `s`. */
  function SliceFrom(s: string, k: int): (r: string)
    ensures |r| <= |s| && r == s[|s| - |r|..]
    ensures 0 <= k ==> |r| == |s| - Min(k, |s|)
    ensures k < 0 ==> |r| == Min(-k, |s|)
  {
    s[SliceBound(|s|, k)..]
  }

  /** `s.endswith(p)`. */
  predicate EndsWith(s: string, p: string)
  {
    |p| <= |s| && s[|s| - |p|..] == p
  }

  /** `sep.join(parts)`. */
  function Join(parts: seq<string>, sep: string): (r: string)
    ensures |parts| == 0 ==> r == []
    ensures |parts| > 0 ==> StartsWith(r, parts[0])
    ensures |parts| > 0 ==> EndsWith(r, parts[|parts| - 1])
  {
    if |parts| == 0 then []
    else if |parts| == 1 then parts[0]
    else
      var rest := Join(parts[1..], sep);
      var r := parts[0] + sep + rest;
      assert r[|r| - |rest|..] == rest;
      r
  }

  /** Where part `t` starts in `sep.join(parts)`: the lengths of the parts
      before it, each followed by one separator. */
  function PartOffset(parts: seq<string>, sep: string, t: nat): nat
    requires t <= |parts|
  {
    if t == 0 then 0 else |parts[0]| + |sep| + PartOffset(parts[1..], sep, t - 1)
  }

  /** `sep.join` of two or more parts: the first part, a separator, and the
      join of the others. */
  lemma JoinCons(parts: seq<string>, sep: string)
    requires |parts| > 1
    ensures Join(parts, sep) == parts[0] + sep + Join(parts[1..], sep)
  {
  }

  /** The length of `sep.join(parts)`: every part and one separator
      between each part and the next. */
  lemma {:induction false} JoinLength(parts: seq<string>, sep: string)
    requires |parts| > 0
    ensures |Join(parts, sep)| == PartOffset(parts, sep, |parts| - 1) + |parts[|parts| - 1]|
  {
    if |parts| > 1 {
      var rest := parts[1..];
      JoinLength(rest, sep);
      JoinCons(parts, sep);
      assert rest[|rest| - 1] == parts[|parts| - 1];
      assert PartOffset(parts, sep, |parts| - 1) == |parts[0]| + |sep| + PartOffset(rest, sep, |rest| - 1);
    }
  }

  /** Part `t` of `sep.join(parts)` sits, unchanged, at its offset. */
  lemma {:induction false} JoinPart(parts: seq<string>, sep: string, t: nat)
    requires t < |parts|
    ensures PartOffset(parts, sep, t) + |parts[t]| <= |Join(parts, sep)|
    ensures Join(parts, sep)[PartOffset(parts, sep, t)..PartOffset(parts, sep, t) + |parts[t]|] == parts[t]
  {
    var r := Join(parts, sep);
    if |parts| == 1 {
      assert r == parts[0];
    } else {
      var rest := parts[1..];
      var tail := Join(rest, sep);
      var shift := |parts[0]| + |sep|;
      JoinCons(parts, sep);
      if t == 0 {
        SliceOfConcat(parts[0], sep, tail);
      } else {
        JoinPart(rest, sep, t - 1);
        assert rest[t - 1] == parts[t];
        var o := PartOffset(rest, sep, t - 1);
        assert PartOffset(parts, sep, t) == shift + o;
        SliceRight(parts[0] + sep, tail, o, o + |parts[t]|);
        assert r[shift + o..shift + o + |parts[t]|] == tail[o..o + |parts[t]|];
      }
    }
  }

  /** Between part `t` and part `t + 1` of `sep.join(parts)` there is exactly
      one separator. */
  lemma {:induction false} JoinSeparator(parts: seq<string>, sep: string, t: nat)
    requires t + 1 < |parts|
    ensures PartOffset(parts, sep, t + 1) == PartOffset(parts, sep, t) + |parts[t]| + |sep|
    ensures PartOffset(parts, sep, t + 1) <= |Join(parts, sep)|
    ensures Join(parts, sep)[PartOffset(parts, sep, t) + |parts[t]|..PartOffset(parts, sep, t + 1)] == sep
  {
    var r, rest := Join(parts, sep), parts[1..];
    var tail := Join(rest, sep);
    var shift := |parts[0]| + |sep|;
    JoinCons(parts, sep);
    JoinPart(parts, sep, t + 1);
    if t == 0 {
      assert PartOffset(parts, sep, 1) == shift;
      SliceOfConcat(parts[0], sep, tail);
    } else {
      JoinSeparator(rest, sep, t - 1);
      assert rest[t - 1] == parts[t];
      var o := PartOffset(rest, sep, t - 1) + |parts[t]|;
      var o' := PartOffset(rest, sep, t);
      assert PartOffset(parts, sep, t) + |parts[t]| == shift + o;
      assert PartOffset(parts, sep, t + 1) == shift + o';
      SliceRight(parts[0] + sep, tail, o, o');
      assert r[shift + o..shift + o'] == tail[o..o'];
    }
  }

  /** Joining non-empty parts that have no whitespace at their ends gives
      text with none at its ends, and empty text only when there are no parts. */
  lemma JoinTrimmed(parts: seq<string>, sep: string)
    requires forall t :: 0 <= t < |parts| ==> parts[t] != [] && Trimmed(parts[t])
    ensures Trimmed(Join(parts, sep))
    ensures Join(parts, sep) == [] <==> parts == []
  {
    if parts != [] {
      var r, first, last := Join(parts, sep), parts[0], parts[|parts| - 1];
      assert r[..|first|] == first;
      assert r[0] == first[0];
      assert r[|r| - |last|..] == last;
      assert r[|r| - 1] == last[|last| - 1];
    }
  }
}

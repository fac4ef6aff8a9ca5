/** The pieces of Python's `str` that the message handler relies on: `lower()`,
    `strip()` and clamped slicing. A Python `str` is a sequence of code points,
    which Dafny's `string` (a sequence of Unicode scalar values) matches. */
module Strings {

  function Min(a: int, b: int): int { if a <= b then a else b }

  /** Python's `s[:n]`: the first `n` characters, or all of `s` when it is shorter. */
  function Take(s: string, n: nat): (t: string)
    ensures |t| == Min(n, |s|)
    ensures t <= s
  {
    s[..Min(n, |s|)]
  }

  /** Python's `s[n:]`: everything after the first `n` characters, empty when `s` is shorter. */
  function Drop(s: string, n: nat): (t: string)
    ensures Take(s, n) + t == s
  {
    s[Min(n, |s|)..]
  }

  /** Python's `str.isspace()` for one character: the ASCII controls TAB..CR and
      FS..US, SPACE, NEL, NO-BREAK SPACE, OGHAM SPACE MARK, the spaces U+2000..U+200A,
      LINE and PARAGRAPH SEPARATOR, NARROW NO-BREAK SPACE, MEDIUM MATHEMATICAL SPACE
      and IDEOGRAPHIC SPACE. */
  predicate IsSpace(c: char) {
    || ('\t' <= c <= '\r')
    || ('\U{1C}' <= c <= ' ')
    || c == '\U{85}' || c == '\U{A0}' || c == '\U{1680}'
    || ('\U{2000}' <= c <= '\U{200A}')
    || c == '\U{2028}' || c == '\U{2029}' || c == '\U{202F}' || c == '\U{205F}'
    || c == '\U{3000}'
  }

  predicate AllSpace(s: string) {
    forall k :: 0 <= k < |s| ==> IsSpace(s[k])
  }

  /** Python's `str.lstrip()`: `s` without its leading whitespace. */
  function TrimStart(s: string): (t: string)
    ensures |t| <= |s| && t == s[|s| - |t|..]
    ensures AllSpace(s[..|s| - |t|])
    ensures t != [] ==> !IsSpace(t[0])
    decreases |s|
  {
    if s != [] && IsSpace(s[0]) then
      var t := TrimStart(s[1..]);
      SpaceBeforeSuffix(s, t);
      t
    else s
  }

  /** Python's `str.rstrip()`: `s` without its trailing whitespace. */
  function TrimEnd(s: string): (t: string)
    ensures |t| <= |s| && t == s[..|t|]
    ensures AllSpace(s[|t|..])
    ensures t != [] ==> !IsSpace(t[|t| - 1])
    decreases |s|
  {
    if s != [] && IsSpace(s[|s| - 1]) then
      var t := TrimEnd(s[..|s| - 1]);
      SpaceAfterPrefix(s, t);
      t
    else s
  }

  lemma SpaceBeforeSuffix(s: string, t: string)
    requires s != [] && IsSpace(s[0])
    requires |t| <= |s| - 1 && t == s[1..][|s| - 1 - |t|..] && AllSpace(s[1..][..|s| - 1 - |t|])
    ensures t == s[|s| - |t|..] && AllSpace(s[..|s| - |t|])
  {
    assert s[..|s| - |t|] == [s[0]] + s[1..][..|s| - 1 - |t|];
    AllSpaceAppend([s[0]], s[1..][..|s| - 1 - |t|]);
  }

  lemma SpaceAfterPrefix(s: string, t: string)
    requires s != [] && IsSpace(s[|s| - 1])
    requires |t| <= |s| - 1 && t == s[..|s| - 1][..|t|] && AllSpace(s[..|s| - 1][|t|..])
    ensures t == s[..|t|] && AllSpace(s[|t|..])
  {
    assert s[|t|..] == s[..|s| - 1][|t|..] + [s[|s| - 1]];
    AllSpaceAppend(s[..|s| - 1][|t|..], [s[|s| - 1]]);
  }

  /** Python's `str.strip()` with no argument: `s` without its leading and trailing
      whitespace. The result neither starts nor ends with whitespace, and it is
      empty exactly when `s` is all whitespace. */
  function Strip(s: string): (r: string)
    ensures |r| <= |s|
    ensures r != [] ==> !IsSpace(r[0]) && !IsSpace(r[|r| - 1])
    ensures r == [] <==> AllSpace(s)
  {
    var t := TrimStart(s);
    var r := TrimEnd(t);
    assert r != [] ==> r[0] == t[0];
    SpaceAroundCore(s, t, r);
    r
  }

  lemma SpaceAroundCore(s: string, t: string, r: string)
    requires |t| <= |s| && t == s[|s| - |t|..] && AllSpace(s[..|s| - |t|])
    requires t != [] ==> !IsSpace(t[0])
    requires |r| <= |t| && r == t[..|r|] && AllSpace(t[|r|..])
    ensures r == [] <==> AllSpace(s)
  {
    if r == [] {
      assert s == s[..|s| - |t|] + t[|r|..];
      AllSpaceAppend(s[..|s| - |t|], t[|r|..]);
    }
    if t != [] {
      assert s[|s| - |t|] == t[0];
    }
  }

  /** Strip removes whitespace only: `s` is whitespace, then Strip(s), then
      whitespace. */
  lemma StripBordered(s: string) returns (before: string, after: string)
    ensures s == before + Strip(s) + after
    ensures AllSpace(before) && AllSpace(after)
  {
    var t := TrimStart(s);
    var r := TrimEnd(t);
    before, after := s[..|s| - |t|], t[|r|..];
    SplitThree(s, t, r);
  }

  lemma SplitThree(s: string, t: string, r: string)
    requires |t| <= |s| && t == s[|s| - |t|..]
    requires |r| <= |t| && r == t[..|r|]
    ensures s == s[..|s| - |t|] + r + t[|r|..]
  {
    assert t == r + t[|r|..];
  }

  /** Strip is determined by its contract: whenever `s` is whitespace, then a text
      that neither starts nor ends with whitespace, then whitespace, stripping `s`
      gives exactly that text. */
  lemma StripCharacterized(a: string, r: string, b: string)
    requires AllSpace(a) && AllSpace(b)
    requires r != [] ==> !IsSpace(r[0]) && !IsSpace(r[|r| - 1])
    ensures Strip(a + r + b) == r
  {
    var before, after := StripBordered(a + r + b);
    var q := Strip(a + r + b);
    if r == [] {
      AllSpaceAppend(a, r);
      AllSpaceAppend(a + r, b);
    } else {
      assert (a + r + b)[|a|] == r[0];
      SameCore(a, r, b, before, q, after);
    }
  }

  /** Two ways of writing one text as whitespace, a core that neither starts nor ends
      with whitespace, and whitespace, have the same core. */
  lemma SameCore(a: string, r: string, b: string, a': string, q: string, b': string)
    requires a + r + b == a' + q + b'
    requires AllSpace(a) && AllSpace(b) && AllSpace(a') && AllSpace(b')
    requires r != [] && !IsSpace(r[0]) && !IsSpace(r[|r| - 1])
    requires q != [] && !IsSpace(q[0]) && !IsSpace(q[|q| - 1])
    ensures r == q
  {
    var s := a + r + b;
    assert forall k :: 0 <= k < |a| ==> s[k] == a[k];
    assert forall k :: 0 <= k < |a'| ==> s[k] == a'[k];
    assert s[|a|] == r[0] && s[|a'|] == q[0];
    assert |a| == |a'|;
    assert forall k :: |a| + |r| <= k < |s| ==> s[k] == b[k - |a| - |r|];
    assert forall k :: |a'| + |q| <= k < |s| ==> s[k] == b'[k - |a'| - |q|];
    assert s[|a| + |r| - 1] == r[|r| - 1] && s[|a'| + |q| - 1] == q[|q| - 1];
    assert |r| == |q|;
    assert r == s[|a|..|a| + |r|] == q;
  }

  /** Whitespace followed by whitespace is whitespace, and only then. */
  lemma AllSpaceAppend(a: string, b: string)
    ensures AllSpace(a + b) <==> AllSpace(a) && AllSpace(b)
  {
    if AllSpace(a) && AllSpace(b) {
      forall k | 0 <= k < |a + b| ensures IsSpace((a + b)[k]) {
        if k < |a| { assert (a + b)[k] == a[k]; } else { assert (a + b)[k] == b[k - |a|]; }
      }
    }
    if AllSpace(a + b) {
      forall k | 0 <= k < |a| ensures IsSpace(a[k]) {
        assert (a + b)[k] == a[k];
      }
      forall k | 0 <= k < |b| ensures IsSpace(b[k]) {
        assert (a + b)[|a| + k] == b[k];
      }
    }
  }

  /** Python's `str.lower()` on one character, for Basic Latin and the Cyrillic
      capitals U+0400..U+042F; every other character is left as it is. */
  function LowerChar(c: char): char {
    if 'A' <= c <= 'Z' then (c as int + 0x20) as char
    else if '\U{0410}' <= c <= '\U{042F}' then (c as int + 0x20) as char
    else if '\U{0400}' <= c <= '\U{040F}' then (c as int + 0x50) as char
    else c
  }

  /** `str.lower()` character by character; see LowerChar for its coverage. */
  function Lower(s: string): (r: string)
    ensures |r| == |s|
  {
    seq(|s|, k requires 0 <= k < |s| => LowerChar(s[k]))
  }
}

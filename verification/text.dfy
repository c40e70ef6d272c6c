/**
 The string helpers of Python's `str` that the tray applet relies on:
 `strip()` with no argument, `lower()`, `capitalize()` and the substring
 test `sub in s`. Letters are case-mapped in the ASCII range only; the
 whitespace set is the full one Python's `str.isspace` accepts.
 */
module Text {

  /** Python's `str.isspace` for one character: the set `str.strip()` removes. */
  predicate IsSpace(c: char) {
    || c == ' '
    || ('\t' <= c <= '\r')
    || ('\U{1C}' <= c <= '\U{1F}')
    || c == '\U{85}'
    || c == '\U{A0}'
    || c == '\U{1680}'
    || ('\U{2000}' <= c <= '\U{200A}')
    || c == '\U{2028}'
    || c == '\U{2029}'
    || c == '\U{202F}'
    || c == '\U{205F}'
    || c == '\U{3000}'
  }

  ghost predicate AllSpace(s: string) {
    forall i :: 0 <= i < |s| ==> IsSpace(s[i])
  }

  /** `s` has no whitespace at either end (the empty string qualifies). */
  predicate Trimmed(s: string) {
    s == [] || (!IsSpace(s[0]) && !IsSpace(s[|s| - 1]))
  }

  /** Drops leading whitespace: the result is a suffix of `s` and everything
      dropped is whitespace. */
  function TrimStart(s: string): (r: string)
    ensures |r| <= |s| && r == s[|s| - |r|..]
    ensures r == [] || !IsSpace(r[0])
    ensures AllSpace(s[..|s| - |r|])
    decreases |s|
  {
    if |s| > 0 && IsSpace(s[0]) then
      var r := TrimStart(s[1..]);
      assert s[1..][|s| - 1 - |r|..] == s[|s| - |r|..];
      AllSpaceAround([s[0]], s[1..][..|s| - 1 - |r|], []);
      assert s[..|s| - |r|] == [s[0]] + s[1..][..|s| - 1 - |r|] + [];
      r
    else
      assert s[..0] == [];
      s
  }

  /** Drops trailing whitespace: the result is a prefix of `s` and everything
      dropped is whitespace. */
  function TrimEnd(s: string): (r: string)
    ensures |r| <= |s| && r == s[..|r|]
    ensures r == [] || !IsSpace(r[|r| - 1])
    ensures AllSpace(s[|r|..])
    decreases |s|
  {
    if |s| > 0 && IsSpace(s[|s| - 1]) then
      var s' := s[..|s| - 1];
      var r := TrimEnd(s');
      assert s'[..|r|] == s[..|r|];
      AllSpaceAround([], s'[|r|..], [s[|s| - 1]]);
      assert s[|r|..] == [] + s'[|r|..] + [s[|s| - 1]];
      r
    else
      assert s[|s|..] == [];
      s
  }

  /** Whitespace joined to whitespace is whitespace. */
  lemma AllSpaceAround(a: string, b: string, c: string)
    requires AllSpace(a) && AllSpace(b) && AllSpace(c)
    ensures AllSpace(a + b + c)
  {
    var t := a + b + c;
    forall i | 0 <= i < |t|
      ensures IsSpace(t[i])
    {
      if i < |a| {
        assert t[i] == a[i];
      } else if i < |a| + |b| {
        assert t[i] == b[i - |a|];
      } else {
        assert t[i] == c[i - |a| - |b|];
      }
    }
  }

  /** `s` splits as whitespace, then `r` starting at index `i`, then whitespace. */
  ghost predicate PaddedAt(s: string, r: string, i: int) {
    && 0 <= i && i + |r| <= |s|
    && s[i..i + |r|] == r
    && AllSpace(s[..i])
    && AllSpace(s[i + |r|..])
  }

  /** Python's `s.strip()`: no whitespace is left at either end. */
  function Strip(s: string): (r: string)
    ensures Trimmed(r)
  {
    var t := TrimStart(s);
    var r := TrimEnd(t);
    assert r == [] || r[0] == t[0];
    r
  }

  /** What `Strip` keeps sits in `s` between two runs of whitespace. */
  lemma StripSplits(s: string)
    ensures exists i :: PaddedAt(s, Strip(s), i)
  {
    TrimBothEnds(s);
    assert PaddedAt(s, Strip(s), |s| - |TrimStart(s)|);
  }

  lemma TrimBothEnds(s: string)
    ensures PaddedAt(s, TrimEnd(TrimStart(s)), |s| - |TrimStart(s)|)
  {
    PaddedBetween(s, TrimStart(s), TrimEnd(TrimStart(s)));
  }

  /** Whitespace dropped from the front of `s` to give `t`, then from the back
      of `t` to give `r`, leaves `r` padded inside `s`. */
  lemma PaddedBetween(s: string, t: string, r: string)
    requires |t| <= |s| && t == s[|s| - |t|..] && AllSpace(s[..|s| - |t|])
    requires |r| <= |t| && r == t[..|r|] && AllSpace(t[|r|..])
    ensures PaddedAt(s, r, |s| - |t|)
  {
    var k := |s| - |t|;
    assert s[k..k + |r|] == r;
    assert s[k + |r|..] == t[|r|..];
  }

  /** Leading whitespace does not change what `TrimStart` returns. */
  lemma {:induction false} TrimStartSkipsSpace(pre: string, rest: string)
    requires AllSpace(pre)
    ensures TrimStart(pre + rest) == TrimStart(rest)
    decreases |pre|
  {
    if pre != [] {
      assert (pre + rest)[0] == pre[0];
      assert (pre + rest)[1..] == pre[1..] + rest;
      assert AllSpace(pre[1..]) by {
        forall i | 0 <= i < |pre| - 1 ensures IsSpace(pre[1..][i]) {
          assert pre[1..][i] == pre[i + 1];
        }
      }
      TrimStartSkipsSpace(pre[1..], rest);
    } else {
      assert pre + rest == rest;
    }
  }

  /** Trailing whitespace does not change what `TrimEnd` returns. */
  lemma {:induction false} TrimEndSkipsSpace(rest: string, post: string)
    requires AllSpace(post)
    ensures TrimEnd(rest + post) == TrimEnd(rest)
    decreases |post|
  {
    if post != [] {
      var post' := post[..|post| - 1];
      assert (rest + post)[|rest + post| - 1] == post[|post| - 1];
      assert (rest + post)[..|rest + post| - 1] == rest + post';
      assert AllSpace(post') by {
        forall i | 0 <= i < |post'| ensures IsSpace(post'[i]) {
          assert post'[i] == post[i];
        }
      }
      TrimEndSkipsSpace(rest, post');
    } else {
      assert rest + post == rest;
    }
  }

  /** The partner of `Strip`: padding any trimmed text with whitespace on
      both sides and stripping gives the text back. */
  lemma StripOfPadded(pre: string, core: string, post: string)
    requires AllSpace(pre) && AllSpace(post)
    requires Trimmed(core)
    ensures Strip(pre + core + post) == core
  {
    var s := pre + core + post;
    assert s == pre + (core + post);
    TrimStartSkipsSpace(pre, core + post);
    if core == [] {
      assert core + post == post + [];
      TrimStartSkipsSpace(post, []);
      assert TrimStart(s) == [];
    } else {
      assert (core + post)[0] == core[0];
      assert TrimStart(core + post) == core + post;
      TrimEndSkipsSpace(core, post);
      assert TrimEnd(core) == core;
    }
    assert Strip(s) == TrimEnd(TrimStart(s));
  }

  /** Stripping twice strips nothing more. */
  lemma StripIdempotent(s: string)
    ensures Strip(Strip(s)) == Strip(s)
  {
    var r := Strip(s);
    assert Trimmed(r);
    assert AllSpace([]);
    assert r == [] + r + [];
    StripOfPadded([], r, []);
  }

  predicate IsUpperLetter(c: char) { 'A' <= c <= 'Z' }

  predicate IsLowerLetter(c: char) { 'a' <= c <= 'z' }

  function LowerChar(c: char): char {
    if IsUpperLetter(c) then (c as int + 32) as char else c
  }

  function UpperChar(c: char): char {
    if IsLowerLetter(c) then (c as int - 32) as char else c
  }

  /** Python's `s.lower()`, character by character. */
  function Lower(s: string): (r: string)
    ensures |r| == |s|
    ensures forall i :: 0 <= i < |s| ==> r[i] == LowerChar(s[i])
    decreases |s|
  {
    if s == [] then [] else [LowerChar(s[0])] + Lower(s[1..])
  }

  /** Python's `s.capitalize()`: the first character upper-cased, the rest
      lower-cased. Lower-casing the result loses nothing that lower-casing
      the input would keep. */
  function Capitalize(s: string): (r: string)
    ensures Lower(r) == Lower(s)
    ensures |r| > 0 ==> !IsLowerLetter(r[0])
    ensures forall i :: 1 <= i < |r| ==> !IsUpperLetter(r[i])
  {
    if s == [] then [] else [UpperChar(s[0])] + Lower(s[1..])
  }

  /** The three properties in the contract of `Capitalize` pin the result
      down: any string that has them is the capitalisation of `s`. */
  lemma CapitalizeUnique(s: string, r: string)
    requires Lower(r) == Lower(s)
    requires |r| > 0 ==> !IsLowerLetter(r[0])
    requires forall i :: 1 <= i < |r| ==> !IsUpperLetter(r[i])
    ensures r == Capitalize(s)
  {
    var c := Capitalize(s);
    assert |r| == |s| == |c|;
    forall i | 0 <= i < |r|
      ensures r[i] == c[i]
    {
      assert LowerChar(r[i]) == Lower(r)[i] == Lower(s)[i] == LowerChar(s[i]);
      if i == 0 {
        assert c[0] == UpperChar(s[0]);
        SameLetterUpper(r[0], s[0]);
      } else {
        assert c[i] == Lower(s[1..])[i - 1] == LowerChar(s[i]);
      }
    }
  }

  /** A character that is not a lower-case letter and lower-cases like `b`
      is `b` upper-cased. */
  lemma SameLetterUpper(a: char, b: char)
    requires !IsLowerLetter(a) && LowerChar(a) == LowerChar(b)
    ensures a == UpperChar(b)
  {
  }

  /** Capitalising keeps both ends free of whitespace. */
  lemma CapitalizeKeepsTrimmed(s: string)
    requires Trimmed(s)
    ensures Trimmed(Capitalize(s))
  {
    var r := Capitalize(s);
    if r != [] {
      assert LowerChar(r[0]) == LowerChar(s[0]);
      assert LowerChar(r[|r| - 1]) == LowerChar(s[|s| - 1]);
    }
  }

  /** `sub` occurs in `s` starting at index `i`. */
  ghost predicate OccursAt(s: string, sub: string, i: int) {
    0 <= i && i + |sub| <= |s| && s[i..i + |sub|] == sub
  }

  /** The reference meaning of Python's `sub in s`. */
  ghost predicate HasSubstring(s: string, sub: string) {
    exists i :: OccursAt(s, sub, i)
  }

  /** Python's `sub in s`, computed by scanning from the left. */
  function Contains(s: string, sub: string): bool
    decreases |s|
  {
    if |sub| > |s| then false
    else if s[..|sub|] == sub then true
    else Contains(s[1..], sub)
  }

  /** A text lacking one of the characters of `sub` does not contain `sub`. */
  lemma {:induction false} MissingCharNotContained(s: string, sub: string, k: int)
    requires 0 <= k < |sub|
    requires forall i :: 0 <= i < |s| ==> s[i] != sub[k]
    ensures !Contains(s, sub)
    decreases |s|
  {
    if |sub| <= |s| {
      assert s[..|sub|][k] == s[k];
      assert forall i :: 0 <= i < |s| - 1 ==> s[1..][i] == s[i + 1];
      MissingCharNotContained(s[1..], sub, k);
    }
  }

  /** The scan finds an occurrence exactly when one exists. */
  lemma {:induction false} ContainsIffHasSubstring(s: string, sub: string)
    ensures Contains(s, sub) <==> HasSubstring(s, sub)
    decreases |s|
  {
    if |sub| > |s| {
    } else if s[..|sub|] == sub {
      assert OccursAt(s, sub, 0);
    } else {
      ContainsIffHasSubstring(s[1..], sub);
      if HasSubstring(s, sub) {
        var i :| OccursAt(s, sub, i);
        assert i != 0;
        assert s[1..][i - 1..i - 1 + |sub|] == s[i..i + |sub|];
        assert OccursAt(s[1..], sub, i - 1);
      }
      if HasSubstring(s[1..], sub) {
        var i :| OccursAt(s[1..], sub, i);
        assert s[1..][i..i + |sub|] == s[i + 1..i + 1 + |sub|];
        assert OccursAt(s, sub, i + 1);
      }
    }
  }
}

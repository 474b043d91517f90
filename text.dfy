/** Python's `str.strip()` with no argument, which the scheduler uses to tell
    a blank task description from a real one. */
module Text {

  /** Python's `str.isspace()` for one character: the characters `strip()`
      removes when it is given no argument. */
  predicate IsWhitespace(c: char) {
    || c == '\t' || c == '\n' || c == '\U{B}' || c == '\U{C}' || c == '\r'
    || c == '\U{1C}' || c == '\U{1D}' || c == '\U{1E}' || c == '\U{1F}' || c == ' '
    || c == '\U{85}' || c == '\U{A0}' || c == '\U{1680}'
    || c == '\U{2000}' || c == '\U{2001}' || c == '\U{2002}' || c == '\U{2003}'
    || c == '\U{2004}' || c == '\U{2005}' || c == '\U{2006}' || c == '\U{2007}'
    || c == '\U{2008}' || c == '\U{2009}' || c == '\U{200A}'
    || c == '\U{2028}' || c == '\U{2029}' || c == '\U{202F}' || c == '\U{205F}'
    || c == '\U{3000}'
  }

  /** A string made of whitespace only; the empty string is one. */
  predicate AllWhitespace(s: string) {
    forall i :: 0 <= i < |s| ==> IsWhitespace(s[i])
  }

  /** `s` without its leading whitespace. */
  function StripLeading(s: string): (r: string) {
    if s != [] && IsWhitespace(s[0]) then StripLeading(s[1..]) else s
  }

  /** `s` without its trailing whitespace. */
  function StripTrailing(s: string): (r: string) {
    if s != [] && IsWhitespace(s[|s| - 1]) then StripTrailing(s[..|s| - 1]) else s
  }

  /** Stripping the front leaves a suffix of `s`, and what it drops is
      whitespace. */
  lemma {:induction false} StripLeadingDropsWhitespace(s: string)
    ensures |StripLeading(s)| <= |s|
    ensures StripLeading(s) == s[|s| - |StripLeading(s)|..]
    ensures AllWhitespace(s[..|s| - |StripLeading(s)|])
  {
    if s != [] && IsWhitespace(s[0]) {
      StripLeadingDropsWhitespace(s[1..]);
      var k := |s| - |StripLeading(s)|;
      assert s[..k] == [s[0]] + s[1..][..k - 1];
    }
  }

  /** What stripping the front leaves does not start with whitespace. */
  lemma {:induction false} StripLeadingStartsSolid(s: string)
    ensures StripLeading(s) != [] ==> !IsWhitespace(StripLeading(s)[0])
  {
    if s != [] && IsWhitespace(s[0]) {
      StripLeadingStartsSolid(s[1..]);
    }
  }

  /** Stripping the back leaves a prefix of `s`, and what it drops is
      whitespace. */
  lemma {:induction false} StripTrailingDropsWhitespace(s: string)
    ensures |StripTrailing(s)| <= |s|
    ensures StripTrailing(s) == s[..|StripTrailing(s)|]
    ensures AllWhitespace(s[|StripTrailing(s)|..])
  {
    if s != [] && IsWhitespace(s[|s| - 1]) {
      var t := s[..|s| - 1];
      StripTrailingDropsWhitespace(t);
      var n := |StripTrailing(s)|;
      assert s[n..] == t[n..] + [s[|s| - 1]];
    }
  }

  /** What stripping the back leaves does not end with whitespace. */
  lemma {:induction false} StripTrailingEndsSolid(s: string)
    ensures StripTrailing(s) != [] ==> !IsWhitespace(StripTrailing(s)[|StripTrailing(s)| - 1])
  {
    if s != [] && IsWhitespace(s[|s| - 1]) {
      StripTrailingEndsSolid(s[..|s| - 1]);
    }
  }

  /** `s.strip()`: `s` without whitespace at either end. What is left is no
      longer than `s` and neither starts nor ends with whitespace. */
  function Strip(s: string): (r: string)
    ensures |r| <= |s|
    ensures r != [] ==> !IsWhitespace(r[0]) && !IsWhitespace(r[|r| - 1])
  {
    var left := StripLeading(s);
    StripLeadingDropsWhitespace(s);
    StripLeadingStartsSolid(s);
    StripTrailingDropsWhitespace(left);
    StripTrailingEndsSolid(left);
    var r := StripTrailing(left);
    assert r != [] ==> r[0] == left[0];
    r
  }

  /** `s.strip()` is the middle of `s` from offset `k`: what it removes at
      either end is whitespace, and it starts and ends with a character that
      is not. */
  lemma StripIsTrimmedMiddle(s: string) returns (k: nat)
    ensures k + |Strip(s)| <= |s|
    ensures Strip(s) == s[k..k + |Strip(s)|]
    ensures AllWhitespace(s[..k]) && AllWhitespace(s[k + |Strip(s)|..])
    ensures Strip(s) != [] ==> !IsWhitespace(Strip(s)[0]) && !IsWhitespace(Strip(s)[|Strip(s)| - 1])
  {
    var left := StripLeading(s);
    StripLeadingDropsWhitespace(s);
    StripTrailingDropsWhitespace(left);
    k := |s| - |left|;
    var r := Strip(s);
    assert s[k..k + |r|] == left[..|r|];
    assert s[k + |r|..] == left[|r|..];
  }

  /** `s.strip()` is empty exactly when `s` is blank. */
  lemma StripEmptyIff(s: string)
    ensures Strip(s) == [] <==> AllWhitespace(s)
  {
    var k := StripIsTrimmedMiddle(s);
    if Strip(s) == [] {
      assert s == s[..k] + s[k..];
    } else {
      assert s[k] == Strip(s)[0];
    }
  }
}

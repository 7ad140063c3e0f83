/**
 * The part of JavaScript's string library the page relies on:
 * `String.prototype.trim`, which removes white space and line terminators
 * from both ends of a string (section 22.1.3.32 of ECMA-262, with the
 * WhiteSpace and LineTerminator productions of sections 12.2 and 12.3).
 */
module JsString {

  /**
   * WhiteSpace or LineTerminator in ECMA-262: TAB, VT, FF, ZWNBSP, every
   * character of Unicode category Zs, LF, CR, LINE SEPARATOR and
   * PARAGRAPH SEPARATOR. All of them lie in the Basic Multilingual Plane, so a
   * UTF-16 code unit and a Unicode scalar value agree on them.
   */
  predicate IsWhitespace(c: char) {
    || c == '\t' || c == '\n' || c == '\U{000B}' || c == '\U{000C}' || c == '\r'
    || c == ' ' || c == '\U{00A0}' || c == '\U{1680}'
    || ('\U{2000}' <= c <= '\U{200A}')
    || c == '\U{2028}' || c == '\U{2029}' || c == '\U{202F}' || c == '\U{205F}'
    || c == '\U{3000}' || c == '\U{FEFF}'
  }

  /** Every character of `s` is white space (the empty string included). */
  predicate IsBlank(s: string) {
    forall i :: 0 <= i < |s| ==> IsWhitespace(s[i])
  }

  /** `s` with its leading white space removed. */
  function TrimStart(s: string): (r: string)
    ensures |r| <= |s| && r == s[|s| - |r|..]
    ensures IsBlank(s[..|s| - |r|])
    ensures r != [] ==> !IsWhitespace(r[0])
  {
    if s != [] && IsWhitespace(s[0]) then TrimStart(s[1..]) else s
  }

  /** `s` with its trailing white space removed. */
  function TrimEnd(s: string): (r: string)
    ensures |r| <= |s| && r == s[..|r|]
    ensures IsBlank(s[|r|..])
    ensures r != [] ==> !IsWhitespace(r[|r| - 1])
  {
    if s != [] && IsWhitespace(s[|s| - 1]) then TrimEnd(s[..|s| - 1]) else s
  }

  /** `s.trim()`: a contiguous slice of `s`, cut off only white space, and neither ending in white space. */
  function Trim(s: string): (r: string)
    ensures |r| <= |s|
    ensures r != [] ==> !IsWhitespace(r[0]) && !IsWhitespace(r[|r| - 1])
    ensures exists k :: 0 <= k <= |s| - |r| && r == s[k..k + |r|] && IsBlank(s[..k]) && IsBlank(s[k + |r|..])
  {
    var u := TrimStart(s);
    var r := TrimEnd(u);
    var k := |s| - |u|;
    assert r == s[k..k + |r|];
    assert IsBlank(s[k + |r|..]) by {
      assert s[k + |r|..] == u[|r|..];
    }
    r
  }

  /** `s.trim() === ""` holds exactly when `s` is empty or all white space. */
  lemma TrimEmptyIffBlank(s: string)
    ensures Trim(s) == [] <==> IsBlank(s)
  {
    var u := TrimStart(s);
    if Trim(s) == [] {
      assert IsBlank(u) by { assert u[0..] == u; }
      forall i | 0 <= i < |s| ensures IsWhitespace(s[i]) {
        if i < |s| - |u| {
          assert s[..|s| - |u|][i] == s[i];
        } else {
          assert u[i - (|s| - |u|)] == s[i];
        }
      }
    }
  }
}

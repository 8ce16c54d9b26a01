/**
 * Kotlin's `String.trim()` and `isBlank()`: both use `Char.isWhitespace()`,
 * which on the JVM is `Character.isWhitespace(c) || Character.isSpaceChar(c)`.
 */
module Whitespace {

  /**
   * The characters Kotlin treats as whitespace: the ASCII controls TAB, LF,
   * VT, FF, CR and FS..US, and the Unicode space, line and paragraph
   * separators (categories Zs, Zl, Zp). No lemma below depends on the exact set.
   */
  predicate IsWs(c: char) {
    || ('\t' <= c <= '\r')
    || ('\U{1C}' <= c <= ' ')
    || c == '\U{A0}' || c == '\U{1680}'
    || ('\U{2000}' <= c <= '\U{200A}')
    || c == '\U{2028}' || c == '\U{2029}' || c == '\U{202F}' || c == '\U{205F}' || c == '\U{3000}'
  }

  /** `isBlank()`: empty or whitespace only. */
  predicate IsBlank(s: string) {
    forall i :: 0 <= i < |s| ==> IsWs(s[i])
  }

  /** Drops the leading whitespace: the result is the suffix of `s` that starts at its first non-whitespace character. */
  function TrimStart(s: string): (r: string)
    ensures |r| <= |s| && r == s[|s| - |r|..]
    ensures IsBlank(s[..|s| - |r|])
    ensures r == [] || !IsWs(r[0])
    decreases |s|
  {
    if s != [] && IsWs(s[0]) then
      var r := TrimStart(s[1..]);
      assert s[..|s| - |r|] == [s[0]] + s[1..][..|s| - 1 - |r|];
      r
    else s
  }

  /** Drops the trailing whitespace: the result is the prefix of `s` that ends at its last non-whitespace character. */
  function TrimEnd(s: string): (r: string)
    ensures |r| <= |s| && r == s[..|r|]
    ensures IsBlank(s[|r|..])
    ensures r == [] || !IsWs(r[|r| - 1])
    decreases |s|
  {
    if s != [] && IsWs(s[|s| - 1]) then
      var r := TrimEnd(s[..|s| - 1]);
      assert s[|r|..] == s[..|s| - 1][|r|..] + [s[|s| - 1]];
      r
    else s
  }

  /** `trim()`: neither end of the result is whitespace, and it is empty exactly when `s` is blank. */
  function Trim(s: string): (r: string)
    ensures |r| <= |s|
    ensures r == [] || (!IsWs(r[0]) && !IsWs(r[|r| - 1]))
    ensures r == [] <==> IsBlank(s)
  {
    var u := TrimStart(s);
    var r := TrimEnd(u);
    assert r != [] ==> r[0] == u[0];
    assert u == [] ==> s[..|s|] == s;
    r
  }

  /**
   * `trim()` cuts a whitespace-only prefix and a whitespace-only suffix off
   * `s` and keeps the part in between.
   */
  lemma TrimIsInfix(s: string)
    ensures exists i :: 0 <= i <= i + |Trim(s)| <= |s|
                     && Trim(s) == s[i..i + |Trim(s)|]
                     && IsBlank(s[..i]) && IsBlank(s[i + |Trim(s)|..])
  {
    var u := TrimStart(s);
    var r := TrimEnd(u);
    var i := |s| - |u|;
    assert u == s[i..];
    assert r == u[..|r|] == s[i..i + |r|];
    assert s[i + |r|..] == u[|r|..];
    assert IsBlank(s[..i]) && IsBlank(s[i + |r|..]);
    assert Trim(s) == r;
  }

  /** A string that starts and ends with a non-whitespace character is its own trim. */
  lemma TrimKeepsTrimmed(s: string)
    requires s != [] && !IsWs(s[0]) && !IsWs(s[|s| - 1])
    ensures Trim(s) == s
  {
    assert TrimStart(s) == s;
  }

  /** Trimming twice is trimming once. */
  lemma TrimIdempotent(s: string)
    ensures Trim(Trim(s)) == Trim(s)
  {
    if Trim(s) != [] {
      TrimKeepsTrimmed(Trim(s));
    }
  }

  /** `text.trim().isNotBlank()` holds exactly when the trimmed text is non-empty. */
  lemma BlankAfterTrim(s: string)
    ensures IsBlank(Trim(s)) <==> Trim(s) == []
    ensures IsBlank(Trim(s)) <==> IsBlank(s)
  {
    var r := Trim(s);
    if r != [] {
      assert !IsWs(r[0]);
    }
  }
}

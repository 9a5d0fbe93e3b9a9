/**
 * Whitespace trimming as ECMAScript's String.prototype.trim performs it: the
 * characters of the WhiteSpace and LineTerminator productions are removed from
 * both ends of a string and nothing else changes.
 */
module Text {

  /** WhiteSpace (TAB, VT, FF, ZWNBSP and every Zs space) or LineTerminator (LF, CR, LS, PS). */
  predicate IsWhitespace(c: char) {
    c == '\t' || c == '\n' || c == '\U{000B}' || c == '\U{000C}' || c == '\r' || c == ' '
    || c == '\U{00A0}' || c == '\U{1680}' || ('\U{2000}' <= c <= '\U{200A}')
    || c == '\U{2028}' || c == '\U{2029}' || c == '\U{202F}' || c == '\U{205F}'
    || c == '\U{3000}' || c == '\U{FEFF}'
  }

  /** Every character is whitespace; `s.trim()` is then the empty (falsy) string. */
  predicate Blank(s: string) {
    forall i | 0 <= i < |s| :: IsWhitespace(s[i])
  }

  /** Neither end of `s` is whitespace. */
  predicate IsTrimmed(s: string) {
    s == [] || (!IsWhitespace(s[0]) && !IsWhitespace(s[|s| - 1]))
  }

  /** Drops the leading whitespace: the result is the suffix of `s` after its blank prefix. */
  function TrimStart(s: string): (r: string)
    ensures |r| <= |s| && r == s[|s| - |r|..]
    ensures Blank(s[..|s| - |r|])
    ensures r == [] || !IsWhitespace(r[0])
  {
    if s != [] && IsWhitespace(s[0]) then TrimStart(s[1..]) else s
  }

  /** Drops the trailing whitespace: the result is the prefix of `s` before its blank suffix. */
  function TrimEnd(s: string): (r: string)
    ensures |r| <= |s| && r == s[..|r|]
    ensures Blank(s[|r|..])
    ensures r == [] || !IsWhitespace(r[|r| - 1])
  {
    if s != [] && IsWhitespace(s[|s| - 1]) then TrimEnd(s[..|s| - 1]) else s
  }

  /**
   * `s.trim()`: what is left once the blank prefix and the blank suffix are
   * removed. It is empty exactly when `s` is blank; TrimUnique shows it is the
   * middle of every cut of `s` into blank, trimmed and blank parts.
   */
  function Trim(s: string): (r: string)
    ensures |r| <= |s| && IsTrimmed(r)
    ensures r == [] <==> Blank(s)
  {
    var t := TrimStart(s);
    var r := TrimEnd(t);
    assert s[|s| - |t|..] == t;
    if r == [] then
      BlankJoin(s, |s| - |t|);
      r
    else
      assert r[0] == t[0];
      NonBlankAt(s, |s| - |t|);
      r
  }

  /** A blank prefix followed by a blank suffix makes a blank string. */
  lemma BlankJoin(s: string, i: nat)
    requires i <= |s| && Blank(s[..i]) && Blank(s[i..])
    ensures Blank(s)
  {
    forall k | 0 <= k < |s| ensures IsWhitespace(s[k]) {
      if k < i { assert s[k] == s[..i][k]; } else { assert s[k] == s[i..][k - i]; }
    }
  }

  /** A string with a non-whitespace character is not blank. */
  lemma NonBlankAt(s: string, i: nat)
    requires i < |s| && !IsWhitespace(s[i])
    ensures !Blank(s)
  {
  }

  /** TrimStart stops at the first non-whitespace character, wherever the blank prefix ends. */
  lemma {:induction false} TrimStartAt(s: string, i: nat)
    requires i <= |s| && Blank(s[..i]) && (i == |s| || !IsWhitespace(s[i]))
    ensures TrimStart(s) == s[i..]
  {
    if i > 0 {
      assert s[0] == s[..i][0];
      assert s[1..][..i - 1] == s[1..i];
      TrimStartAt(s[1..], i - 1);
      assert s[1..][i - 1..] == s[i..];
    }
  }

  /** TrimEnd stops at the last non-whitespace character, wherever the blank suffix starts. */
  lemma {:induction false} TrimEndAt(s: string, j: nat)
    requires j <= |s| && Blank(s[j..]) && (j == 0 || !IsWhitespace(s[j - 1]))
    ensures TrimEnd(s) == s[..j]
  {
    if j < |s| {
      assert s[|s| - 1] == s[j..][|s| - 1 - j];
      var p := s[..|s| - 1];
      assert p[j..] == s[j..|s| - 1];
      TrimEndAt(p, j);
      assert p[..j] == s[..j];
    }
  }

  /** `Trim(s)` is the middle of a cut of `s` into a blank prefix, itself and a blank suffix. */
  lemma TrimIsCut(s: string)
    ensures exists i: nat, j: nat :: i <= j <= |s| && Blank(s[..i]) && Blank(s[j..]) && Trim(s) == s[i..j]
  {
    var t := TrimStart(s);
    var r := TrimEnd(t);
    assert r == Trim(s);
    var i := |s| - |t|;
    var j := i + |r|;
    assert t == s[i..];
    assert r == s[i..j] by { assert r == t[..|r|]; }
    assert Blank(s[j..]) by { assert s[j..] == t[|r|..]; }
    assert Blank(s[..i]);
    assert i <= j <= |s| && Blank(s[..i]) && Blank(s[j..]) && Trim(s) == s[i..j];
  }

  /** Trimming a string that is already trimmed changes nothing. */
  lemma TrimOfTrimmed(s: string)
    requires IsTrimmed(s)
    ensures Trim(s) == s
  {
    assert TrimStart(s) == s;
    assert TrimEnd(s) == s;
  }

  /** `s.trim().trim() == s.trim()`. */
  lemma TrimIdempotent(s: string)
    ensures Trim(Trim(s)) == Trim(s)
  {
    TrimOfTrimmed(Trim(s));
  }

  /**
   * Trim is the only way to cut `s` into a blank prefix, a trimmed middle and a
   * blank suffix: whichever cut satisfies that, its middle is `Trim(s)`.
   */
  lemma TrimUnique(s: string, i: nat, j: nat)
    requires i <= j <= |s|
    requires Blank(s[..i]) && Blank(s[j..]) && IsTrimmed(s[i..j])
    ensures Trim(s) == s[i..j]
  {
    if i == j {
      assert s[i..] == s[j..];
      BlankJoin(s, i);
    } else {
      assert s[i] == s[i..j][0];
      TrimStartAt(s, i);
      var t := s[i..];
      assert t[j - i..] == s[j..];
      assert t[j - i - 1] == s[i..j][j - i - 1];
      TrimEndAt(t, j - i);
      assert t[..j - i] == s[i..j];
    }
  }
}

/**
 Candidate-name trimming (`newItem.trim()`, pages/index.js:12-13).

 `IsWhitespace` is the fixed set of code points that ECMAScript's
 `String.prototype.trim` strips: the WhiteSpace characters of section 12.2
 of ECMA-262 (tab, vertical tab, form feed, space, no-break space, the
 byte-order mark and the Unicode space separators) and its LineTerminators
 of section 12.3 (line feed, carriage return, line and paragraph separators).
 */
module Text {

  predicate IsWhitespace(c: char) {
    c == '\t' || c == '\n' || c == '\U{000B}' || c == '\U{000C}' || c == '\r' || c == ' ' ||
    c == '\U{00A0}' || c == '\U{1680}' || ('\U{2000}' <= c <= '\U{200A}') ||
    c == '\U{2028}' || c == '\U{2029}' || c == '\U{202F}' || c == '\U{205F}' ||
    c == '\U{3000}' || c == '\U{FEFF}'
  }

  /** Every character of `s` is whitespace (so `s.trim()` is empty). */
  predicate Blank(s: string) {
    forall k | 0 <= k < |s| :: IsWhitespace(s[k])
  }

  /** Drops leading whitespace: the result is a suffix of `s`, what was
      dropped is blank, and the result does not start with whitespace. */
  function TrimStart(s: string): (r: string)
    ensures |r| <= |s| && r == s[|s| - |r|..]
    ensures Blank(s[..|s| - |r|])
    ensures r == [] || !IsWhitespace(r[0])
  {
    if s != [] && IsWhitespace(s[0]) then TrimStart(s[1..]) else s
  }

  /** Drops trailing whitespace: the result is a prefix of `s`, what was
      dropped is blank, and the result does not end with whitespace. */
  function TrimEnd(s: string): (r: string)
    ensures |r| <= |s| && r == s[..|r|]
    ensures Blank(s[|r|..])
    ensures r == [] || !IsWhitespace(r[|r| - 1])
  {
    if s != [] && IsWhitespace(s[|s| - 1]) then TrimEnd(s[..|s| - 1]) else s
  }

  /** Length of the leading whitespace run of `s`. */
  function Lead(s: string): nat {
    |s| - |TrimStart(s)|
  }

  /** `String.prototype.trim`: `s` is a blank prefix, the result, and a
      blank suffix; the result is empty exactly when `s` is blank, and
      otherwise neither starts nor ends with whitespace. */
  function Trim(s: string): (r: string)
    ensures Lead(s) + |r| <= |s|
    ensures r == s[Lead(s)..Lead(s) + |r|]
    ensures Blank(s[..Lead(s)]) && Blank(s[Lead(s) + |r|..])
    ensures r == [] <==> Blank(s)
    ensures r != [] ==> !IsWhitespace(r[0]) && !IsWhitespace(r[|r| - 1])
  {
    TrimEnd(TrimStart(s))
  }

  /** A string whose ends are not whitespace is its own trim. */
  lemma TrimFixed(s: string)
    requires s != [] && !IsWhitespace(s[0]) && !IsWhitespace(s[|s| - 1])
    ensures Trim(s) == s
  {
    assert TrimStart(s) == s;
  }

  /** Trimming a trimmed string changes nothing. */
  lemma TrimIdempotent(s: string)
    ensures Trim(Trim(s)) == Trim(s)
  {
  }
}

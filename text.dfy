/**
 * String helpers used by the scripts: ASCII case mapping (Python `.lower()`,
 * JavaScript `toLowerCase()`, under the assumption that catalog text is ASCII
 * for case purposes), `strip`, substring tests, `split(sep)[-1]` and `str(n)`.
 */
module Text {

  function LowerChar(c: char): char {
    if 'A' <= c <= 'Z' then (c as int + 32) as char else c
  }

  function UpperChar(c: char): char {
    if 'a' <= c <= 'z' then (c as int - 32) as char else c
  }

  predicate IsAsciiLetter(c: char) {
    'a' <= c <= 'z' || 'A' <= c <= 'Z'
  }

  /** ASCII lower-casing of a whole string. */
  function Lower(s: string): string {
    seq(|s|, i requires 0 <= i < |s| => LowerChar(s[i]))
  }

  lemma LowerAppend(a: string, b: string)
    ensures Lower(a + b) == Lower(a) + Lower(b)
  {
    assert forall i | 0 <= i < |a + b| :: Lower(a + b)[i] == (Lower(a) + Lower(b))[i];
  }

  /** Characters Python's `str.isspace()` (and so `str.strip()` and `\s`) treat as whitespace. */
  const PyWhitespace: set<char> :=
    {'\U{20}', '\U{9}', '\U{A}', '\U{D}', '\U{B}', '\U{C}', '\U{1C}', '\U{1D}',
     '\U{1E}', '\U{1F}', '\U{85}', '\U{A0}', '\U{1680}', '\U{2000}', '\U{2001}', '\U{2002}',
     '\U{2003}', '\U{2004}', '\U{2005}', '\U{2006}', '\U{2007}', '\U{2008}', '\U{2009}', '\U{200A}',
     '\U{2028}', '\U{2029}', '\U{202F}', '\U{205F}', '\U{3000}'}

  /** Characters JavaScript's `String.prototype.trim` and the regex class `\s` treat as whitespace. */
  const JsWhitespace: set<char> :=
    {'\U{20}', '\U{9}', '\U{A}', '\U{D}', '\U{B}', '\U{C}', '\U{A0}', '\U{1680}',
     '\U{2000}', '\U{2001}', '\U{2002}', '\U{2003}', '\U{2004}', '\U{2005}', '\U{2006}', '\U{2007}',
     '\U{2008}', '\U{2009}', '\U{200A}', '\U{2028}', '\U{2029}', '\U{202F}', '\U{205F}', '\U{3000}',
     '\U{FEFF}'}

  /** Drops the leading characters that belong to `cs`. */
  function TrimStart(s: string, cs: set<char>): (r: string)
    ensures |r| <= |s| && r == s[|s| - |r|..]
    ensures r == [] || r[0] !in cs
  {
    if s != [] && s[0] in cs then TrimStart(s[1..], cs) else s
  }

  /** Drops the trailing characters that belong to `cs`. */
  function TrimEnd(s: string, cs: set<char>): (r: string)
    ensures |r| <= |s| && r == s[..|r|]
    ensures r == [] || r[|r| - 1] !in cs
  {
    if s != [] && s[|s| - 1] in cs then TrimEnd(s[..|s| - 1], cs) else s
  }

  /** Python `s.strip(chars)`: both ends. */
  function Strip(s: string, cs: set<char>): string {
    TrimEnd(TrimStart(s, cs), cs)
  }

  /** `strip` leaves no character of `cs` at either end. */
  lemma StripEnds(s: string, cs: set<char>)
    ensures var r := Strip(s, cs); r == [] || (r[0] !in cs && r[|r| - 1] !in cs)
  {
    var t := TrimStart(s, cs);
    var r := TrimEnd(t, cs);
    if r != [] {
      assert r[0] == t[0];
    }
  }

  /** `strip` only removes characters: each one it keeps is a character of `s`. */
  lemma StripKeepsChars(s: string, cs: set<char>)
    ensures forall c :: c in Strip(s, cs) ==> c in s
  {
    var t := TrimStart(s, cs);
    assert forall c :: c in t ==> c in s by {
      assert t == s[|s| - |t|..];
    }
    var r := TrimEnd(t, cs);
    assert forall c :: c in r ==> c in t by {
      assert r == t[..|r|];
    }
  }

  /** Python `s.strip()` with no argument. */
  function PyStrip(s: string): string {
    Strip(s, PyWhitespace)
  }

  predicate StartsWith(s: string, prefix: string) {
    prefix <= s
  }

  predicate EndsWith(s: string, suffix: string) {
    |suffix| <= |s| && s[|s| - |suffix|..] == suffix
  }

  /** `needle in s` for strings. */
  predicate Contains(s: string, needle: string) {
    StartsWith(s, needle) || (s != [] && Contains(s[1..], needle))
  }

  /** An occurrence at a position is an occurrence. */
  lemma {:induction false} ContainsAt(s: string, needle: string, j: nat)
    requires j <= |s| && needle <= s[j..]
    ensures Contains(s, needle)
  {
    if j > 0 {
      assert s[1..][j - 1..] == s[j..];
      ContainsAt(s[1..], needle, j - 1);
    }
  }

  /** An occurrence has a position. */
  lemma {:induction false} ContainsWitness(s: string, needle: string)
    requires Contains(s, needle)
    ensures exists j :: 0 <= j <= |s| && needle <= s[j..]
  {
    if !StartsWith(s, needle) {
      ContainsWitness(s[1..], needle);
      var j :| 0 <= j <= |s| - 1 && needle <= s[1..][j..];
      assert s[1..][j..] == s[j + 1..];
    } else {
      assert s[0..] == s;
    }
  }

  /** `needle in s` for some needle of the list. */
  predicate ContainsAny(s: string, needles: seq<string>) {
    exists k :: 0 <= k < |needles| && Contains(s, needles[k])
  }

  /** Python `s.split(sep)[-1]`, JavaScript `s.split(sep).pop()`: the text after the last `sep`. */
  function LastSegment(s: string, sep: char): (r: string)
    ensures |r| <= |s| && r == s[|s| - |r|..]
    ensures sep !in r
    ensures |r| < |s| ==> s[|s| - |r| - 1] == sep
  {
    if s == [] || s[|s| - 1] == sep then "" else LastSegment(s[..|s| - 1], sep) + [s[|s| - 1]]
  }

  /** The text before the first character of `cs` (all of `s` when there is none); Python `s.split(c)[0]` for a single character. */
  function BeforeFirst(s: string, cs: set<char>): (r: string)
    ensures |r| <= |s| && r == s[..|r|]
    ensures forall i :: 0 <= i < |r| ==> r[i] !in cs
    ensures |r| < |s| ==> s[|r|] in cs
  {
    if s == [] || s[0] in cs then [] else [s[0]] + BeforeFirst(s[1..], cs)
  }

  /** Python `str(n)` for a natural number. */
  function NatToString(n: nat): string {
    if n < 10 then [DigitChar(n)] else NatToString(n / 10) + [DigitChar(n % 10)]
  }

  function DigitChar(d: nat): char
    requires d < 10
  {
    ('0' as int + d) as char
  }

  /** Python `s.replace(a, b)` for single characters. */
  function ReplaceChar(s: string, a: char, b: char): string {
    seq(|s|, i requires 0 <= i < |s| => if s[i] == a then b else s[i])
  }

  /** Python `s.split(sep)`: never empty. */
  function Split(s: string, sep: char): (parts: seq<string>)
    ensures |parts| >= 1
  {
    if s == [] then [""]
    else
      var rest := Split(s[1..], sep);
      if s[0] == sep then [""] + rest else [[s[0]] + rest[0]] + rest[1..]
  }
}

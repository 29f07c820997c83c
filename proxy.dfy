/**
 * js/proxy.js: `normalizeUrl`, which turns what is typed into the URL bar
 * into the address the proxy page loads: a URL with a scheme, or a Google
 * search for the text. JavaScript strings are sequences of Unicode scalar
 * values here, so `encodeURIComponent` never meets a lone surrogate.
 */
module Proxy {
  import opened Text

  /** The argument of `normalizeUrl`: a string, or any other JavaScript value. */
  datatype JsValue = JsString(s: string) | NotString

  const GoogleHome := "https://www.google.com/"
  const SearchPrefix := "https://www.google.com/search?q="

  /** `TLD_LIST`. */
  const Tlds: seq<string> := ["com", "dev", "net", "edu", "org", "gov", "io", "co", "app", "xyz", "info", "me", "us",
                              "uk", "eu", "au", "ca", "in", "de", "fr", "jp", "cn", "tv", "cc", "ru", "br", "es", "it",
                              "nl", "pl"]

  /** `String.prototype.trim`. */
  function Trim(s: string): string {
    Strip(s, JsWhitespace)
  }

  /** `/\s/.test(s)`. */
  predicate HasSpace(s: string) {
    AnyIn(s, JsWhitespace)
  }

  /** Some character of `s` belongs to `cs`. */
  predicate AnyIn(s: string, cs: set<char>) {
    exists i :: 0 <= i < |s| && s[i] in cs
  }

  lemma AnyInAppend(p: string, q: string, cs: set<char>)
    ensures AnyIn(p + q, cs) <==> AnyIn(p, cs) || AnyIn(q, cs)
  {
    if AnyIn(p, cs) {
      var i :| 0 <= i < |p| && p[i] in cs;
      assert (p + q)[i] == p[i];
    }
    if AnyIn(q, cs) {
      var i :| 0 <= i < |q| && q[i] in cs;
      assert (p + q)[|p| + i] == q[i];
    }
    if AnyIn(p + q, cs) {
      var i :| 0 <= i < |p + q| && (p + q)[i] in cs;
      if i >= |p| {
        assert q[i - |p|] == (p + q)[i];
      } else {
        assert p[i] == (p + q)[i];
      }
    }
  }

  /** Lower-casing neither adds nor removes a character that is not an ASCII letter. */
  lemma AnyInLower(s: string, cs: set<char>)
    requires forall c :: c in cs ==> !IsAsciiLetter(c)
    ensures AnyIn(Lower(s), cs) <==> AnyIn(s, cs)
  {
    if AnyIn(s, cs) {
      var i :| 0 <= i < |s| && s[i] in cs;
      assert Lower(s)[i] == s[i];
    }
    if AnyIn(Lower(s), cs) {
      var i :| 0 <= i < |s| && Lower(s)[i] in cs;
      assert Lower(s)[i] == s[i];
    }
  }

  /** A text with none of `cs` is its own strip. */
  lemma StripNone(r: string, cs: set<char>)
    requires r != [] && !AnyIn(r, cs)
    ensures Strip(r, cs) == r
  {
    assert r[0] !in cs;
    assert TrimStart(r, cs) == r;
    assert r[|r| - 1] !in cs;
  }

  /** What may follow the TLD: `[\s\/\?#"']` or the end of the input. */
  predicate TldEnd(s: string, j: nat) {
    j == |s| || (j < |s| && (s[j] in JsWhitespace || s[j] in {'/', '?', '#', '"', '\''}))
  }

  /** A dot at `k`, then the TLD `t` in any case, then an allowed end. */
  predicate TldAt(s: string, k: int, t: string) {
    0 <= k && k + 1 + |t| <= |s| && s[k] == '.' && Lower(s[k + 1..k + 1 + |t|]) == t && TldEnd(s, k + 1 + |t|)
  }

  /** Some TLD of the list matches at `k`. */
  predicate TldMatchAt(s: string, k: int, tlds: seq<string>) {
    exists t :: t in tlds && TldAt(s, k, t)
  }

  /** `TLD_PATTERN` (case-insensitive) matches somewhere in `s`. */
  ghost predicate HasValidTld(s: string, tlds: seq<string>) {
    exists k :: 0 <= k && TldMatchAt(s, k, tlds)
  }

  /** The regex scan: is there a match starting at `k` or later? */
  function TldFrom(s: string, k: nat, tlds: seq<string>): bool
    decreases |s| - k
  {
    if k >= |s| then false
    else TldMatchAt(s, k, tlds) || TldFrom(s, k + 1, tlds)
  }

  /** The scan finds a match exactly when one exists. */
  lemma {:induction false} TldFromIff(s: string, k: nat, tlds: seq<string>)
    ensures TldFrom(s, k, tlds) <==> exists j :: k <= j && TldMatchAt(s, j, tlds)
    decreases |s| - k
  {
    if k < |s| {
      TldFromIff(s, k + 1, tlds);
      if exists j :: k <= j && TldMatchAt(s, j, tlds) {
        var j :| k <= j && TldMatchAt(s, j, tlds);
        if j > k {
          assert k + 1 <= j;
        }
      }
    }
  }

  /** `/^https?:\/\//i.test(s)`. */
  predicate HasScheme(s: string) {
    (|s| >= 7 && Lower(s[..7]) == "http://") || (|s| >= 8 && Lower(s[..8]) == "https://")
  }

  /** The characters `encodeURIComponent` leaves alone. */
  predicate IsUnreserved(c: char) {
    ('A' <= c <= 'Z') || ('a' <= c <= 'z') || ('0' <= c <= '9')
    || c in {'-', '_', '.', '!', '~', '*', '\'', '(', ')'}
  }

  /** The UTF-8 encoding of one character. */
  function Utf8(c: char): (bytes: seq<int>)
    ensures 1 <= |bytes| <= 4 && forall i :: 0 <= i < |bytes| ==> 0 <= bytes[i] < 256
    ensures (c as int < 0x80) <==> bytes == [c as int]
  {
    var cp := c as int;
    if cp < 0x80 then [cp]
    else if cp < 0x800 then [0xC0 + cp / 64, 0x80 + cp % 64]
    else if cp < 0x10000 then [0xE0 + cp / 4096, 0x80 + (cp / 64) % 64, 0x80 + cp % 64]
    else [0xF0 + cp / 262144, 0x80 + (cp / 4096) % 64, 0x80 + (cp / 64) % 64, 0x80 + cp % 64]
  }

  /** The UTF-8 encoding of a string. */
  function Utf8String(s: string): seq<int> {
    if s == [] then [] else Utf8(s[0]) + Utf8String(s[1..])
  }

  function HexDigit(n: nat): char
    requires n < 16
  {
    if n < 10 then ('0' as int + n) as char else ('A' as int + n - 10) as char
  }

  predicate IsHex(c: char) {
    ('0' <= c <= '9') || ('A' <= c <= 'F') || ('a' <= c <= 'f')
  }

  function HexValue(c: char): nat
    requires IsHex(c)
  {
    if '0' <= c <= '9' then c as int - '0' as int
    else if 'A' <= c <= 'F' then c as int - 'A' as int + 10
    else c as int - 'a' as int + 10
  }

  /** `%HH` with upper-case hex digits. */
  function PercentBytes(bytes: seq<int>): (r: string)
    requires forall i :: 0 <= i < |bytes| ==> 0 <= bytes[i] < 256
    ensures |r| == 3 * |bytes|
  {
    if bytes == [] then [] else PercentUnit(bytes[0]) + PercentBytes(bytes[1..])
  }

  /** One byte as `%HH`. */
  function PercentUnit(b: int): (r: string)
    requires 0 <= b < 256
    ensures |r| == 3
  {
    ['%', HexDigit(b / 16), HexDigit(b % 16)]
  }

  function EncodeChar(c: char): string {
    if IsUnreserved(c) then [c] else PercentBytes(Utf8(c))
  }

  /** `encodeURIComponent`. */
  function EncodeUriComponent(s: string): string {
    if s == [] then [] else EncodeChar(s[0]) + EncodeUriComponent(s[1..])
  }

  /** Percent-decoding to bytes: `%HH` is the byte HH, any other character its own code. */
  function PercentDecode(s: string): seq<int> {
    if s == [] then []
    else if s[0] == '%' && |s| >= 3 && IsHex(s[1]) && IsHex(s[2]) then
      [HexValue(s[1]) * 16 + HexValue(s[2])] + PercentDecode(s[3..])
    else [s[0] as int] + PercentDecode(s[1..])
  }

  lemma HexDigitValue(n: nat)
    requires n < 16
    ensures IsHex(HexDigit(n)) && HexValue(HexDigit(n)) == n
  {
  }

  /** One `%HH` unit decodes to its byte. */
  lemma DecodeUnit(b: int, tail: string)
    requires 0 <= b < 256
    ensures PercentDecode(PercentUnit(b) + tail) == [b] + PercentDecode(tail)
  {
    HexDigitValue(b / 16);
    HexDigitValue(b % 16);
    var s := PercentUnit(b) + tail;
    assert s[3..] == tail;
  }

  /** Decoding the `%HH` units of some bytes, followed by anything, gives back those bytes first. */
  lemma {:induction false} DecodePercentBytes(bytes: seq<int>, rest: string)
    requires forall i :: 0 <= i < |bytes| ==> 0 <= bytes[i] < 256
    ensures PercentDecode(PercentBytes(bytes) + rest) == bytes + PercentDecode(rest)
  {
    if bytes == [] {
      assert PercentBytes(bytes) + rest == rest;
    } else {
      DecodePercentBytes(bytes[1..], rest);
      var tail := PercentBytes(bytes[1..]) + rest;
      assert PercentBytes(bytes) + rest == PercentUnit(bytes[0]) + tail;
      DecodeUnit(bytes[0], tail);
      ConsAppend(bytes, PercentDecode(rest));
    }
  }

  lemma ConsAppend(bytes: seq<int>, tail: seq<int>)
    requires bytes != []
    ensures [bytes[0]] + (bytes[1..] + tail) == bytes + tail
  {
    assert bytes == [bytes[0]] + bytes[1..];
  }

  /** Decoding what `encodeURIComponent` produced gives back the UTF-8 bytes of the input. */
  lemma {:induction false} DecodeEncoded(s: string)
    ensures PercentDecode(EncodeUriComponent(s)) == Utf8String(s)
  {
    if s != [] {
      var c := s[0];
      DecodeEncoded(s[1..]);
      if IsUnreserved(c) {
        assert EncodeUriComponent(s) == [c] + EncodeUriComponent(s[1..]);
        assert (([c] + EncodeUriComponent(s[1..])))[1..] == EncodeUriComponent(s[1..]);
      } else {
        DecodePercentBytes(Utf8(c), EncodeUriComponent(s[1..]));
      }
    }
  }

  /** The encoding holds only unreserved characters, `%` and hex digits: no whitespace. */
  lemma {:induction false} EncodedCharacters(s: string)
    ensures forall i :: 0 <= i < |EncodeUriComponent(s)| ==>
      var c := EncodeUriComponent(s)[i]; IsUnreserved(c) || c == '%' || IsHex(c)
    ensures !HasSpace(EncodeUriComponent(s))
  {
    if s != [] {
      EncodedCharacters(s[1..]);
      var head := EncodeChar(s[0]);
      if !IsUnreserved(s[0]) {
        PercentCharacters(Utf8(s[0]));
      }
      var e := EncodeUriComponent(s);
      assert e == head + EncodeUriComponent(s[1..]);
      forall i | 0 <= i < |e| ensures IsUnreserved(e[i]) || e[i] == '%' || IsHex(e[i]) {
        if i >= |head| {
          assert e[i] == EncodeUriComponent(s[1..])[i - |head|];
        }
      }
    }
    var e := EncodeUriComponent(s);
    forall i | 0 <= i < |e| ensures e[i] !in JsWhitespace {
      SafeNotSpace(e[i]);
    }
  }

  lemma SafeNotSpace(c: char)
    requires IsUnreserved(c) || c == '%' || IsHex(c)
    ensures c !in JsWhitespace
  {
  }

  lemma {:induction false} PercentCharacters(bytes: seq<int>)
    requires forall i :: 0 <= i < |bytes| ==> 0 <= bytes[i] < 256
    ensures forall i :: 0 <= i < |PercentBytes(bytes)| ==> PercentBytes(bytes)[i] == '%' || IsHex(PercentBytes(bytes)[i])
  {
    if bytes != [] {
      PercentCharacters(bytes[1..]);
      var p := PercentBytes(bytes);
      forall i | 0 <= i < |p| ensures p[i] == '%' || IsHex(p[i]) {
        if i >= 3 {
          assert p[i] == PercentBytes(bytes[1..])[i - 3];
        }
      }
    }
  }

  /** A space is sent as `%20`. */
  lemma SpaceEncoded()
    ensures EncodeChar(' ') == "%20"
  {
    assert Utf8(' ') == [32];
  }

  /** `normalizeUrl`, with `TLD_LIST` as `Tlds`. */
  function NormalizeUrl(input: JsValue): string {
    Normalize(input, Tlds)
  }

  /** `normalizeUrl` for a given TLD list; the lemmas below hold for every list. */
  function Normalize(input: JsValue, tlds: seq<string>): string {
    if input.NotString? then GoogleHome else NormalizeTrimmed(Trim(input.s), tlds)
  }

  /** What `normalizeUrl` does once the input is trimmed. */
  function NormalizeTrimmed(raw: string, tlds: seq<string>): string {
    if raw == "" then GoogleHome
    else if HasSpace(raw) || !TldFrom(raw, 0, tlds) then SearchPrefix + EncodeUriComponent(raw)
    else
      var lower := Lower(raw);
      if !HasScheme(lower) then "https://" + lower else lower
  }

  /** Every result begins with `https://` or `http://`. */
  lemma OutputHasScheme(input: JsValue, tlds: seq<string>)
    ensures var r := Normalize(input, tlds); StartsWith(r, "https://") || StartsWith(r, "http://")
  {
    if input.JsString? {
      var raw := Trim(input.s);
      if raw != "" && !(HasSpace(raw) || !TldFrom(raw, 0, tlds)) {
        LowerIdempotent(raw);
        SchemeIsLower(Lower(raw));
      } else if raw != "" {
        SearchHasScheme(EncodeUriComponent(raw));
      }
    }
  }

  lemma SearchHasScheme(query: string)
    ensures StartsWith(SearchPrefix + query, "https://")
  {
  }

  /** For a lower-cased text the case-insensitive scheme test is a plain prefix test. */
  lemma SchemeIsLower(lower: string)
    requires Lower(lower) == lower
    ensures HasScheme(lower) ==> StartsWith(lower, "https://") || StartsWith(lower, "http://")
  {
    if |lower| >= 7 {
      assert Lower(lower)[..7] == Lower(lower[..7]);
    }
    if |lower| >= 8 {
      assert Lower(lower)[..8] == Lower(lower[..8]);
    }
  }

  lemma LowerIdempotent(s: string)
    ensures Lower(Lower(s)) == Lower(s)
  {
  }

  /** An input that trims to nothing opens the Google home page. */
  lemma NormalizeEmpty(s: string, tlds: seq<string>)
    requires Trim(s) == ""
    ensures Normalize(JsString(s), tlds) == GoogleHome
  {
  }

  /**
   * Whitespace inside the trimmed input, or no TLD match anywhere in it, gives
   * a Google search for the trimmed input.
   */
  lemma NormalizeSearch(s: string, tlds: seq<string>)
    requires Trim(s) != "" && (HasSpace(Trim(s)) || !HasValidTld(Trim(s), tlds))
    ensures Normalize(JsString(s), tlds) == SearchPrefix + EncodeUriComponent(Trim(s))
  {
    TldFromIff(Trim(s), 0, tlds);
  }

  /**
   * The query of a search URL decodes to the UTF-8 bytes of the text searched
   * for, and the URL holds no whitespace: a space travels as `%20`.
   */
  lemma SearchUrlDecodes(raw: string)
    ensures var r := SearchPrefix + EncodeUriComponent(raw);
      && PercentDecode(r[|SearchPrefix|..]) == Utf8String(raw)
      && !HasSpace(r)
  {
    EncodedCharacters(raw);
    SearchQuery(EncodeUriComponent(raw));
    DecodeEncoded(raw);
  }

  /** The search URL carries the query after the prefix and adds no whitespace of its own. */
  lemma SearchQuery(q: string)
    requires !HasSpace(q)
    ensures (SearchPrefix + q)[|SearchPrefix|..] == q
    ensures !HasSpace(SearchPrefix + q)
  {
    VisibleNoSpace(SearchPrefix);
    AnyInAppend(SearchPrefix, q, JsWhitespace);
  }

  /** Printable ASCII other than the space. */
  predicate Visible(s: string) {
    forall i :: 0 <= i < |s| ==> '!' <= s[i] <= '~'
  }

  lemma VisibleNoSpace(s: string)
    requires Visible(s)
    ensures !HasSpace(s)
  {
    forall i | 0 <= i < |s| ensures s[i] !in JsWhitespace {
      if s[i] in JsWhitespace {
        SpaceInvisible(s[i]);
      }
    }
  }

  lemma SpaceInvisible(c: char)
    requires c in JsWhitespace
    ensures !('!' <= c <= '~')
  {
  }

  /**
   * A trimmed input without whitespace that matches the TLD pattern somewhere
   * is taken as an address: lower-cased, with `https://` in front unless it
   * already has a scheme.
   */
  lemma NormalizeAddress(s: string, tlds: seq<string>)
    requires Trim(s) != "" && !HasSpace(Trim(s)) && HasValidTld(Trim(s), tlds)
    ensures var lower := Lower(Trim(s));
      Normalize(JsString(s), tlds) == (if HasScheme(lower) then lower else "https://" + lower)
  {
    TldFromIff(Trim(s), 0, tlds);
  }

  lemma LowerKeepsSpaces(s: string)
    ensures HasSpace(Lower(s)) <==> HasSpace(s)
  {
    AnyInLower(s, JsWhitespace);
  }

  /** A TLD match survives lower-casing. */
  lemma TldAtLower(s: string, k: int, t: string)
    requires TldAt(s, k, t)
    ensures TldAt(Lower(s), k, t)
  {
    var l := Lower(s);
    assert l[k + 1..k + 1 + |t|] == Lower(s[k + 1..k + 1 + |t|]);
    LowerIdempotent(s[k + 1..k + 1 + |t|]);
    var j := k + 1 + |t|;
    if j < |s| {
      assert l[j] == s[j];
    }
  }

  /** A TLD match survives a prefix, shifted by its length. */
  lemma TldAtShift(p: string, s: string, k: int, t: string)
    requires TldAt(s, k, t)
    ensures TldAt(p + s, |p| + k, t)
  {
    var u := p + s;
    assert u[|p| + k + 1..|p| + k + 1 + |t|] == s[k + 1..k + 1 + |t|];
    var j := k + 1 + |t|;
    if j < |s| {
      assert u[|p| + j] == s[j];
    }
  }

  /**
   * The address the URL branch produces is lower-case, begins with a scheme,
   * holds no whitespace and still matches the TLD pattern.
   */
  lemma AddressShape(raw: string, tlds: seq<string>)
    requires raw != "" && !HasSpace(raw) && HasValidTld(raw, tlds)
    ensures var lower := Lower(raw); var r := if HasScheme(lower) then lower else "https://" + lower;
      r != "" && !HasSpace(r) && HasValidTld(r, tlds) && Lower(r) == r && HasScheme(r)
  {
    LowerKeepsSpaces(raw);
    LowerIdempotent(raw);
    LowerKeepsTld(raw, tlds);
    if !HasScheme(Lower(raw)) {
      PrefixedAddress(Lower(raw), tlds);
    }
  }

  /** A TLD match survives lower-casing. */
  lemma LowerKeepsTld(raw: string, tlds: seq<string>)
    requires HasValidTld(raw, tlds)
    ensures HasValidTld(Lower(raw), tlds)
  {
    var k :| 0 <= k && TldMatchAt(raw, k, tlds);
    var t :| t in tlds && TldAt(raw, k, t);
    TldAtLower(raw, k, t);
    assert TldMatchAt(Lower(raw), k, tlds);
  }

  /** Putting `https://` in front keeps a lower-case address lower-case, free of whitespace and matching the TLD pattern. */
  lemma PrefixedAddress(lower: string, tlds: seq<string>)
    requires !HasSpace(lower) && HasValidTld(lower, tlds) && Lower(lower) == lower
    ensures var r := "https://" + lower;
      !HasSpace(r) && HasValidTld(r, tlds) && Lower(r) == r && HasScheme(r)
  {
    PrefixKeepsTld("https://", lower, tlds);
    SchemeShape();
    PrefixKeepsLower("https://", lower);
    AnyInAppend("https://", lower, JsWhitespace);
    SchemePrefix(lower);
  }

  /** `https://` is lower-case and free of whitespace. */
  lemma SchemeShape()
    ensures Lower("https://") == "https://" && !HasSpace("https://")
  {
    VisibleNoSpace("https://");
    assert Lower("https://") == "https://";
  }

  lemma PrefixKeepsTld(p: string, s: string, tlds: seq<string>)
    requires HasValidTld(s, tlds)
    ensures HasValidTld(p + s, tlds)
  {
    var k :| 0 <= k && TldMatchAt(s, k, tlds);
    var t :| t in tlds && TldAt(s, k, t);
    TldAtShift(p, s, k, t);
    assert TldMatchAt(p + s, |p| + k, tlds);
  }

  lemma PrefixKeepsLower(p: string, s: string)
    requires Lower(p) == p && Lower(s) == s
    ensures Lower(p + s) == p + s
  {
    LowerAppend(p, s);
  }

  lemma SchemePrefix(s: string)
    ensures HasScheme("https://" + s)
  {
    assert ("https://" + s)[..8] == "https://";
  }

  /** A lower-case address with a scheme, no whitespace and a TLD match normalises to itself. */
  lemma AddressFixed(r: string, tlds: seq<string>)
    requires r != "" && !HasSpace(r) && HasValidTld(r, tlds) && Lower(r) == r && HasScheme(r)
    ensures NormalizeTrimmed(r, tlds) == r
  {
    TldFromIff(r, 0, tlds);
  }

  /** Normalising a URL-branch result again returns it unchanged. */
  lemma UrlBranchIdempotent(s: string, tlds: seq<string>)
    requires Trim(s) != "" && !HasSpace(Trim(s)) && HasValidTld(Trim(s), tlds)
    ensures Normalize(JsString(Normalize(JsString(s), tlds)), tlds) == Normalize(JsString(s), tlds)
  {
    NormalizeAddress(s, tlds);
    AddressShape(Trim(s), tlds);
    var r := Normalize(JsString(s), tlds);
    StripNone(r, JsWhitespace);
    AddressFixed(r, tlds);
  }
}

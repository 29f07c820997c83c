/**
 * `update_html_paths` of scripts/download-lagged-game-full.py: two passes of
 * `re.sub` whose pattern is `https?://`, a run without `/`, the escaped
 * domain, a run without quotes, a `/`, and the group `([^/]+EXT)`, EXT being
 * `.js` then `.css`; each match becomes `js/NAME` or `css/NAME`.
 * Python's backtracking matcher is written out: the scheme, then the last
 * place before the next `/` where the domain fits, then the last `/` before
 * the next quote that can be followed by a name ending in EXT, then the
 * last such end before the next `/`; the scan resumes after a match and
 * moves on one character otherwise.
 */
module HtmlPaths {
  import opened Wrappers
  import opened Text

  /** The character at `j` is one of `cs`. */
  predicate IsOf(u: string, j: int, cs: set<char>) {
    0 <= j < |u| && u[j] in cs
  }

  /** The first index from `i` on holding a character of `cs`, or `|u|`: where `[^cs]*` must stop. */
  function NextOf(u: string, i: nat, cs: set<char>): (r: nat)
    requires i <= |u|
    ensures i <= r <= |u|
    ensures r < |u| ==> IsOf(u, r, cs)
    ensures forall j :: i <= j < r ==> !IsOf(u, j, cs)
    decreases |u| - i
  {
    if i == |u| || u[i] in cs then i else NextOf(u, i + 1, cs)
  }

  const Quotes: set<char> := {'"', '\''}

  /*
   * Each greedy repetition of the pattern backtracks from its longest run:
   * the searches below return the largest position of a range where the
   * rest of the pattern can match.
   */

  /** `w` occurs in `u` at `k`. */
  predicate Occurs(u: string, k: int, w: string) {
    0 <= k && k + |w| <= |u| && forall j :: 0 <= j < |w| ==> u[k + j] == w[j]
  }

  /** `ext` ends at `q`. */
  predicate EndsAt(u: string, q: int, ext: string) {
    Occurs(u, q - |ext|, ext)
  }

  /** The largest `q` of `[lo, hi]` where `ext` ends. */
  function LastEnd(u: string, lo: int, hi: int, ext: string): (r: Option<int>)
    ensures r.Some? ==> lo <= r.value <= hi && EndsAt(u, r.value, ext)
    decreases hi - lo
  {
    if hi < lo then None
    else if EndsAt(u, hi, ext) then Some(hi)
    else LastEnd(u, lo, hi - 1, ext)
  }
  /** The search finds a position whenever one exists in the range, and none is larger. */
  lemma {:induction false} LastEndMax(u: string, lo: int, hi: int, ext: string, x: int)
    requires lo <= x <= hi && EndsAt(u, x, ext)
    ensures LastEnd(u, lo, hi, ext).Some? && x <= LastEnd(u, lo, hi, ext).value
    decreases hi - lo
  {
    if !EndsAt(u, hi, ext) {
      LastEndMax(u, lo, hi - 1, ext, x);
    }
  }


  /** `([^/]+EXT)` after the `/` at `p`: its end, the last one before the next `/`. */
  function GroupEnd(u: string, p: nat, ext: string): Option<int>
    requires p < |u|
  {
    LastEnd(u, p + 2 + |ext|, NextOf(u, p + 1, {'/'}), ext)
  }

  /** A `/` at `p` that a group can follow. */
  predicate SlashAt(u: string, p: int, ext: string) {
    0 <= p < |u| && u[p] == '/' && GroupEnd(u, p, ext).Some?
  }

  /** The largest `p` of `[lo, hi]` where a `/` and a group follow. */
  function LastSlash(u: string, lo: int, hi: int, ext: string): (r: Option<int>)
    ensures r.Some? ==> lo <= r.value <= hi && SlashAt(u, r.value, ext)
    decreases hi - lo
  {
    if hi < lo then None
    else if SlashAt(u, hi, ext) then Some(hi)
    else LastSlash(u, lo, hi - 1, ext)
  }
  /** The search finds a position whenever one exists in the range, and none is larger. */
  lemma {:induction false} LastSlashMax(u: string, lo: int, hi: int, ext: string, x: int)
    requires lo <= x <= hi && SlashAt(u, x, ext)
    ensures LastSlash(u, lo, hi, ext).Some? && x <= LastSlash(u, lo, hi, ext).value
    decreases hi - lo
  {
    if !SlashAt(u, hi, ext) {
      LastSlashMax(u, lo, hi - 1, ext, x);
    }
  }


  /** The quote-free run and the `/` from `s`: the last `/` before the next quote that a group can follow. */
  function SlashFrom(u: string, s: nat, ext: string): Option<int>
    requires s <= |u|
  {
    LastSlash(u, s, NextOf(u, s, Quotes) - 1, ext)
  }

  /** The domain occurs at `k`. */
  predicate DomainAt(u: string, domain: string, k: int) {
    Occurs(u, k, domain)
  }

  /** The domain occurs at `k` and the rest of the pattern can follow it. */
  predicate DomainFits(u: string, domain: string, k: int, ext: string) {
    DomainAt(u, domain, k) && SlashFrom(u, k + |domain|, ext).Some?
  }

  /** The largest `k` of `[lo, hi]` where the domain fits. */
  function LastDomain(u: string, lo: int, hi: int, domain: string, ext: string): (r: Option<int>)
    ensures r.Some? ==> lo <= r.value <= hi && DomainFits(u, domain, r.value, ext)
    decreases hi - lo
  {
    if hi < lo then None
    else if DomainFits(u, domain, hi, ext) then Some(hi)
    else LastDomain(u, lo, hi - 1, domain, ext)
  }
  /** The search finds a position whenever one exists in the range, and none is larger. */
  lemma {:induction false} LastDomainMax(u: string, lo: int, hi: int, domain: string, ext: string, x: int)
    requires lo <= x <= hi && DomainFits(u, domain, x, ext)
    ensures LastDomain(u, lo, hi, domain, ext).Some? && x <= LastDomain(u, lo, hi, domain, ext).value
    decreases hi - lo
  {
    if !DomainFits(u, domain, hi, ext) {
      LastDomainMax(u, lo, hi - 1, domain, ext, x);
    }
  }


  /** `[^/]*DOMAIN` from `h`: the last place before the next `/` where the domain fits. */
  function DomainFrom(u: string, h: nat, domain: string, ext: string): Option<int>
    requires h <= |u|
  {
    LastDomain(u, h, NextOf(u, h, {'/'}), domain, ext)
  }

  /** `https?://` at `i`: where the host starts. */
  function HostStart(u: string, i: nat): (h: Option<nat>)
    requires i <= |u|
    ensures h.Some? ==> i < h.value <= |u|
  {
    if Occurs(u, i, "https://") then Some(i + 8)
    else if Occurs(u, i, "http://") then Some(i + 7)
    else None
  }

  /** A match: where it ends, and its group. */
  datatype Match = Match(end: nat, group: string)

  /** The match of the pattern starting at `i`, if any. */
  function MatchAt(u: string, i: nat, domain: string, ext: string): (m: Option<Match>)
    requires i < |u|
    ensures m.Some? ==> i < m.value.end <= |u| && EndsAt(u, m.value.end, ext)
  {
    var h := HostStart(u, i);
    if h.None? then None
    else
      var k := DomainFrom(u, h.value, domain, ext);
      if k.None? then None
      else
        var p := SlashFrom(u, k.value + |domain|, ext).value;
        var q := GroupEnd(u, p, ext).value;
        Some(Match(q, u[p + 1..q]))
  }

  /** `re.sub` from `i` on: each match replaced by `repl` and its group. */
  function Rewrite(u: string, domain: string, ext: string, repl: string, i: nat): string
    requires i <= |u|
    decreases |u| - i
  {
    if i == |u| then ""
    else
      match MatchAt(u, i, domain, ext)
      case Some(m) => repl + m.group + Rewrite(u, domain, ext, repl, m.end)
      case None => [u[i]] + Rewrite(u, domain, ext, repl, i + 1)
  }

  /** The page after `update_html_paths`, for the host `domain` of the play URL. */
  function UpdatedHtml(html: string, domain: string): string {
    var scripts := Rewrite(html, domain, ".js", "js/", 0);
    Rewrite(scripts, domain, ".css", "css/", 0)
  }

  /** Without a match from `i` on, the rest of the text is copied. */
  lemma {:induction false} NoMatchCopies(u: string, domain: string, ext: string, repl: string, i: nat)
    requires i <= |u|
    requires forall j :: i <= j < |u| ==> MatchAt(u, j, domain, ext).None?
    ensures Rewrite(u, domain, ext, repl, i) == u[i..]
    decreases |u| - i
  {
    if i < |u| {
      NoMatchCopies(u, domain, ext, repl, i + 1);
      assert u[i..] == [u[i]] + u[i + 1..];
    }
  }

  /** An occurrence at `k` is an occurrence. */
  lemma OccursContains(u: string, k: int, w: string)
    requires Occurs(u, k, w)
    ensures Contains(u, w)
  {
    assert w <= u[k..];
    ContainsAt(u, w, k);
  }

  /** A text without `http://` or `https://` is left as it is. */
  lemma NoSchemeUnchanged(u: string, domain: string, ext: string, repl: string)
    requires !Contains(u, "http://") && !Contains(u, "https://")
    ensures Rewrite(u, domain, ext, repl, 0) == u
  {
    forall j | 0 <= j < |u| ensures MatchAt(u, j, domain, ext).None? {
      if Occurs(u, j, "https://") {
        OccursContains(u, j, "https://");
      }
      if Occurs(u, j, "http://") {
        OccursContains(u, j, "http://");
      }
    }
    NoMatchCopies(u, domain, ext, repl, 0);
  }

  /** A text without the extension is left as it is. */
  lemma NoExtensionUnchanged(u: string, domain: string, ext: string, repl: string)
    requires !Contains(u, ext)
    ensures Rewrite(u, domain, ext, repl, 0) == u
  {
    forall j | 0 <= j < |u| ensures MatchAt(u, j, domain, ext).None? {
      var m := MatchAt(u, j, domain, ext);
      if m.Some? {
        OccursContains(u, m.value.end - |ext|, ext);
      }
    }
    NoMatchCopies(u, domain, ext, repl, 0);
  }

  /** No character of `cs` anywhere in `s`. */
  predicate NoneOf(s: string, cs: set<char>) {
    forall i :: 0 <= i < |s| ==> s[i] !in cs
  }

  /**
   * The positions of an absolute URL that one match covers: the host starts
   * at `h`, the domain sits at `k0` before any `/`, no quote follows the
   * scheme, and after the last `/`, at `ps`, a name ends the text with the
   * extension.
   */
  predicate Shaped(u: string, h: nat, k0: nat, ps: nat, domain: string, ext: string) {
    && h <= k0 && DomainAt(u, domain, k0) && k0 + |domain| <= ps
    && k0 <= NextOf(u, h, {'/'})
    && NextOf(u, h, Quotes) == |u|
    && ps < |u| && u[ps] == '/' && ps + 2 + |ext| <= |u| && EndsAt(u, |u|, ext)
    && NextOf(u, ps + 1, {'/'}) == |u|
  }

  /** A text free of `cs` from `a` on is free of it from any later place. */
  lemma NextOfRest(u: string, a: nat, b: nat, cs: set<char>)
    requires a <= b <= |u| && NextOf(u, a, cs) == |u|
    ensures NextOf(u, b, cs) == |u|
  {
  }

  /** After the last `/`, where the extension ends the text, the group runs to the end. */
  lemma GroupToEnd(u: string, ps: nat, ext: string)
    requires ps < |u| && ps + 2 + |ext| <= |u| && EndsAt(u, |u|, ext)
    requires NextOf(u, ps + 1, {'/'}) == |u|
    ensures GroupEnd(u, ps, ext) == Some(|u|)
  {
  }

  /** Without quotes from `s` on, the quote-free run reaches the last `/`, whenever a group can follow it. */
  lemma SlashFromLast(u: string, s: nat, ps: nat, ext: string)
    requires s <= ps < |u| && SlashAt(u, ps, ext)
    requires NextOf(u, s, Quotes) == |u| && NextOf(u, ps + 1, {'/'}) == |u|
    ensures SlashFrom(u, s, ext) == Some(ps)
  {
    LastSlashMax(u, s, |u| - 1, ext, ps);
    NoneFrom(u, ps + 1, {'/'});
  }

  /** Where the next character of `cs` from `a` is the end, no character from `a` on is of `cs`. */
  lemma NoneFrom(u: string, a: nat, cs: set<char>)
    requires a <= |u| && NextOf(u, a, cs) == |u|
    ensures forall j :: a <= j < |u| ==> u[j] !in cs
  {
    forall j | a <= j < |u| ensures u[j] !in cs {
      assert !IsOf(u, j, cs);
    }
  }

  /** Where the quote-free run can reach a `/`, it starts at or before the last one. */
  lemma SlashFromBound(u: string, s: nat, ps: nat, ext: string)
    requires s <= |u| && ps < |u| && SlashFrom(u, s, ext).Some?
    requires NextOf(u, ps + 1, {'/'}) == |u|
    ensures s <= ps
  {
    NoneFrom(u, ps + 1, {'/'});
  }

  /** The shape of `scheme + host + domain + mid + "/" + name + ext`. */
  lemma UrlShape(scheme: string, host: string, domain: string, mid: string, name: string, ext: string)
    requires NoneOf(host, {'/'}) && NoneOf(host + domain + mid, Quotes)
    requires name != "" && NoneOf(name + ext, {'/', '"', '\''})
    ensures var u := scheme + host + domain + mid + "/" + name + ext;
      Shaped(u, |scheme|, |scheme| + |host|, |u| - |name + ext| - 1, domain, ext)
  {
    var pre := scheme + host + domain + mid;
    var tail := name + ext;
    var u := pre + "/" + tail;
    assert u == scheme + host + domain + mid + "/" + name + ext;
    var ps := |pre|;
    var h, k0 := |scheme|, |scheme| + |host|;
    forall j | h <= j < |u| ensures u[j] !in Quotes {
      if j > ps {
        assert u[j] == tail[j - ps - 1];
      } else if j < ps {
        assert u[j] == (host + domain + mid)[j - h];
      }
    }
    forall j | ps < j < |u| ensures u[j] != '/' {
      assert u[j] == tail[j - ps - 1];
    }
    forall j | h <= j < k0 ensures u[j] != '/' {
      assert u[j] == host[j - h];
    }
    assert DomainAt(u, domain, k0) by {
      assert u[k0..k0 + |domain|] == domain;
    }
    assert EndsAt(u, |u|, ext) by {
      assert u[|u| - |ext|..] == ext;
    }
  }

  /** A text opening with `https://` or `http://` has its host right after. */
  lemma SchemeStart(u: string, scheme: string)
    requires scheme == "https://" || scheme == "http://"
    requires |scheme| <= |u| && u[..|scheme|] == scheme
    ensures HostStart(u, 0) == Some(|scheme|)
  {
    assert forall j :: 0 <= j < |scheme| ==> u[j] == scheme[j];
    if scheme == "http://" {
      assert u[0 + 4] == ':' && "https://"[4] == 's';
      assert !Occurs(u, 0, "https://");
      assert Occurs(u, 0, "http://");
    } else {
      assert Occurs(u, 0, "https://");
    }
  }

  /** A shaped text that opens with a scheme is one match, replaced by `repl` and what follows its last `/`. */
  lemma OneMatch(u: string, h: nat, k0: nat, ps: nat, domain: string, ext: string, repl: string)
    requires 0 < |u| && HostStart(u, 0) == Some(h) && Shaped(u, h, k0, ps, domain, ext)
    ensures Rewrite(u, domain, ext, repl, 0) == repl + u[ps + 1..]
  {
    DomainFound(u, h, k0, ps, domain, ext);
    GroupToEnd(u, ps, ext);
    MatchOfWhole(u, h, ps, domain, ext);
  }

  /** The match of `OneMatch`: it spans the text, its group is everything after the last `/`. */
  lemma MatchOfWhole(u: string, h: nat, ps: nat, domain: string, ext: string)
    requires 0 < |u| && HostStart(u, 0) == Some(h)
    requires DomainFrom(u, h, domain, ext).Some?
    requires SlashFrom(u, DomainFrom(u, h, domain, ext).value + |domain|, ext) == Some(ps)
    requires ps < |u| && GroupEnd(u, ps, ext) == Some(|u|)
    ensures MatchAt(u, 0, domain, ext) == Some(Match(|u|, u[ps + 1..]))
  {
    MatchFound(u, 0, h, DomainFrom(u, h, domain, ext).value, ps, |u|, domain, ext);
    assert u[ps + 1..|u|] == u[ps + 1..];
  }

  /** Where each stage of the pattern succeeds, the match ends where the group does. */
  lemma MatchFound(u: string, i: nat, h: nat, k: int, p: int, q: int, domain: string, ext: string)
    requires i < |u| && HostStart(u, i) == Some(h)
    requires DomainFrom(u, h, domain, ext) == Some(k)
    requires SlashFrom(u, k + |domain|, ext) == Some(p)
    requires GroupEnd(u, p, ext) == Some(q)
    ensures MatchAt(u, i, domain, ext) == Some(Match(q, u[p + 1..q]))
  {
  }

  /** The domain search of `OneMatch` succeeds, at a place from which the last `/` is reached. */
  lemma DomainFound(u: string, h: nat, k0: nat, ps: nat, domain: string, ext: string)
    requires Shaped(u, h, k0, ps, domain, ext)
    ensures DomainFrom(u, h, domain, ext).Some?
    ensures SlashFrom(u, DomainFrom(u, h, domain, ext).value + |domain|, ext) == Some(ps)
  {
    GroupToEnd(u, ps, ext);
    NextOfRest(u, h, k0 + |domain|, Quotes);
    SlashFromLast(u, k0 + |domain|, ps, ext);
    LastDomainMax(u, h, NextOf(u, h, {'/'}), domain, ext, k0);
    var k := DomainFrom(u, h, domain, ext).value;
    var s := k + |domain|;
    SlashFromBound(u, s, ps, ext);
    NextOfRest(u, h, s, Quotes);
    SlashFromLast(u, s, ps, ext);
  }

  /**
   * An absolute URL on a host containing the domain, whose path ends in
   * `/NAME` with NAME ending in the extension, becomes `repl` + NAME, whatever
   * lies between the domain and the last `/`, provided no quote interrupts
   * it.
   */
  lemma AbsoluteUrlRewritten(scheme: string, host: string, domain: string, mid: string, name: string, ext: string, repl: string)
    requires scheme == "https://" || scheme == "http://"
    requires NoneOf(host, {'/'}) && NoneOf(host + domain + mid, Quotes)
    requires name != "" && NoneOf(name + ext, {'/', '"', '\''})
    ensures Rewrite(scheme + host + domain + mid + "/" + name + ext, domain, ext, repl, 0) == repl + name + ext
  {
    var pre := scheme + host + domain + mid;
    var tail := name + ext;
    var u := pre + "/" + tail;
    assert u == scheme + host + domain + mid + "/" + name + ext;
    var h := |scheme|;
    var ps := |pre|;
    UrlShape(scheme, host, domain, mid, name, ext);
    assert u[..h] == scheme;
    SchemeStart(u, scheme);
    OneMatch(u, h, h + |host|, ps, domain, ext, repl);
    assert u[ps + 1..] == tail;
  }

  /** The text has no two `/` in a row, so no scheme. */
  lemma NoDoubleSlashNoScheme(v: string)
    requires forall j :: 0 <= j < |v| - 1 ==> !(v[j] == '/' && v[j + 1] == '/')
    ensures !Contains(v, "http://") && !Contains(v, "https://")
  {
    forall j | 0 <= j <= |v| ensures !("http://" <= v[j..]) && !("https://" <= v[j..]) {
      if j + 7 <= |v| {
        assert !(v[j + 5] == '/' && v[j + 6] == '/');
      }
      if j + 8 <= |v| {
        assert !(v[j + 6] == '/' && v[j + 7] == '/');
      }
    }
    if Contains(v, "http://") {
      ContainsWitness(v, "http://");
    }
    if Contains(v, "https://") {
      ContainsWitness(v, "https://");
    }
  }

  /** A local path whose only `/` ends the replacement holds no scheme. */
  lemma LocalPathNoScheme(repl: string, name: string, ext: string)
    requires forall j :: 0 <= j < |repl| - 1 ==> repl[j] != '/'
    requires NoneOf(name + ext, {'/'})
    ensures !Contains(repl + name + ext, "http://") && !Contains(repl + name + ext, "https://")
  {
    var v := repl + name + ext;
    forall j | 0 <= j < |v| - 1 ensures !(v[j] == '/' && v[j + 1] == '/') {
      if j < |repl| - 1 {
        assert v[j] == repl[j];
      } else {
        assert v[j + 1] == (name + ext)[j + 1 - |repl|];
      }
    }
    NoDoubleSlashNoScheme(v);
  }

  /** A script URL on the play page's host becomes `js/NAME.js`, and the stylesheet pass leaves that alone. */
  lemma ScriptUrlLocal(scheme: string, host: string, domain: string, mid: string, name: string)
    requires scheme == "https://" || scheme == "http://"
    requires NoneOf(host, {'/'}) && NoneOf(host + domain + mid, Quotes)
    requires name != "" && NoneOf(name + ".js", {'/', '"', '\''})
    ensures UpdatedHtml(scheme + host + domain + mid + "/" + name + ".js", domain) == "js/" + name + ".js"
  {
    var out := "js/" + name + ".js";
    AbsoluteUrlRewritten(scheme, host, domain, mid, name, ".js", "js/");
    ScriptPathNoScheme(name);
    NoSchemeUnchanged(out, domain, ".css", "css/");
  }

  /** The rewritten script reference holds no scheme. */
  lemma ScriptPathNoScheme(name: string)
    requires NoneOf(name + ".js", {'/', '"', '\''})
    ensures !Contains("js/" + name + ".js", "http://") && !Contains("js/" + name + ".js", "https://")
  {
    NoneOfFewer(name + ".js", {'/', '"', '\''}, {'/'});
    LocalPathNoScheme("js/", name, ".js");
  }

  lemma NoneOfFewer(s: string, cs: set<char>, ds: set<char>)
    requires NoneOf(s, cs) && ds <= cs
    ensures NoneOf(s, ds)
  {
  }

  /** A stylesheet URL on the play page's host that does not mention `.js` becomes `css/NAME.css`. */
  lemma StylesheetUrlLocal(scheme: string, host: string, domain: string, mid: string, name: string)
    requires scheme == "https://" || scheme == "http://"
    requires NoneOf(host, {'/'}) && NoneOf(host + domain + mid, Quotes)
    requires name != "" && NoneOf(name + ".css", {'/', '"', '\''})
    requires !Contains(scheme + host + domain + mid + "/" + name + ".css", ".js")
    ensures UpdatedHtml(scheme + host + domain + mid + "/" + name + ".css", domain) == "css/" + name + ".css"
  {
    var u := scheme + host + domain + mid + "/" + name + ".css";
    NoExtensionUnchanged(u, domain, ".js", "js/");
    AbsoluteUrlRewritten(scheme, host, domain, mid, name, ".css", "css/");
  }
}

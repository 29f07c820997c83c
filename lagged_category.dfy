/**
 * scripts/scrape-lagged-category.py: the lookup sets (URL slugs only from
 * Lagged URLs), the duplicate test by slug and name, the game name taken
 * from the page title, the choice of the play URL, the per-game result
 * record, the link finder of a category page and the new/skipped filter.
 * `urljoin(page_url, href)` is the parameter `join`.
 */
module LaggedCategory {
  import opened Wrappers
  import opened Text
  import opened Catalog
  import opened Seqs
  import opened BatchScraper
  import opened LaggedTitle

  /** `load_existing_games` of this script: the shared loader with Lagged-only URL slugs. */
  method LoadLaggedGames(file: JsonFile<seq<Entry>>) returns (existing: Existing)
    ensures !file.Parsed? ==> existing == NoneExisting
    ensures file.Parsed? ==> existing == LoadState(file.contents, LaggedOnly).0
  {
    existing := LoadExistingGames(file, LaggedOnly);
  }

  /** Every URL slug of this loader is the normalised last `/`-segment of a `gameUrl` that mentions lagged.com. */
  lemma LaggedUrlSlugs(games: seq<Entry>, u: string)
    requires u in LoadState(games, LaggedOnly).0.urls
    ensures u != ""
    ensures exists g :: g in games && g.gameUrl.Str? && Contains(g.gameUrl.text, "lagged.com") && UrlSlug(g.gameUrl.text) == u
  {
    LoadSound(games, LaggedOnly);
    var g :| g in games && g.gameUrl.Str? && RuleSlug(LaggedOnly, g.gameUrl.text) == u;
  }

  /**
   * `game_already_exists(game_slug, game_name, ...)`: the normalised slug is
   * a known directory or URL slug, or the normalised name is non-empty and a
   * known name.
   */
  function LaggedExists(slug: string, name: Option<string>, existing: Existing): bool {
    var slugLower := Normalise(slug);
    var nameLower := if name.Some? && name.value != "" then Normalise(name.value) else "";
    if slugLower in existing.dirs then true
    else if slugLower in existing.urls then true
    else nameLower != "" && nameLower in existing.names
  }

  /**
   * Against sets built by the loader, the name guard changes nothing: the
   * test is plain membership of the normalised slug and the normalised name.
   */
  lemma LaggedAgainstLoaded(slug: string, name: Option<string>, games: seq<Entry>, rule: SlugRule)
    ensures var ex := LoadState(games, rule).0;
      LaggedExists(slug, name, ex) <==>
        Normalise(slug) in ex.dirs || Normalise(slug) in ex.urls || (name.Some? && Normalise(name.value) in ex.names)
  {
    LoadNoEmpty(games, rule);
    LaggedGuardsIrrelevant(slug, name, LoadState(games, rule).0);
  }

  /** Against sets without the empty string, the name guard of the test changes nothing. */
  lemma LaggedGuardsIrrelevant(slug: string, name: Option<string>, ex: Existing)
    requires "" !in ex.names
    ensures LaggedExists(slug, name, ex) <==>
      Normalise(slug) in ex.dirs || Normalise(slug) in ex.urls || (name.Some? && Normalise(name.value) in ex.names)
  {
    NormaliseEmpty();
  }

  /** Against loaded sets, which never hold "", an empty slug and an absent name never make a duplicate. */
  lemma EmptySlugNeverExists(games: seq<Entry>, rule: SlugRule, slug: string)
    requires Normalise(slug) == ""
    ensures !LaggedExists(slug, None, LoadState(games, rule).0)
  {
    LoadSound(games, rule);
  }

  predicate IsQuote(c: char) {
    c == '"' || c == '\''
  }

  /** The characters up to the next quote. */
  function UpToQuote(s: string): (r: string)
    ensures |r| <= |s| && r == s[..|r|]
    ensures forall i :: 0 <= i < |r| ==> !IsQuote(r[i])
    ensures |r| < |s| ==> IsQuote(s[|r|])
  {
    if s == [] || IsQuote(s[0]) then [] else [s[0]] + UpToQuote(s[1..])
  }

  /**
   * The first group of `re.findall(r'["\']([^"\']*games/[^"\']*)["\']', s)`:
   * the scan tries each quote in turn; a quote opens a match when the text up
   * to the next quote contains `games/` and that next quote exists.
   */
  function FirstQuotedGames(s: string): (r: Option<string>)
    ensures r.Some? ==> Contains(r.value, "games/") && forall i :: 0 <= i < |r.value| ==> !IsQuote(r.value[i])
    decreases |s|
  {
    if s == [] then None
    else if OpensMatch(s) then Some(UpToQuote(s[1..]))
    else FirstQuotedGames(s[1..])
  }

  /** The quote at the start of `s` opens a match: a closing quote follows and the text between mentions `games/`. */
  predicate OpensMatch(s: string)
    requires s != []
  {
    IsQuote(s[0]) && |UpToQuote(s[1..])| < |s| - 1 && Contains(UpToQuote(s[1..]), "games/")
  }

  /** `r` sits between the quote at `i` and the next character of `s`, also a quote. */
  predicate QuotedAt(s: string, i: nat, r: string) {
    i + |r| + 1 < |s| && IsQuote(s[i]) && s[i + 1..i + 1 + |r|] == r && IsQuote(s[i + 1 + |r|])
  }

  /** The match is the whole text between two quotes of the script. */
  lemma {:induction false} FirstQuotedGamesBetweenQuotes(s: string)
    requires FirstQuotedGames(s).Some?
    ensures exists i: nat :: QuotedAt(s, i, FirstQuotedGames(s).value)
  {
    var r := FirstQuotedGames(s).value;
    if OpensMatch(s) {
      assert s[1..][..|r|] == s[1..1 + |r|];
      assert QuotedAt(s, 0, r);
    } else {
      var t := s[1..];
      assert FirstQuotedGames(s) == FirstQuotedGames(t);
      FirstQuotedGamesBetweenQuotes(t);
      var i: nat :| QuotedAt(t, i, r);
      assert s[i + 2..i + 2 + |r|] == r by {
        forall k | 0 <= k < |r| ensures s[i + 2..i + 2 + |r|][k] == r[k] {
          assert r[k] == t[i + 1 + k] == s[i + 2 + k];
        }
      }
      assert s[i + 1] == t[i] && s[i + 2 + |r|] == t[i + 1 + |r|];
      assert QuotedAt(s, i + 1, r);
    }
  }

  /** A script whose first quoted string mentions `games/` yields that string. */
  lemma FirstQuotedGamesFound(q: char, body: string, q2: char, rest: string)
    requires IsQuote(q) && IsQuote(q2)
    requires forall i :: 0 <= i < |body| ==> !IsQuote(body[i])
    requires Contains(body, "games/")
    ensures FirstQuotedGames([q] + body + [q2] + rest) == Some(body)
  {
    var s := [q] + body + [q2] + rest;
    assert s[1..] == body + [q2] + rest;
    UpToQuoteOf(body, q2, rest);
  }

  lemma {:induction false} UpToQuoteOf(body: string, q: char, rest: string)
    requires IsQuote(q)
    requires forall i :: 0 <= i < |body| ==> !IsQuote(body[i])
    ensures UpToQuote(body + [q] + rest) == body
  {
    if body != [] {
      assert (body + [q] + rest)[1..] == body[1..] + [q] + rest;
      UpToQuoteOf(body[1..], q, rest);
    }
  }

  /** An anchor counts as a play link when its href mentions `/games/` or `/play/`. */
  predicate IsPlayHref(href: string) {
    Contains(href, "/games/") || Contains(href, "/play/")
  }

  /**
   * The play-URL search of `scrape_lagged_game` (and of
   * scripts/setup-lagged-games-local.py, with another anchor test): the first
   * anchor that passes `isPlay`, else the first match of the first inline
   * script that has one, else none; `scripts` holds each script's text (""
   * when it has none).
   */
  method FindPlayUrl(anchors: seq<string>, scripts: seq<string>, isPlay: string -> bool, join: string -> string) returns (play: Option<string>)
    ensures play.None? <==> (forall i :: 0 <= i < |anchors| ==> !isPlay(anchors[i]))
                            && (forall k :: 0 <= k < |scripts| ==> FirstQuotedGames(scripts[k]).None?)
    ensures play.Some? ==>
      (exists i :: 0 <= i < |anchors| && isPlay(anchors[i]) && play.value == join(anchors[i])
                   && forall j :: 0 <= j < i ==> !isPlay(anchors[j]))
      || ((forall i :: 0 <= i < |anchors| ==> !isPlay(anchors[i]))
          && exists k :: 0 <= k < |scripts| && FirstQuotedGames(scripts[k]).Some?
                         && play.value == join(FirstQuotedGames(scripts[k]).value)
                         && forall j :: 0 <= j < k ==> FirstQuotedGames(scripts[j]).None?)
  {
    var i := 0;
    while i < |anchors|
      invariant 0 <= i <= |anchors|
      invariant forall j :: 0 <= j < i ==> !isPlay(anchors[j])
    {
      if isPlay(anchors[i]) {
        return Some(join(anchors[i]));
      }
      i := i + 1;
    }
    var k := 0;
    while k < |scripts|
      invariant 0 <= k <= |scripts|
      invariant forall j :: 0 <= j < k ==> FirstQuotedGames(scripts[j]).None?
    {
      var m := FirstQuotedGames(scripts[k]);
      if m.Some? {
        return Some(join(m.value));
      }
      k := k + 1;
    }
    return None;
  }

  /** What the parser yields for a game page: the `<title>` text if any, the anchors' hrefs, the scripts' texts. */
  datatype GamePage = GamePage(title: Option<string>, anchors: seq<string>, scripts: seq<string>)

  /** The record `scrape_lagged_game` returns: exactly one status. */
  datatype GameResult =
    | Success(url: string, slug: string, name: Option<string>, playUrl: Option<string>)
    | Skipped(url: string, slug: string, name: Option<string>)
    | Failed(url: string)

  /** `scrape_lagged_game`: `page` is `None` when the request fails. */
  method ScrapeLaggedGame(url: string, page: Option<GamePage>, existing: Existing, join: string -> string)
    returns (result: GameResult)
    ensures result.url == url
    ensures result.Failed? <==> page.None?
    ensures page.Some? ==>
      var name := if page.value.title.Some? then Some(TitleName(page.value.title.value)) else None;
      && (result.Skipped? <==> LaggedExists(LastSegment(url, '/'), name, existing))
      && (!result.Failed? ==> result.slug == LastSegment(url, '/') && result.name == name)
    ensures result.Success? ==> (page.Some? &&
      (result.playUrl.None? <==> (forall i :: 0 <= i < |page.value.anchors| ==> !IsPlayHref(page.value.anchors[i]))
                                 && (forall k :: 0 <= k < |page.value.scripts| ==> FirstQuotedGames(page.value.scripts[k]).None?)))
  {
    var slug := LastSegment(url, '/');
    if page.None? {
      return Failed(url);
    }
    var name := if page.value.title.Some? then Some(TitleName(page.value.title.value)) else None;
    if LaggedExists(slug, name, existing) {
      return Skipped(url, slug, name);
    }
    var play := FindPlayUrl(page.value.anchors, page.value.scripts, IsPlayHref, join);
    return Success(url, slug, name, play);
  }

  /** A link passes the pre-filter when its last `/`-segment is not a known directory or URL slug. */
  predicate IsNewLink(url: string, existing: Existing) {
    !LaggedExists(LastSegment(url, '/'), None, existing)
  }

  /** The pre-filter of `scrape_category`: new links in order, skipped ones counted; together all of them. */
  method FilterNewLinks(links: seq<string>, existing: Existing) returns (newLinks: seq<string>, skipped: nat)
    ensures newLinks == Keep(links, (u: string) => IsNewLink(u, existing))
    ensures |newLinks| + skipped == |links|
  {
    newLinks, skipped := Filter(links, (u: string) => IsNewLink(u, existing));
  }


  /** A category page as parsed: hrefs of anchors matching `/en/g/`, then the first anchor href of each thumbnail. */
  datatype CategoryPage = CategoryPage(gameAnchors: seq<string>, thumbAnchors: seq<string>)

  predicate IsGameHref(href: string) {
    Contains(href, "/en/g/")
  }

  /**
   * `find_lagged_games`: the game links of both passes, each once, then
   * `list(set(...))[:max_games]`; a failed request gives no links.
   */
  method FindLaggedGames(page: Option<CategoryPage>, join: string -> string, maxGames: nat) returns (links: seq<string>)
    ensures page.None? ==> links == []
    ensures |links| <= maxGames && Distinct(links)
    ensures forall l :: l in links ==> exists h :: page.Some? && h in page.value.gameAnchors + page.value.thumbAnchors && IsGameHref(h) && l == join(h)
    ensures page.Some? ==>
      var found := set h | h in page.value.gameAnchors + page.value.thumbAnchors && IsGameHref(h) :: join(h);
      && |links| == (if |found| <= maxGames then |found| else maxGames)
      && (|found| <= maxGames ==> forall l :: l in links <==> l in found)
  {
    if page.None? {
      return [];
    }
    var hrefs := page.value.gameAnchors + page.value.thumbAnchors;
    var gameLinks: seq<string> := [];
    var i := 0;
    while i < |hrefs|
      invariant 0 <= i <= |hrefs|
      invariant Distinct(gameLinks)
      invariant forall l :: l in gameLinks <==> exists h :: h in hrefs[..i] && IsGameHref(h) && l == join(h)
    {
      var href := hrefs[i];
      assert hrefs[..i + 1] == hrefs[..i] + [href];
      if href != "" && IsGameHref(href) {
        var full := join(href);
        if full !in gameLinks {
          gameLinks := gameLinks + [full];
        }
      }
      i := i + 1;
    }
    assert hrefs[..i] == hrefs;
    var found := set l | l in gameLinks;
    var unique := ListOfSet(found);
    links := Take(unique, maxGames);
    forall l | l in links ensures l in unique {
    }
    assert found == set h | h in hrefs && IsGameHref(h) :: join(h);
    if |found| <= maxGames {
      assert links == unique;
    }
  }
}

/**
 * scripts/batch-game-scraper.py: the three lookup sets built from the
 * catalog (normalised names, normalised directories, URL slugs), the
 * duplicate test, and the loop of `batch_scrape` that splits the found links
 * into new ones and skipped ones. `urlparse(u).path` is the function `pathOf` of the slug rule.
 */
module BatchScraper {
  import opened Wrappers
  import opened Text
  import opened Catalog
  import opened Seqs

  datatype Existing = Existing(names: set<string>, dirs: set<string>, urls: set<string>)

  const NoneExisting: Existing := Existing({}, {}, {})

  /** `s.lower().strip()`. */
  function Normalise(s: string): string {
    PyStrip(Lower(s))
  }

  /** `urlparse(u).path.strip('/').split('/')[-1].lower()`. */
  function PathSlug(url: string, pathOf: string -> string): string {
    Lower(LastSegment(Strip(pathOf(url), {'/'}), '/'))
  }

  /**
   * How a loader derives the URL slug of a non-empty `gameUrl`: this script
   * takes the last segment of the parsed path when the path is non-empty;
   * scripts/scrape-lagged-category.py takes the normalised last `/`-segment
   * of URLs that contain `lagged.com` and nothing from the others.
   */
  datatype SlugRule = ByPath(pathOf: string -> string) | LaggedOnly

  /** The slug a rule derives ("" for none). */
  function RuleSlug(rule: SlugRule, url: string): string {
    match rule
    case ByPath(pathOf) => if pathOf(url) != "" then PathSlug(url, pathOf) else ""
    case LaggedOnly => if Contains(url, "lagged.com") then UrlSlug(url) else ""
  }

  /**
   * One pass of the body of the loader's loop: the sets after this record,
   * and whether the record raised (a JSON null `name` or `directory` has no
   * `.lower()`); the name is added before the directory is read.
   */
  function AddGame(acc: Existing, g: Entry, rule: SlugRule): (Existing, bool) {
    if g.name.Null? then (acc, true)
    else
      var name := if g.name.Str? then Normalise(g.name.text) else "";
      var acc1 := if name != "" then acc.(names := acc.names + {name}) else acc;
      if g.directory.Null? then (acc1, true)
      else
        var dir := if g.directory.Str? then Normalise(g.directory.text) else "";
        var acc2 := if dir != "" then acc1.(dirs := acc1.dirs + {dir}) else acc1;
        var slug := if g.gameUrl.Str? && g.gameUrl.text != "" then RuleSlug(rule, g.gameUrl.text) else "";
        (if slug != "" then acc2.(urls := acc2.urls + {slug}) else acc2, false)
  }

  /** The loader's state after the records `games`, in order: the sets and whether the loop was cut short. */
  function LoadState(games: seq<Entry>, rule: SlugRule): (Existing, bool) {
    if games == [] then (NoneExisting, false)
    else
      var prev := LoadState(games[..|games| - 1], rule);
      if prev.1 then prev else AddGame(prev.0, games[|games| - 1], rule)
  }

  /**
   * `load_existing_games`: a missing or unparsable file gives three empty
   * sets; a record that raises ends the loop and the sets gathered so far
   * are returned.
   */
  method LoadExistingGames(file: JsonFile<seq<Entry>>, rule: SlugRule) returns (existing: Existing)
    ensures !file.Parsed? ==> existing == NoneExisting
    ensures file.Parsed? ==> existing == LoadState(file.contents, rule).0
  {
    existing := NoneExisting;
    if !file.Parsed? {
      return;
    }
    var games := file.contents;
    var i := 0;
    while i < |games|
      invariant 0 <= i <= |games|
      invariant LoadState(games[..i], rule) == (existing, false)
    {
      assert games[..i + 1][..i] == games[..i];
      var next := AddGame(existing, games[i], rule);
      if next.1 {
        existing := next.0;
        LoadStopped(games[..i + 1], games[i + 1..], rule);
        assert games[..i + 1] + games[i + 1..] == games;
        return;
      }
      existing := next.0;
      i := i + 1;
    }
    assert games[..i] == games;
  }

  /** Once a record has raised, the records after it contribute nothing. */
  lemma {:induction false} LoadStopped(a: seq<Entry>, b: seq<Entry>, rule: SlugRule)
    requires LoadState(a, rule).1
    ensures LoadState(a + b, rule) == LoadState(a, rule)
  {
    if b != [] {
      LoadStopped(a, b[..|b| - 1], rule);
      assert (a + b)[..|a + b| - 1] == a + b[..|b| - 1];
    } else {
      assert a + b == a;
    }
  }

  /**
   * What the loaded sets hold: only non-empty values, each the normalised
   * name, normalised directory or URL slug of some record.
   */
  lemma {:induction false} LoadSound(games: seq<Entry>, rule: SlugRule)
    ensures var ex := LoadState(games, rule).0;
      && "" !in ex.names && "" !in ex.dirs && "" !in ex.urls
      && (forall n :: n in ex.names ==> exists g :: g in games && g.name.Str? && Normalise(g.name.text) == n)
      && (forall d :: d in ex.dirs ==> exists g :: g in games && g.directory.Str? && Normalise(g.directory.text) == d)
      && (forall u :: u in ex.urls ==> exists g :: g in games && g.gameUrl.Str? && RuleSlug(rule, g.gameUrl.text) == u)
  {
    if games != [] {
      var init, last := games[..|games| - 1], games[|games| - 1];
      LoadSound(init, rule);
      assert forall g :: g in init ==> g in games;
      assert last in games;
      if !LoadState(init, rule).1 {
        AddGameSound(LoadState(init, rule).0, last, rule);
      }
    }
  }

  /** A record adds only its own non-empty normalised values. */
  lemma AddGameSound(acc: Existing, g: Entry, rule: SlugRule)
    ensures var next := AddGame(acc, g, rule).0;
      && (forall n :: n in next.names ==> n in acc.names || (g.name.Str? && Normalise(g.name.text) == n && n != ""))
      && (forall d :: d in next.dirs ==> d in acc.dirs || (g.directory.Str? && Normalise(g.directory.text) == d && d != ""))
      && (forall u :: u in next.urls ==> u in acc.urls || (g.gameUrl.Str? && RuleSlug(rule, g.gameUrl.text) == u && u != ""))
  {
  }

  /** With no record raising, every record's non-empty normalised name, directory and URL slug is loaded. */
  lemma {:induction false} LoadComplete(games: seq<Entry>, rule: SlugRule)
    requires forall g :: g in games ==> !g.name.Null? && !g.directory.Null?
    ensures !LoadState(games, rule).1
    ensures var ex := LoadState(games, rule).0;
      forall g :: g in games ==>
        && (g.name.Str? && Normalise(g.name.text) != "" ==> Normalise(g.name.text) in ex.names)
        && (g.directory.Str? && Normalise(g.directory.text) != "" ==> Normalise(g.directory.text) in ex.dirs)
        && (g.gameUrl.Str? && g.gameUrl.text != "" && RuleSlug(rule, g.gameUrl.text) != ""
            ==> RuleSlug(rule, g.gameUrl.text) in ex.urls)
  {
    if games != [] {
      var init := games[..|games| - 1];
      assert forall g :: g in init ==> g in games;
      LoadComplete(init, rule);
      AddGameGrows(LoadState(init, rule).0, games[|games| - 1], rule);
    }
  }

  /** A record only ever adds to the sets. */
  lemma AddGameGrows(acc: Existing, g: Entry, rule: SlugRule)
    ensures var next := AddGame(acc, g, rule).0;
      acc.names <= next.names && acc.dirs <= next.dirs && acc.urls <= next.urls
  {
  }

  /**
   * `game_already_exists`: the normalised name is a known name, or the
   * normalised last `/`-segment of the URL is a known directory or URL slug;
   * an empty name or slug matches nothing.
   */
  function GameAlreadyExists(gameName: Option<string>, gameUrl: Option<string>, existing: Existing): (r: bool)
    ensures r ==> (gameName.Some? && Normalise(gameName.value) != "") || (gameUrl.Some? && UrlSlug(gameUrl.value) != "")
  {
    var nameLower := if gameName.Some? && gameName.value != "" then Normalise(gameName.value) else "";
    var urlSlug := if gameUrl.Some? && gameUrl.value != "" then UrlSlug(gameUrl.value) else "";
    (nameLower != "" && nameLower in existing.names)
    || (urlSlug != "" && (urlSlug in existing.dirs || urlSlug in existing.urls))
  }

  /** `u.split('/')[-1].lower().strip()`. */
  function UrlSlug(url: string): string {
    Normalise(LastSegment(url, '/'))
  }

  /** A URL ending in `/` has an empty slug, so a link is never judged a duplicate by such a URL. */
  lemma TrailingSlashNeverDuplicate(url: string, existing: Existing)
    requires EndsWith(url, "/")
    ensures !GameAlreadyExists(None, Some(url), existing)
  {
    assert url[|url| - 1] == '/';
  }

  /**
   * Against sets built by the loader, the emptiness guards change nothing:
   * the test is plain membership of the normalised name or URL slug.
   */
  lemma AgainstLoadedSets(gameName: Option<string>, gameUrl: Option<string>, games: seq<Entry>, rule: SlugRule)
    ensures var ex := LoadState(games, rule).0;
      GameAlreadyExists(gameName, gameUrl, ex) <==>
        (gameName.Some? && Normalise(gameName.value) in ex.names)
        || (gameUrl.Some? && (UrlSlug(gameUrl.value) in ex.dirs || UrlSlug(gameUrl.value) in ex.urls))
  {
    LoadNoEmpty(games, rule);
    GuardsIrrelevant(gameName, gameUrl, LoadState(games, rule).0);
  }

  /** The loaded sets never hold the empty string. */
  lemma {:induction false} LoadNoEmpty(games: seq<Entry>, rule: SlugRule)
    ensures var ex := LoadState(games, rule).0;
      "" !in ex.names && "" !in ex.dirs && "" !in ex.urls
  {
    if games != [] {
      var prev := LoadState(games[..|games| - 1], rule);
      LoadNoEmpty(games[..|games| - 1], rule);
      if !prev.1 {
        AddGameNoEmpty(prev.0, games[|games| - 1], rule);
      }
    }
  }

  /** A record adds no empty string. */
  lemma AddGameNoEmpty(acc: Existing, g: Entry, rule: SlugRule)
    requires "" !in acc.names && "" !in acc.dirs && "" !in acc.urls
    ensures var next := AddGame(acc, g, rule).0;
      "" !in next.names && "" !in next.dirs && "" !in next.urls
  {
  }

  /** Against sets without the empty string, the emptiness guards of the test change nothing. */
  lemma GuardsIrrelevant(gameName: Option<string>, gameUrl: Option<string>, ex: Existing)
    requires "" !in ex.names && "" !in ex.dirs && "" !in ex.urls
    ensures GameAlreadyExists(gameName, gameUrl, ex) <==>
        (gameName.Some? && Normalise(gameName.value) in ex.names)
        || (gameUrl.Some? && (UrlSlug(gameUrl.value) in ex.dirs || UrlSlug(gameUrl.value) in ex.urls))
  {
    NormaliseEmpty();
  }

  lemma NormaliseEmpty()
    ensures Normalise("") == "" && UrlSlug("") == ""
  {
    assert Lower("") == "";
  }

  /** A link of the filter loop is new when it is not a duplicate by URL. */
  predicate IsNewLink(url: string, existing: Existing) {
    !GameAlreadyExists(None, Some(url), existing)
  }

  /**
   * The filter loop of `batch_scrape`: the new links in their original order,
   * and the skipped ones counted; together they are all the links.
   */
  method PartitionLinks(links: seq<string>, existing: Existing) returns (newLinks: seq<string>, skipped: nat)
    ensures newLinks == Keep(links, (u: string) => IsNewLink(u, existing))
    ensures |newLinks| + skipped == |links|
  {
    newLinks, skipped := Filter(links, (u: string) => IsNewLink(u, existing));
  }
}

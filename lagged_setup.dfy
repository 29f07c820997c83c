/**
 * scripts/setup-lagged-games-local.py: the result record of
 * `setup_lagged_game`, the choice between the Ruffle page and the iframe
 * page written as the game's `index.html`, and the merge of the successful
 * results into the catalog by `add_to_games_json`. A JSON text value that is
 * falsy (absent, null or "") is written "" here. `join(base, ref)` is
 * `urljoin(base, ref)`.
 */
module LaggedSetup {
  import opened Wrappers
  import opened Text
  import opened Catalog
  import opened LaggedCategory

  /** An entry of lagged-games-list.json as this script reads it. */
  datatype GameData = GameData(slug: Field, url: Field, playUrl: Field, name: Field)

  /** The text of a field, "" when it is absent, null or empty (all falsy). */
  function TextOf(f: Field): string {
    if f.Str? then f.text else ""
  }

  /** The result record: an error, or success with the slug as directory. */
  datatype SetupResult = SetupFailed | SetupDone(slug: string, directory: string, name: Field)

  /** The `index.html` written for a game: the Ruffle player of one SWF file, or an iframe of a URL. */
  datatype IndexPage = RufflePage(swfFile: string, title: string) | IframePage(src: string, title: string)

  const DefaultGameUrl: string := "https://lagged.com"

  /** `game_data.get('name', slug)`: the default applies only when the key is absent. */
  function NameOf(game: GameData): Field {
    if game.name.Missing? then game.slug else game.name
  }

  /** `f"{game_name}"`: a null name is written `None`. */
  function TitleOf(name: Field): string {
    match name
    case Str(s) => s
    case _ => "None"
  }

  /** `create_external_html`: an iframe of the URL, `https://lagged.com` when it is falsy. */
  function ExternalPage(url: string, title: string): (page: IndexPage)
    ensures page.IframePage? && page.src != "" && page.title == title
    ensures url != "" ==> page.src == url
  {
    IframePage(if url != "" then url else DefaultGameUrl, title)
  }

  /** `create_ruffle_html`: the last `/`-segment of the first SWF URL; when there is none, or it is empty, the iframe page with the default URL. */
  function RuffleOrExternal(swfFiles: seq<string>, title: string): (page: IndexPage)
    ensures page.RufflePage? <==> swfFiles != [] && LastSegment(swfFiles[0], '/') != ""
    ensures page.RufflePage? ==> page.swfFile == LastSegment(swfFiles[0], '/') && '/' !in page.swfFile
    ensures page.IframePage? ==> page.src == DefaultGameUrl
  {
    var swfFile := if swfFiles != [] then LastSegment(swfFiles[0], '/') else "";
    if swfFile == "" then ExternalPage("", title) else RufflePage(swfFile, title)
  }

  /**
   * The page written once the play URL is settled: with a play URL, the SWF
   * matches of the fetched play page (`None` when the request fails, which
   * falls back to an iframe of the play URL); without one, an iframe of the
   * game URL.
   */
  function PageFor(playUrl: string, gameUrl: string, playPage: Option<seq<string>>, join: (string, string) -> string, title: string): (page: IndexPage)
    ensures page.title == title
    ensures page.RufflePage? <==>
      playUrl != "" && playPage.Some? && playPage.value != [] && LastSegment(join(playUrl, playPage.value[0]), '/') != ""
    ensures page.RufflePage? ==> page.swfFile == LastSegment(join(playUrl, playPage.value[0]), '/') && page.swfFile != "" && '/' !in page.swfFile
    ensures page.IframePage? ==> page.src != "" && (page.src == playUrl || page.src == gameUrl || page.src == DefaultGameUrl)
    ensures playUrl == "" ==> page == ExternalPage(gameUrl, title)
  {
    if playUrl != "" then
      match playPage
      case None => ExternalPage(playUrl, title)
      case Some(swfMatches) => RuffleOrExternal(seq(|swfMatches|, i requires 0 <= i < |swfMatches| => join(playUrl, swfMatches[i])), title)
    else ExternalPage(gameUrl, title)
  }

  predicate IsGamesHref(href: string) {
    Contains(href, "/games/")
  }

  /**
   * `setup_lagged_game`. `gamePage` is the parsed game page (`None` when the
   * request raises); it is consulted only when no play URL is given and a
   * game URL is. `playPage` is the list of SWF matches of the play page.
   * `playUrl` is the play URL the script settles on ("" for none).
   */
  method SetupLaggedGame(game: GameData, gamePage: Option<GamePage>, playPage: Option<seq<string>>, join: (string, string) -> string)
    returns (result: SetupResult, page: Option<IndexPage>, playUrl: string)
    ensures TextOf(game.slug) == "" ==> result == SetupFailed && page.None?
    ensures TextOf(game.slug) != "" ==>
      && result == SetupDone(game.slug.text, game.slug.text, NameOf(game))
      && page == Some(PageFor(playUrl, TextOf(game.url), playPage, join, TitleOf(NameOf(game))))
    ensures TextOf(game.slug) != "" && TextOf(game.playUrl) != "" ==> playUrl == game.playUrl.text
    ensures TextOf(game.slug) != "" && TextOf(game.playUrl) == "" && (TextOf(game.url) == "" || gamePage.None?) ==> playUrl == ""
    ensures TextOf(game.slug) != "" && TextOf(game.playUrl) == "" && TextOf(game.url) != "" && gamePage.Some? ==>
      var anchors, scripts := gamePage.value.anchors, gamePage.value.scripts;
      || (exists i :: 0 <= i < |anchors| && IsGamesHref(anchors[i]) && playUrl == join(game.url.text, anchors[i])
                      && forall j :: 0 <= j < i ==> !IsGamesHref(anchors[j]))
      || ((forall i :: 0 <= i < |anchors| ==> !IsGamesHref(anchors[i]))
          && exists k :: 0 <= k < |scripts| && FirstQuotedGames(scripts[k]).Some?
                         && playUrl == join(game.url.text, FirstQuotedGames(scripts[k]).value)
                         && forall j :: 0 <= j < k ==> FirstQuotedGames(scripts[j]).None?)
      || (playUrl == "" && (forall i :: 0 <= i < |anchors| ==> !IsGamesHref(anchors[i]))
          && forall k :: 0 <= k < |scripts| ==> FirstQuotedGames(scripts[k]).None?)
  {
    var slug := TextOf(game.slug);
    if slug == "" {
      return SetupFailed, None, "";
    }
    var gameUrl := TextOf(game.url);
    playUrl := TextOf(game.playUrl);
    if playUrl == "" && gameUrl != "" && gamePage.Some? {
      var found := FindPlayUrl(gamePage.value.anchors, gamePage.value.scripts, IsGamesHref, ref => join(gameUrl, ref));
      if found.Some? {
        playUrl := found.value;
      }
    }
    var name := NameOf(game);
    page := Some(PageFor(playUrl, gameUrl, playPage, join, TitleOf(name)));
    result := SetupDone(slug, slug, name);
  }

  /** The record `add_to_games_json` appends for a successful result. */
  function NewEntry(r: SetupResult): Entry
    requires r.SetupDone?
  {
    LocalEntry(r.name, r.directory)
  }

  /** `any(g.get('directory') == slug for g in games)`. */
  predicate DirectoryTaken(games: seq<Entry>, dir: string) {
    exists g :: g in games && HasDirectory(g, dir)
  }

  /**
   * The catalog after the loop of `add_to_games_json`: the results in order,
   * each successful one appended unless an entry of the list as it stands
   * (including those appended before it) has exactly its directory.
   */
  function Merged(games: seq<Entry>, results: seq<SetupResult>): (r: seq<Entry>)
    ensures |games| <= |r| <= |games| + |results|
    ensures r[..|games|] == games
  {
    if results == [] then games
    else
      var prev := Merged(games, results[..|results| - 1]);
      var last := results[|results| - 1];
      if last.SetupDone? && !DirectoryTaken(prev, last.directory) then
        assert (prev + [NewEntry(last)])[..|games|] == prev[..|games|];
        prev + [NewEntry(last)]
      else prev
  }

  /**
   * `add_to_games_json`: a catalog that cannot be read gives 0 and no write;
   * otherwise the merged list is written and the number of appended records
   * returned.
   */
  method AddToGamesJson(file: JsonFile<seq<Entry>>, results: seq<SetupResult>) returns (written: Option<seq<Entry>>, added: nat)
    ensures !file.Parsed? ==> written.None? && added == 0
    ensures file.Parsed? ==> written == Some(Merged(file.contents, results)) && |file.contents| + added == |written.value|
  {
    if !file.Parsed? {
      return None, 0;
    }
    var existing := file.contents;
    added := 0;
    var i := 0;
    while i < |results|
      invariant 0 <= i <= |results|
      invariant existing == Merged(file.contents, results[..i])
      invariant |file.contents| + added == |existing|
    {
      var r := results[i];
      assert results[..i + 1][..i] == results[..i];
      if r.SetupDone? {
        var taken := exists g :: g in existing && HasDirectory(g, r.directory);
        if !taken {
          existing := existing + [NewEntry(r)];
          added := added + 1;
        }
      }
      i := i + 1;
    }
    assert results[..i] == results;
    written := Some(existing);
  }

  /** No two records share a directory (records without a text directory aside). */
  predicate DirectoriesUnique(games: seq<Entry>) {
    forall i, j :: 0 <= i < j < |games| && games[i].directory.Str? ==> games[i].directory != games[j].directory
  }

  /** Merging keeps directories unique, duplicates within one batch included. */
  lemma {:induction false} MergedKeepsUnique(games: seq<Entry>, results: seq<SetupResult>)
    requires DirectoriesUnique(games)
    ensures DirectoriesUnique(Merged(games, results))
  {
    if results != [] {
      var prev := Merged(games, results[..|results| - 1]);
      var last := results[|results| - 1];
      MergedKeepsUnique(games, results[..|results| - 1]);
      if last.SetupDone? && !DirectoryTaken(prev, last.directory) {
        var next := prev + [NewEntry(last)];
        forall i, j | 0 <= i < j < |next| && next[i].directory.Str?
          ensures next[i].directory != next[j].directory
        {
          if j == |prev| {
            assert next[i] == prev[i] && prev[i] in prev;
          }
        }
      }
    }
  }

  /**
   * Every successful result ends up with its directory in the catalog, and
   * every appended record is the record of a successful result whose
   * directory was not in the original catalog.
   */
  lemma {:induction false} MergedContents(games: seq<Entry>, results: seq<SetupResult>)
    ensures forall r :: r in results && r.SetupDone? ==> DirectoryTaken(Merged(games, results), r.directory)
    ensures forall e :: e in Merged(games, results)[|games|..] ==>
      exists r :: r in results && r.SetupDone? && e == NewEntry(r) && !DirectoryTaken(games, r.directory)
  {
    if results != [] {
      var init := results[..|results| - 1];
      var prev := Merged(games, init);
      var last := results[|results| - 1];
      var next := Merged(games, results);
      MergedContents(games, init);
      assert forall r :: r in init ==> r in results;
      assert prev <= next;
      forall r | r in results && r.SetupDone? ensures DirectoryTaken(next, r.directory) {
        if r in init {
          var g :| g in prev && HasDirectory(g, r.directory);
          assert g in next;
        } else {
          assert r == last;
          if !DirectoryTaken(prev, last.directory) {
            assert NewEntry(last) in next;
          } else {
            var g :| g in prev && HasDirectory(g, r.directory);
            assert g in next;
          }
        }
      }
      forall e | e in next[|games|..]
        ensures exists r :: r in results && r.SetupDone? && e == NewEntry(r) && !DirectoryTaken(games, r.directory)
      {
        if e in prev[|games|..] {
        } else {
          assert next != prev;
          assert e == NewEntry(last);
          assert !DirectoryTaken(prev, last.directory);
          forall g | g in games ensures !HasDirectory(g, last.directory) {
            assert g in prev[..|games|];
          }
        }
      }
    }
  }
}

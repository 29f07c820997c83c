/**
 * scripts/download-lagged-game-full.py: the category lists of
 * `extract_all_assets`, the play-URL fallback chain and the four download
 * loops of `download_game_assets`, and the rewrite of `update_html_paths`
 * (module HtmlPaths). The parser's tag lists are inputs; `urljoin`,
 * `urlparse(·).netloc` and `urlparse(·).path` are the parameters `urljoin`,
 * `netlocOf` and `pathOf`; `succeeds(url, target)` is whether
 * `download_file` writes `target`.
 */
module LaggedFull {
  import opened Wrappers
  import opened Text
  import opened Seqs
  import opened Paths
  import LaggedCategory
  import HtmlPaths

  predicate NonEmpty(s: string) {
    s != ""
  }

  /** `for t in tags: v = t.get(attr, ''); if v: out.append(urljoin(base, v))`. */
  function Resolved(raws: seq<string>, join: string -> string): seq<string> {
    Map(Keep(raws, NonEmpty), join)
  }

  lemma ResolvedSnoc(raws: seq<string>, r: string, join: string -> string)
    ensures Resolved(raws + [r], join) == Resolved(raws, join) + (if r != "" then [join(r)] else [])
  {
    KeepSnoc(raws, r, NonEmpty);
    MapAppend(Keep(raws, NonEmpty), if r != "" then [r] else [], join);
  }

  /** One of those loops. */
  method ResolveNonEmpty(raws: seq<string>, join: string -> string) returns (urls: seq<string>)
    ensures urls == Resolved(raws, join)
  {
    urls := [];
    var i := 0;
    while i < |raws|
      invariant 0 <= i <= |raws|
      invariant urls == Resolved(raws[..i], join)
    {
      assert raws[..i + 1] == raws[..i] + [raws[i]];
      ResolvedSnoc(raws[..i], raws[i], join);
      if raws[i] != "" {
        urls := urls + [join(raws[i])];
      }
      i := i + 1;
    }
    assert raws[..i] == raws;
  }

  /** A URL is in the list exactly when it resolves a non-empty attribute value; there are at most as many URLs as tags. */
  lemma ResolvedIff(raws: seq<string>, join: string -> string, u: string)
    ensures |Resolved(raws, join)| <= |raws|
    ensures u in Resolved(raws, join) <==> exists r :: r in raws && r != "" && u == join(r)
  {
    KeepPartition(raws, NonEmpty);
    if u in Resolved(raws, join) {
      MapIn(Keep(raws, NonEmpty), join, u);
      var r :| r in Keep(raws, NonEmpty) && u == join(r);
      KeepIff(raws, NonEmpty, r);
    }
    if exists r :: r in raws && r != "" && u == join(r) {
      var r :| r in raws && r != "" && u == join(r);
      KeepIff(raws, NonEmpty, r);
      var kept := Keep(raws, NonEmpty);
      var k :| 0 <= k < |kept| && kept[k] == r;
      assert Resolved(raws, join)[k] == u;
    }
  }

  /** A URL found in an inline script is considered when it is non-empty and not a `javascript:` link. */
  predicate IsCandidate(m: string) {
    m != "" && !StartsWith(m, "javascript:")
  }

  /**
   * The inline pass over `scripts`: each candidate match, in order, is
   * resolved and appended unless the list (as it grows) already holds it.
   */
  function WithInline(scripts: seq<string>, matches: seq<string>, join: string -> string): (r: seq<string>)
    ensures scripts <= r && |r| <= |scripts| + |matches|
    ensures forall i, j :: 0 <= i < j < |r| && |scripts| <= j ==> r[i] != r[j]
  {
    if matches == [] then scripts
    else
      var prev := WithInline(scripts, matches[..|matches| - 1], join);
      var m := matches[|matches| - 1];
      if IsCandidate(m) && join(m) !in prev then prev + [join(m)] else prev
  }

  /** The inline loop of `extract_all_assets`. */
  method AddInline(scripts: seq<string>, matches: seq<string>, join: string -> string) returns (r: seq<string>)
    ensures r == WithInline(scripts, matches, join)
  {
    r := scripts;
    var i := 0;
    while i < |matches|
      invariant 0 <= i <= |matches|
      invariant r == WithInline(scripts, matches[..i], join)
    {
      assert matches[..i + 1][..i] == matches[..i];
      var m := matches[i];
      if IsCandidate(m) {
        var full := join(m);
        if full !in r {
          r := r + [full];
        }
      }
      i := i + 1;
    }
    assert matches[..i] == matches;
  }

  /**
   * After the inline pass the scripts are the earlier ones plus the resolved
   * candidates, no more: a `javascript:` link or an empty match never gets in.
   */
  lemma {:induction false} InlineIff(scripts: seq<string>, matches: seq<string>, join: string -> string, u: string)
    ensures u in WithInline(scripts, matches, join) <==>
      u in scripts || exists k :: 0 <= k < |matches| && IsCandidate(matches[k]) && join(matches[k]) == u
  {
    if matches != [] {
      var init := matches[..|matches| - 1];
      InlineIff(scripts, init, join, u);
      if exists k :: 0 <= k < |init| && IsCandidate(init[k]) && join(init[k]) == u {
        var k :| 0 <= k < |init| && IsCandidate(init[k]) && join(init[k]) == u;
        assert matches[k] == init[k];
      }
      if exists k :: 0 <= k < |matches| && IsCandidate(matches[k]) && join(matches[k]) == u {
        var k :| 0 <= k < |matches| && IsCandidate(matches[k]) && join(matches[k]) == u;
        if k < |init| {
          assert init[k] == matches[k];
        }
      }
    }
  }

  /** A tag of the data pass (`link`, `script` or `source`), "" for a missing attribute. */
  datatype AttrTag = AttrTag(href: string, src: string, dataSrc: string)

  /** `tag.get('href') or tag.get('src') or tag.get('data-src')`. */
  function FirstAttr(t: AttrTag): (r: string)
    ensures r == "" <==> t.href == "" && t.src == "" && t.dataSrc == ""
  {
    if t.href != "" then t.href else if t.src != "" then t.src else t.dataSrc
  }

  const DataExtensions: set<string> := {".wasm", ".data", ".br", ".gz"}

  /** The lower-cased suffix of the URL's path names a data file. */
  predicate IsDataFile(u: string, pathOf: string -> string) {
    Lower(Suffix(PathName(pathOf(u)))) in DataExtensions
  }

  /** The data pass: the resolved first attributes whose path suffix is a data extension. */
  function DataUrls(tags: seq<AttrTag>, join: string -> string, pathOf: string -> string): seq<string> {
    Keep(Resolved(Map(tags, FirstAttr), join), (u: string) => IsDataFile(u, pathOf))
  }

  lemma DataSnoc(tags: seq<AttrTag>, t: AttrTag, join: string -> string, pathOf: string -> string)
    ensures DataUrls(tags + [t], join, pathOf) == DataUrls(tags, join, pathOf)
      + (if FirstAttr(t) != "" && IsDataFile(join(FirstAttr(t)), pathOf) then [join(FirstAttr(t))] else [])
  {
    MapSnoc(tags, t, FirstAttr);
    ResolvedSnoc(Map(tags, FirstAttr), FirstAttr(t), join);
    KeepAppend(Resolved(Map(tags, FirstAttr), join), if FirstAttr(t) != "" then [join(FirstAttr(t))] else [],
               (u: string) => IsDataFile(u, pathOf));
    if FirstAttr(t) != "" {
      KeepSnoc([], join(FirstAttr(t)), (u: string) => IsDataFile(u, pathOf));
    }
  }

  /** The data loop of `extract_all_assets`. */
  method CollectData(tags: seq<AttrTag>, join: string -> string, pathOf: string -> string) returns (data: seq<string>)
    ensures data == DataUrls(tags, join, pathOf)
  {
    data := [];
    var i := 0;
    while i < |tags|
      invariant 0 <= i <= |tags|
      invariant data == DataUrls(tags[..i], join, pathOf)
    {
      assert tags[..i + 1] == tags[..i] + [tags[i]];
      DataSnoc(tags[..i], tags[i], join, pathOf);
      var href := FirstAttr(tags[i]);
      if href != "" {
        var full := join(href);
        if IsDataFile(full, pathOf) {
          data := data + [full];
        }
      }
      i := i + 1;
    }
    assert tags[..i] == tags;
  }

  /** A URL is a data URL exactly when it resolves the first attribute of some tag and names a data file. */
  lemma DataUrlsIff(tags: seq<AttrTag>, join: string -> string, pathOf: string -> string, u: string)
    ensures u in DataUrls(tags, join, pathOf) <==>
      IsDataFile(u, pathOf) && exists t :: t in tags && FirstAttr(t) != "" && u == join(FirstAttr(t))
  {
    var firsts := Map(tags, FirstAttr);
    KeepIff(Resolved(firsts, join), (u: string) => IsDataFile(u, pathOf), u);
    ResolvedIff(firsts, join, u);
    if exists r :: r in firsts && r != "" && u == join(r) {
      MapIn(tags, FirstAttr, var r :| r in firsts && r != "" && u == join(r); r);
    }
    if exists t :: t in tags && FirstAttr(t) != "" && u == join(FirstAttr(t)) {
      var t :| t in tags && FirstAttr(t) != "" && u == join(FirstAttr(t));
      var k :| 0 <= k < |tags| && tags[k] == t;
      assert firsts[k] == FirstAttr(t);
    }
  }

  /**
   * A file `stem.ext` at the end of the path is a data file exactly when the
   * lower-cased `.ext` is one of the four extensions: `.WASM` counts, a bare
   * `wasm` does not.
   */
  lemma DataFileByName(u: string, pathOf: string -> string, dir: string, stem: string, ext: string)
    requires stem != "" && ext != "" && '.' !in ext
    requires '/' !in stem && '/' !in ext
    requires pathOf(u) == dir + "/" + (stem + "." + ext)
    ensures IsDataFile(u, pathOf) <==> Lower("." + ext) in DataExtensions
  {
    var file := stem + "." + ext;
    assert '/' !in file by {
      assert forall i :: 0 <= i < |file| ==> file[i] == (if i < |stem| then stem[i] else if i == |stem| then '.' else ext[i - |stem| - 1]);
    }
    PathNameOfFile(dir, file);
    SuffixOf(stem, ext);
  }

  /** What the parser hands over for the play page. */
  datatype PlayPage = PlayPage(
    html: string,
    scriptSrcs: seq<string>,      // `src` of each `<script src>`
    inlineMatches: seq<string>,   // the URL-pattern matches of the inline scripts, in order
    stylesheetHrefs: seq<string>, // `href` of each `<link rel=stylesheet href>`
    imgSrcs: seq<string>,         // `src` of each `<img src>`
    fontHrefs: seq<string>,       // `href` of each `<link href>` whose `rel` mentions "font"
    dataTags: seq<AttrTag>)       // each `<link>`, `<script>` and `<source>`, in document order

  /** The dictionary `extract_all_assets` returns. */
  datatype AssetLists = AssetLists(scripts: seq<string>, stylesheets: seq<string>, images: seq<string>,
                                   fonts: seq<string>, data: seq<string>, other: seq<string>)

  /** `sum(len(v) for v in assets.values())`. */
  function Total(a: AssetLists): nat {
    |a.scripts| + |a.stylesheets| + |a.images| + |a.fonts| + |a.data| + |a.other|
  }

  function Extracted(page: PlayPage, join: string -> string, pathOf: string -> string): AssetLists {
    AssetLists(WithInline(Resolved(page.scriptSrcs, join), page.inlineMatches, join),
               Resolved(page.stylesheetHrefs, join), Resolved(page.imgSrcs, join), Resolved(page.fontHrefs, join),
               DataUrls(page.dataTags, join, pathOf), [])
  }

  /** `extract_all_assets`; nothing is ever put into `other`. */
  method ExtractAllAssets(page: PlayPage, join: string -> string, pathOf: string -> string) returns (lists: AssetLists)
    ensures lists == Extracted(page, join, pathOf)
    ensures lists.other == []
  {
    var scripts := ResolveNonEmpty(page.scriptSrcs, join);
    scripts := AddInline(scripts, page.inlineMatches, join);
    var stylesheets := ResolveNonEmpty(page.stylesheetHrefs, join);
    var images := ResolveNonEmpty(page.imgSrcs, join);
    var fonts := ResolveNonEmpty(page.fontHrefs, join);
    var data := CollectData(page.dataTags, join, pathOf);
    lists := AssetLists(scripts, stylesheets, images, fonts, data, []);
  }

  /** The file name of a download: `Path(urlparse(url).path).name`. */
  function NameOf(pathOf: string -> string): string -> string {
    (u: string) => PathName(pathOf(u))
  }

  /** A URL whose file name is empty is skipped by the download loops. */
  predicate Nameless(u: string, name: string -> string) {
    name(u) == ""
  }

  predicate Saved(u: string, folder: string, name: string -> string, succeeds: (string, string) -> bool) {
    name(u) != "" && succeeds(u, folder + "/" + name(u))
  }

  predicate Refused(u: string, folder: string, name: string -> string, succeeds: (string, string) -> bool) {
    name(u) != "" && !succeeds(u, folder + "/" + name(u))
  }

  function SavedCount(urls: seq<string>, folder: string, name: string -> string, succeeds: (string, string) -> bool): nat {
    |Keep(urls, (u: string) => Saved(u, folder, name, succeeds))|
  }

  function FailedCount(urls: seq<string>, folder: string, name: string -> string, succeeds: (string, string) -> bool): nat {
    |Keep(urls, (u: string) => Refused(u, folder, name, succeeds))|
  }

  function SkippedCount(urls: seq<string>, name: string -> string): nat {
    |Keep(urls, (u: string) => Nameless(u, name))|
  }

  /**
   * One download loop: a URL without a file name is skipped, any other is
   * written to `folder/NAME` and counted as downloaded or failed; every URL
   * lands in exactly one of the three.
   */
  method DownloadList(urls: seq<string>, folder: string, name: string -> string, succeeds: (string, string) -> bool)
    returns (downloaded: nat, failed: nat)
    ensures downloaded == SavedCount(urls, folder, name, succeeds)
    ensures failed == FailedCount(urls, folder, name, succeeds)
    ensures downloaded + failed + SkippedCount(urls, name) == |urls|
  {
    downloaded, failed := 0, 0;
    var i := 0;
    while i < |urls|
      invariant 0 <= i <= |urls|
      invariant downloaded == SavedCount(urls[..i], folder, name, succeeds)
      invariant failed == FailedCount(urls[..i], folder, name, succeeds)
      invariant downloaded + failed + SkippedCount(urls[..i], name) == i
    {
      var u := urls[i];
      assert urls[..i + 1] == urls[..i] + [u];
      KeepSnoc(urls[..i], u, (u: string) => Saved(u, folder, name, succeeds));
      KeepSnoc(urls[..i], u, (u: string) => Refused(u, folder, name, succeeds));
      KeepSnoc(urls[..i], u, (u: string) => Nameless(u, name));
      var filename := name(u);
      if filename != "" {
        var ok := succeeds(u, folder + "/" + filename);
        if ok {
          downloaded := downloaded + 1;
        } else {
          failed := failed + 1;
        }
      }
      i := i + 1;
    }
    assert urls[..i] == urls;
  }

  /** The folders of the four downloaded lists. */
  const ScriptDir := "js"
  const StylesheetDir := "css"
  const ImageDir := "images"
  const DataDir := "data"

  function DownloadedOf(a: AssetLists, name: string -> string, succeeds: (string, string) -> bool): nat {
    SavedCount(a.scripts, ScriptDir, name, succeeds) + SavedCount(a.stylesheets, StylesheetDir, name, succeeds)
    + SavedCount(a.images, ImageDir, name, succeeds) + SavedCount(a.data, DataDir, name, succeeds)
  }

  function FailedOf(a: AssetLists, name: string -> string, succeeds: (string, string) -> bool): nat {
    FailedCount(a.scripts, ScriptDir, name, succeeds) + FailedCount(a.stylesheets, StylesheetDir, name, succeeds)
    + FailedCount(a.images, ImageDir, name, succeeds) + FailedCount(a.data, DataDir, name, succeeds)
  }

  /** What the parser hands over for the game page. */
  datatype MainPage = MainPage(iframeSrc: Option<string>, anchors: seq<string>, scripts: seq<string>)

  /** The href of the first anchor that mentions `/games/` or `/play/`. */
  function FirstPlayHref(anchors: seq<string>): (r: Option<string>)
    ensures r.Some? ==> r.value in anchors && LaggedCategory.IsPlayHref(r.value)
  {
    if anchors == [] then None
    else if LaggedCategory.IsPlayHref(anchors[0]) then Some(anchors[0])
    else FirstPlayHref(anchors[1..])
  }

  /** The first `games/` string of the first inline script that has one. */
  function FirstScriptGames(scripts: seq<string>): Option<string> {
    if scripts == [] then None
    else if LaggedCategory.FirstQuotedGames(scripts[0]).Some? then LaggedCategory.FirstQuotedGames(scripts[0])
    else FirstScriptGames(scripts[1..])
  }

  /** `join` applied inside an option, "" for none: the value `play_url` holds after a search step. */
  function JoinedOr(o: Option<string>, join: string -> string): string {
    if o.Some? then join(o.value) else ""
  }

  /**
   * The play URL: the resolved `src` of the first iframe with one, else of
   * the first play anchor, else of the first `games/` string of a script,
   * else the game page; each step applies only while `play_url` is still
   * empty.
   */
  function ChoosePlayUrl(gameUrl: string, page: MainPage, join: string -> string): string {
    var frame := JoinedOr(page.iframeSrc, join);
    if frame != "" then frame
    else
      var anchor := JoinedOr(FirstPlayHref(page.anchors), join);
      if anchor != "" then anchor
      else
        var script := JoinedOr(FirstScriptGames(page.scripts), join);
        if script != "" then script else gameUrl
  }

  /** The first anchor that passes, at index `i`, is the one `FirstPlayHref` picks. */
  lemma {:induction false} FirstPlayHrefAt(anchors: seq<string>, i: nat)
    requires i < |anchors| && LaggedCategory.IsPlayHref(anchors[i])
    requires forall j :: 0 <= j < i ==> !LaggedCategory.IsPlayHref(anchors[j])
    ensures FirstPlayHref(anchors) == Some(anchors[i])
  {
    if i > 0 {
      FirstPlayHrefAt(anchors[1..], i - 1);
    }
  }

  lemma {:induction false} FirstPlayHrefNone(anchors: seq<string>)
    requires forall j :: 0 <= j < |anchors| ==> !LaggedCategory.IsPlayHref(anchors[j])
    ensures FirstPlayHref(anchors) == None
  {
    if anchors != [] {
      FirstPlayHrefNone(anchors[1..]);
    }
  }

  lemma {:induction false} FirstScriptGamesAt(scripts: seq<string>, k: nat)
    requires k < |scripts| && LaggedCategory.FirstQuotedGames(scripts[k]).Some?
    requires forall j :: 0 <= j < k ==> LaggedCategory.FirstQuotedGames(scripts[j]).None?
    ensures FirstScriptGames(scripts) == LaggedCategory.FirstQuotedGames(scripts[k])
  {
    if k > 0 {
      FirstScriptGamesAt(scripts[1..], k - 1);
    }
  }

  lemma {:induction false} FirstScriptGamesNone(scripts: seq<string>)
    requires forall j :: 0 <= j < |scripts| ==> LaggedCategory.FirstQuotedGames(scripts[j]).None?
    ensures FirstScriptGames(scripts) == None
  {
    if scripts != [] {
      FirstScriptGamesNone(scripts[1..]);
    }
  }

  /** The search of `download_game_assets`, through the anchor and script loops shared with scripts/scrape-lagged-category.py. */
  method FindPlay(gameUrl: string, page: MainPage, join: string -> string) returns (playUrl: string)
    ensures playUrl == ChoosePlayUrl(gameUrl, page, join)
  {
    playUrl := "";
    if page.iframeSrc.Some? {
      playUrl := join(page.iframeSrc.value);
    }
    if playUrl == "" {
      var fromAnchor := LaggedCategory.FindPlayUrl(page.anchors, [], LaggedCategory.IsPlayHref, join);
      AnchorPick(page.anchors, join, fromAnchor);
      if fromAnchor.Some? {
        playUrl := fromAnchor.value;
      }
    }
    if playUrl == "" {
      var fromScript := LaggedCategory.FindPlayUrl([], page.scripts, LaggedCategory.IsPlayHref, join);
      ScriptPick(page.scripts, join, fromScript);
      if fromScript.Some? {
        playUrl := fromScript.value;
      }
    }
    if playUrl == "" {
      playUrl := gameUrl;
    }
  }

  /** The anchor loop's result is the resolved first play anchor. */
  lemma AnchorPick(anchors: seq<string>, join: string -> string, r: Option<string>)
    requires r.None? <==> forall i :: 0 <= i < |anchors| ==> !LaggedCategory.IsPlayHref(anchors[i])
    requires r.Some? ==>
      exists i :: 0 <= i < |anchors| && LaggedCategory.IsPlayHref(anchors[i]) && r.value == join(anchors[i])
        && forall j :: 0 <= j < i ==> !LaggedCategory.IsPlayHref(anchors[j])
    ensures JoinedOr(FirstPlayHref(anchors), join) == if r.Some? then r.value else ""
  {
    if r.None? {
      FirstPlayHrefNone(anchors);
    } else {
      var i :| 0 <= i < |anchors| && LaggedCategory.IsPlayHref(anchors[i]) && r.value == join(anchors[i])
        && forall j :: 0 <= j < i ==> !LaggedCategory.IsPlayHref(anchors[j]);
      FirstPlayHrefAt(anchors, i);
    }
  }

  /** The script loop's result is the resolved first `games/` string. */
  lemma ScriptPick(scripts: seq<string>, join: string -> string, r: Option<string>)
    requires r.None? <==> forall k :: 0 <= k < |scripts| ==> LaggedCategory.FirstQuotedGames(scripts[k]).None?
    requires r.Some? ==>
      exists k :: 0 <= k < |scripts| && LaggedCategory.FirstQuotedGames(scripts[k]).Some?
        && r.value == join(LaggedCategory.FirstQuotedGames(scripts[k]).value)
        && forall j :: 0 <= j < k ==> LaggedCategory.FirstQuotedGames(scripts[j]).None?
    ensures JoinedOr(FirstScriptGames(scripts), join) == if r.Some? then r.value else ""
  {
    if r.None? {
      FirstScriptGamesNone(scripts);
    } else {
      var k :| 0 <= k < |scripts| && LaggedCategory.FirstQuotedGames(scripts[k]).Some?
        && r.value == join(LaggedCategory.FirstQuotedGames(scripts[k]).value)
        && forall j :: 0 <= j < k ==> LaggedCategory.FirstQuotedGames(scripts[j]).None?;
      FirstScriptGamesAt(scripts, k);
    }
  }

  /**
   * The precedence of the play-URL search, stated by position: an iframe
   * wins; without one, the first play anchor `i`; without either, the first
   * script `k` with a `games/` string; without any, the game page.
   */
  lemma PlayUrlPrecedence(gameUrl: string, page: MainPage, join: string -> string, i: nat, k: nat)
    ensures page.iframeSrc.Some? && join(page.iframeSrc.value) != "" ==>
      ChoosePlayUrl(gameUrl, page, join) == join(page.iframeSrc.value)
    ensures page.iframeSrc.None? && i < |page.anchors| && LaggedCategory.IsPlayHref(page.anchors[i])
      && (forall j :: 0 <= j < i ==> !LaggedCategory.IsPlayHref(page.anchors[j])) && join(page.anchors[i]) != ""
      ==> ChoosePlayUrl(gameUrl, page, join) == join(page.anchors[i])
    ensures page.iframeSrc.None? && (forall j :: 0 <= j < |page.anchors| ==> !LaggedCategory.IsPlayHref(page.anchors[j]))
      && k < |page.scripts| && LaggedCategory.FirstQuotedGames(page.scripts[k]).Some?
      && (forall j :: 0 <= j < k ==> LaggedCategory.FirstQuotedGames(page.scripts[j]).None?)
      && join(LaggedCategory.FirstQuotedGames(page.scripts[k]).value) != ""
      ==> ChoosePlayUrl(gameUrl, page, join) == join(LaggedCategory.FirstQuotedGames(page.scripts[k]).value)
    ensures page.iframeSrc.None? && (forall j :: 0 <= j < |page.anchors| ==> !LaggedCategory.IsPlayHref(page.anchors[j]))
      && (forall j :: 0 <= j < |page.scripts| ==> LaggedCategory.FirstQuotedGames(page.scripts[j]).None?)
      ==> ChoosePlayUrl(gameUrl, page, join) == gameUrl
  {
    if i < |page.anchors| && LaggedCategory.IsPlayHref(page.anchors[i])
      && (forall j :: 0 <= j < i ==> !LaggedCategory.IsPlayHref(page.anchors[j])) {
      FirstPlayHrefAt(page.anchors, i);
    }
    if forall j :: 0 <= j < |page.anchors| ==> !LaggedCategory.IsPlayHref(page.anchors[j]) {
      FirstPlayHrefNone(page.anchors);
    }
    if k < |page.scripts| && LaggedCategory.FirstQuotedGames(page.scripts[k]).Some?
      && (forall j :: 0 <= j < k ==> LaggedCategory.FirstQuotedGames(page.scripts[j]).None?) {
      FirstScriptGamesAt(page.scripts, k);
    }
    if forall j :: 0 <= j < |page.scripts| ==> LaggedCategory.FirstQuotedGames(page.scripts[j]).None? {
      FirstScriptGamesNone(page.scripts);
    }
  }

  /** `urljoin(base, ·)`: references resolved against the page they were found on. */
  function JoinAgainst(base: string, urljoin: (string, string) -> string): string -> string {
    (s: string) => urljoin(base, s)
  }

  /** What `download_game_assets` ends with. */
  datatype GameDownload =
    | DownloadFailed
    | Downloaded(playUrl: string, lists: AssetLists, downloaded: nat, failed: nat, indexHtml: string)

  /**
   * `download_game_assets`: `mainPage` is `None` when the game page cannot
   * be fetched, `fetchPlay(url)` `None` when the play page cannot; either
   * ends in failure. Otherwise the play page's assets are listed, the four
   * downloadable lists fetched, and the saved page rewritten to local paths.
   */
  method DownloadGameAssets(gameUrl: string, mainPage: Option<MainPage>, fetchPlay: string -> Option<PlayPage>,
                            urljoin: (string, string) -> string, netlocOf: string -> string,
                            pathOf: string -> string, succeeds: (string, string) -> bool)
    returns (outcome: GameDownload)
    ensures outcome.DownloadFailed? <==>
      mainPage.None? || fetchPlay(ChoosePlayUrl(gameUrl, mainPage.value, JoinAgainst(gameUrl, urljoin))).None?
    ensures outcome.Downloaded? ==>
      && mainPage.Some?
      && outcome.playUrl == ChoosePlayUrl(gameUrl, mainPage.value, JoinAgainst(gameUrl, urljoin))
      && var page := fetchPlay(outcome.playUrl).value;
      && outcome.lists == Extracted(page, JoinAgainst(outcome.playUrl, urljoin), pathOf)
      && outcome.downloaded == DownloadedOf(outcome.lists, NameOf(pathOf), succeeds)
      && outcome.failed == FailedOf(outcome.lists, NameOf(pathOf), succeeds)
      && outcome.downloaded + outcome.failed <= Total(outcome.lists) - |outcome.lists.fonts|
      && outcome.indexHtml == HtmlPaths.UpdatedHtml(page.html, netlocOf(outcome.playUrl))
  {
    if mainPage.None? {
      return DownloadFailed;
    }
    var playUrl := FindPlay(gameUrl, mainPage.value, JoinAgainst(gameUrl, urljoin));
    var page := fetchPlay(playUrl);
    if page.None? {
      return DownloadFailed;
    }
    var lists := ExtractAllAssets(page.value, JoinAgainst(playUrl, urljoin), pathOf);
    var downloaded, failed := DownloadLists(lists, NameOf(pathOf), succeeds);
    var html := HtmlPaths.UpdatedHtml(page.value.html, netlocOf(playUrl));
    return Downloaded(playUrl, lists, downloaded, failed, html);
  }

  /** The four download loops of `download_game_assets`, in order: scripts, stylesheets, images, data. */
  method DownloadLists(lists: AssetLists, name: string -> string, succeeds: (string, string) -> bool)
    returns (downloaded: nat, failed: nat)
    ensures downloaded == DownloadedOf(lists, name, succeeds)
    ensures failed == FailedOf(lists, name, succeeds)
    ensures downloaded + failed <= Total(lists) - |lists.fonts| - |lists.other|
  {
    var d1, f1 := DownloadList(lists.scripts, ScriptDir, name, succeeds);
    var d2, f2 := DownloadList(lists.stylesheets, StylesheetDir, name, succeeds);
    var d3, f3 := DownloadList(lists.images, ImageDir, name, succeeds);
    var d4, f4 := DownloadList(lists.data, DataDir, name, succeeds);
    downloaded, failed := d1 + d2 + d3 + d4, f1 + f2 + f3 + f4;
  }

  /**
   * Only scripts, stylesheets, images and data are fetched: the counts do
   * not depend on the fonts (nor on `other`), and every URL of the four
   * lists with a name is counted once, as downloaded or as failed.
   */
  lemma CountsCoverNamedUrls(a: AssetLists, fonts: seq<string>, other: seq<string>,
                             name: string -> string, succeeds: (string, string) -> bool)
    ensures DownloadedOf(a.(fonts := fonts, other := other), name, succeeds) == DownloadedOf(a, name, succeeds)
    ensures FailedOf(a.(fonts := fonts, other := other), name, succeeds) == FailedOf(a, name, succeeds)
    ensures DownloadedOf(a, name, succeeds) + FailedOf(a, name, succeeds)
      + SkippedCount(a.scripts, name) + SkippedCount(a.stylesheets, name)
      + SkippedCount(a.images, name) + SkippedCount(a.data, name)
      == |a.scripts| + |a.stylesheets| + |a.images| + |a.data|
  {
    CountsPartition(a.scripts, ScriptDir, name, succeeds);
    CountsPartition(a.stylesheets, StylesheetDir, name, succeeds);
    CountsPartition(a.images, ImageDir, name, succeeds);
    CountsPartition(a.data, DataDir, name, succeeds);
  }

  /** Downloaded, failed and skipped partition a list. */
  lemma {:induction false} CountsPartition(urls: seq<string>, folder: string, name: string -> string,
                                           succeeds: (string, string) -> bool)
    ensures SavedCount(urls, folder, name, succeeds) + FailedCount(urls, folder, name, succeeds)
      + SkippedCount(urls, name) == |urls|
  {
    if urls != [] {
      var init, u := urls[..|urls| - 1], urls[|urls| - 1];
      CountsPartition(init, folder, name, succeeds);
      assert urls == init + [u];
      KeepSnoc(init, u, (u: string) => Saved(u, folder, name, succeeds));
      KeepSnoc(init, u, (u: string) => Refused(u, folder, name, succeeds));
      KeepSnoc(init, u, (u: string) => Nameless(u, name));
    }
  }
}

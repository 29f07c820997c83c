/**
 * scripts/scrape-whack-your-boss.py, from the asset extraction on: the same
 * pipeline as the Lagged variant with Kongregate hosts, four ad substrings,
 * a simpler file-name rule, and two quirks kept as written: the stylesheet
 * test reads the `src` left over from the image and script loops (an error
 * when neither loop ran), and the SWF pass of the embed page names
 * `seen_urls` before it is assigned, so its error is swallowed and no SWF is
 * ever added. `join` is `urljoin(BASE_URL, ·)`, `netlocOf` and `pathOf` are
 * `urlparse(·).netloc` and `.path`, `download(url)` is whether
 * `download_file` succeeds.
 */
module KongregateBoss {
  import opened Wrappers
  import opened Text
  import opened Seqs
  import opened Paths
  import opened Assets
  import LaggedBoss

  const KongregateHosts: set<string> := {"www.kongregate.com", "cdn.kongregate.com", ""}

  const KongregateAds: seq<string> := ["googlesyndication", "doubleclick", "facebook", "twitter"]

  predicate OnKongregate(url: string, netlocOf: string -> string) {
    netlocOf(url) in KongregateHosts
  }

  /** The value of `src` after the image and script loops: the last script's, else the last image's, else unassigned. */
  function StaleSrc(tags: PageTags, join: string -> string): Option<string> {
    if tags.scriptSrcs != [] then Some(join(tags.scriptSrcs[|tags.scriptSrcs| - 1]))
    else if tags.imgSrcs != [] then Some(join(tags.imgSrcs[|tags.imgSrcs| - 1]))
    else None
  }

  /** The stylesheet test, the same for every link: the stale `src` is on a Kongregate host. */
  predicate StylesheetsPass(tags: PageTags, join: string -> string, netlocOf: string -> string) {
    StaleSrc(tags, join).Some? && OnKongregate(StaleSrc(tags, join).value, netlocOf)
  }

  /** The stylesheet loop raises `NameError` when it has a link to test and `src` was never assigned. */
  predicate StylesheetLoopRaises(tags: PageTags, join: string -> string) {
    tags.stylesheetHrefs != [] && StaleSrc(tags, join).None?
  }

  /** The embed page as parsed: the `src` of each iframe, and the matches of the SWF pattern. */
  datatype EmbedPage = EmbedPage(iframeSrcs: seq<string>, swfMatches: seq<string>)

  /** An iframe of the embed page is a game file when its `src` mentions `game` or `frame`, ignoring case. */
  predicate IsGameFrame(src: string) {
    Contains(Lower(src), "game") || Contains(Lower(src), "frame")
  }

  /** The game assets of the embed page: its game iframes, resolved; SWF matches never get in. */
  function EmbedAssets(embedUrls: seq<string>, embed: Option<EmbedPage>, join: string -> string): seq<Asset> {
    if embedUrls != [] && embed.Some? then Tagged(Keep(embed.value.iframeSrcs, IsGameFrame), join, (u: string) => true, Game)
    else []
  }

  /**
   * The tag loops and the game URLs: images and scripts on a Kongregate
   * host, every favicon, every stylesheet or none as the stale `src`
   * decides, then the embed URLs and the game URLs found on the page.
   */
  function PageAssets(tags: PageTags, embedUrls: seq<string>, gameUrlsFound: seq<string>,
                      join: string -> string, netlocOf: string -> string): seq<Asset> {
    Tagged(tags.imgSrcs, join, (u: string) => OnKongregate(u, netlocOf), Image)
    + Tagged(tags.iconHrefs, join, (u: string) => true, Favicon)
    + Tagged(tags.scriptSrcs, join, (u: string) => OnKongregate(u, netlocOf), Script)
    + Tagged(tags.stylesheetHrefs, join, (u: string) => StylesheetsPass(tags, join, netlocOf), Stylesheet)
    + Tagged(embedUrls + gameUrlsFound, (u: string) => u, (u: string) => true, Game)
  }

  /** `assets_to_download`: the page's assets, then the embed page's game iframes. */
  function Collected(tags: PageTags, embedUrls: seq<string>, gameUrlsFound: seq<string>, embed: Option<EmbedPage>,
                     join: string -> string, netlocOf: string -> string): seq<Asset> {
    PageAssets(tags, embedUrls, gameUrlsFound, join, netlocOf) + EmbedAssets(embedUrls, embed, join)
  }

  /** The iframe loop of the embed page. */
  method CollectEmbedFrames(acc: seq<Asset>, srcs: seq<string>, join: string -> string) returns (assets: seq<Asset>)
    ensures assets == acc + Tagged(Keep(srcs, IsGameFrame), join, (u: string) => true, Game)
  {
    assets := acc;
    var i := 0;
    while i < |srcs|
      invariant 0 <= i <= |srcs|
      invariant assets == acc + Tagged(Keep(srcs[..i], IsGameFrame), join, (u: string) => true, Game)
    {
      FramesPrefix(srcs, i, join);
      if IsGameFrame(srcs[i]) {
        assets := assets + [Asset(join(srcs[i]), Game)];
      }
      i := i + 1;
    }
    assert srcs[..i] == srcs;
  }

  /** The game frames of a prefix one iframe longer. */
  lemma FramesPrefix(srcs: seq<string>, i: nat, join: string -> string)
    requires i < |srcs|
    ensures Tagged(Keep(srcs[..i + 1], IsGameFrame), join, (u: string) => true, Game)
      == Tagged(Keep(srcs[..i], IsGameFrame), join, (u: string) => true, Game)
         + (if IsGameFrame(srcs[i]) then [Asset(join(srcs[i]), Game)] else [])
  {
    var before := Keep(srcs[..i], IsGameFrame);
    KeepPrefix(srcs, i, IsGameFrame);
    if IsGameFrame(srcs[i]) {
      TaggedSnoc(before, srcs[i], join, (u: string) => true, Game);
    } else {
      assert Keep(srcs[..i + 1], IsGameFrame) == before + [] == before;
    }
  }

  /**
   * The SWF loop: the first match that is non-empty and not a `javascript:`
   * URL reaches the reference to `seen_urls` and raises; `raised` says
   * whether that happened. Nothing is appended either way.
   */
  method SwfPass(matches: seq<string>) returns (raised: bool)
    ensures raised <==> exists k :: 0 <= k < |matches| && matches[k] != "" && !StartsWith(matches[k], "javascript:")
  {
    var i := 0;
    while i < |matches|
      invariant 0 <= i <= |matches|
      invariant forall k :: 0 <= k < i ==> !(matches[k] != "" && !StartsWith(matches[k], "javascript:"))
    {
      if matches[i] != "" && !StartsWith(matches[i], "javascript:") {
        return true;
      }
      i := i + 1;
    }
    return false;
  }

  /** The four tag loops and the game URLs. */
  method CollectPage(tags: PageTags, embedUrls: seq<string>, gameUrlsFound: seq<string>,
                     join: string -> string, netlocOf: string -> string) returns (assets: seq<Asset>)
    ensures assets == PageAssets(tags, embedUrls, gameUrlsFound, join, netlocOf)
  {
    assets := CollectTagged([], tags.imgSrcs, join, (u: string) => OnKongregate(u, netlocOf), Image);
    assert assets == Tagged(tags.imgSrcs, join, (u: string) => OnKongregate(u, netlocOf), Image);
    assets := CollectTagged(assets, tags.iconHrefs, join, (u: string) => true, Favicon);
    assets := CollectTagged(assets, tags.scriptSrcs, join, (u: string) => OnKongregate(u, netlocOf), Script);
    assets := CollectTagged(assets, tags.stylesheetHrefs, join, (u: string) => StylesheetsPass(tags, join, netlocOf), Stylesheet);
    assets := CollectTagged(assets, embedUrls + gameUrlsFound, (u: string) => u, (u: string) => true, Game);
  }

  /** The collection loops and the embed-page pass; `None` when the stylesheet loop raises. */
  method CollectAssets(tags: PageTags, embedUrls: seq<string>, gameUrlsFound: seq<string>, embed: Option<EmbedPage>,
                       join: string -> string, netlocOf: string -> string)
    returns (assets: Option<seq<Asset>>)
    ensures assets.None? <==> StylesheetLoopRaises(tags, join)
    ensures assets.Some? ==> assets.value == Collected(tags, embedUrls, gameUrlsFound, embed, join, netlocOf)
  {
    if StylesheetLoopRaises(tags, join) {
      return None;
    }
    var acc := CollectPage(tags, embedUrls, gameUrlsFound, join, netlocOf);
    if embedUrls != [] && embed.Some? {
      acc := CollectEmbedFrames(acc, embed.value.iframeSrcs, join);
      var _ := SwfPass(embed.value.swfMatches);
    }
    return Some(acc);
  }

  /**
   * The stylesheet quirk: the links are all kept or all dropped, by the host
   * of the last script (else the last image), whatever their own hosts.
   */
  lemma StylesheetsByStaleSrc(tags: PageTags, embedUrls: seq<string>, gameUrlsFound: seq<string>, embed: Option<EmbedPage>,
                              join: string -> string, netlocOf: string -> string)
    ensures var sheets := Keep(Collected(tags, embedUrls, gameUrlsFound, embed, join, netlocOf), (a: Asset) => a.kind == Stylesheet);
      sheets == (if StylesheetsPass(tags, join, netlocOf) then Map(tags.stylesheetHrefs, (h: string) => Asset(join(h), Stylesheet)) else [])
  {
    NoneOfKind(tags.imgSrcs, join, (u: string) => OnKongregate(u, netlocOf), Image, Stylesheet);
    NoneOfKind(tags.iconHrefs, join, (u: string) => true, Favicon, Stylesheet);
    NoneOfKind(tags.scriptSrcs, join, (u: string) => OnKongregate(u, netlocOf), Script, Stylesheet);
    NoneOfKind(embedUrls + gameUrlsFound, (u: string) => u, (u: string) => true, Game, Stylesheet);
    if embedUrls != [] && embed.Some? {
      NoneOfKind(Keep(embed.value.iframeSrcs, IsGameFrame), join, (u: string) => true, Game, Stylesheet);
    }
    SheetsOnly(Tagged(tags.imgSrcs, join, (u: string) => OnKongregate(u, netlocOf), Image),
               Tagged(tags.iconHrefs, join, (u: string) => true, Favicon),
               Tagged(tags.scriptSrcs, join, (u: string) => OnKongregate(u, netlocOf), Script),
               Tagged(tags.stylesheetHrefs, join, (u: string) => StylesheetsPass(tags, join, netlocOf), Stylesheet),
               Tagged(embedUrls + gameUrlsFound, (u: string) => u, (u: string) => true, Game),
               EmbedAssets(embedUrls, embed, join));
    StaleSheets(tags, join, netlocOf);
  }

  /** Among six lists of which only the fourth holds stylesheets, the stylesheets are those of the fourth. */
  lemma SheetsOnly(imgs: seq<Asset>, icons: seq<Asset>, scripts: seq<Asset>, sheets: seq<Asset>, games: seq<Asset>, frames: seq<Asset>)
    requires Keep(imgs, (a: Asset) => a.kind == Stylesheet) == [] && Keep(icons, (a: Asset) => a.kind == Stylesheet) == []
    requires Keep(scripts, (a: Asset) => a.kind == Stylesheet) == [] && Keep(games, (a: Asset) => a.kind == Stylesheet) == []
    requires Keep(frames, (a: Asset) => a.kind == Stylesheet) == []
    ensures Keep(imgs + icons + scripts + sheets + games + frames, (a: Asset) => a.kind == Stylesheet)
      == Keep(sheets, (a: Asset) => a.kind == Stylesheet)
  {
    var isSheet := (a: Asset) => a.kind == Stylesheet;
    KeepAppend(imgs + icons + scripts + sheets + games, frames, isSheet);
    KeepAppend(imgs + icons + scripts + sheets, games, isSheet);
    KeepAppend(imgs + icons + scripts, sheets, isSheet);
    KeepAppend(imgs + icons, scripts, isSheet);
    KeepAppend(imgs, icons, isSheet);
  }

  /** The stylesheet loop keeps every link or none, as the stale `src` decides. */
  lemma StaleSheets(tags: PageTags, join: string -> string, netlocOf: string -> string)
    ensures Keep(Tagged(tags.stylesheetHrefs, join, (u: string) => StylesheetsPass(tags, join, netlocOf), Stylesheet),
                 (a: Asset) => a.kind == Stylesheet)
      == (if StylesheetsPass(tags, join, netlocOf) then Map(tags.stylesheetHrefs, (h: string) => Asset(join(h), Stylesheet)) else [])
  {
    AllOfKind(tags.stylesheetHrefs, join, (u: string) => StylesheetsPass(tags, join, netlocOf), Stylesheet);
    if StylesheetsPass(tags, join, netlocOf) {
      KeepAll(Map(tags.stylesheetHrefs, join), (u: string) => StylesheetsPass(tags, join, netlocOf));
    } else {
      KeepNone(Map(tags.stylesheetHrefs, join), (u: string) => StylesheetsPass(tags, join, netlocOf));
    }
  }

  /** A tag loop of another type contributes nothing of type `other`. */
  lemma NoneOfKind(raws: seq<string>, join: string -> string, keep: string -> bool, kind: AssetKind, other: AssetKind)
    requires kind != other
    ensures Keep(Tagged(raws, join, keep, kind), (a: Asset) => a.kind == other) == []
  {
    var t := Tagged(raws, join, keep, kind);
    KeepNone(t, (a: Asset) => a.kind == other);
  }

  /** A tag loop of type `kind` is all of type `kind`. */
  lemma AllOfKind(raws: seq<string>, join: string -> string, keep: string -> bool, kind: AssetKind)
    ensures Keep(Tagged(raws, join, keep, kind), (a: Asset) => a.kind == kind) == Tagged(raws, join, keep, kind)
  {
    KeepAll(Tagged(raws, join, keep, kind), (a: Asset) => a.kind == kind);
  }

  /**
   * The SWF quirk: every game asset comes from the game URLs or from an
   * embed iframe whose `src` mentions `game` or `frame`; the SWF matches
   * of the embed page never contribute.
   */
  lemma GameAssetsOrigin(tags: PageTags, embedUrls: seq<string>, gameUrlsFound: seq<string>, embed: Option<EmbedPage>,
                         join: string -> string, netlocOf: string -> string, a: Asset)
    requires a in Collected(tags, embedUrls, gameUrlsFound, embed, join, netlocOf) && a.kind == Game
    ensures a.url in embedUrls + gameUrlsFound
         || (embedUrls != [] && embed.Some? && exists s :: s in embed.value.iframeSrcs && IsGameFrame(s) && a.url == join(s))
  {
    TaggedIff(tags.imgSrcs, join, (u: string) => OnKongregate(u, netlocOf), Image, a);
    TaggedIff(tags.iconHrefs, join, (u: string) => true, Favicon, a);
    TaggedIff(tags.scriptSrcs, join, (u: string) => OnKongregate(u, netlocOf), Script, a);
    TaggedIff(tags.stylesheetHrefs, join, (u: string) => StylesheetsPass(tags, join, netlocOf), Stylesheet, a);
    TaggedIff(embedUrls + gameUrlsFound, (u: string) => u, (u: string) => true, Game, a);
    if embedUrls != [] && embed.Some? {
      var frames := Keep(embed.value.iframeSrcs, IsGameFrame);
      TaggedIff(frames, join, (u: string) => true, Game, a);
      if a in Tagged(frames, join, (u: string) => true, Game) {
        var s :| s in frames && a.url == join(s);
        KeepIff(embed.value.iframeSrcs, IsGameFrame, s);
      }
    }
  }

  /** The file name: the last path component or `index.html`, with unsafe characters replaced by `_`. */
  function FileName(path: string): (name: string)
    ensures name != ""
    ensures forall i :: 0 <= i < |name| ==> name[i] !in Unsafe
  {
    var n := PathName(path);
    var n1 := if n == "" then IndexHtml() else n;
    var n2 := CleanChars(n1);
    if n2 == "" then IndexHtml() else n2
  }

  /** Unlike the Lagged variant, this rule does not cut at `?` nor replace a lone `_`: a component `?` is saved as `_`. */
  lemma FileNameRulesDiffer()
    ensures FileName("/?") == "_"
    ensures LaggedBoss.FileName("/?") == "index.html"
  {
    QuestionSaved();
    QuestionDropped();
  }

  /** The component of `/?` is `?`. */
  lemma QuestionComponent()
    ensures PathName("/?") == "?"
  {
    PathNameOfFile("", "?");
    assert "" + "/" + "?" == "/?";
  }

  /** This rule keeps the component `?` and makes it `_`. */
  lemma QuestionSaved()
    ensures FileName("/?") == "_"
  {
    QuestionComponent();
    assert CleanChars("?") == "_";
  }

  /** The Lagged rule cuts the component `?` to nothing and falls back to `index.html`. */
  lemma QuestionDropped()
    ensures LaggedBoss.FileName("/?") == "index.html"
  {
    QuestionComponent();
    assert BeforeFirst("?", {'?'}) == "";
  }

  function Target(a: Asset, pathOf: string -> string): string {
    Folder(a.kind) + "/" + FileName(pathOf(a.url))
  }

  /**
   * `scrape_assets` from the extraction on; `tags` is `None` when the page
   * request fails. `embed` is the embed page fetched from the first embed
   * URL, `None` when that request fails.
   */
  method ScrapeAssets(tags: Option<PageTags>, embedUrls: seq<string>, gameUrlsFound: seq<string>, embed: Option<EmbedPage>,
                      join: string -> string, netlocOf: string -> string, pathOf: string -> string, download: string -> bool)
    returns (outcome: Outcome)
    ensures tags.None? ==> outcome == NoPage
    ensures tags.Some? && StylesheetLoopRaises(tags.value, join) ==> outcome == Crashed
    ensures tags.Some? && !StylesheetLoopRaises(tags.value, join) ==>
      && outcome.Done?
      && outcome.unique == Unique(Collected(tags.value, embedUrls, gameUrlsFound, embed, join, netlocOf), KongregateAds)
      && outcome.downloaded == |Keep(outcome.unique, (a: Asset) => download(a.url))|
      && outcome.downloaded <= |outcome.unique|
      && outcome.gamePath == FirstGamePath(outcome.unique, (a: Asset) => Target(a, pathOf))
  {
    if tags.None? {
      return NoPage;
    }
    var assets := CollectAssets(tags.value, embedUrls, gameUrlsFound, embed, join, netlocOf);
    if assets.None? {
      return Crashed;
    }
    var unique := DedupAssets(assets.value, KongregateAds);
    var downloaded, gamePath := DownloadAll(unique, (a: Asset) => download(a.url), (a: Asset) => Target(a, pathOf));
    return Done(unique, downloaded, gamePath);
  }
}

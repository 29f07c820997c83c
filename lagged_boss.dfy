/**
 * scripts/scrape-lagged-whack-your-boss.py, from the asset extraction on:
 * the host allow-list, the dedup and ad filter, the file-name cleaning, the
 * routing to a folder and the download counters of `scrape_assets`. The game
 * URLs found earlier in the function (`embed_urls + game_urls_found`) are an
 * input; `join` is `urljoin(BASE_URL, ·)`, `netlocOf` and `pathOf` are
 * `urlparse(·).netloc` and `.path`, and `download(url)` is whether
 * `download_file` succeeds.
 */
module LaggedBoss {
  import opened Wrappers
  import opened Text
  import opened Seqs
  import opened Paths
  import opened Assets

  const LaggedHosts: set<string> := {"lagged.com", "www.lagged.com", "cdn.lagged.com", ""}

  const LaggedAds: seq<string> := ["googlesyndication", "doubleclick", "facebook", "twitter", "google-analytics", "googletagmanager"]

  predicate OnLagged(url: string, netlocOf: string -> string) {
    netlocOf(url) in LaggedHosts
  }

  /**
   * `assets_to_download`: images, favicons, scripts and stylesheets in that
   * order, all but the favicons only on a Lagged host, then the game URLs.
   */
  function Collected(tags: PageTags, gameUrls: seq<string>, join: string -> string, netlocOf: string -> string): seq<Asset> {
    Tagged(tags.imgSrcs, join, (u: string) => OnLagged(u, netlocOf), Image)
    + Tagged(tags.iconHrefs, join, (u: string) => true, Favicon)
    + Tagged(tags.scriptSrcs, join, (u: string) => OnLagged(u, netlocOf), Script)
    + Tagged(tags.stylesheetHrefs, join, (u: string) => OnLagged(u, netlocOf), Stylesheet)
    + Tagged(gameUrls, (u: string) => u, (u: string) => true, Game)
  }

  /** The five collection loops. */
  method CollectAssets(tags: PageTags, gameUrls: seq<string>, join: string -> string, netlocOf: string -> string)
    returns (assets: seq<Asset>)
    ensures assets == Collected(tags, gameUrls, join, netlocOf)
  {
    assets := CollectTagged([], tags.imgSrcs, join, (u: string) => OnLagged(u, netlocOf), Image);
    assert assets == Tagged(tags.imgSrcs, join, (u: string) => OnLagged(u, netlocOf), Image);
    assets := CollectTagged(assets, tags.iconHrefs, join, (u: string) => true, Favicon);
    assets := CollectTagged(assets, tags.scriptSrcs, join, (u: string) => OnLagged(u, netlocOf), Script);
    assets := CollectTagged(assets, tags.stylesheetHrefs, join, (u: string) => OnLagged(u, netlocOf), Stylesheet);
    assets := CollectTagged(assets, gameUrls, (u: string) => u, (u: string) => true, Game);
  }

  /**
   * What is collected: images, scripts and stylesheets only from a Lagged
   * host (or with no host), every favicon whatever its host, every game URL.
   */
  lemma CollectedHosts(tags: PageTags, gameUrls: seq<string>, join: string -> string, netlocOf: string -> string, a: Asset)
    ensures a in Collected(tags, gameUrls, join, netlocOf) && (a.kind == Image || a.kind == Script || a.kind == Stylesheet)
      ==> OnLagged(a.url, netlocOf)
    ensures (exists r :: r in tags.iconHrefs && a == Asset(join(r), Favicon)) ==> a in Collected(tags, gameUrls, join, netlocOf)
    ensures a.url in gameUrls && a.kind == Game ==> a in Collected(tags, gameUrls, join, netlocOf)
  {
    TaggedIff(tags.imgSrcs, join, (u: string) => OnLagged(u, netlocOf), Image, a);
    TaggedIff(tags.iconHrefs, join, (u: string) => true, Favicon, a);
    TaggedIff(tags.scriptSrcs, join, (u: string) => OnLagged(u, netlocOf), Script, a);
    TaggedIff(tags.stylesheetHrefs, join, (u: string) => OnLagged(u, netlocOf), Stylesheet, a);
    TaggedIff(gameUrls, (u: string) => u, (u: string) => true, Game, a);
  }

  /**
   * The file name of an asset: the last path component or `index.html`, cut
   * at the first `?`, unsafe characters replaced by `_`, and `index.html`
   * again when that leaves nothing or a lone `_`.
   */
  function FileName(path: string): (name: string)
    ensures name != "" && name != "_"
    ensures forall i :: 0 <= i < |name| ==> name[i] !in Unsafe
  {
    var n := PathName(path);
    var n1 := if n == "" then IndexHtml() else n;
    var n2 := if '?' in n1 then BeforeFirst(n1, {'?'}) else n1;
    var n3 := CleanChars(n2);
    if n3 == "" || n3 == "_" then IndexHtml() else n3
  }

  /** A plain file name at the end of the path is kept as it is. */
  lemma FileNameOfPlainFile(dir: string, file: string)
    requires file != "" && file != "." && file != "_"
    requires forall i :: 0 <= i < |file| ==> file[i] !in Unsafe
    ensures FileName(dir + "/" + file) == file
  {
    PathNameOfFile(dir, file);
    assert '?' in Unsafe;
    assert CleanChars(file) == file;
  }

  /** The file an asset is written to, relative to the output directory. */
  function Target(a: Asset, pathOf: string -> string): string {
    Folder(a.kind) + "/" + FileName(pathOf(a.url))
  }

  /**
   * `scrape_assets` from the extraction on; `tags` is `None` when the page
   * request fails, which ends the run first.
   */
  method ScrapeAssets(tags: Option<PageTags>, gameUrls: seq<string>, join: string -> string, netlocOf: string -> string,
                      pathOf: string -> string, download: string -> bool)
    returns (outcome: Outcome)
    ensures tags.None? ==> outcome == NoPage
    ensures tags.Some? ==>
      && outcome.Done?
      && outcome.unique == Unique(Collected(tags.value, gameUrls, join, netlocOf), LaggedAds)
      && outcome.downloaded == |Keep(outcome.unique, (a: Asset) => download(a.url))|
      && outcome.downloaded <= |outcome.unique|
      && outcome.gamePath == FirstGamePath(outcome.unique, (a: Asset) => Target(a, pathOf))
  {
    if tags.None? {
      return NoPage;
    }
    var assets := CollectAssets(tags.value, gameUrls, join, netlocOf);
    var unique := DedupAssets(assets, LaggedAds);
    var downloaded, gamePath := DownloadAll(unique, (a: Asset) => download(a.url), (a: Asset) => Target(a, pathOf));
    return Done(unique, downloaded, gamePath);
  }

  /**
   * What the run keeps: distinct URLs, no ad URL, images, scripts and
   * stylesheets only from a Lagged host, and each game URL that is not an
   * ad (unless a tag asset had the same URL first).
   */
  lemma KeptAssets(tags: PageTags, gameUrls: seq<string>, join: string -> string, netlocOf: string -> string)
    ensures UrlsDistinct(Unique(Collected(tags, gameUrls, join, netlocOf), LaggedAds))
    ensures forall a :: a in Unique(Collected(tags, gameUrls, join, netlocOf), LaggedAds) ==>
      !IsAd(a.url, LaggedAds) && ((a.kind == Image || a.kind == Script || a.kind == Stylesheet) ==> OnLagged(a.url, netlocOf))
    ensures forall u :: u in gameUrls && !IsAd(u, LaggedAds) ==> u in UrlsOf(Unique(Collected(tags, gameUrls, join, netlocOf), LaggedAds))
  {
    var c := Collected(tags, gameUrls, join, netlocOf);
    var u := Unique(c, LaggedAds);
    UniqueDistinct(c, LaggedAds);
    UniqueSound(c, LaggedAds);
    UniqueComplete(c, LaggedAds);
    forall a | a in u
      ensures !IsAd(a.url, LaggedAds) && ((a.kind == Image || a.kind == Script || a.kind == Stylesheet) ==> OnLagged(a.url, netlocOf))
    {
      var i :| 0 <= i < |u| && u[i] == a;
      var k :| FirstAt(c, k, u[i]);
      assert c[k] in c;
      CollectedHosts(tags, gameUrls, join, netlocOf, a);
    }
    forall g | g in gameUrls && !IsAd(g, LaggedAds) ensures g in UrlsOf(u) {
      CollectedHosts(tags, gameUrls, join, netlocOf, Asset(g, Game));
    }
  }
}

/**
 * scripts/scrape-veck-io.py: the base URL of the game page, the four tag
 * loops that keep only same-host assets, the shared duplicate and ad
 * filter, and the download loop. `join` is `urljoin(base_url, ·)`,
 * `netlocOf` and `pathOf` are `urlparse(·).netloc` and `.path`, and
 * `download(url)` is whether the request and the write succeed.
 */
module VeckIo {
  import opened Wrappers
  import opened Text
  import opened Seqs
  import opened Paths
  import opened Assets

  const VeckAds: seq<string> := ["googlesyndication", "doubleclick", "crazygames.com/portal", "crazygames.com/images"]

  /** `path.rsplit('/', 1)[0]`: the path before its last `/`, or the whole path when it has none. */
  function DirPart(path: string): (r: string)
    ensures r <= path
    ensures '/' in path ==> |r| < |path| && path[|r|] == '/' && '/' !in path[|r| + 1..]
  {
    var last := LastSegment(path, '/');
    if |last| == |path| then path
    else path[..|path| - |last| - 1]
  }

  /** `base_url`: scheme, `://`, host, the directory of the path, and a closing `/`. */
  function BaseUrlOf(scheme: string, netloc: string, path: string): (r: string)
    ensures EndsWith(r, "/") && StartsWith(r, scheme + "://" + netloc)
  {
    var r := scheme + "://" + netloc + DirPart(path) + "/";
    assert r[..|scheme + "://" + netloc|] == scheme + "://" + netloc;
    r
  }

  /**
   * For a page at `dir/file`, the base URL is its directory with a closing
   * `/`; for the game page, `https://games.crazygames.com/en_US/veck-io/`.
   */
  lemma BaseUrlOfPage(scheme: string, netloc: string, dir: string, file: string)
    requires '/' !in file
    ensures BaseUrlOf(scheme, netloc, dir + "/" + file) == scheme + "://" + netloc + dir + "/"
  {
    LastSegmentAfter(dir, file, '/');
    var p := dir + "/" + file;
    assert p[..|p| - |file| - 1] == dir;
  }

  /** `urlparse(u).netloc == urlparse(base_url).netloc`. */
  predicate SameHost(u: string, base: string, netlocOf: string -> string) {
    netlocOf(u) == netlocOf(base)
  }

  /** The four tag loops, scripts first, each keeping the resolved URLs on the base URL's host. */
  function Collected(tags: PageTags, base: string, join: string -> string, netlocOf: string -> string): seq<Asset> {
    Tagged(tags.scriptSrcs, join, (u: string) => SameHost(u, base, netlocOf), Script)
    + Tagged(tags.stylesheetHrefs, join, (u: string) => SameHost(u, base, netlocOf), Stylesheet)
    + Tagged(tags.imgSrcs, join, (u: string) => SameHost(u, base, netlocOf), Image)
    + Tagged(tags.iconHrefs, join, (u: string) => SameHost(u, base, netlocOf), Favicon)
  }

  method CollectAssets(tags: PageTags, base: string, join: string -> string, netlocOf: string -> string)
    returns (assets: seq<Asset>)
    ensures assets == Collected(tags, base, join, netlocOf)
  {
    assets := CollectTagged([], tags.scriptSrcs, join, (u: string) => SameHost(u, base, netlocOf), Script);
    assets := CollectTagged(assets, tags.stylesheetHrefs, join, (u: string) => SameHost(u, base, netlocOf), Stylesheet);
    assets := CollectTagged(assets, tags.imgSrcs, join, (u: string) => SameHost(u, base, netlocOf), Image);
    assets := CollectTagged(assets, tags.iconHrefs, join, (u: string) => SameHost(u, base, netlocOf), Favicon);
  }

  /**
   * Only game files: every collected asset is on the base URL's host and is
   * a script, stylesheet, image or favicon; every tag value that resolves
   * onto that host is collected.
   */
  lemma CollectedSameHost(tags: PageTags, base: string, join: string -> string, netlocOf: string -> string, a: Asset)
    ensures a in Collected(tags, base, join, netlocOf) ==> netlocOf(a.url) == netlocOf(base) && a.kind != Game
    ensures (exists r :: r in tags.scriptSrcs && a == Asset(join(r), Script)) && netlocOf(a.url) == netlocOf(base)
      ==> a in Collected(tags, base, join, netlocOf)
    ensures (exists r :: r in tags.imgSrcs && a == Asset(join(r), Image)) && netlocOf(a.url) == netlocOf(base)
      ==> a in Collected(tags, base, join, netlocOf)
  {
    TaggedIff(tags.scriptSrcs, join, (u: string) => SameHost(u, base, netlocOf), Script, a);
    TaggedIff(tags.stylesheetHrefs, join, (u: string) => SameHost(u, base, netlocOf), Stylesheet, a);
    TaggedIff(tags.imgSrcs, join, (u: string) => SameHost(u, base, netlocOf), Image, a);
    TaggedIff(tags.iconHrefs, join, (u: string) => SameHost(u, base, netlocOf), Favicon, a);
  }

  /**
   * A download counts when the URL's path has a file name (an empty name
   * makes the target the folder itself, which cannot be opened for
   * writing) and the request and write succeed.
   */
  predicate Saved(a: Asset, pathOf: string -> string, download: string -> bool) {
    PathName(pathOf(a.url)) != "" && download(a.url)
  }

  /**
   * `scrape_game`: the base URL is built from the parts `urlparse` gives for
   * the game URL (`scheme`, `netloc`, `path`); `tags` is `None` when the page
   * request fails. The unique assets are the collected ones without
   * duplicates and ads; the count is of those saved.
   */
  method ScrapeGame(tags: Option<PageTags>, scheme: string, netloc: string, path: string, join: string -> string,
                    netlocOf: string -> string, pathOf: string -> string, download: string -> bool)
    returns (outcome: Outcome)
    ensures tags.None? <==> outcome == NoPage
    ensures tags.Some? ==>
      && outcome.Done?
      && outcome.unique == Unique(Collected(tags.value, BaseUrlOf(scheme, netloc, path), join, netlocOf), VeckAds)
      && outcome.downloaded == |Keep(outcome.unique, (a: Asset) => Saved(a, pathOf, download))|
      && outcome.downloaded <= |outcome.unique|
      && outcome.gamePath.None?
  {
    var base := BaseUrlOf(scheme, netloc, path);
    if tags.None? {
      return NoPage;
    }
    var assets := CollectAssets(tags.value, base, join, netlocOf);
    var unique := DedupAssets(assets, VeckAds);
    var downloaded, _ := DownloadAll(unique, (a: Asset) => Saved(a, pathOf, download), (a: Asset) => Folder(a.kind) + "/" + PathName(pathOf(a.url)));
    return Done(unique, downloaded, None);
  }

  /** Every asset kept after the filter is a same-host, ad-free asset of the page. */
  lemma UniqueSameHost(tags: PageTags, base: string, join: string -> string, netlocOf: string -> string)
    ensures forall i :: 0 <= i < |Unique(Collected(tags, base, join, netlocOf), VeckAds)| ==>
      var a := Unique(Collected(tags, base, join, netlocOf), VeckAds)[i];
      netlocOf(a.url) == netlocOf(base) && !IsAd(a.url, VeckAds)
  {
    var c := Collected(tags, base, join, netlocOf);
    UniqueSound(c, VeckAds);
    forall i | 0 <= i < |Unique(c, VeckAds)|
      ensures netlocOf(Unique(c, VeckAds)[i].url) == netlocOf(base)
    {
      var a := Unique(c, VeckAds)[i];
      var k :| FirstAt(c, k, a);
      CollectedSameHost(tags, base, join, netlocOf, c[k]);
    }
  }
}

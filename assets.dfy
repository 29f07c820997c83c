/**
 * The asset pipeline shared by scripts/scrape-lagged-whack-your-boss.py,
 * scripts/scrape-whack-your-boss.py and scripts/scrape-veck-io.py: the
 * `unique_assets` loop that keeps the first occurrence of each URL and drops
 * ad URLs, the routing of an asset type to a folder, and the download loop
 * that counts successes and remembers the first game file's path.
 */
module Assets {
  import opened Wrappers
  import opened Text
  import opened Seqs

  /**
   * What the parser yields for the asset tags of a page, in document order:
   * the `src` of each `<img>`, the `href` of each icon link, the `src` of each
   * `<script>`, the `href` of each stylesheet link.
   */
  datatype PageTags = PageTags(imgSrcs: seq<string>, iconHrefs: seq<string>, scriptSrcs: seq<string>, stylesheetHrefs: seq<string>)

  /** How a scraper run ends: the page fetch failed, an uncaught error, or the kept assets with the download count and the first game file's path. */
  datatype Outcome = NoPage | Crashed | Done(unique: seq<Asset>, downloaded: nat, gamePath: Option<string>)

  /** The `type` of an asset record. */
  datatype AssetKind = Image | Favicon | Script | Stylesheet | Game

  datatype Asset = Asset(url: string, kind: AssetKind)

  /** `any(domain in url for domain in blocked)`. */
  predicate IsAd(url: string, blocked: seq<string>) {
    ContainsAny(url, blocked)
  }

  function UrlsOf(assets: seq<Asset>): set<string> {
    set a | a in assets :: a.url
  }

  /**
   * `unique_assets` after the assets `assets`, in order: an asset is appended
   * unless its URL is already in `seen_urls` (the URLs appended so far) or
   * contains an ad substring.
   */
  function Unique(assets: seq<Asset>, blocked: seq<string>): seq<Asset> {
    if assets == [] then []
    else
      var prev := Unique(assets[..|assets| - 1], blocked);
      var a := assets[|assets| - 1];
      if a.url in UrlsOf(prev) || IsAd(a.url, blocked) then prev else prev + [a]
  }

  /** The dedup loop; `seen` stays the set of URLs of `unique`. */
  method DedupAssets(assets: seq<Asset>, blocked: seq<string>) returns (unique: seq<Asset>)
    ensures unique == Unique(assets, blocked)
  {
    unique := [];
    var seen: set<string> := {};
    var i := 0;
    while i < |assets|
      invariant 0 <= i <= |assets|
      invariant unique == Unique(assets[..i], blocked)
      invariant seen == UrlsOf(unique)
    {
      var asset := assets[i];
      assert assets[..i + 1][..i] == assets[..i];
      if asset.url !in seen {
        if !IsAd(asset.url, blocked) {
          unique := unique + [asset];
          seen := seen + {asset.url};
        }
      }
      i := i + 1;
    }
    assert assets[..i] == assets;
  }

  /** `k` is the index of the first asset of the input with the URL of `a`, and that asset is `a`. */
  predicate FirstAt(assets: seq<Asset>, k: int, a: Asset) {
    0 <= k < |assets| && assets[k] == a && forall j :: 0 <= j < k ==> assets[j].url != a.url
  }

  predicate UrlsDistinct(u: seq<Asset>) {
    forall i, j :: 0 <= i < j < |u| ==> u[i].url != u[j].url
  }

  /** The URLs of `unique_assets` are pairwise distinct. */
  lemma {:induction false} UniqueDistinct(assets: seq<Asset>, blocked: seq<string>)
    ensures UrlsDistinct(Unique(assets, blocked))
  {
    if assets != [] {
      var prev := Unique(assets[..|assets| - 1], blocked);
      var a := assets[|assets| - 1];
      UniqueDistinct(assets[..|assets| - 1], blocked);
      var u := Unique(assets, blocked);
      forall i, j | 0 <= i < j < |u| ensures u[i].url != u[j].url {
        assert u[i] == prev[i] && prev[i] in prev;
        if j < |prev| {
          assert u[j] == prev[j];
        } else {
          assert u[j] == a && a.url !in UrlsOf(prev);
          assert prev[i].url in UrlsOf(prev);
        }
      }
    }
  }

  /** Every non-ad URL of the input is kept (by its first asset). */
  lemma {:induction false} UniqueComplete(assets: seq<Asset>, blocked: seq<string>)
    ensures forall a :: a in assets && !IsAd(a.url, blocked) ==> a.url in UrlsOf(Unique(assets, blocked))
  {
    if assets != [] {
      var init := assets[..|assets| - 1];
      var prev := Unique(init, blocked);
      var last := assets[|assets| - 1];
      UniqueComplete(init, blocked);
      var u := Unique(assets, blocked);
      assert prev <= u;
      forall a | a in assets && !IsAd(a.url, blocked) ensures a.url in UrlsOf(u) {
        if a in init {
          var b :| b in prev && b.url == a.url;
          assert b in u;
        } else {
          assert a == last;
          if a.url in UrlsOf(prev) {
            var b :| b in prev && b.url == a.url;
            assert b in u;
          } else {
            assert u[|u| - 1] == a;
          }
        }
      }
    }
  }

  /**
   * Every kept asset is non-ad and is the first asset of the input with its
   * URL, and kept assets appear in the order of those first occurrences.
   */
  lemma UniqueSound(assets: seq<Asset>, blocked: seq<string>)
    ensures forall i :: 0 <= i < |Unique(assets, blocked)| ==>
      !IsAd(Unique(assets, blocked)[i].url, blocked) && exists k :: FirstAt(assets, k, Unique(assets, blocked)[i])
    ensures FirstOrder(assets, Unique(assets, blocked))
  {
    UniqueFirst(assets, blocked);
    UniqueOrder(assets, blocked);
  }

  /** Each kept asset is non-ad and the first asset of the input with its URL. */
  lemma {:induction false} UniqueFirst(assets: seq<Asset>, blocked: seq<string>)
    ensures forall i :: 0 <= i < |Unique(assets, blocked)| ==>
      !IsAd(Unique(assets, blocked)[i].url, blocked) && exists k :: FirstAt(assets, k, Unique(assets, blocked)[i])
  {
    if assets != [] {
      var init := assets[..|assets| - 1];
      var prev := Unique(init, blocked);
      var a := assets[|assets| - 1];
      UniqueFirst(init, blocked);
      LastAdded(assets, blocked);
      var u := Unique(assets, blocked);
      forall i | 0 <= i < |u| ensures !IsAd(u[i].url, blocked) && exists k :: FirstAt(assets, k, u[i]) {
        if i < |prev| {
          assert u[i] == prev[i];
          var k :| FirstAt(init, k, prev[i]);
          assert FirstAt(assets, k, u[i]);
        } else {
          assert u[i] == a;
        }
      }
    }
  }

  /** When the last asset is kept, it is the first with its URL. */
  lemma LastAdded(assets: seq<Asset>, blocked: seq<string>)
    requires assets != []
    ensures var init := assets[..|assets| - 1];
      var a := assets[|assets| - 1];
      |Unique(assets, blocked)| > |Unique(init, blocked)| ==>
        Unique(assets, blocked) == Unique(init, blocked) + [a] && FirstAt(assets, |init|, a)
  {
    var init := assets[..|assets| - 1];
    var a := assets[|assets| - 1];
    UniqueComplete(init, blocked);
    if !(a.url in UrlsOf(Unique(init, blocked)) || IsAd(a.url, blocked)) {
      assert forall b :: b in init ==> b.url != a.url;
    }
  }

  /** The kept assets appear in the order of their first occurrences. */
  lemma {:induction false} UniqueOrder(assets: seq<Asset>, blocked: seq<string>)
    ensures FirstOrder(assets, Unique(assets, blocked))
  {
    if assets != [] {
      var init := assets[..|assets| - 1];
      var prev := Unique(init, blocked);
      var a := assets[|assets| - 1];
      UniqueOrder(init, blocked);
      UniqueFirst(init, blocked);
      LastAdded(assets, blocked);
      var u := Unique(assets, blocked);
      forall i, j, ki, kj | 0 <= i < j < |u| && FirstAt(assets, ki, u[i]) && FirstAt(assets, kj, u[j])
        ensures ki < kj
      {
        assert u[i] == prev[i];
        var k1 :| FirstAt(init, k1, prev[i]);
        FirstUnique(assets, k1, ki, u[i]);
        if j == |prev| {
          FirstUnique(assets, kj, |init|, a);
        } else {
          assert u[j] == prev[j];
          var k2 :| FirstAt(init, k2, prev[j]);
          assert FirstAt(init, kj, u[j]);
          FirstUnique(assets, k2, kj, u[j]);
        }
      }
    }
  }

  /** The kept assets appear in the order of their first occurrences. */
  ghost predicate FirstOrder(assets: seq<Asset>, u: seq<Asset>) {
    forall i, j, ki, kj :: 0 <= i < j < |u| && FirstAt(assets, ki, u[i]) && FirstAt(assets, kj, u[j]) ==> ki < kj
  }

  /** An asset has at most one first-occurrence index. */
  lemma FirstUnique(assets: seq<Asset>, k1: int, k2: int, a: Asset)
    requires FirstAt(assets, k1, a) && FirstAt(assets, k2, a)
    ensures k1 == k2
  {
  }

  /** The output folder of an asset type: images and favicons together, game files under `data`. */
  function Folder(kind: AssetKind): string {
    match kind
    case Image => "images"
    case Favicon => "images"
    case Script => "scripts"
    case Stylesheet => "stylesheets"
    case Game => "data"
  }

  /** The path of the first game asset of `assets`, as `target` gives it, if any. */
  function FirstGamePath(assets: seq<Asset>, target: Asset -> string): Option<string> {
    if assets == [] then None
    else
      var prev := FirstGamePath(assets[..|assets| - 1], target);
      var a := assets[|assets| - 1];
      if prev.Some? then prev else if a.kind == Game then Some(target(a)) else None
  }

  /** The remembered path is that of the first game asset, and there is one exactly when some asset is a game file. */
  lemma {:induction false} FirstGamePathIff(assets: seq<Asset>, target: Asset -> string)
    ensures FirstGamePath(assets, target).None? <==> forall k :: 0 <= k < |assets| ==> assets[k].kind != Game
    ensures FirstGamePath(assets, target).Some? ==>
      exists k :: 0 <= k < |assets| && assets[k].kind == Game && FirstGamePath(assets, target).value == target(assets[k])
                  && forall j :: 0 <= j < k ==> assets[j].kind != Game
  {
    if assets != [] {
      var init := assets[..|assets| - 1];
      FirstGamePathIff(init, target);
      if FirstGamePath(init, target).Some? {
        var k :| 0 <= k < |init| && init[k].kind == Game && FirstGamePath(init, target).value == target(init[k])
                 && forall j :: 0 <= j < k ==> init[j].kind != Game;
        assert assets[k] == init[k];
      } else {
        assert forall k :: 0 <= k < |init| ==> assets[k] == init[k];
      }
    }
  }

  /**
   * The download loop: `succeeds(a)` is whether the request for `a` (to the
   * file `target(a)`) counts as downloaded. The count is the number of
   * successes, and the game path is that of the first game asset, whatever
   * its download gives.
   */
  method DownloadAll(unique: seq<Asset>, succeeds: Asset -> bool, target: Asset -> string)
    returns (downloaded: nat, gamePath: Option<string>)
    ensures downloaded == |Keep(unique, succeeds)| && downloaded <= |unique|
    ensures gamePath == FirstGamePath(unique, target)
  {
    downloaded := 0;
    gamePath := None;
    var i := 0;
    while i < |unique|
      invariant 0 <= i <= |unique|
      invariant downloaded == |Keep(unique[..i], succeeds)|
      invariant gamePath == FirstGamePath(unique[..i], target)
    {
      var asset := unique[i];
      assert unique[..i + 1] == unique[..i] + [asset];
      assert unique[..i + 1][..i] == unique[..i];
      KeepSnoc(unique[..i], asset, succeeds);
      if asset.kind == Game && gamePath.None? {
        gamePath := Some(target(asset));
      }
      if succeeds(asset) {
        downloaded := downloaded + 1;
      }
      i := i + 1;
    }
    assert unique[..i] == unique;
    KeepPartition(unique, succeeds);
  }

  /**
   * The assets one tag loop appends: each raw attribute value resolved by
   * `join`, kept when `keep` accepts the resolved URL, with type `kind`.
   */
  function Tagged(raws: seq<string>, join: string -> string, keep: string -> bool, kind: AssetKind): seq<Asset> {
    Map(Keep(Map(raws, join), keep), (u: string) => Asset(u, kind))
  }

  /** A tag loop of the scrapers: `for t in tags: u = urljoin(...); if keep(u): assets.append(...)`. */
  method CollectTagged(acc: seq<Asset>, raws: seq<string>, join: string -> string, keep: string -> bool, kind: AssetKind)
    returns (assets: seq<Asset>)
    ensures assets == acc + Tagged(raws, join, keep, kind)
  {
    assets := acc;
    var i := 0;
    while i < |raws|
      invariant 0 <= i <= |raws|
      invariant assets == acc + Tagged(raws[..i], join, keep, kind)
    {
      var u := join(raws[i]);
      assert raws[..i + 1] == raws[..i] + [raws[i]];
      TaggedSnoc(raws[..i], raws[i], join, keep, kind);
      if keep(u) {
        assets := assets + [Asset(u, kind)];
      }
      i := i + 1;
    }
    assert raws[..i] == raws;
  }

  /** One more tag appends at most its own asset. */
  lemma TaggedSnoc(raws: seq<string>, r: string, join: string -> string, keep: string -> bool, kind: AssetKind)
    ensures Tagged(raws + [r], join, keep, kind)
         == Tagged(raws, join, keep, kind) + (if keep(join(r)) then [Asset(join(r), kind)] else [])
  {
    MapSnoc(raws, r, join);
    KeepSnoc(Map(raws, join), join(r), keep);
    if keep(join(r)) {
      MapSnoc(Keep(Map(raws, join), keep), join(r), (u: string) => Asset(u, kind));
    }
  }

  /** Every asset of a tag loop has its type and passed the test, and each resolved URL that passes is there. */
  lemma TaggedIff(raws: seq<string>, join: string -> string, keep: string -> bool, kind: AssetKind, a: Asset)
    ensures a in Tagged(raws, join, keep, kind) <==> a.kind == kind && keep(a.url) && exists r :: r in raws && a.url == join(r)
  {
    var joined := Map(raws, join);
    KeepIff(joined, keep, a.url);
    if a in Tagged(raws, join, keep, kind) {
      MapIn(Keep(joined, keep), (u: string) => Asset(u, kind), a);
      MapIn(raws, join, a.url);
    }
    if a.kind == kind && keep(a.url) && exists r :: r in raws && a.url == join(r) {
      var r :| r in raws && a.url == join(r);
      var k :| 0 <= k < |raws| && raws[k] == r;
      assert joined[k] == a.url;
      var kept := Keep(joined, keep);
      var m :| 0 <= m < |kept| && kept[m] == a.url;
      assert Tagged(raws, join, keep, kind)[m] == a;
    }
  }

  /** Characters a file name may not hold: each becomes `_`. */
  const Unsafe: set<char> := {'<', '>', ':', '"', '/', '\\', '|', '?', '*'}

  /** The name a download falls back to. */
  function IndexHtml(): (r: string)
    ensures r != "" && r != "_" && forall i :: 0 <= i < |r| ==> r[i] !in Unsafe
  {
    "index.html"
  }

  /** `re.sub(r'[<>:"/\\|?*]', '_', name)`. */
  function CleanChars(name: string): (r: string)
    ensures |r| == |name|
    ensures forall i :: 0 <= i < |r| ==> r[i] !in Unsafe && (name[i] !in Unsafe ==> r[i] == name[i])
  {
    seq(|name|, i requires 0 <= i < |name| => if name[i] in Unsafe then '_' else name[i])
  }
}

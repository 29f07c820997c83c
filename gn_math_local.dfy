/**
 * scripts/download-gn-math-games-local.py: normalise the zones payload, pick
 * the zones that are neither special entries nor already catalogued, download
 * at most `MaxGames` of them, localise their relative assets, and append the
 * successful ones to `games.json` in one write.
 */
module GnMathLocal {
  import opened Wrappers
  import opened Text
  import opened Catalog
  import opened Slug
  import opened Seqs
  import opened Zones

  const MaxGames: nat := 50
  const HtmlBase: string := "https://cdn.jsdelivr.net/gh/gn-math/html@main/"

  /** The display name: `name`, else `title`, else `Zone <id>`; a non-record value gives its text when truthy. */
  function ZoneName(z: Zone): string {
    match z.data
    case ZoneRecord(name, title, _) => if name != "" then name else if title != "" then title else "Zone " + z.id
    case ZoneValue(text, truthy) => if truthy then text else "Zone " + z.id
  }

  /** Suggestion and comment entries of the zone list. */
  predicate IsSpecialEntry(name: string) {
    StartsWith(name, "[!]") || Contains(Lower(name), "suggest") || Contains(Lower(name), "comment")
  }

  datatype Candidate = Candidate(zone: Zone, name: string, dir: string)

  function CandidateOf(z: Zone): Candidate {
    var name := ZoneName(z);
    Candidate(z, name, DirName(name, z.id))
  }

  /** The per-zone acceptance test; the lookup sets are the ones loaded at start. */
  predicate Admitted(c: Candidate, known: Known) {
    && !IsSpecialEntry(c.name)
    && Lower(c.name) !in known.names
    && c.dir !in known.dirs
  }

  /** The candidates of `zones` that pass, in zone order. */
  function Available(zones: seq<Zone>, known: Known): seq<Candidate> {
    Keep(Map(zones, CandidateOf), (c: Candidate) => Admitted(c, known))
  }

  /** The filter loop of `main`: `available_zones`. */
  method SelectAvailable(zones: seq<Zone>, known: Known) returns (available: seq<Candidate>)
    ensures available == Available(zones, known)
  {
    available := [];
    var i := 0;
    while i < |zones|
      invariant 0 <= i <= |zones|
      invariant available == Available(zones[..i], known)
    {
      var c := CandidateOf(zones[i]);
      AvailablePrefix(zones, i, known);
      if Admitted(c, known) {
        available := available + [c];
      }
      i := i + 1;
    }
    assert zones[..i] == zones;
  }

  /** The selection over a prefix one zone longer. */
  lemma AvailablePrefix(zones: seq<Zone>, i: nat, known: Known)
    requires i < |zones|
    ensures var c := CandidateOf(zones[i]);
      Available(zones[..i + 1], known) == Available(zones[..i], known) + (if Admitted(c, known) then [c] else [])
  {
    assert zones[..i + 1] == zones[..i] + [zones[i]];
    MapSnoc(zones[..i], zones[i], CandidateOf);
    KeepSnoc(Map(zones[..i], CandidateOf), CandidateOf(zones[i]), (c: Candidate) => Admitted(c, known));
  }

  /** A candidate is selected exactly when it comes from one of the zones and passes the test. */
  lemma AvailableIff(zones: seq<Zone>, known: Known, c: Candidate)
    ensures c in Available(zones, known) <==> c.zone in zones && c == CandidateOf(c.zone) && Admitted(c, known)
  {
    KeepIff(Map(zones, CandidateOf), (c: Candidate) => Admitted(c, known), c);
    if c in Map(zones, CandidateOf) {
      MapIn(zones, CandidateOf, c);
    }
    if c.zone in zones && c == CandidateOf(c.zone) {
      var i :| 0 <= i < |zones| && zones[i] == c.zone;
      assert Map(zones, CandidateOf)[i] == c;
    }
  }

  /** Selection is zone by zone: what a zone contributes does not depend on the zones accepted before it. */
  lemma AvailableAppend(a: seq<Zone>, b: seq<Zone>, known: Known)
    ensures Available(a + b, known) == Available(a, known) + Available(b, known)
  {
    MapAppend(a, b, CandidateOf);
    KeepAppend(Map(a, CandidateOf), Map(b, CandidateOf), (c: Candidate) => Admitted(c, known));
  }

  /** Zones that each pass are all selected, even when several derive the same directory. */
  lemma AllAdmittedSelected(zones: seq<Zone>, known: Known)
    requires forall i :: 0 <= i < |zones| ==> Admitted(CandidateOf(zones[i]), known)
    ensures Available(zones, known) == Map(zones, CandidateOf)
  {
    KeepAll(Map(zones, CandidateOf), (c: Candidate) => Admitted(c, known));
  }

  function EntryOf(c: Candidate): Entry {
    LocalEntry(Str(c.name), c.dir)
  }

  /** The records appended for the attempted candidates whose download succeeded, in order. */
  function Downloaded(attempted: seq<Candidate>, downloadGame: Zone -> bool): seq<Entry> {
    Map(Keep(attempted, (c: Candidate) => downloadGame(c.zone)), EntryOf)
  }

  /** The download loop of `main`: only the first `MaxGames` candidates are attempted. */
  method DownloadAvailable(available: seq<Candidate>, downloadGame: Zone -> bool) returns (downloaded: seq<Entry>)
    ensures downloaded == Downloaded(Take(available, MaxGames), downloadGame)
  {
    var attempted := Take(available, MaxGames);
    downloaded := [];
    var i := 0;
    while i < |attempted|
      invariant 0 <= i <= |attempted|
      invariant downloaded == Downloaded(attempted[..i], downloadGame)
    {
      var c := attempted[i];
      assert attempted[..i + 1] == attempted[..i] + [c];
      KeepSnoc(attempted[..i], c, (c: Candidate) => downloadGame(c.zone));
      if downloadGame(c.zone) {
        MapSnoc(Keep(attempted[..i], (c: Candidate) => downloadGame(c.zone)), c, EntryOf);
        downloaded := downloaded + [EntryOf(c)];
      }
      i := i + 1;
    }
    assert attempted[..i] == attempted;
  }

  /** Each downloaded record is a local `cover.png` entry for one attempted candidate, and there are at most as many. */
  lemma DownloadedShape(attempted: seq<Candidate>, downloadGame: Zone -> bool)
    ensures |Downloaded(attempted, downloadGame)| <= |attempted|
    ensures forall e :: e in Downloaded(attempted, downloadGame) ==>
      e.image == CoverImage && e.source == LocalSource && e.gameUrl == Missing &&
      exists c :: c in attempted && downloadGame(c.zone) && e.name == Str(c.name) && e.directory == Str(c.dir)
  {
    var ok := Keep(attempted, (c: Candidate) => downloadGame(c.zone));
    KeepPartition(attempted, (c: Candidate) => downloadGame(c.zone));
    forall e | e in Downloaded(attempted, downloadGame)
      ensures e.image == CoverImage && e.source == LocalSource && e.gameUrl == Missing
      ensures exists c :: c in attempted && downloadGame(c.zone) && e.name == Str(c.name) && e.directory == Str(c.dir)
    {
      MapIn(ok, EntryOf, e);
      var c :| c in ok && e == EntryOf(c);
      KeepIff(attempted, (c: Candidate) => downloadGame(c.zone), c);
    }
  }

  /**
   * The write at the end of `main`: nothing is written when no game was
   * downloaded; otherwise the catalog is read again and written back as the
   * old list followed by the new records (an unreadable file aborts).
   */
  function WriteCatalog(file: JsonFile<seq<Entry>>, downloaded: seq<Entry>): Result<Option<seq<Entry>>>
  {
    if downloaded == [] then Ok(None)
    else if file.Parsed? then Ok(Some(file.contents + downloaded))
    else Crash("games.json cannot be read")
  }

  /** `main` from the zones payload to the catalog write (`None`: games.json is not rewritten). */
  method DownloadNewZones(payload: Option<Payload>, file: JsonFile<seq<Entry>>, downloadGame: Zone -> bool)
    returns (written: Result<Option<seq<Entry>>>)
    ensures (payload.None? || payload.value.OtherJson?) ==> written == Ok(None)
    ensures payload.Some? && ZonesOf(payload.value).Some? && LoadExisting(file).Ok? ==>
      var attempted := Take(Available(ZonesOf(payload.value).value, LoadExisting(file).value), MaxGames);
      written == WriteCatalog(file, Downloaded(attempted, downloadGame))
    ensures payload.Some? && ZonesOf(payload.value).Some? && LoadExisting(file).Crash? ==> written.Crash?
  {
    if payload.None? {
      return Ok(None);
    }
    var zones := ZonesOf(payload.value);
    if zones.None? {
      return Ok(None);
    }
    var known := LoadExisting(file);
    if known.Crash? {
      return Crash(known.reason);
    }
    var available := SelectAvailable(zones.value, known.value);
    var downloaded := DownloadAvailable(available, downloadGame);
    written := WriteCatalog(file, downloaded);
  }

  /**
   * What the written catalog promises: the old records unchanged and first,
   * at most `MaxGames` new ones, none of them under a directory or name that
   * was already catalogued and none of them a special entry.
   */
  lemma WrittenCatalog(zones: seq<Zone>, games: seq<Entry>, downloadGame: Zone -> bool)
    requires LoadExisting(Parsed(games)).Ok?
    requires Downloaded(Take(Available(zones, LoadExisting(Parsed(games)).value), MaxGames), downloadGame) != []
    ensures var known := LoadExisting(Parsed(games)).value;
      var added := Downloaded(Take(Available(zones, known), MaxGames), downloadGame);
      var r := WriteCatalog(Parsed(games), added);
      && r.Ok? && r.value.Some?
      && r.value.value[..|games|] == games
      && |r.value.value| == |games| + |added| <= |games| + MaxGames
      && forall e :: e in added ==>
           e.directory.Str? && e.directory.text !in known.dirs
           && e.name.Str? && Lower(e.name.text) !in known.names && !IsSpecialEntry(e.name.text)
  {
    var known := LoadExisting(Parsed(games)).value;
    var attempted := Take(Available(zones, known), MaxGames);
    var added := Downloaded(attempted, downloadGame);
    DownloadedShape(attempted, downloadGame);
    forall e | e in added
      ensures e.directory.Str? && e.directory.text !in known.dirs
      ensures e.name.Str? && Lower(e.name.text) !in known.names && !IsSpecialEntry(e.name.text)
    {
      var c :| c in attempted && downloadGame(c.zone) && e.name == Str(c.name) && e.directory == Str(c.dir);
      assert c in Available(zones, known);
      AvailableIff(zones, known, c);
    }
    var written := games + added;
    assert written[..|games|] == games;
  }

  /*
   * `download_game`: the HTML page of a zone, then its relative assets. The
   * download of a URL is the oracle `download`; `join` stands for
   * `urljoin(base_url, ref)` with this zone's `base_url`.
   */

  function PrimaryHtmlUrl(zoneId: string): string {
    HtmlBase + zoneId + "/index.html"
  }

  function AltHtmlUrl(zoneId: string): string {
    HtmlBase + zoneId + ".html"
  }

  predicate IsRemoteRef(ref: string) {
    StartsWith(ref, "http") || StartsWith(ref, "//")
  }

  /** A `src`/`href` the tag passes download: non-empty, not remote, and for images not a `data:` URI. */
  predicate Localisable(ref: string, isImage: bool) {
    ref != "" && !IsRemoteRef(ref) && !(isImage && StartsWith(ref, "data:"))
  }

  /** `ref.lstrip('/')`: where the asset is stored under the game directory, and the rewritten reference. */
  function LocalPath(ref: string): string {
    TrimStart(ref, {'/'})
  }

  /** The tag pass downloads a localisable reference, and the download may fail. */
  predicate Fetches(ref: string, isImage: bool, download: string -> bool, join: string -> string) {
    Localisable(ref, isImage) && download(join(ref))
  }

  /** The attribute after its tag pass: rewritten to its local path when it was localisable and its download succeeded. */
  function Localised(ref: string, isImage: bool, download: string -> bool, join: string -> string): string {
    if Fetches(ref, isImage, download, join) then LocalPath(ref) else ref
  }

  /** Remote references are never touched; a rewritten reference never starts with `/` and is a suffix of the original. */
  lemma LocalisedShape(ref: string, isImage: bool, download: string -> bool, join: string -> string)
    ensures IsRemoteRef(ref) || ref == "" ==> Localised(ref, isImage, download, join) == ref
    ensures var r := Localised(ref, isImage, download, join);
      && |r| <= |ref| && r == ref[|ref| - |r|..]
      && (r != ref ==> Localisable(ref, isImage) && ref[0] == '/' && (r == [] || r[0] != '/'))
  {
  }

  /** Rewriting the saved page a second time changes nothing. */
  lemma LocalisedIdempotent(ref: string, isImage: bool, download: string -> bool, join: string -> string)
    ensures var r := Localised(ref, isImage, download, join);
      Localised(r, isImage, download, join) == r
  {
    if Localisable(ref, isImage) && download(join(ref)) {
      var r := LocalPath(ref);
      LocalPathFixed(r);
    }
  }

  /** A reference without a leading `/` is its own local path. */
  lemma LocalPathFixed(r: string)
    requires r == [] || r[0] != '/'
    ensures LocalPath(r) == r
  {
  }

  /** One tag pass of `download_game` over the extracted attribute values, rewriting them in place. */
  method LocaliseTags(refs: array<string>, isImage: bool, download: string -> bool, join: string -> string)
    returns (count: nat)
    modifies refs
    ensures forall i :: 0 <= i < refs.Length ==> refs[i] == Localised(old(refs[i]), isImage, download, join)
    ensures count == |Keep(old(refs[..]), (r: string) => Fetches(r, isImage, download, join))|
  {
    ghost var orig := refs[..];
    count := 0;
    var i := 0;
    while i < refs.Length
      invariant 0 <= i <= refs.Length
      invariant forall k :: 0 <= k < i ==> refs[k] == Localised(orig[k], isImage, download, join)
      invariant refs[i..] == orig[i..]
      invariant count == |Keep(orig[..i], (r: string) => Fetches(r, isImage, download, join))|
    {
      var ref := refs[i];
      KeepPrefix(orig, i, (r: string) => Fetches(r, isImage, download, join));
      if Fetches(ref, isImage, download, join) {
        count := count + 1;
        refs[i] := LocalPath(ref);
      }
      i := i + 1;
    }
    assert orig[..i] == orig;
  }

  /** The inline pass downloads a match that is non-empty and starts with none of `http`, `//`, `data:`. */
  predicate InlineLocalisable(m: string) {
    m != "" && !StartsWith(m, "http") && !StartsWith(m, "//") && !StartsWith(m, "data:")
  }

  /** Some match among `ms` stores a new file at `path`. */
  predicate InlineFetches(ms: seq<string>, present: set<string>, download: string -> bool, join: string -> string, path: string) {
    exists k :: 0 <= k < |ms| && InlineLocalisable(ms[k]) && LocalPath(ms[k]) == path && path !in present && download(join(ms[k]))
  }

  lemma InlineFetchesSnoc(ms: seq<string>, m: string, present: set<string>, download: string -> bool, join: string -> string, path: string)
    ensures InlineFetches(ms + [m], present, download, join, path) <==>
      InlineFetches(ms, present, download, join, path)
      || (InlineLocalisable(m) && LocalPath(m) == path && path !in present && download(join(m)))
  {
    if InlineFetches(ms + [m], present, download, join, path) {
      var k :| 0 <= k < |ms| + 1 && InlineLocalisable((ms + [m])[k]) && LocalPath((ms + [m])[k]) == path
        && path !in present && download(join((ms + [m])[k]));
      if k < |ms| {
        assert (ms + [m])[k] == ms[k];
      }
    }
    if InlineFetches(ms, present, download, join, path) {
      var k :| 0 <= k < |ms| && InlineLocalisable(ms[k]) && LocalPath(ms[k]) == path && path !in present && download(join(ms[k]));
      assert (ms + [m])[k] == ms[k];
    }
    if InlineLocalisable(m) && LocalPath(m) == path && path !in present && download(join(m)) {
      assert (ms + [m])[|ms|] == m;
    }
  }

  /**
   * The inline-reference pass: a match is fetched only when no file is at its
   * local path yet, so each new file is counted once whatever the number of
   * matches naming it. `present` is the set of paths under the game directory.
   */
  method FetchInlineRefs(matches: seq<string>, present: set<string>, download: string -> bool, join: string -> string)
    returns (count: nat, files: set<string>)
    ensures present <= files
    ensures forall p :: p in files - present <==> InlineFetches(matches, present, download, join, p)
    ensures count == |files - present|
  {
    count := 0;
    files := present;
    var i := 0;
    while i < |matches|
      invariant 0 <= i <= |matches|
      invariant FetchedExactly(files, present, matches[..i], download, join)
      invariant count == |files - present|
    {
      var m := matches[i];
      ghost var before := files;
      if InlineLocalisable(m) && LocalPath(m) !in files && download(join(m)) {
        files := files + {LocalPath(m)};
        count := count + 1;
      }
      FetchStep(matches, i, present, before, files, download, join);
      i := i + 1;
    }
    assert matches[..i] == matches;
  }

  /** The files beyond `present` are exactly those some match of `ms` fetches. */
  ghost predicate FetchedExactly(files: set<string>, present: set<string>, ms: seq<string>, download: string -> bool, join: string -> string) {
    && present <= files
    && forall p :: p in files - present <==> InlineFetches(ms, present, download, join, p)
  }

  /** One match of the inline pass: it adds its local path exactly when that path is new and the download succeeds. */
  lemma FetchStep(ms: seq<string>, i: nat, present: set<string>, files: set<string>, next: set<string>,
                  download: string -> bool, join: string -> string)
    requires i < |ms|
    requires FetchedExactly(files, present, ms[..i], download, join)
    requires next == if InlineLocalisable(ms[i]) && LocalPath(ms[i]) !in files && download(join(ms[i]))
      then files + {LocalPath(ms[i])} else files
    ensures FetchedExactly(next, present, ms[..i + 1], download, join)
    ensures |next - present| == |files - present| + (if next == files then 0 else 1)
  {
    var m := ms[i];
    assert ms[..i + 1] == ms[..i] + [m];
    var path := LocalPath(m);
    if next != files {
      assert (files + {path}) - present == (files - present) + {path};
    }
    forall p ensures p in next - present <==> InlineFetches(ms[..i + 1], present, download, join, p) {
      InlineFetchesSnoc(ms[..i], m, present, download, join, p);
    }
  }

  /**
   * `download_game` for one zone: the page from the primary URL, else the
   * alternative URL, else failure; `htmlReadable` is whether the saved page
   * can be read back. Then the three tag passes and the inline pass; the
   * result is success with the number of assets fetched.
   */
  method DownloadGame(zoneId: string, download: string -> bool, join: string -> string, htmlReadable: bool,
                      scripts: array<string>, stylesheets: array<string>, images: array<string>,
                      inlineRefs: seq<string>, present: set<string>)
    returns (ok: bool, assets: nat)
    requires scripts != stylesheets && scripts != images && stylesheets != images
    modifies scripts, stylesheets, images
    ensures ok <==> (download(PrimaryHtmlUrl(zoneId)) || download(AltHtmlUrl(zoneId))) && htmlReadable
    ensures !ok ==> assets == 0 && scripts[..] == old(scripts[..]) && stylesheets[..] == old(stylesheets[..]) && images[..] == old(images[..])
    ensures ok ==>
      && (forall i :: 0 <= i < scripts.Length ==> scripts[i] == Localised(old(scripts[i]), false, download, join))
      && (forall i :: 0 <= i < stylesheets.Length ==> stylesheets[i] == Localised(old(stylesheets[i]), false, download, join))
      && (forall i :: 0 <= i < images.Length ==> images[i] == Localised(old(images[i]), true, download, join))
      && assets >= |Keep(old(scripts[..]), (r: string) => Fetches(r, false, download, join))|
                  + |Keep(old(stylesheets[..]), (r: string) => Fetches(r, false, download, join))|
                  + |Keep(old(images[..]), (r: string) => Fetches(r, true, download, join))|
  {
    if !download(PrimaryHtmlUrl(zoneId)) && !download(AltHtmlUrl(zoneId)) {
      return false, 0;
    }
    if !htmlReadable {
      return false, 0;
    }
    var s0, c0, i0 := scripts[..], stylesheets[..], images[..];
    var fromScripts := LocaliseTags(scripts, false, download, join);
    var fromStylesheets := LocaliseTags(stylesheets, false, download, join);
    var fromImages := LocaliseTags(images, true, download, join);
    var fetched := (set r | r in s0 && Fetches(r, false, download, join) :: LocalPath(r))
      + (set r | r in c0 && Fetches(r, false, download, join) :: LocalPath(r))
      + (set r | r in i0 && Fetches(r, true, download, join) :: LocalPath(r));
    var fromInline, _ := FetchInlineRefs(inlineRefs, present + {"index.html"} + fetched, download, join);
    ok := true;
    assets := fromScripts + fromStylesheets + fromImages + fromInline;
  }
}

/**
 * scripts/scrape-gn-math.py: turn every zone of zones.json that is not yet
 * catalogued into a record pointing at gn-math.dev, with the cover image
 * path added when the covers repository answers a HEAD request with 200.
 */
module GnMathScrape {
  import opened Wrappers
  import opened Text
  import opened Catalog
  import opened Slug
  import opened Seqs
  import opened Zones
  import GnMathLocal

  const BaseUrl: string := "https://gn-math.dev/"
  const CoversBase: string := "https://cdn.jsdelivr.net/gh/gn-math/covers@main/"

  /** The display name: the first non-empty of `name`, `title`, `zone`, else `Zone <id>`. */
  function ScrapedName(z: Zone): string
  {
    match z.data
    case ZoneRecord(n, t, zn) => if n != "" then n else if t != "" then t else if zn != "" then zn else "Zone " + z.id
    case ZoneValue(text, truthy) => if truthy then text else "Zone " + z.id
  }

  /** The downloader's chain lacks the `zone` key: the two scripts name a zone alike unless only `zone` is set. */
  lemma NameChainsAgree(z: Zone)
    ensures ScrapedName(z) == GnMathLocal.ZoneName(z) <==>
      !(z.data.ZoneRecord? && z.data.name == "" && z.data.title == "" && z.data.zone != "" && z.data.zone != "Zone " + z.id)
  {
  }

  /** `f"{BASE_URL}#{zone_id}"` for a non-empty id, else `BASE_URL`. */
  function GameUrl(zoneId: string): (url: string)
    ensures StartsWith(url, BaseUrl)
    ensures zoneId == "" <==> url == BaseUrl
  {
    if zoneId != "" then BaseUrl + "#" + zoneId else BaseUrl
  }

  /** Different zone ids give different game URLs. */
  lemma GameUrlInjective(a: string, b: string)
    requires GameUrl(a) == GameUrl(b)
    ensures a == b
  {
    if a != "" && b != "" {
      assert a == GameUrl(a)[|BaseUrl| + 1..];
      assert b == GameUrl(b)[|BaseUrl| + 1..];
    }
  }

  function CoverUrl(zoneId: string): string {
    CoversBase + zoneId + ".png"
  }

  /** The skip test of `scrape_games`: lower-cased name among the names, or slug among the directories. */
  predicate AlreadyCatalogued(z: Zone, known: Known) {
    Lower(ScrapedName(z)) in known.names || DirName(ScrapedName(z), z.id) in known.dirs
  }

  /** The record built for a zone; `coverFound` is whether the HEAD request on a URL answered 200. */
  function RecordOf(z: Zone, coverFound: string -> bool): Entry {
    var name := ScrapedName(z);
    Entry(Str(name), Str(DirName(name, z.id)), CoverImage, LocalSource, Str(GameUrl(z.id)),
          if coverFound(CoverUrl(z.id)) then Some(CoverUrl(z.id)) else None)
  }

  /** The records of the zones that are not already catalogued, in zone order. */
  function Scraped(zones: seq<Zone>, known: Known, coverFound: string -> bool): seq<Entry> {
    Map(Keep(zones, (z: Zone) => !AlreadyCatalogued(z, known)), (z: Zone) => RecordOf(z, coverFound))
  }

  /**
   * `scrape_games`: a failed fetch gives no games; the catalog is loaded next
   * (an unreadable one aborts); a payload that is neither object nor array
   * gives no games; otherwise one record per zone that passes, in order.
   */
  method ScrapeGames(payload: Option<Payload>, file: JsonFile<seq<Entry>>, coverFound: string -> bool)
    returns (games: Result<seq<Entry>>)
    ensures payload.None? ==> games == Ok([])
    ensures payload.Some? && LoadExisting(file).Crash? ==> games.Crash?
    ensures payload.Some? && LoadExisting(file).Ok? ==>
      games == Ok(match ZonesOf(payload.value)
                  case None => []
                  case Some(zones) => Scraped(zones, LoadExisting(file).value, coverFound))
  {
    if payload.None? {
      return Ok([]);
    }
    var loaded := LoadExisting(file);
    if loaded.Crash? {
      return Crash(loaded.reason);
    }
    var known := loaded.value;
    var zs := ZonesOf(payload.value);
    if zs.None? {
      return Ok([]);
    }
    var out := ScrapeZones(zs.value, known, coverFound);
    return Ok(out);
  }

  /** The zone loop of `scrape_games`. */
  method ScrapeZones(zones: seq<Zone>, known: Known, coverFound: string -> bool) returns (out: seq<Entry>)
    ensures out == Scraped(zones, known, coverFound)
  {
    out := [];
    var i := 0;
    while i < |zones|
      invariant 0 <= i <= |zones|
      invariant out == Scraped(zones[..i], known, coverFound)
    {
      var z := zones[i];
      ScrapedPrefix(zones, i, known, coverFound);
      if !AlreadyCatalogued(z, known) {
        out := out + [RecordOf(z, coverFound)];
      }
      i := i + 1;
    }
    assert zones[..i] == zones;
  }

  /** The records of a prefix one zone longer. */
  lemma ScrapedPrefix(zones: seq<Zone>, i: nat, known: Known, coverFound: string -> bool)
    requires i < |zones|
    ensures var z := zones[i];
      Scraped(zones[..i + 1], known, coverFound)
        == Scraped(zones[..i], known, coverFound) + (if !AlreadyCatalogued(z, known) then [RecordOf(z, coverFound)] else [])
  {
    var z := zones[i];
    KeepPrefix(zones, i, (z: Zone) => !AlreadyCatalogued(z, known));
    if !AlreadyCatalogued(z, known) {
      MapSnoc(Keep(zones[..i], (z: Zone) => !AlreadyCatalogued(z, known)), z, (z: Zone) => RecordOf(z, coverFound));
    }
  }

  /**
   * Every emitted record comes from a zone that was not catalogued: its
   * directory is not an existing directory and its lower-cased name not an
   * existing name; it carries `cover.png`, `non-semag` and the zone's game
   * URL, and `imagePath` exactly when the cover answered 200.
   */
  lemma ScrapedRecords(zones: seq<Zone>, known: Known, coverFound: string -> bool, e: Entry)
    requires e in Scraped(zones, known, coverFound)
    ensures exists z :: z in zones && !AlreadyCatalogued(z, known) && e == RecordOf(z, coverFound)
    ensures e.name.Str? && e.directory.Str? && e.gameUrl.Str?
    ensures e.directory.text !in known.dirs && Lower(e.name.text) !in known.names
    ensures e.image == CoverImage && e.source == LocalSource && StartsWith(e.gameUrl.text, BaseUrl)
    ensures e.imagePath.Some? ==> exists z :: z in zones && e.imagePath.value == CoverUrl(z.id) && coverFound(CoverUrl(z.id))
  {
    var kept := Keep(zones, (z: Zone) => !AlreadyCatalogued(z, known));
    MapIn(kept, (z: Zone) => RecordOf(z, coverFound), e);
    var z :| z in kept && e == RecordOf(z, coverFound);
    KeepIff(zones, (z: Zone) => !AlreadyCatalogued(z, known), z);
  }

  /** A zone's record is emitted exactly when the zone is not already catalogued. */
  lemma ScrapedIff(zones: seq<Zone>, known: Known, coverFound: string -> bool, z: Zone)
    requires z in zones
    ensures RecordOf(z, coverFound) in Scraped(zones, known, coverFound) <==> !AlreadyCatalogued(z, known)
  {
    if RecordOf(z, coverFound) in Scraped(zones, known, coverFound) {
      ScrapedRecords(zones, known, coverFound, RecordOf(z, coverFound));
      var z' :| z' in zones && !AlreadyCatalogued(z', known) && RecordOf(z, coverFound) == RecordOf(z', coverFound);
      GameUrlInjective(z.id, z'.id);
    }
    var kept := Keep(zones, (z: Zone) => !AlreadyCatalogued(z, known));
    KeepIff(zones, (z: Zone) => !AlreadyCatalogued(z, known), z);
    if !AlreadyCatalogued(z, known) {
      var i :| 0 <= i < |kept| && kept[i] == z;
      assert Map(kept, (z: Zone) => RecordOf(z, coverFound))[i] == RecordOf(z, coverFound);
    }
  }

  /** Output order follows zone order: the records of a concatenation are the concatenated records. */
  lemma ScrapedAppend(a: seq<Zone>, b: seq<Zone>, known: Known, coverFound: string -> bool)
    ensures Scraped(a + b, known, coverFound) == Scraped(a, known, coverFound) + Scraped(b, known, coverFound)
  {
    KeepAppend(a, b, (z: Zone) => !AlreadyCatalogued(z, known));
    MapAppend(Keep(a, (z: Zone) => !AlreadyCatalogued(z, known)), Keep(b, (z: Zone) => !AlreadyCatalogued(z, known)),
              (z: Zone) => RecordOf(z, coverFound));
  }

  /** Nothing is emitted twice over: at most one record per zone. */
  lemma ScrapedCount(zones: seq<Zone>, known: Known, coverFound: string -> bool)
    ensures |Scraped(zones, known, coverFound)| <= |zones|
  {
    KeepPartition(zones, (z: Zone) => !AlreadyCatalogued(z, known));
  }
}

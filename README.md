# Game-catalog scripts: a verified model

The repository fills a static game portal. Its scripts crawl game sites
(gn-math.dev, lagged.com, kongregate.com, veck.io), download pages and
their assets into one directory per game, and append records
`{name, directory, image, source, gameUrl?}` to the shared catalog
`data/games.json`. Beside them sit an admin-credential importer, the URL
normaliser of the proxy page, and the Cloudflare Pages build that copies the
site into `dist/`.

This project models that bookkeeping in Dafny, one module per script. A
network or filesystem result (a fetched page, a HEAD status, whether a
download succeeded, whether a JSON file parsed) becomes an input. The HTML
parser's tag lists, `urljoin` and `urlparse` become parameters. What is left
is proved:

- catalog loading into lookup sets;
- the duplicate tests;
- slug derivation;
- the merges that append to the catalog;
- the asset pipelines (host allow-lists, first-occurrence dedup with ad
  filtering, file naming, routing to folders, download counters);
- the admission rule for downloaded Lagged games;
- the regex rewrites of `update_html_paths` and of the Lagged page title;
- `normalizeUrl`;
- the `dist/` copy.

Shared modules:

- `Wrappers` holds `Option` and `Result`.
- `Text` holds ASCII lower-casing, Python and JavaScript whitespace
  stripping, substring tests and `split`.
- `Seqs` holds order-keeping filter and map over sequences, with their
  lemmas.
- `Catalog` holds the record, whose JSON fields can be absent, `null` or a
  string.
- `Zones` holds the zones payload of gn-math.dev.
- `Slug` holds the directory slug.
- `Assets` holds the dedup and download loops shared by the three site
  scrapers.
- `Paths` holds `Path(p).name` and `Path(p).suffix`.
- `LaggedTitle` holds the game name `scrape-lagged-category.py` takes from a
  page title, with the regex rewrite followed as Python runs it on titles
  of several lines.

Loops that the scripts run step by step are Dafny methods with loop
invariants. Each is proved equal to a recursive specification function, and
lemmas state what that function guarantees. The tree copy of
`scripts/pages-build.js` is a class whose `tree` field the copy methods
update.

Where the design of the repository and its code differ, the model follows
the code:

- The design treats `directory` as a key that is unique case-insensitively
  across the catalog, and every script as rejecting a game that matches by
  name, slug or URL slug. The scripts do not all keep that.
  - The gn-math scripts compare directories without lower-casing them.
  - The gn-math scripts and `add-valid-lagged-games.py` never add accepted
    slugs to the lookup sets, so one run can append the same directory
    twice. `GnMathLocal.AllAdmittedSelected` and
    `ValidLagged.SameSlugTwiceKept` state this.
  - `setup-lagged-games-local.py` compares directories exactly, by case.
  - `import-admins.js` does keep uniqueness, by lower-cased email
    (`AdminImport.ImportedKeepsDistinct`).
- The design makes a malformed catalog fatal.
  - `batch-game-scraper.py` and `scrape-lagged-category.py` carry on with
    empty lookup sets.
  - The gn-math scripts abort.
  - `import-admins.js` starts from an empty list.
- `Path(p).name` is pathlib's: the last component that is neither empty
  nor `.`, so `/a/b/` names `b`. A path ending in `/` therefore gives a
  file name.

## Model

| member | source | states |
|---|---|---|
| Slug.DropRun | scripts/download-gn-math-games-local.py:180 | the leading run of characters outside `[a-z0-9]` is removed and nothing else: the rest is a suffix starting with a slug character |
| Slug.CollapseShape | scripts/download-gn-math-games-local.py:180 | replacing each maximal run of characters outside `[a-z0-9]` by one `-` leaves only `[a-z0-9-]` and never two dashes in a row |
| Slug.CollapseHead | scripts/download-gn-math-games-local.py:180 | collapsing runs keeps a leading slug character in front |
| Slug.SubstringShape | scripts/download-gn-math-games-local.py:180 | any piece of a text over `[a-z0-9-]` without double dashes has the same shape, so stripping dashes keeps it |
| Slug.SlugifyShape | scripts/download-gn-math-games-local.py:180 | every derived slug is over `[a-z0-9-]`, has no double dash and neither starts nor ends with `-` |
| Slug.CollapseFixed | scripts/download-gn-math-games-local.py:180 | a text already of slug shape is unchanged by the run replacement |
| Slug.SlugifyIdempotent | scripts/download-gn-math-games-local.py:180 | deriving the slug of a slug gives the same slug |
| Slug.DirNameIdempotent | scripts/download-gn-math-games-local.py:180-182 | a directory name that is not the `zone-<id>` fallback is a fixed point of the derivation, whatever zone id the second derivation gets |
| Slug.AlnumAppend | scripts/download-gn-math-games-local.py:180 | the letters and digits of a concatenation are those of its parts, in order |
| Slug.AlnumDropRun | scripts/download-gn-math-games-local.py:180 | dropping a run of non-slug characters loses no letter or digit |
| Slug.AlnumCollapse | scripts/download-gn-math-games-local.py:180 | the run replacement loses no letter or digit |
| Slug.AlnumTrimStart | scripts/download-gn-math-games-local.py:180 | `strip('-')` on the left loses no letter or digit |
| Slug.AlnumTrimEnd | scripts/download-gn-math-games-local.py:180 | `strip('-')` on the right loses no letter or digit |
| Slug.SlugifyKeepsAlnum | scripts/download-gn-math-games-local.py:180 | the slug holds exactly the letters and digits of the lower-cased name, in order |
| Zones.NatToStringNonEmpty | scripts/download-gn-math-games-local.py:159 | `str(i)` is never empty, and has two digits or more from 10 on |
| Zones.NatToStringInjective | scripts/download-gn-math-games-local.py:159 | different indices give different `str(i)` keys |
| Zones.ArrayPayloadZones | scripts/download-gn-math-games-local.py:156-162 | an array payload becomes one zone per item, in index order, keyed by `str(i)`, keys pairwise distinct |
| Zones.LoadExisting | scripts/download-gn-math-games-local.py:27-36 | a missing file gives empty sets; otherwise the directory set is exactly the directories as written and the name set exactly the lower-cased names; a null name or an unparsable file aborts |
| GnMathLocal.SelectAvailable | scripts/download-gn-math-games-local.py:169-185 | the loop builds exactly the admitted candidates of the zones, in zone order |
| GnMathLocal.AvailablePrefix | scripts/download-gn-math-games-local.py:170-185 | one more zone appends its candidate exactly when it passes the test |
| GnMathLocal.AvailableIff | scripts/download-gn-math-games-local.py:171-185 | a candidate is selected iff it comes from a zone, its name is not a special entry, its lower-cased name is not a known name and its directory (not lower-cased) is not a known directory |
| GnMathLocal.AvailableAppend | scripts/download-gn-math-games-local.py:169-185 | selection is zone by zone: what a zone contributes does not depend on the zones before it |
| GnMathLocal.AllAdmittedSelected | scripts/download-gn-math-games-local.py:184-185 | the accepted slugs are never added to the known sets, so zones that each pass are all selected even with equal directories |
| GnMathLocal.DownloadAvailable | scripts/download-gn-math-games-local.py:190-206 | only the first 50 candidates are attempted; the records are those of the successful downloads, in order |
| GnMathLocal.DownloadedShape | scripts/download-gn-math-games-local.py:190-201 | at most one record per attempt, each `{name, directory, cover.png, non-semag}` with no `gameUrl`, from a successful attempt |
| GnMathLocal.DownloadNewZones | scripts/download-gn-math-games-local.py:146-222 | a failed fetch or a payload that is neither object nor array writes nothing; an unreadable catalog aborts; otherwise the write is that of the first 50 selected zones' successful downloads |
| GnMathLocal.WrittenCatalog | scripts/download-gn-math-games-local.py:208-217 | the written catalog is the old list unchanged and first, then at most 50 new records, none under a known directory or name and none a special entry |
| GnMathLocal.LocalisedShape | scripts/download-gn-math-games-local.py:83-111 | remote and empty references are never touched; a rewritten one is the original without its leading `/` characters |
| GnMathLocal.LocalisedIdempotent | scripts/download-gn-math-games-local.py:85-111 | rewriting the saved page again changes nothing |
| GnMathLocal.LocalPathFixed | scripts/download-gn-math-games-local.py:87 | `lstrip('/')` leaves a reference without a leading `/` as it is |
| GnMathLocal.LocaliseTags | scripts/download-gn-math-games-local.py:83-111 | each attribute is rewritten in place to its local path exactly when it is localisable and its download succeeds; the count is the number of such attributes |
| GnMathLocal.InlineFetchesSnoc | scripts/download-gn-math-games-local.py:119-128 | a path is fetched by the matches plus one more iff an earlier match fetched it or the new one does |
| GnMathLocal.FetchInlineRefs | scripts/download-gn-math-games-local.py:113-128 | the inline pass creates exactly the files some non-remote match names that were not present and whose download succeeds; the count is the number of new files |
| GnMathLocal.FetchStep | scripts/download-gn-math-games-local.py:121-128 | one match adds its local path exactly when no file is there yet and the download succeeds, counting it once |
| GnMathLocal.DownloadGame | scripts/download-gn-math-games-local.py:53-140 | success iff one of the two page URLs downloads and the page can be read back; on failure nothing is rewritten; on success every tag attribute is localised and the count is at least the number of successful tag downloads |
| GnMathScrape.NameChainsAgree | scripts/scrape-gn-math.py:64-70 | the name chain `name`, `title`, `zone`, `Zone <id>` agrees with the downloader's chain except when only `zone` is set |
| GnMathScrape.GameUrl | scripts/scrape-gn-math.py:86 | the game URL starts with `https://gn-math.dev/` and is that base alone exactly when the zone id is empty |
| GnMathScrape.GameUrlInjective | scripts/scrape-gn-math.py:86 | different zone ids give different game URLs |
| GnMathScrape.ScrapeGames | scripts/scrape-gn-math.py:32-110 | a failed fetch gives no games; an unreadable catalog aborts; a payload that is neither object nor array gives none; otherwise the records of the zones not already catalogued |
| GnMathScrape.ScrapeZones | scripts/scrape-gn-math.py:62-107 | the zone loop appends exactly the records of the uncatalogued zones, in zone order |
| GnMathScrape.ScrapedPrefix | scripts/scrape-gn-math.py:62-107 | one more zone appends its record exactly when it is not catalogued |
| GnMathScrape.ScrapedRecords | scripts/scrape-gn-math.py:76-105 | each record comes from an uncatalogued zone: its directory is no known directory, its lower-cased name no known name, it has `cover.png`, `non-semag`, its game URL, and `imagePath` only when the HEAD request answered 200 |
| GnMathScrape.ScrapedIff | scripts/scrape-gn-math.py:79-83 | a zone's record is emitted iff its lower-cased name is not a known name and its slug not a known (not lower-cased) directory |
| GnMathScrape.ScrapedAppend | scripts/scrape-gn-math.py:62-107 | output order follows zone order |
| GnMathScrape.ScrapedCount | scripts/scrape-gn-math.py:62-107 | at most one record per zone |
| BatchScraper.LoadExistingGames | scripts/batch-game-scraper.py:18-52 | a missing or unparsable file gives three empty sets; otherwise the sets after the records in order, and a record that raises (a null `name` or `directory`) ends the loop keeping what was gathered |
| BatchScraper.LoadStopped | scripts/batch-game-scraper.py:31-52 | once a record has raised, the records after it add nothing |
| BatchScraper.LoadSound | scripts/batch-game-scraper.py:31-47 | the sets hold no empty value, and each value is the lower-cased stripped name, lower-cased stripped directory, or URL slug of some record |
| BatchScraper.AddGameSound | scripts/batch-game-scraper.py:32-47 | a record adds only its own non-empty normalised name, directory and URL slug |
| BatchScraper.LoadComplete | scripts/batch-game-scraper.py:31-47 | when no record raises, every record's non-empty normalised name, directory and URL slug is in its set |
| BatchScraper.AddGameGrows | scripts/batch-game-scraper.py:31-47 | a record only adds to the sets |
| BatchScraper.LoadNoEmpty | scripts/batch-game-scraper.py:33-46 | the loaded sets never hold the empty string |
| BatchScraper.AddGameNoEmpty | scripts/batch-game-scraper.py:33-46 | one record adds no empty string |
| BatchScraper.GameAlreadyExists | scripts/batch-game-scraper.py:54-64 | a duplicate verdict needs a non-empty normalised name or a non-empty URL slug |
| BatchScraper.TrailingSlashNeverDuplicate | scripts/batch-game-scraper.py:57-61 | a URL ending in `/` has an empty slug and is never a duplicate by URL |
| BatchScraper.AgainstLoadedSets | scripts/batch-game-scraper.py:54-64 | against sets built by the loader, the test holds iff the normalised name is a known name or the URL's normalised last segment is a known directory or URL slug |
| BatchScraper.GuardsIrrelevant | scripts/batch-game-scraper.py:56-62 | against sets without the empty string the emptiness guards change nothing: the test is plain membership |
| BatchScraper.NormaliseEmpty | scripts/batch-game-scraper.py:56-57 | the normalised empty name and the slug of the empty URL are both empty |
| BatchScraper.PartitionLinks | scripts/batch-game-scraper.py:186-196 | the new links are exactly the links that are not duplicates by URL, in their original order, and new plus skipped is the number of links |
| AdminImport.ReadCredentials | scripts/import-admins.js:12-20 | a value that is not an array is read only from a file that parses to one; a missing or unparsable file reads as the empty array |
| AdminImport.ImportCredentials | scripts/import-admins.js:30-59 | a TypeError, with nothing written, exactly when the value read is not an array or one of its records has no string email; otherwise the list written is the records read followed by the accepted imports, `added + skipped` is the batch size and the final length is the old one plus `added` |
| AdminImport.UnreadableEmailCrashes | scripts/import-admins.js:31-32 | one stored record without a string email, wherever it sits, makes `existing.map(c => c.email.toLowerCase())` throw |
| AdminImport.ImportedExtends | scripts/import-admins.js:31-50 | the existing records stay first, unchanged and in order; at most one record per credential is added |
| AdminImport.ImportedKeepsDistinct | scripts/import-admins.js:32-52 | lower-cased emails pairwise distinct before stay pairwise distinct after the import |
| AdminImport.ImportedSound | scripts/import-admins.js:38-50 | every appended record comes from a credential of the batch, keeps the email's casing, stores `hashPassword` of the password, and its lower-cased email was not among the existing records |
| AdminImport.ImportedComplete | scripts/import-admins.js:32-52 | no email is lost, and after the import every credential's lower-cased email is present, imported or skipped |
| AdminImport.SameBatchDuplicateSkipped | scripts/import-admins.js:40-52 | a credential whose email matches, ignoring case, one imported earlier in the same batch is skipped |
| Assets.DedupAssets | scripts/scrape-lagged-whack-your-boss.py:160-168 | the dedup loop builds `unique_assets` as specified, with `seen_urls` kept equal to the URLs appended so far |
| Assets.UniqueDistinct | scripts/scrape-lagged-whack-your-boss.py:162-168 | the URLs of `unique_assets` are pairwise distinct |
| Assets.UniqueComplete | scripts/scrape-lagged-whack-your-boss.py:163-168 | every URL of the input that contains no ad substring is kept |
| Assets.UniqueSound | scripts/scrape-lagged-whack-your-boss.py:163-168 | every kept asset is free of ad substrings and is the first asset of the input with its URL, and kept assets appear in the order of those first occurrences |
| Assets.UniqueFirst | scripts/scrape-lagged-whack-your-boss.py:163-168 | every kept asset is free of ad substrings and is the first asset of the input with its URL |
| Assets.LastAdded | scripts/scrape-lagged-whack-your-boss.py:163-168 | when the last asset of the input is kept, it is appended and is the first with its URL |
| Assets.UniqueOrder | scripts/scrape-lagged-whack-your-boss.py:161-168 | the kept assets appear in the order of their first occurrences |
| Assets.FirstUnique | scripts/scrape-lagged-whack-your-boss.py:164 | an asset has one first-occurrence index |
| Assets.FirstGamePathIff | scripts/scrape-lagged-whack-your-boss.py:201-204 | a game path is remembered iff some asset is a game file, and it is that of the first game asset |
| Assets.DownloadAll | scripts/scrape-lagged-whack-your-boss.py:178-208 | the count is the number of successful downloads, at most the number of assets, and the game path is that of the first game asset whatever its download gives |
| Assets.CollectTagged | scripts/scrape-lagged-whack-your-boss.py:131-135 | a tag loop appends, in tag order, each resolved URL that passes the loop's test, with the loop's type |
| Assets.TaggedSnoc | scripts/scrape-lagged-whack-your-boss.py:131-135 | one more tag appends at most its own asset |
| Assets.TaggedIff | scripts/scrape-lagged-whack-your-boss.py:131-158 | an asset comes from a tag loop iff it has the loop's type, passes its test, and its URL resolves one of the tags |
| Assets.IndexHtml | scripts/scrape-lagged-whack-your-boss.py:183-192 | the fallback name `index.html` is neither empty nor `_` and holds no unsafe character |
| Assets.CleanChars | scripts/scrape-lagged-whack-your-boss.py:190 | each of `<>:"/\|?*` becomes `_` and every other character is kept, at its place |
| Paths.PathName | scripts/scrape-lagged-whack-your-boss.py:183 | `Path(p).name` holds no `/`, is not `.`, and is no longer than the path |
| Paths.LastSegmentAfter | scripts/scrape-veck-io.py:56 | the text after the last separator of `dir/file` is `file` when `file` holds no separator |
| Paths.PathNameOfFile | scripts/scrape-lagged-whack-your-boss.py:183 | a file name at the end of a path is its name, however many directories precede it |
| Paths.PathNameTrailingSlash | scripts/scrape-lagged-whack-your-boss.py:183 | a path ending in `/` names its last non-empty component, not the empty string |
| Paths.Suffix | scripts/download-lagged-game-full.py:96 | a non-empty suffix is a `.` followed by dot-free text ending the name, shorter than the name |
| Paths.SuffixOf | scripts/download-lagged-game-full.py:96 | `stem.ext` has suffix `.ext` |
| Paths.NoSuffix | scripts/download-lagged-game-full.py:96 | a name with no dot, or whose only dot starts it, has no suffix |
| Paths.LastSegmentWhole | scripts/download-lagged-game-full.py:96 | with no separator, the last segment is the whole text |
| LaggedBoss.CollectAssets | scripts/scrape-lagged-whack-your-boss.py:128-158 | `assets_to_download` is images, favicons, scripts and stylesheets in that order, then the game URLs, with the host allow-list on all but favicons and game URLs |
| LaggedBoss.CollectedHosts | scripts/scrape-lagged-whack-your-boss.py:130-158 | images, scripts and stylesheets are collected only from lagged.com, www.lagged.com, cdn.lagged.com or no host; every favicon and every game URL is collected |
| LaggedBoss.FileName | scripts/scrape-lagged-whack-your-boss.py:182-192 | the file name is never empty nor `_` and holds no unsafe character |
| LaggedBoss.FileNameOfPlainFile | scripts/scrape-lagged-whack-your-boss.py:182-192 | a plain safe file name at the end of the path is kept as it is |
| LaggedBoss.ScrapeAssets | scripts/scrape-lagged-whack-your-boss.py:45-208 | a failed page fetch ends the run; otherwise the kept assets are the deduplicated non-ad collected ones, the count is the number of successful downloads (at most the number kept), and the game path is that of the first game asset under `data/` |
| LaggedBoss.KeptAssets | scripts/scrape-lagged-whack-your-boss.py:130-168 | the kept URLs are distinct and free of the six ad substrings, images, scripts and stylesheets are on a Lagged host, and every non-ad game URL is kept |
| VeckIo.DirPart | scripts/scrape-veck-io.py:56 | `path.rsplit('/', 1)[0]` is a prefix of the path that stops right before its last `/`, or the whole path when it has none |
| VeckIo.BaseUrlOf | scripts/scrape-veck-io.py:55-56 | the base URL starts with scheme `://` host and ends with `/` |
| VeckIo.BaseUrlOfPage | scripts/scrape-veck-io.py:55-56 | for a page at `dir/file` the base URL is `scheme://host` + `dir` + `/` |
| VeckIo.CollectAssets | scripts/scrape-veck-io.py:73-97 | the four tag loops collect scripts, stylesheets, images and favicons in that order, each keeping the resolved URLs on the base URL's host |
| VeckIo.CollectedSameHost | scripts/scrape-veck-io.py:76-97 | every collected asset is on the base URL's host and no game file; every script and image that resolves onto that host is collected |
| VeckIo.ScrapeGame | scripts/scrape-veck-io.py:47-128 | a failed page fetch ends the run; otherwise, with the base URL built from the game URL's scheme, host and directory, the kept assets are the deduplicated collected ones without the four excluded substrings, and the count is the number saved, at most the number kept |
| VeckIo.UniqueSameHost | scripts/scrape-veck-io.py:76-105 | every asset kept after the filter is on the base URL's host and free of the excluded substrings |
| KongregateBoss.CollectEmbedFrames | scripts/scrape-whack-your-boss.py:146-151 | the iframe loop of the embed page appends, in order, every iframe whose `src` mentions `game` or `frame` (ignoring case), resolved, as a game file |
| KongregateBoss.FramesPrefix | scripts/scrape-whack-your-boss.py:146-151 | one more iframe appends its game asset exactly when its `src` mentions `game` or `frame` |
| KongregateBoss.SwfPass | scripts/scrape-whack-your-boss.py:154-163 | the SWF loop raises at the first non-empty match that is not a `javascript:` URL, because `seen_urls` is not yet assigned, and appends nothing either way |
| KongregateBoss.CollectPage | scripts/scrape-whack-your-boss.py:108-135 | images and scripts on a Kongregate host, every favicon, the stylesheets the stale `src` lets through, then the embed and game URLs, in that order |
| KongregateBoss.CollectAssets | scripts/scrape-whack-your-boss.py:108-163 | collection fails exactly when there is a stylesheet link to test and `src` was never assigned; otherwise the page's assets followed by the embed page's game iframes |
| KongregateBoss.StylesheetsByStaleSrc | scripts/scrape-whack-your-boss.py:121-131 | the stylesheets collected are all the links or none, as the host of the last script (else the last image) decides, whatever the links' own hosts |
| KongregateBoss.SheetsOnly | scripts/scrape-whack-your-boss.py:108-150 | among the collection loops only the stylesheet loop yields stylesheets |
| KongregateBoss.StaleSheets | scripts/scrape-whack-your-boss.py:127-131 | the stylesheet loop keeps every link or none |
| KongregateBoss.NoneOfKind | scripts/scrape-whack-your-boss.py:108-135 | a loop of one type yields no asset of another type |
| KongregateBoss.AllOfKind | scripts/scrape-whack-your-boss.py:108-135 | every asset of a loop has that loop's type |
| KongregateBoss.GameAssetsOrigin | scripts/scrape-whack-your-boss.py:133-163 | every game asset comes from the embed or game URLs or from a game iframe of the embed page; SWF matches never contribute |
| KongregateBoss.FileName | scripts/scrape-whack-your-boss.py:187-193 | the file name is never empty and holds no unsafe character |
| KongregateBoss.FileNameRulesDiffer | scripts/scrape-whack-your-boss.py:187-193 | unlike the Lagged rule, this one neither cuts at `?` nor replaces a lone `_`: the component `?` is saved as `_` here and as `index.html` there |
| KongregateBoss.QuestionComponent | scripts/scrape-whack-your-boss.py:188 | the component of the path `/?` is `?` |
| KongregateBoss.QuestionSaved | scripts/scrape-whack-your-boss.py:188-193 | this rule saves the component `?` as `_` |
| KongregateBoss.QuestionDropped | scripts/scrape-lagged-whack-your-boss.py:183-192 | the Lagged rule cuts `?` to nothing and falls back to `index.html` |
| KongregateBoss.ScrapeAssets | scripts/scrape-whack-your-boss.py:45-208 | a failed page fetch ends the run; a stylesheet loop with no `src` crashes it; otherwise the kept assets are the deduplicated collected ones without the four ad substrings, the count is the number of successful downloads (at most the number kept), and the game path is that of the first game asset |
| ValidLagged.BadIframeRejected | scripts/add-valid-lagged-games.py:20-31 | a page that iframes lagged.com, crazygames, kongregate, gamejolt or itch.io is rejected whatever files the directory holds |
| ValidLagged.GameFilesAdmit | scripts/add-valid-lagged-games.py:33-41 | without a bad iframe, any `.js`, `.swf`, `.wasm` or `.data` path admits the game, and adding paths never turns an admitted game into a rejected one |
| ValidLagged.IframeLineRejects | scripts/add-valid-lagged-games.py:21-31 | one line holding `iframe` and later a game site, in any case, is enough to reject, whatever surrounds it |
| ValidLagged.SplitSurrounded | scripts/add-valid-lagged-games.py:30 | a line between two line breaks is one of the lines the pattern is searched in |
| ValidLagged.SplitLead | scripts/add-valid-lagged-games.py:30 | the text up to the first line break is the first line |
| ValidLagged.SplitTail | scripts/add-valid-lagged-games.py:30 | a line after a break is never merged into the lines before it |
| ValidLagged.TitleCase | scripts/add-valid-lagged-games.py:98 | `str.title()` keeps the length, upper-cases a letter at the start or after a non-letter, and lower-cases a letter after a letter |
| ValidLagged.DropGameSuffix | scripts/add-valid-lagged-games.py:99-101 | a name ending in ` Game` loses exactly that one suffix; any other name is kept |
| ValidLagged.DefaultNameWords | scripts/add-valid-lagged-games.py:98 | in the default name each word of a dashed slug starts upper-case and each dash is a space: `space-shooter` is named `Space Shooter` |
| ValidLagged.SelectValidGames | scripts/add-valid-lagged-games.py:79-111 | the loop admits exactly the entries the rule selects, in order, or raises on a null name; admitted plus skipped is the number of entries with status `success` and a non-empty slug |
| ValidLagged.SelectedPrefix | scripts/add-valid-lagged-games.py:82-111 | one more entry advances the loop by its own verdict, and counts once when it is considered |
| ValidLagged.LoopCrashed | scripts/add-valid-lagged-games.py:98-100 | once the loop has raised, later entries change nothing |
| ValidLagged.SelectedSound | scripts/add-valid-lagged-games.py:82-108 | every admitted record comes from an entry with status `success`, a slug whose lower-case form is no existing directory and a directory that passes `check_game_valid`; it keeps the slug as written for its directory, with `cover.png` and `non-semag` |
| ValidLagged.SameSlugTwiceKept | scripts/add-valid-lagged-games.py:76-91 | the existing directories are not updated during the loop: two entries with the same admitted slug are both appended |
| ValidLagged.ExistingDirectories | scripts/add-valid-lagged-games.py:76 | the lower-cased directories of the catalog, a missing one counting as empty; a null directory raises |
| ValidLagged.AddValidLaggedGames | scripts/add-valid-lagged-games.py:57-122 | no list file, nothing happens; an unreadable list or catalog, or a null field, aborts; the catalog is rewritten only when a game is admitted, as the old records followed by the admitted ones |
| LaggedCategory.LoadLaggedGames | scripts/scrape-lagged-category.py:20-57 | the same loader as the batch scraper, with URL slugs taken only from `gameUrl` values that mention lagged.com |
| LaggedCategory.LaggedUrlSlugs | scripts/scrape-lagged-category.py:44-51 | every URL slug is non-empty and is the lower-cased stripped last `/`-segment of a `gameUrl` that mentions lagged.com |
| LaggedCategory.LaggedAgainstLoaded | scripts/scrape-lagged-category.py:59-76 | against loaded sets the test holds iff the normalised slug is a known directory or URL slug, or the normalised name is a known name |
| LaggedCategory.LaggedGuardsIrrelevant | scripts/scrape-lagged-category.py:62-73 | against sets without the empty string the name guard changes nothing |
| LaggedCategory.EmptySlugNeverExists | scripts/scrape-lagged-category.py:61-76 | against loaded sets an empty slug with no name is never a duplicate |
| LaggedTitle.BlankEnd | scripts/scrape-lagged-category.py:130 | the first position from `i` on that is not whitespace (or the end), with only whitespace before it: where `\s*` stops |
| LaggedTitle.TitleCutFirst | scripts/scrape-lagged-category.py:130 | the cut is the first dash where `re.sub(r'\s*[-–—]\s*.*$', ...)` can match, that is a dash past whose following whitespace no newline remains except a final one; no earlier position is such a dash; the cut is the end of the title when none is |
| LaggedTitle.TitleNameTrimmed | scripts/scrape-lagged-category.py:130 | the name has no surrounding whitespace |
| LaggedTitle.TitleCutOnlyAtEndingDash | scripts/scrape-lagged-category.py:130 | the name differs from the stripped title only when some dash ends the title |
| LaggedTitle.OneLineNoDashBeforeCut | scripts/scrape-lagged-category.py:130 | on a title on one line (a trailing newline aside) no dash comes before the cut |
| LaggedTitle.OneLineNameHasNoDash | scripts/scrape-lagged-category.py:126-130 | a title on one line (a trailing newline aside) gives a name with no `-`, `–` or `—` |
| LaggedTitle.FirstDashCut | scripts/scrape-lagged-category.py:130 | when the first dash of the title ends it, the name is the stripped text before that dash |
| LaggedTitle.TitleSuffixDropped | scripts/scrape-lagged-category.py:130 | on one line, everything from the first dash on is dropped: the name is the stripped text before it |
| LaggedTitle.TitleKeptWhole | scripts/scrape-lagged-category.py:130 | when no dash ends the title, nothing is removed but the surrounding whitespace |
| LaggedTitle.MultiLineTitleKept | scripts/scrape-lagged-category.py:130 | a dash followed by a non-blank line and then a newline with more text after it removes nothing: `Foo - Bar\nBaz` and `Foo - Play on Lagged.com\n\n` keep the suffix |
| LaggedCategory.UpToQuote | scripts/scrape-lagged-category.py:158 | the text up to the next quote is a prefix holding no quote, stopped by a quote when it is shorter than the text |
| LaggedCategory.FirstQuotedGames | scripts/scrape-lagged-category.py:158-160 | the first match contains `games/` and no quote |
| LaggedCategory.FirstQuotedGamesBetweenQuotes | scripts/scrape-lagged-category.py:158 | the first match is the whole text between two quotes of the script |
| LaggedCategory.FirstQuotedGamesFound | scripts/scrape-lagged-category.py:158-160 | a script whose first quoted string mentions `games/` yields that string |
| LaggedCategory.UpToQuoteOf | scripts/scrape-lagged-category.py:158 | reading up to the next quote stops exactly at the first quote |
| LaggedCategory.FindPlayUrl | scripts/scrape-lagged-category.py:144-161 | the play URL is the first anchor mentioning `/games/` or `/play/`, else the first match of the first script that has one, else none, each resolved against the page |
| LaggedCategory.ScrapeLaggedGame | scripts/scrape-lagged-category.py:115-176 | exactly one status; error iff the request fails; skipped iff the duplicate test holds for the URL's last segment and the title's name; otherwise success with the play URL, which is absent iff no anchor and no script yields one |
| LaggedCategory.FilterNewLinks | scripts/scrape-lagged-category.py:192-202 | the new links are exactly the links whose slug is not a duplicate, in order, and new plus skipped is the number of links |
| LaggedCategory.FindLaggedGames | scripts/scrape-lagged-category.py:78-113 | a failed request gives no links; otherwise distinct links, each a resolved `/en/g/` href of the page, as many as there are distinct such links but no more than `max_games`, and all of them when they fit |
| LaggedSetup.ExternalPage | scripts/setup-lagged-games-local.py:214-239 | the iframe page shows the given URL, or `https://lagged.com` when it is empty, under the game's title |
| LaggedSetup.RuffleOrExternal | scripts/setup-lagged-games-local.py:131-137 | a Ruffle page iff there is a first SWF URL with a non-empty last `/`-segment, that segment being the file (it holds no `/`); otherwise the iframe page of the default URL |
| LaggedSetup.PageFor | scripts/setup-lagged-games-local.py:73-104 | with a play URL: Ruffle iff the play page was fetched and its first SWF match, resolved, has a file name; a failed fetch gives the iframe of the play URL; without one: the iframe of the game URL (or the default) |
| LaggedSetup.SetupLaggedGame | scripts/setup-lagged-games-local.py:33-129 | an empty slug fails with no page; otherwise success with the slug as directory and the name (the slug when the key is absent); a given play URL is kept, otherwise it is the first `/games/` anchor, else the first script's quoted `games/` match, else none, each resolved against the game URL, and the page is the one the settled play URL selects |
| LaggedSetup.Merged | scripts/setup-lagged-games-local.py:255-273 | the catalog keeps its records as a prefix and grows by at most one record per result |
| LaggedSetup.AddToGamesJson | scripts/setup-lagged-games-local.py:246-283 | an unreadable catalog gives 0 and no write; otherwise the merged catalog is written and the count is the number of records appended |
| LaggedSetup.MergedKeepsUnique | scripts/setup-lagged-games-local.py:260-263 | a catalog whose directories are unique keeps them unique, even when one batch holds the same slug twice |
| LaggedSetup.MergedContents | scripts/setup-lagged-games-local.py:255-273 | every successful result's directory is in the merged catalog; every appended record is the `cover.png`/`non-semag` record of a successful result whose directory was not in the original catalog |
| LaggedFull.ResolvedSnoc | scripts/download-lagged-game-full.py:46-50 | one more tag adds its resolved attribute exactly when the attribute is non-empty |
| LaggedFull.ResolveNonEmpty | scripts/download-lagged-game-full.py:46-50 | each `src`/`href` loop lists the resolved non-empty attributes, in tag order |
| LaggedFull.ResolvedIff | scripts/download-lagged-game-full.py:46-50 | no more URLs than tags, and a URL is listed iff it resolves some non-empty attribute |
| LaggedFull.WithInline | scripts/download-lagged-game-full.py:53-68 | the inline pass keeps the `src` scripts as a prefix, adds at most one URL per match and never appends a URL already listed |
| LaggedFull.AddInline | scripts/download-lagged-game-full.py:53-68 | the inline loop yields the inline pass of its matches |
| LaggedFull.InlineIff | scripts/download-lagged-game-full.py:65-68 | a URL is listed after the pass iff it was a `src` script or resolves a non-empty match that is not a `javascript:` link |
| LaggedFull.FirstAttr | scripts/download-lagged-game-full.py:93 | `href or src or data-src` is empty only when all three are |
| LaggedFull.DataSnoc | scripts/download-lagged-game-full.py:92-98 | one more tag adds its resolved URL exactly when it has an attribute and its path suffix, lower-cased, is a data extension |
| LaggedFull.CollectData | scripts/download-lagged-game-full.py:92-98 | the data loop lists the data URLs in tag order |
| LaggedFull.DataUrlsIff | scripts/download-lagged-game-full.py:92-98 | a URL is a data URL iff it resolves the first attribute of some tag and its path names a `.wasm`, `.data`, `.br` or `.gz` file |
| LaggedFull.DataFileByName | scripts/download-lagged-game-full.py:96-97 | a path ending in `stem.ext` is a data file iff the lower-cased `.ext` is one of the four extensions, in any letter case |
| LaggedFull.ExtractAllAssets | scripts/download-lagged-game-full.py:33-100 | the six lists are the resolved script, stylesheet, image and font attributes and the data URLs, with `other` always empty |
| LaggedFull.DownloadList | scripts/download-lagged-game-full.py:169-178 | a URL without a file name is skipped; the others are counted as downloaded or failed by whether `folder/NAME` is written; every URL lands in exactly one of the three |
| LaggedFull.FirstPlayHref | scripts/download-lagged-game-full.py:123-127 | a picked anchor is one of the anchors and mentions `/games/` or `/play/` |
| LaggedFull.FirstPlayHrefAt | scripts/download-lagged-game-full.py:123-127 | the first passing anchor is the one picked |
| LaggedFull.FirstPlayHrefNone | scripts/download-lagged-game-full.py:123-127 | with no passing anchor none is picked |
| LaggedFull.FirstScriptGamesAt | scripts/download-lagged-game-full.py:131-136 | the first script with a `games/` string supplies its first match |
| LaggedFull.FirstScriptGamesNone | scripts/download-lagged-game-full.py:131-136 | with no such script none is picked |
| LaggedFull.FindPlay | scripts/download-lagged-game-full.py:114-140 | the play URL the search settles on is the iframe, anchor, script, game-page fallback chain |
| LaggedFull.AnchorPick | scripts/download-lagged-game-full.py:122-127 | the anchor loop shared with the category scraper yields the resolved first play anchor |
| LaggedFull.ScriptPick | scripts/download-lagged-game-full.py:130-136 | the script loop shared with the category scraper yields the resolved first `games/` string |
| LaggedFull.PlayUrlPrecedence | scripts/download-lagged-game-full.py:114-140 | by position: an iframe wins; else the first play anchor; else the first script with a `games/` string; else the game page |
| LaggedFull.DownloadGameAssets | scripts/download-lagged-game-full.py:102-236 | failure iff the game page or the chosen play page cannot be fetched; otherwise the lists are those of the play page resolved against the play URL, the counts are those of the four download loops (never more than the non-font URLs), and the saved page is the rewrite against the play URL's host |
| LaggedFull.DownloadLists | scripts/download-lagged-game-full.py:168-214 | the four loops in order, counts summed; fonts and `other` are never fetched |
| LaggedFull.CountsCoverNamedUrls | scripts/download-lagged-game-full.py:155-214 | the counts do not depend on the fonts or `other`, and downloaded, failed and skipped together are the URLs of the four fetched lists |
| LaggedFull.CountsPartition | scripts/download-lagged-game-full.py:169-178 | downloaded, failed and skipped partition a list |
| HtmlPaths.NextOf | scripts/download-lagged-game-full.py:249-256 | where a run `[^cs]*` must stop: the first position from `i` holding a character of the set, or the end |
| HtmlPaths.LastEnd | scripts/download-lagged-game-full.py:249-256 | a found end of the extension lies in the range and the extension really ends there |
| HtmlPaths.LastEndMax | scripts/download-lagged-game-full.py:249-256 | greedy backtracking: whenever the extension ends somewhere in the range, the search finds a position and none larger exists |
| HtmlPaths.LastSlash | scripts/download-lagged-game-full.py:249-256 | a found `/` lies in the range and a group `[^/]+EXT` can follow it |
| HtmlPaths.LastSlashMax | scripts/download-lagged-game-full.py:249-256 | whenever such a `/` exists in the range, the search finds the largest |
| HtmlPaths.LastDomain | scripts/download-lagged-game-full.py:249-256 | a found domain position lies in the range, the domain occurs there and the rest of the pattern can follow |
| HtmlPaths.LastDomainMax | scripts/download-lagged-game-full.py:249-256 | whenever such a position exists in the range, the search finds the largest |
| HtmlPaths.HostStart | scripts/download-lagged-game-full.py:249-256 | `https?://` at `i`: the host starts after `i` and within the text |
| HtmlPaths.MatchAt | scripts/download-lagged-game-full.py:248-259 | a match starting at `i` ends after `i`, within the text, right after the extension |
| HtmlPaths.NoMatchCopies | scripts/download-lagged-game-full.py:248-259 | where no match starts from `i` on, the substitution copies the rest of the text |
| HtmlPaths.NoSchemeUnchanged | scripts/download-lagged-game-full.py:248-259 | a page without `http://` or `https://` is left as it is |
| HtmlPaths.NoExtensionUnchanged | scripts/download-lagged-game-full.py:248-259 | a page without the extension is left as it is |
| HtmlPaths.GroupToEnd | scripts/download-lagged-game-full.py:249-256 | after the last `/`, where the extension ends the text, the group runs to the end |
| HtmlPaths.SlashFromLast | scripts/download-lagged-game-full.py:249-256 | without quotes after the domain, the quote-free run backtracks to the last `/` |
| HtmlPaths.DomainFound | scripts/download-lagged-game-full.py:249-256 | in a URL of the rewritten shape the domain search succeeds and the last `/` is reached from it |
| HtmlPaths.MatchFound | scripts/download-lagged-game-full.py:249-256 | where every stage of the pattern succeeds, the match ends where its group does |
| HtmlPaths.OneMatch | scripts/download-lagged-game-full.py:248-259 | a shaped text opening with a scheme is one match, replaced by the local prefix and what follows its last `/` |
| HtmlPaths.AbsoluteUrlRewritten | scripts/download-lagged-game-full.py:248-259 | an absolute URL on a host containing the domain whose path ends in `/NAME` with NAME ending in the extension becomes the prefix plus NAME, whatever lies between the domain and the last `/`, when no quote interrupts it |
| HtmlPaths.NoDoubleSlashNoScheme | scripts/download-lagged-game-full.py:249-256 | a text with no two `/` in a row holds no scheme |
| HtmlPaths.LocalPathNoScheme | scripts/download-lagged-game-full.py:250-257 | a rewritten local path holds no scheme, so a later pass cannot match it |
| HtmlPaths.ScriptUrlLocal | scripts/download-lagged-game-full.py:248-259 | a script URL on the play page's host becomes `js/NAME.js` after both passes |
| HtmlPaths.ScriptPathNoScheme | scripts/download-lagged-game-full.py:250-256 | the rewritten script reference offers the stylesheet pass no scheme |
| HtmlPaths.StylesheetUrlLocal | scripts/download-lagged-game-full.py:248-259 | a stylesheet URL on the play page's host that does not mention `.js` becomes `css/NAME.css` |
| PagesBuild.ShouldExclude | scripts/pages-build.js:27-33 | true iff the path is one of the excluded directories or lies below one of them (`d + '/'` is a prefix) |
| PagesBuild.Child | scripts/pages-build.js:39 | a listing yields a node for a name iff some entry has that name |
| PagesBuild.NodeCopied | scripts/pages-build.js:35-51 | copying a node to a fresh destination whose parent exists puts at `dest + q` exactly the items of the source tree at `q` that no ignored name or excluded path on the way passes over, and leaves every path outside `dest` as it was |
| PagesBuild.EntriesCopied | scripts/pages-build.js:39-45 | copying a listing into an existing directory with nothing below it does the same for every entry of the listing |
| PagesBuild.FreshBelow | scripts/pages-build.js:38-44 | after the earlier entries, an entry's destination is still fresh and its parent exists |
| PagesBuild.SkipStep | scripts/pages-build.js:40-43 | an entry that is passed over leaves the copy as it was |
| PagesBuild.CopyStep | scripts/pages-build.js:41-44 | an entry that is copied extends the copy by its own subtree |
| PagesBuild.ChildOfSnoc | scripts/pages-build.js:39 | with distinct names, the last entry answers for its own name and the earlier ones for every other name |
| PagesBuild.BuildContents | scripts/pages-build.js:53-63 | after the build `dist/` is a directory, and a path below it holds an item iff the repository has a file or directory there and no name on the way is ignored or excluded; the item is that file's bytes or a directory |
| PagesBuild.OversizedFileCopied | scripts/pages-build.js:16-51 | a file larger than 25 MiB on a path that is neither ignored nor excluded is still copied: `MAX_BYTES` is never consulted |
| PagesBuild.PassesEveryLevel | scripts/pages-build.js:40-61 | a path passes iff at every depth its name is not ignored and the source path so far is not excluded |
| PagesBuild.ComponentUnder | scripts/pages-build.js:30 | a single path component followed by nothing or by `/...` is at or under a name iff it is that name |
| PagesBuild.UnderAfterPrefix | scripts/pages-build.js:30 | a common prefix does not change the containment test |
| PagesBuild.ExcludedAmong | scripts/pages-build.js:29-31 | under a common prefix a component is excluded iff it is one of the listed names |
| PagesBuild.ExcludedNames | scripts/pages-build.js:19-33 | under `non-semag/` a name with any path after it is excluded iff it is `EscapeRoad`, `EscapeRoad2` or `EscapeRoadCity` |
| PagesBuild.SiblingNotExcluded | scripts/pages-build.js:30 | `non-semag/EscapeRoadX` shares only a string prefix with `non-semag/EscapeRoad` and is not excluded |
| PagesBuild.Dist.constructor | scripts/pages-build.js:53-54 | the output tree starts empty |
| PagesBuild.Dist.CopyRecurse | scripts/pages-build.js:35-51 | the tree after the call is the specified copy of the node into the old tree |
| PagesBuild.Dist.CopyListing | scripts/pages-build.js:39-45 | the tree after the loop is the specified copy of the listing into the old tree |
| PagesBuild.Dist.Build | scripts/pages-build.js:53-63 | the tree after the script is the build specification of the root listing |
| Proxy.TldFromIff | js/proxy.js:11-27 | the scan for `TLD_PATTERN` finds a match from `k` on iff a dot, a listed TLD in any letter case and an allowed end (whitespace, `/`, `?`, `#`, a quote or the end) occur at some position from `k` on |
| Proxy.AnyInAppend | js/proxy.js:26 | a character class occurs in a concatenation iff it occurs in one of the parts |
| Proxy.AnyInLower | js/proxy.js:26-35 | lower-casing neither adds nor removes characters that are not ASCII letters |
| Proxy.StripNone | js/proxy.js:23 | a text with no whitespace at all is its own trim |
| Proxy.Utf8 | js/proxy.js:31 | a character is encoded in one to four bytes, and in the single byte of its code exactly when it is ASCII |
| Proxy.PercentBytes | js/proxy.js:31 | each byte becomes three characters `%HH` |
| Proxy.PercentUnit | js/proxy.js:31 | one byte becomes three characters |
| Proxy.HexDigitValue | js/proxy.js:31 | an upper-case hex digit reads back as its value |
| Proxy.DecodeUnit | js/proxy.js:31 | one `%HH` unit decodes to its byte |
| Proxy.DecodePercentBytes | js/proxy.js:31 | decoding the units of some bytes gives those bytes back, whatever follows |
| Proxy.DecodeEncoded | js/proxy.js:31 | percent-decoding the output of `encodeURIComponent` gives back the UTF-8 bytes of the input |
| Proxy.EncodedCharacters | js/proxy.js:29-31 | the encoding holds only unreserved characters, `%` and hex digits, hence no whitespace |
| Proxy.SafeNotSpace | js/proxy.js:29-31 | none of those characters is whitespace |
| Proxy.PercentCharacters | js/proxy.js:31 | the `%HH` units hold only `%` and hex digits |
| Proxy.SpaceEncoded | js/proxy.js:29-31 | a space is sent as `%20` |
| Proxy.OutputHasScheme | js/proxy.js:21-40 | every result begins with `https://` or `http://`, for every input and every TLD list |
| Proxy.SearchHasScheme | js/proxy.js:31 | a search URL begins with `https://` |
| Proxy.SchemeIsLower | js/proxy.js:36 | on a lower-case text the case-insensitive scheme test is a plain prefix test |
| Proxy.LowerIdempotent | js/proxy.js:35 | lower-casing twice is lower-casing once |
| Proxy.NormalizeEmpty | js/proxy.js:23-24 | an input that trims to nothing opens the Google home page |
| Proxy.NormalizeSearch | js/proxy.js:26-32 | whitespace inside the trimmed input, or no TLD match anywhere in it, gives the Google search for the encoded trimmed input |
| Proxy.SearchUrlDecodes | js/proxy.js:29-31 | the query of a search URL decodes to the UTF-8 bytes of the text searched for, and the URL holds no whitespace |
| Proxy.SearchQuery | js/proxy.js:31 | the query follows the prefix unchanged, and the prefix adds no whitespace |
| Proxy.VisibleNoSpace | js/proxy.js:26 | printable ASCII other than the space holds no whitespace |
| Proxy.SpaceInvisible | js/proxy.js:26 | no whitespace character is printable ASCII |
| Proxy.NormalizeAddress | js/proxy.js:26-39 | a trimmed input without whitespace that matches the TLD pattern becomes the lower-cased text, with `https://` in front unless it already has a scheme |
| Proxy.LowerKeepsSpaces | js/proxy.js:26-35 | lower-casing keeps whitespace exactly where it was |
| Proxy.TldAtLower | js/proxy.js:12-35 | a TLD match survives lower-casing |
| Proxy.TldAtShift | js/proxy.js:12-37 | a TLD match survives a prefix, shifted by its length |
| Proxy.AddressShape | js/proxy.js:34-39 | the address the URL branch produces is lower-case, begins with a scheme, holds no whitespace and still matches the TLD pattern |
| Proxy.LowerKeepsTld | js/proxy.js:12-35 | a text that matches the TLD pattern still matches it once lower-cased |
| Proxy.PrefixedAddress | js/proxy.js:36-38 | putting `https://` in front keeps a lower-case address lower-case, free of whitespace and matching |
| Proxy.SchemeShape | js/proxy.js:37 | `https://` is lower-case and holds no whitespace |
| Proxy.PrefixKeepsTld | js/proxy.js:12-37 | any prefix keeps a TLD match |
| Proxy.PrefixKeepsLower | js/proxy.js:35-37 | a lower-case prefix of a lower-case text gives a lower-case text |
| Proxy.SchemePrefix | js/proxy.js:36-37 | a text behind `https://` has a scheme |
| Proxy.AddressFixed | js/proxy.js:21-40 | a lower-case address with a scheme, no whitespace and a TLD match normalises to itself |
| Proxy.UrlBranchIdempotent | js/proxy.js:21-40 | normalising an address a second time returns it unchanged |
| Text.LastSegment | scripts/batch-game-scraper.py:57 | `split('/')[-1]` is a suffix holding no separator, preceded by a separator whenever it is shorter than the text |
| Text.BeforeFirst | scripts/scrape-lagged-whack-your-boss.py:187 | `split('?')[0]` is a prefix holding no separator, followed by one whenever it is shorter than the text |
| Text.TrimStart | scripts/batch-game-scraper.py:32 | the leading half of `strip`: a suffix of the text that does not open with a stripped character |
| Text.TrimEnd | scripts/batch-game-scraper.py:32 | the trailing half of `strip`: a prefix of the text that does not end with a stripped character |
| Text.LowerAppend | scripts/batch-game-scraper.py:32 | lower-casing distributes over concatenation |

## Left out

- HTTP requests, their timeouts and the `time.sleep` pauses are not modelled. Each fetch, HEAD status and download outcome is an input or a function parameter.
- Filesystem and JSON input/output is not modelled.
  - Reading and writing `games.json`, `lagged-games-list.json`, `metadata.json`, `summary.json` and the credentials file is left out. A file is given as missing, unparsable or parsed, and a write as the value written.
  - `mkdir`, `rglob` and the `fs` calls of the build are left out. A game directory is its set of file names; the `dist/` tree is a map from paths to items.
- BeautifulSoup, the regular-expression searches over script text, `urljoin` and `urlparse` are not modelled. Their results (tag attribute lists, regex matches, resolved URLs, host and path) are parameters. The regex rewrites modelled character by character are that of `update_html_paths` and the title rewrite of `scrape_lagged_game`.
- The `ThreadPoolExecutor`/`as_completed` fan-out of `batch-game-scraper.py`, `scrape-lagged-category.py` and `setup-lagged-games-local.py` is left out. Results are taken in list order: the order of completion is not deterministic and the merges do not depend on it except for which of two equal directories wins.
- `find_game_links` and `scrape_single_game` of `batch-game-scraper.py` are not modelled. They crawl a page and write files and metadata with nothing to decide beyond the parser's output; the lookup sets, the duplicate test and the filter loop of `batch_scrape` are modelled.
- The merge of `scrape_category` in `scrape-lagged-category.py` is not modelled: it writes the thread results to `lagged-games-list.json` and never touches `games.json`. The same holds for `main` of the scrapers beyond the functions listed in the table.
- The cover-image fetches (`og:image` to `cover.png`) in `setup-lagged-games-local.py` and `download-lagged-game-full.py` are left out. Their outcome changes no result or count.
- The page text of the Ruffle and iframe `index.html` files is left out. The model keeps which page is written, with its SWF file or iframe URL and its title.
- `SHA-256` in `hashPassword` and the `new Date()` timestamps of `import-admins.js` are parameters.
- Python's `str.lower()` and JavaScript's `toLowerCase()` are modelled as ASCII lower-casing. Non-ASCII letters keep their case here.
- JavaScript strings are modelled as sequences of Unicode scalar values, so `encodeURIComponent` never meets a lone surrogate and never throws.
- `path.normalize` and `path.resolve(__dirname, '..')` of `pages-build.js` are not modelled. The root is a parameter, and the paths the walk builds are already normal.
- Console output (`print`, `console.log`) is not modelled.
- `getBaseUrl` and the DOM wiring of `js/proxy.js` are not modelled: they read `window.location` and change the page.
- `functions/proxy.js` is not part of this model: it delegates to the WHATWG URL parser and `fetch`.
- JSON values of the catalog other than strings, `null` and absent fields are not modelled. A number or a list where a name is expected is outside this model.
- `GnMathLocal.DownloadGame`: the count of downloaded assets is stated as a lower bound of the successful tag downloads. The inline-reference downloads it adds on top are stated separately by `GnMathLocal.FetchInlineRefs`.
- `LaggedCategory.FindLaggedGames`: which links survive `list(set(...))[:max_games]` when more than `max_games` are found depends on Python's set order and is not stated. Only their number and origin are.
- `LaggedSetup.SetupLaggedGame`: the download of the first SWF file (`setup-lagged-games-local.py:90-96`) is not modelled, and no result depends on whether it succeeds. The file is saved under `Path(urlparse(swf_url).path).name`, which drops a query string or fragment. The Ruffle page names the file with `split('/')[-1]`, which keeps them. So for a URL such as `game.swf?v=2` the page may point at a file that was saved as `game.swf`, and the model does not state this.
- Stored credential values other than string, `null` or absent emails are not modelled. A record with a number as its email throws in `import-admins.js` just like a `null` one; it is outside this model.

/**
 * scripts/add-valid-lagged-games.py: the admission rule `check_game_valid`
 * over a game directory, and the loop of `main` that selects, names and
 * appends the admitted games of lagged-games-list.json.
 */
module ValidLagged {
  import opened Wrappers
  import opened Text
  import opened Catalog
  import opened Seqs

  /**
   * A game directory as the rule sees it: absent, or present with the set of
   * relative paths under it (files and directories) and the text of its
   * `index.html` (meaningful only when "index.html" is one of the paths).
   */
  datatype GameDir = NoDir | Dir(paths: set<string>, indexHtml: string)

  /** Hosts an iframe must not point to. */
  const BadIframeHosts: seq<string> := ["lagged.com", "crazygames", "kongregate", "gamejolt", "itch.io"]

  /** Extensions of game files. */
  const GameFileExtensions: seq<string> := [".js", ".swf", ".wasm", ".data"]

  /** CDNs whose mention makes a page without game files acceptable. */
  const ExternalCdns: seq<string> := ["gacembed.withgoogle.com", "jsdelivr.net", "unpkg.com", "cdnjs.cloudflare.com"]

  /** `a` occurs in `s` with `b` somewhere after it. */
  predicate FollowedBy(s: string, a: string, b: string) {
    exists i :: 0 <= i <= |s| && FollowedAt(s, a, b, i)
  }

  /** `a` occurs in `s` at `i`, with `b` somewhere after it. */
  predicate FollowedAt(s: string, a: string, b: string, i: int) {
    0 <= i <= |s| - |a| && s[i..i + |a|] == a && Contains(s[i + |a|..], b)
  }

  /**
   * `re.search(r'iframe.*<host>', html, re.I)`: `.` does not cross a line
   * break, so some line holds `iframe` and later the host, ignoring case.
   */
  predicate IframeTo(html: string, host: string) {
    exists line :: line in Split(Lower(html), '\n') && FollowedBy(line, "iframe", host)
  }

  predicate HasBadIframe(html: string) {
    exists k :: 0 <= k < |BadIframeHosts| && IframeTo(html, BadIframeHosts[k])
  }

  /** `any(game_dir.rglob('*<ext>'))`: some path's last component ends with the extension. */
  predicate HasFileWith(paths: set<string>, ext: string) {
    exists p :: p in paths && EndsWith(p, ext)
  }

  predicate HasGameFiles(paths: set<string>) {
    exists k :: 0 <= k < |GameFileExtensions| && HasFileWith(paths, GameFileExtensions[k])
  }

  predicate MentionsCdn(html: string) {
    ContainsAny(Lower(html), ExternalCdns)
  }

  /**
   * `check_game_valid`: invalid without the directory or its `index.html`;
   * invalid when the page iframes a game site; otherwise valid with game
   * files, or failing that with a CDN mention.
   */
  predicate CheckGameValid(dir: GameDir) {
    if dir.NoDir? then false
    else if "index.html" !in dir.paths then false
    else if HasBadIframe(dir.indexHtml) then false
    else if HasGameFiles(dir.paths) then true
    else MentionsCdn(dir.indexHtml)
  }

  /** A page that iframes a game site is rejected whatever files the directory holds. */
  lemma BadIframeRejected(paths: set<string>, html: string)
    requires HasBadIframe(html)
    ensures !CheckGameValid(Dir(paths, html))
  {
  }

  /** Without a bad iframe, any `.js`, `.swf`, `.wasm` or `.data` path admits the game, and adding paths never rejects it. */
  lemma GameFilesAdmit(paths: set<string>, more: set<string>, html: string)
    requires "index.html" in paths && !HasBadIframe(html)
    ensures HasGameFiles(paths) ==> CheckGameValid(Dir(paths, html))
    ensures CheckGameValid(Dir(paths, html)) ==> CheckGameValid(Dir(paths + more, html))
  {
    if HasGameFiles(paths) {
      var k :| 0 <= k < |GameFileExtensions| && HasFileWith(paths, GameFileExtensions[k]);
      var p :| p in paths && EndsWith(p, GameFileExtensions[k]);
      assert p in paths + more;
    }
  }

  /** One line naming an iframe and then a game site, in any case, is enough to reject. */
  lemma IframeLineRejects(before: string, line: string, after: string, k: nat)
    requires 0 <= k < |BadIframeHosts|
    requires '\n' !in line
    requires FollowedBy(Lower(line), "iframe", BadIframeHosts[k])
    ensures HasBadIframe(before + "\n" + line + "\n" + after)
  {
    var html := before + "\n" + line + "\n" + after;
    LowerAppend(before + "\n", line + "\n" + after);
    LowerAppend(before, "\n");
    LowerAppend(line, "\n" + after);
    LowerAppend("\n", after);
    assert Lower(html) == Lower(before) + "\n" + Lower(line) + "\n" + Lower(after);
    SplitSurrounded(Lower(before), Lower(line), Lower(after));
  }

  /** A line between two line breaks is one of the parts of the split. */
  lemma {:induction false} SplitSurrounded(before: string, line: string, after: string)
    requires '\n' !in line
    ensures line in Split(before + "\n" + line + "\n" + after, '\n')
  {
    if before == [] {
      assert before + "\n" + line + "\n" + after == "\n" + (line + "\n" + after);
      SplitLead(line, after);
    } else {
      var s := before + "\n" + line + "\n" + after;
      assert s[1..] == before[1..] + "\n" + line + "\n" + after;
      SplitSurrounded(before[1..], line, after);
      var rest := Split(s[1..], '\n');
      if s[0] == '\n' {
        assert Split(s, '\n') == [""] + rest;
      } else {
        assert Split(s, '\n') == [[s[0]] + rest[0]] + rest[1..];
        if line == rest[0] {
          SplitTail(before[1..], line, after);
        }
      }
    }
  }

  /** A part that starts right after a break and ends at the next one. */
  lemma {:induction false} SplitLead(line: string, after: string)
    requires '\n' !in line
    ensures line == Split(line + "\n" + after, '\n')[0]
    ensures line in Split("\n" + (line + "\n" + after), '\n')
  {
    if line == [] {
      assert line + "\n" + after == "\n" + after;
    } else {
      assert (line + "\n" + after)[1..] == line[1..] + "\n" + after;
      SplitLead(line[1..], after);
    }
    assert Split("\n" + (line + "\n" + after), '\n') == [""] + Split(line + "\n" + after, '\n');
  }

  /** The part after the break that ends `before` never merges into the first part. */
  lemma {:induction false} SplitTail(before: string, line: string, after: string)
    requires '\n' !in line
    ensures line in Split(before + "\n" + line + "\n" + after, '\n')[1..]
  {
    if before == [] {
      var s := "\n" + (line + "\n" + after);
      assert before + "\n" + line + "\n" + after == s;
      SplitLead(line, after);
      assert Split(s, '\n') == [""] + Split(line + "\n" + after, '\n');
    } else {
      var s := before + "\n" + line + "\n" + after;
      assert s[1..] == before[1..] + "\n" + line + "\n" + after;
      SplitTail(before[1..], line, after);
      var rest := Split(s[1..], '\n');
      if s[0] == '\n' {
        assert Split(s, '\n') == [""] + rest;
      } else {
        assert Split(s, '\n')[1..] == rest[1..];
      }
    }
  }

  /** An entry of lagged-games-list.json as this script reads it. */
  datatype ListedGame = ListedGame(status: Field, slug: Field, name: Field)

  /** `slug.replace('-', ' ').title()` for ASCII text: a letter is upper-cased after a non-letter or at the start, lower-cased after a letter. */
  function TitleCase(s: string): (r: string)
    ensures |r| == |s|
    ensures forall i :: 0 <= i < |s| ==> r[i] == TitleCharAt(s, i)
  {
    seq(|s|, i requires 0 <= i < |s| => TitleCharAt(s, i))
  }

  /** The character at `i` once title-cased. */
  function TitleCharAt(s: string, i: nat): char
    requires i < |s|
  {
    if i == 0 || !IsAsciiLetter(s[i - 1]) then UpperChar(s[i]) else LowerChar(s[i])
  }

  /** The default name: dashes become spaces, then title case. */
  function DefaultName(slug: string): string {
    TitleCase(ReplaceChar(slug, '-', ' '))
  }

  /** One trailing ` Game` removed. */
  function DropGameSuffix(name: string): (r: string)
    ensures EndsWith(name, " Game") ==> r + " Game" == name
    ensures !EndsWith(name, " Game") ==> r == name
  {
    if EndsWith(name, " Game") then name[..|name| - 5] else name
  }

  /** Each word of a dashed slug starts upper-case: `space-shooter` is named `Space Shooter`. */
  lemma DefaultNameWords(slug: string, i: nat)
    requires 0 <= i < |slug| && 'a' <= slug[i] <= 'z'
    requires i == 0 || slug[i - 1] == '-'
    ensures 'A' <= DefaultName(slug)[i] <= 'Z'
    ensures i > 0 ==> DefaultName(slug)[i - 1] == ' '
  {
  }

  /** What happens to one listed game. */
  datatype Verdict = NotConsidered | AlreadyListed | Rejected | Admitted(entry: Entry) | NameCrash

  predicate Considered(g: ListedGame) {
    g.status == Str("success") && g.slug.Str? && g.slug.text != ""
  }

  /**
   * One iteration of `main`'s loop: successful entries with a slug are
   * considered; a slug whose lower-case form is an existing directory is
   * skipped; an admitted game is named by `name` (absent: the default
   * name; null: `.endswith` raises) less one ` Game`, and keeps the slug as
   * written for its directory.
   */
  function Judge(g: ListedGame, existingDirs: set<string>, dirOf: string -> GameDir): Verdict {
    if !Considered(g) then NotConsidered
    else
      var slug := g.slug.text;
      if Lower(slug) in existingDirs then AlreadyListed
      else if !CheckGameValid(dirOf(slug)) then Rejected
      else if g.name.Null? then NameCrash
      else
        var name := if g.name.Str? then g.name.text else DefaultName(slug);
        Admitted(LocalEntry(Str(DropGameSuffix(name)), slug))
  }

  /** The games the loop has admitted after `games`, in order, or the crash that ended it. */
  function Selected(games: seq<ListedGame>, existingDirs: set<string>, dirOf: string -> GameDir): Result<seq<Entry>> {
    if games == [] then Ok([])
    else
      Advance(Selected(games[..|games| - 1], existingDirs, dirOf), Judge(games[|games| - 1], existingDirs, dirOf))
  }

  /** One iteration's effect on the loop state: an admitted game is appended, a null name raises. */
  function Advance(prev: Result<seq<Entry>>, verdict: Verdict): Result<seq<Entry>> {
    if prev.Crash? then prev
    else match verdict
      case Admitted(e) => Ok(prev.value + [e])
      case NameCrash => Crash("game name is null")
      case _ => prev
  }

  /** The loop of `main`: the admitted games, and the number skipped as listed already or as rejected. */
  method SelectValidGames(games: seq<ListedGame>, existingDirs: set<string>, dirOf: string -> GameDir)
    returns (valid: Result<seq<Entry>>, skipped: nat)
    ensures valid == Selected(games, existingDirs, dirOf)
    ensures valid.Ok? ==> |valid.value| + skipped == |Keep(games, Considered)|
  {
    var admitted: seq<Entry> := [];
    skipped := 0;
    var i := 0;
    while i < |games|
      invariant 0 <= i <= |games|
      invariant Selected(games[..i], existingDirs, dirOf) == Ok(admitted)
      invariant |admitted| + skipped == |Keep(games[..i], Considered)|
    {
      var g := games[i];
      var verdict := Judge(g, existingDirs, dirOf);
      SelectedPrefix(games, i, existingDirs, dirOf);
      match verdict {
        case NotConsidered =>
        case AlreadyListed =>
          skipped := skipped + 1;
        case Rejected =>
          skipped := skipped + 1;
        case NameCrash =>
          LoopCrashed(games[..i + 1], games[i + 1..], existingDirs, dirOf);
          assert games[..i + 1] + games[i + 1..] == games;
          return Crash("game name is null"), skipped;
        case Admitted(e) =>
          admitted := admitted + [e];
      }
      i := i + 1;
    }
    assert games[..i] == games;
    valid := Ok(admitted);
  }

  /** The loop state after a prefix one entry longer, and the considered entries among it. */
  lemma SelectedPrefix(games: seq<ListedGame>, i: nat, existingDirs: set<string>, dirOf: string -> GameDir)
    requires i < |games|
    ensures Selected(games[..i + 1], existingDirs, dirOf) == Advance(Selected(games[..i], existingDirs, dirOf), Judge(games[i], existingDirs, dirOf))
    ensures |Keep(games[..i + 1], Considered)| == |Keep(games[..i], Considered)| + (if Judge(games[i], existingDirs, dirOf).NotConsidered? then 0 else 1)
  {
    assert games[..i + 1][..i] == games[..i];
    KeepPrefix(games, i, Considered);
  }

  /** Once the loop has raised, the later entries change nothing. */
  lemma {:induction false} LoopCrashed(a: seq<ListedGame>, b: seq<ListedGame>, existingDirs: set<string>, dirOf: string -> GameDir)
    requires Selected(a, existingDirs, dirOf).Crash?
    ensures Selected(a + b, existingDirs, dirOf) == Selected(a, existingDirs, dirOf)
  {
    if b != [] {
      LoopCrashed(a, b[..|b| - 1], existingDirs, dirOf);
      assert (a + b)[..|a + b| - 1] == a + b[..|b| - 1];
    } else {
      assert a + b == a;
    }
  }

  /**
   * Every admitted record comes from a considered entry whose lower-cased
   * slug is not an existing directory and whose directory passes the rule;
   * the record keeps the slug as its directory.
   */
  lemma {:induction false} SelectedSound(games: seq<ListedGame>, existingDirs: set<string>, dirOf: string -> GameDir)
    requires Selected(games, existingDirs, dirOf).Ok?
    ensures forall e :: e in Selected(games, existingDirs, dirOf).value ==>
      exists g :: g in games && Considered(g) && e.directory == g.slug
                  && Lower(g.slug.text) !in existingDirs && CheckGameValid(dirOf(g.slug.text))
                  && e.image == CoverImage && e.source == LocalSource
  {
    if games != [] {
      var init := games[..|games| - 1];
      SelectedSound(init, existingDirs, dirOf);
      assert forall g :: g in init ==> g in games;
      assert games[|games| - 1] in games;
    }
  }

  /**
   * The set of existing directories is not updated during the loop: two
   * entries with the same admitted slug are both appended.
   */
  lemma SameSlugTwiceKept(g: ListedGame, existingDirs: set<string>, dirOf: string -> GameDir)
    requires Judge(g, existingDirs, dirOf).Admitted?
    ensures var e := Judge(g, existingDirs, dirOf).entry;
      Selected([g, g], existingDirs, dirOf) == Ok([e, e])
  {
    var e := Judge(g, existingDirs, dirOf).entry;
    var one, two := [g], [g, g];
    var none: seq<ListedGame> := [];
    assert one[..|one| - 1] == none && one[|one| - 1] == g;
    var p1 := Selected(none, existingDirs, dirOf);
    assert Selected(one, existingDirs, dirOf) == Ok(p1.value + [e]) && p1.value + [e] == [e];
    assert two[..|two| - 1] == one && two[|two| - 1] == g;
    var p2 := Selected(one, existingDirs, dirOf);
    assert Selected(two, existingDirs, dirOf) == Ok(p2.value + [e]) && p2.value + [e] == [e, e];
  }

  /** `{g.get('directory', '').lower() for g in games}`; a null directory raises. */
  function ExistingDirectories(games: seq<Entry>): (r: Result<set<string>>)
    ensures r.Ok? <==> forall g :: g in games ==> !g.directory.Null?
    ensures r.Ok? ==> forall d :: d in r.value <==> exists g :: g in games && Lower(if g.directory.Str? then g.directory.text else "") == d
  {
    if exists g :: g in games && g.directory.Null? then Crash("directory is null")
    else Ok(set g | g in games :: Lower(if g.directory.Str? then g.directory.text else ""))
  }

  /**
   * `main`: no list file, nothing happens; an unreadable list or catalog, or
   * a null field, aborts; the catalog is rewritten only when at least one game
   * is admitted, as the old records followed by the admitted ones.
   */
  method AddValidLaggedGames(listFile: JsonFile<seq<ListedGame>>, gamesFile: JsonFile<seq<Entry>>, dirOf: string -> GameDir)
    returns (written: Result<Option<seq<Entry>>>)
    ensures listFile.Absent? ==> written == Ok(None)
    ensures listFile.Unparsable? || (listFile.Parsed? && !gamesFile.Parsed?) ==> written.Crash?
    ensures listFile.Parsed? && gamesFile.Parsed? && ExistingDirectories(gamesFile.contents).Crash? ==> written.Crash?
    ensures listFile.Parsed? && gamesFile.Parsed? && ExistingDirectories(gamesFile.contents).Ok? ==>
      var sel := Selected(listFile.contents, ExistingDirectories(gamesFile.contents).value, dirOf);
      && (sel.Crash? ==> written.Crash?)
      && (sel.Ok? && sel.value == [] ==> written == Ok(None))
      && (sel.Ok? && sel.value != [] ==> written == Ok(Some(gamesFile.contents + sel.value)))
  {
    if listFile.Absent? {
      return Ok(None);
    }
    if listFile.Unparsable? || !gamesFile.Parsed? {
      return Crash("cannot read input");
    }
    var dirs := ExistingDirectories(gamesFile.contents);
    if dirs.Crash? {
      return Crash(dirs.reason);
    }
    var valid, _ := SelectValidGames(listFile.contents, dirs.value, dirOf);
    if valid.Crash? {
      return Crash(valid.reason);
    }
    if valid.value == [] {
      return Ok(None);
    }
    return Ok(Some(gamesFile.contents + valid.value));
  }
}

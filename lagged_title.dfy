/**
 * The game name `scrape_lagged_game` of scripts/scrape-lagged-category.py
 * takes from a page title: `re.sub(r'\s*[-–—]\s*.*$', '', title).strip()`,
 * with Python's regex semantics (`.` stops at a newline, `$` holds at the
 * end or before a final newline).
 */
module LaggedTitle {
  import opened Text

  const Dashes: set<char> := {'-', '\U{2013}', '\U{2014}'}

  /** The first position from `i` on that holds no whitespace, or `|title|`: where `\s*` stops. */
  function BlankEnd(title: string, i: nat): (r: nat)
    requires i <= |title|
    ensures i <= r <= |title|
    ensures r < |title| ==> title[r] !in PyWhitespace
    ensures forall k :: i <= k < r ==> title[k] in PyWhitespace
    decreases |title| - i
  {
    if i == |title| || title[i] !in PyWhitespace then i else BlankEnd(title, i + 1)
  }

  /**
   * Whether `re.sub(r'\s*[-–—]\s*.*$', '', title)` can finish a match after the
   * dash at `d`: `\s*` runs over the whitespace after the dash (newlines
   * included), `.*` stops at the next newline, and `$` holds only at the end
   * or before a final newline. So past that whitespace a newline may only be
   * the last character.
   */
  predicate DashEndsTitle(title: string, d: nat)
    requires d < |title|
  {
    && title[d] in Dashes
    && forall j :: BlankEnd(title, d + 1) <= j < |title| - 1 ==> title[j] != '\n'
  }

  /** The first dash at or after `from` that ends the title, or `|title|` when none does. */
  function TitleCut(title: string, from: nat): (cut: nat)
    requires from <= |title|
    ensures from <= cut <= |title|
    decreases |title| - from
  {
    if from == |title| then |title|
    else if DashEndsTitle(title, from) then from
    else TitleCut(title, from + 1)
  }

  /** The cut is a dash that ends the title, and no earlier position from `from` on is one. */
  lemma {:induction false} TitleCutFirst(title: string, from: nat)
    requires from <= |title|
    ensures var cut := TitleCut(title, from);
      && (cut < |title| ==> DashEndsTitle(title, cut))
      && forall d :: from <= d < cut ==> !DashEndsTitle(title, d)
    decreases |title| - from
  {
    if from < |title| && !DashEndsTitle(title, from) {
      TitleCutFirst(title, from + 1);
    }
  }

  /**
   * `re.sub(r'\s*[-–—]\s*.*$', '', title).strip()`. The leftmost match starts
   * at the whitespace before the first dash that ends the title and runs to
   * the end or to a final newline, which `.strip()` then drops with that
   * whitespace; so the name is the stripped text before that dash, and the
   * whole stripped title when no dash ends it.
   */
  function TitleName(title: string): string {
    PyStrip(title[..TitleCut(title, 0)])
  }

  /** The name has no surrounding whitespace. */
  lemma TitleNameTrimmed(title: string)
    ensures var name := TitleName(title);
      name == [] || (name[0] !in PyWhitespace && name[|name| - 1] !in PyWhitespace)
  {
    var before := title[..TitleCut(title, 0)];
    StripEnds(before, PyWhitespace);
    assert TitleName(title) == Strip(before, PyWhitespace);
  }

  /** Only a dash that ends the title makes the name more than the stripped title. */
  lemma TitleCutOnlyAtEndingDash(title: string)
    ensures TitleName(title) != PyStrip(title) ==> exists d :: 0 <= d < |title| && DashEndsTitle(title, d)
  {
    var cut := TitleCut(title, 0);
    TitleCutFirst(title, 0);
    if cut == |title| {
      assert title[..cut] == title;
    }
  }

  /** On a title on one line (a trailing newline aside) every dash ends the title, so none comes before the cut. */
  lemma OneLineNoDashBeforeCut(title: string)
    requires forall j :: 0 <= j < |title| - 1 ==> title[j] != '\n'
    ensures forall c :: c in title[..TitleCut(title, 0)] ==> c !in Dashes
  {
    var cut := TitleCut(title, 0);
    TitleCutFirst(title, 0);
    forall c | c in title[..cut] ensures c !in Dashes {
      var i :| 0 <= i < cut && title[..cut][i] == c;
      assert !DashEndsTitle(title, i);
    }
  }

  /** A title on one line (a trailing newline aside) gives a name that holds no `-`, `–` or `—`. */
  lemma OneLineNameHasNoDash(title: string)
    requires forall j :: 0 <= j < |title| - 1 ==> title[j] != '\n'
    ensures forall i :: 0 <= i < |TitleName(title)| ==> TitleName(title)[i] !in Dashes
  {
    OneLineNoDashBeforeCut(title);
    StripKeepsChars(title[..TitleCut(title, 0)], PyWhitespace);
  }

  /** With no dash before the one at `d`, the title is cut there exactly when that dash ends it. */
  lemma FirstDashCut(title: string, d: nat)
    requires d < |title| && DashEndsTitle(title, d)
    requires forall i :: 0 <= i < d ==> title[i] !in Dashes
    ensures TitleName(title) == PyStrip(title[..d])
  {
    var cut := TitleCut(title, 0);
    TitleCutFirst(title, 0);
    assert cut <= d;
    assert title[cut] in Dashes;
    assert cut == d;
  }

  /** On one line, everything from the first dash on is dropped: ` - Play on Lagged.com` and the like never reach the name. */
  lemma TitleSuffixDropped(prefix: string, dash: char, rest: string)
    requires forall i :: 0 <= i < |prefix| ==> prefix[i] !in Dashes
    requires dash in Dashes
    requires forall j :: 0 <= j < |rest| - 1 ==> rest[j] != '\n'
    ensures TitleName(prefix + [dash] + rest) == PyStrip(prefix)
  {
    var t := prefix + [dash] + rest;
    var d := |prefix|;
    assert t[d] == dash;
    forall j | d < j < |t| - 1 ensures t[j] != '\n' {
      assert t[j] == rest[j - d - 1];
    }
    forall i | 0 <= i < d ensures t[i] !in Dashes {
      assert t[i] == prefix[i];
    }
    FirstDashCut(t, d);
    assert t[..d] == prefix;
  }

  /** With no dash that ends it, the title is kept whole, stripped. */
  lemma TitleKeptWhole(title: string)
    requires forall d :: 0 <= d < |title| ==> !DashEndsTitle(title, d)
    ensures TitleName(title) == PyStrip(title)
  {
    TitleCutFirst(title, 0);
    assert TitleCut(title, 0) == |title|;
    assert title[..|title|] == title;
  }

  /**
   * A dash followed by more than one line ends nothing: `.*` cannot cross the
   * inner newline, so the title is kept whole.
   */
  lemma MultiLineTitleKept(head: string, dash: char, line: string, tail: string)
    requires forall i :: 0 <= i < |head| ==> head[i] !in Dashes
    requires dash in Dashes
    requires forall i :: 0 <= i < |line| ==> line[i] !in Dashes && line[i] != '\n'
    requires exists k :: 0 <= k < |line| && line[k] !in PyWhitespace
    requires tail != [] && forall i :: 0 <= i < |tail| ==> tail[i] !in Dashes
    ensures var title := head + [dash] + line + "\n" + tail;
      TitleName(title) == PyStrip(title)
  {
    var title := head + [dash] + line + "\n" + tail;
    var d0 := |head|;
    forall d | 0 <= d < |title| ensures !DashEndsTitle(title, d) {
      if d < d0 {
        assert title[d] == head[d];
      } else if d == d0 {
        var k :| 0 <= k < |line| && line[k] !in PyWhitespace;
        var j := d0 + 1 + |line|;
        assert title[j] == '\n' && j < |title| - 1;
        assert title[d0 + 1 + k] == line[k];
      } else if d <= d0 + |line| {
        assert title[d] == line[d - d0 - 1];
      } else if d > d0 + |line| + 1 {
        assert title[d] == tail[d - d0 - |line| - 2];
      }
    }
    TitleKeptWhole(title);
  }
}

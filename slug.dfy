/**
 * Directory-slug derivation shared by the two gn-math scripts
 * (`re.sub(r'[^a-z0-9]+', '-', name.lower()).strip('-')`, with the
 * `zone-<id>` fallback for slugs shorter than two characters).
 */
module Slug {
  import opened Text

  predicate IsSlugChar(c: char) {
    'a' <= c <= 'z' || '0' <= c <= '9'
  }

  /** Drops the leading run of characters outside `[a-z0-9]`. */
  function DropRun(s: string): (r: string)
    ensures |r| <= |s|
    ensures r == [] || IsSlugChar(r[0])
    ensures forall i :: 0 <= i < |s| - |r| ==> !IsSlugChar(s[i])
    ensures r == s[|s| - |r|..]
  {
    if s != [] && !IsSlugChar(s[0]) then DropRun(s[1..]) else s
  }

  /** Every maximal run of characters outside `[a-z0-9]` replaced by a single `-`. */
  function Collapse(s: string): string
    decreases |s|
  {
    if s == [] then []
    else if IsSlugChar(s[0]) then [s[0]] + Collapse(s[1..])
    else "-" + Collapse(DropRun(s[1..]))
  }

  /** The slug of a display name. */
  function Slugify(name: string): string {
    Strip(Collapse(Lower(name)), {'-'})
  }

  /** `dir_name` of a zone: the slug, or `zone-<id>` when it is empty or one character long. */
  function DirName(name: string, zoneId: string): string {
    var slug := Slugify(name);
    if |slug| < 2 then "zone-" + zoneId else slug
  }

  predicate SlugAlphabet(s: string) {
    forall i :: 0 <= i < |s| ==> IsSlugChar(s[i]) || s[i] == '-'
  }

  predicate NoDoubleDash(s: string) {
    forall i :: 0 <= i < |s| - 1 ==> s[i] != '-' || s[i + 1] != '-'
  }

  /** The shape of every derived slug: `[a-z0-9]` and single dashes, no dash at either end. */
  predicate IsSlug(s: string) {
    && SlugAlphabet(s)
    && NoDoubleDash(s)
    && (s != [] ==> s[0] != '-' && s[|s| - 1] != '-')
  }

  /** The letters and digits of a string, in order. */
  function AlnumOf(s: string): string {
    if s == [] then [] else (if IsSlugChar(s[0]) then [s[0]] else []) + AlnumOf(s[1..])
  }

  lemma CollapseHead(s: string)
    requires s == [] || IsSlugChar(s[0])
    ensures Collapse(s) == [] || Collapse(s)[0] == s[0]
  {
  }

  lemma {:induction false} CollapseShape(s: string)
    ensures SlugAlphabet(Collapse(s)) && NoDoubleDash(Collapse(s))
    decreases |s|
  {
    if s == [] {
    } else if IsSlugChar(s[0]) {
      CollapseShape(s[1..]);
    } else {
      var rest := DropRun(s[1..]);
      CollapseShape(rest);
      CollapseHead(rest);
    }
  }

  lemma SubstringShape(s: string, i: nat, j: nat)
    requires i <= j <= |s|
    requires SlugAlphabet(s) && NoDoubleDash(s)
    ensures SlugAlphabet(s[i..j]) && NoDoubleDash(s[i..j])
  {
    var t := s[i..j];
    forall k | 0 <= k < |t| - 1 ensures t[k] != '-' || t[k + 1] != '-' {
      assert t[k] == s[i + k] && t[k + 1] == s[i + k + 1];
    }
  }

  /** Every slug has the slug shape. */
  lemma SlugifyShape(name: string)
    ensures IsSlug(Slugify(name))
  {
    var c := Collapse(Lower(name));
    CollapseShape(Lower(name));
    var a := TrimStart(c, {'-'});
    SubstringShape(c, |c| - |a|, |c|);
    var b := TrimEnd(a, {'-'});
    SubstringShape(a, 0, |b|);
  }

  lemma {:induction false} CollapseFixed(s: string)
    requires SlugAlphabet(s) && NoDoubleDash(s)
    ensures Collapse(s) == s
    decreases |s|
  {
    if s != [] {
      SubstringShape(s, 1, |s|);
      if !IsSlugChar(s[0]) {
        assert s[1..] == [] || IsSlugChar(s[1]);
        assert DropRun(s[1..]) == s[1..];
      }
      CollapseFixed(s[1..]);
    }
  }

  /** Deriving a slug from a slug gives the same slug. */
  lemma SlugifyIdempotent(name: string)
    ensures Slugify(Slugify(name)) == Slugify(name)
  {
    var t := Slugify(name);
    SlugifyShape(name);
    assert Lower(t) == t;
    CollapseFixed(t);
  }

  /** A non-fallback directory name is a fixed point of the derivation, whatever the zone id. */
  lemma DirNameIdempotent(name: string, zoneId: string, otherId: string)
    requires |Slugify(name)| >= 2
    ensures DirName(DirName(name, zoneId), otherId) == DirName(name, zoneId)
  {
    SlugifyIdempotent(name);
  }

  lemma {:induction false} AlnumAppend(a: string, b: string)
    ensures AlnumOf(a + b) == AlnumOf(a) + AlnumOf(b)
  {
    if a != [] {
      assert (a + b)[1..] == a[1..] + b;
      AlnumAppend(a[1..], b);
    } else {
      assert a + b == b;
    }
  }

  lemma {:induction false} AlnumDropRun(s: string)
    ensures AlnumOf(DropRun(s)) == AlnumOf(s)
  {
    if s != [] && !IsSlugChar(s[0]) {
      AlnumDropRun(s[1..]);
    }
  }

  lemma {:induction false} AlnumCollapse(s: string)
    ensures AlnumOf(Collapse(s)) == AlnumOf(s)
    decreases |s|
  {
    if s != [] {
      if IsSlugChar(s[0]) {
        AlnumCollapse(s[1..]);
        assert ([s[0]] + Collapse(s[1..]))[1..] == Collapse(s[1..]);
      } else {
        var rest := DropRun(s[1..]);
        AlnumCollapse(rest);
        AlnumDropRun(s[1..]);
        assert ("-" + Collapse(rest))[1..] == Collapse(rest);
      }
    }
  }

  lemma {:induction false} AlnumTrimStart(s: string)
    ensures AlnumOf(TrimStart(s, {'-'})) == AlnumOf(s)
  {
    if s != [] && s[0] == '-' {
      AlnumTrimStart(s[1..]);
    }
  }

  lemma {:induction false} AlnumTrimEnd(s: string)
    ensures AlnumOf(TrimEnd(s, {'-'})) == AlnumOf(s)
  {
    if s != [] && s[|s| - 1] == '-' {
      var init := s[..|s| - 1];
      AlnumTrimEnd(init);
      assert s == init + "-";
      AlnumAppend(init, "-");
    }
  }

  /**
   * Slug derivation only removes and replaces characters outside `[a-z0-9]`:
   * the letters and digits of the lower-cased name all survive, in order.
   */
  lemma SlugifyKeepsAlnum(name: string)
    ensures AlnumOf(Slugify(name)) == AlnumOf(Lower(name))
  {
    var c := Collapse(Lower(name));
    AlnumCollapse(Lower(name));
    AlnumTrimStart(c);
    AlnumTrimEnd(TrimStart(c, {'-'}));
  }
}

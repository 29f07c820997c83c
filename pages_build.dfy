/**
 * scripts/pages-build.js: the Cloudflare Pages build copies the repository
 * into `dist/`, leaving out entries with an ignored name at every level and
 * the three Escape Road folders under `non-semag/`.
 *
 * The repository is a tree of entries; a path in `dist/` is the list of the
 * names leading to it (the empty list is `dist/` itself); a source path is
 * the absolute string `root/name/.../name` that `path.join` builds.
 */
module PagesBuild {
  import opened Wrappers
  import opened Text

  type Bytes = seq<bv8>

  /** A file with its bytes, or a directory with its listing in `readdirSync` order. */
  datatype Node = File(content: Bytes) | Dir(entries: seq<Entry>)
  datatype Entry = Entry(name: string, node: Node)

  /** What a path of `dist/` holds. */
  datatype Item = FileItem(content: Bytes) | DirItem

  /** `MAX_BYTES`, which the build never consults. */
  const MaxBytes := 25 * 1024 * 1024

  /** `IGNORE`. */
  const Ignore: set<string> := {"node_modules", ".git", "dist", "scripts"}

  /** `EXCLUDE_DIRS`, in insertion order. */
  function ExcludeDirs(root: string): seq<string> {
    [root + "/non-semag/EscapeRoad", root + "/non-semag/EscapeRoad2", root + "/non-semag/EscapeRoadCity"]
  }

  /** `path.join(dir, name)` for a directory path that does not end in `/` and a plain name. */
  function Join(dir: string, name: string): string {
    dir + "/" + name
  }

  /** `p === d || p.startsWith(d + path.sep)`. */
  predicate Under(p: string, d: string) {
    p == d || StartsWith(p, d + "/")
  }

  /** Some directory of the list is `p` or an ancestor of it. */
  predicate Excluded(p: string, dirs: seq<string>) {
    exists i :: 0 <= i < |dirs| && Under(p, dirs[i])
  }

  /**
   * `shouldExclude`: the loop over the excluded directories, returning at the
   * first one that contains the path. The paths the walk builds are already
   * normal, so `path.normalize` leaves them as they are.
   */
  method ShouldExclude(abs: string, dirs: seq<string>) returns (excluded: bool)
    ensures excluded <==> Excluded(abs, dirs)
  {
    for i := 0 to |dirs|
      invariant forall j :: 0 <= j < i ==> !Under(abs, dirs[j])
    {
      if abs == dirs[i] || StartsWith(abs, dirs[i] + "/") {
        return true;
      }
    }
    return false;
  }

  /** The entry is passed over: an ignored name, or an excluded directory. */
  predicate Skip(src: string, name: string, root: string) {
    name in Ignore || Excluded(Join(src, name), ExcludeDirs(root))
  }

  /** A name `readdirSync` can return. */
  predicate ValidName(n: string) {
    n != "" && n != "." && n != ".." && '/' !in n
  }

  /** Every listing, at every level, holds distinct valid names. */
  predicate WellFormed(n: Node)
    decreases n
  {
    match n
    case File(_) => true
    case Dir(es) => WellFormedEntries(es)
  }

  predicate WellFormedEntries(es: seq<Entry>)
    decreases es
  {
    (forall i, j :: 0 <= i < j < |es| ==> es[i].name != es[j].name)
    && (forall i :: 0 <= i < |es| ==> ValidName(es[i].name) && WellFormed(es[i].node))
  }

  function ItemOf(n: Node): Item {
    match n
    case File(c) => FileItem(c)
    case Dir(_) => DirItem
  }

  /** The parent of a `dist/` path. */
  function Parent(dest: seq<string>): seq<string>
    requires dest != []
  {
    dest[..|dest| - 1]
  }

  /**
   * `copyRecurse(src, dest)` on a `dist/` tree: a directory is created when
   * missing and its listing copied; a file gets its parent directory created
   * when missing and is then written over whatever was at `dest`.
   */
  function CopyNode(n: Node, src: string, dest: seq<string>, root: string, t: map<seq<string>, Item>): map<seq<string>, Item>
    requires dest != []
    decreases n, 1
  {
    match n
    case File(c) =>
      var t1 := if Parent(dest) in t then t else t[Parent(dest) := DirItem];
      t1[dest := FileItem(c)]
    case Dir(es) =>
      CopyEntries(es, src, dest, root, if dest in t then t else t[dest := DirItem])
  }

  /** The loop over a listing: every entry not passed over is copied, in order. */
  function CopyEntries(es: seq<Entry>, src: string, dest: seq<string>, root: string, t: map<seq<string>, Item>): map<seq<string>, Item>
    decreases es, 0
  {
    if es == [] then t
    else
      var e := es[|es| - 1];
      var prev := CopyEntries(es[..|es| - 1], src, dest, root, t);
      if Skip(src, e.name, root) then prev
      else CopyNode(e.node, Join(src, e.name), dest + [e.name], root, prev)
  }

  /** The whole script: `dist/` is emptied and created, then the root listing is copied into it. */
  function BuildSpec(root: string, es: seq<Entry>): map<seq<string>, Item> {
    CopyEntries(es, root, [], root, map[[] := DirItem])
  }

  /** The entry of a listing with the given name; names are distinct in a well-formed listing. */
  function Child(es: seq<Entry>, name: string): (r: Option<Node>)
    ensures r.Some? <==> exists i :: 0 <= i < |es| && es[i].name == name
  {
    if es == [] then None
    else if es[|es| - 1].name == name then Some(es[|es| - 1].node)
    else
      var r := Child(es[..|es| - 1], name);
      assert forall i :: 0 <= i < |es| - 1 ==> es[..|es| - 1][i] == es[i];
      r
  }

  /** The node a relative path names below `n`, whatever the build does. */
  function LookupIn(n: Node, q: seq<string>): Option<Node>
    decreases |q|, 1
  {
    if q == [] then Some(n)
    else
      match n
      case File(_) => None
      case Dir(es) => Lookup(es, q)
  }

  function Lookup(es: seq<Entry>, q: seq<string>): Option<Node>
    requires q != []
    decreases |q|, 0
  {
    match Child(es, q[0])
    case None => None
    case Some(c) => LookupIn(c, q[1..])
  }

  /** No component of the relative path `q` below `src` is passed over by the build. */
  predicate Passes(src: string, q: seq<string>, root: string)
    decreases |q|
  {
    q == [] || (!Skip(src, q[0], root) && Passes(Join(src, q[0]), q[1..], root))
  }

  /** `dist/` paths strictly below `dest`. */
  predicate Below(p: seq<string>, dest: seq<string>) {
    |dest| < |p| && p[..|dest|] == dest
  }

  /**
   * Copying a node to a fresh `dest` whose parent exists puts at `dest + q`
   * exactly the items of the source tree at `q` that nothing on the way
   * passes over, and leaves every path outside `dest` as it was.
   */
  lemma {:induction false} NodeCopied(n: Node, src: string, dest: seq<string>, root: string, t: map<seq<string>, Item>)
    requires dest != [] && WellFormed(n)
    requires Parent(dest) in t
    requires forall p :: p in t ==> !(p == dest || Below(p, dest))
    ensures var r := CopyNode(n, src, dest, root, t);
      && (forall p :: !(p == dest || Below(p, dest)) ==> (p in r <==> p in t) && (p in t ==> r[p] == t[p]))
      && (forall q :: dest + q in r <==> LookupIn(n, q).Some? && Passes(src, q, root))
      && (forall q :: dest + q in r ==> LookupIn(n, q).Some? && r[dest + q] == ItemOf(LookupIn(n, q).value))
    decreases n, 1
  {
    var r := CopyNode(n, src, dest, root, t);
    match n {
      case File(c) =>
        assert r == t[dest := FileItem(c)];
        forall q ensures dest + q in r <==> LookupIn(n, q).Some? && Passes(src, q, root) {
          if q != [] {
            assert Below(dest + q, dest);
          } else {
            assert dest + q == dest;
          }
        }
      case Dir(es) =>
        var t1 := t[dest := DirItem];
        EntriesCopied(es, src, dest, root, t1);
        forall q ensures dest + q in r <==> LookupIn(n, q).Some? && Passes(src, q, root) {
          if q == [] {
            assert dest + q == dest;
          }
        }
        forall q | dest + q in r ensures LookupIn(n, q).Some? && r[dest + q] == ItemOf(LookupIn(n, q).value) {
          if q == [] {
            assert dest + q == dest;
          }
        }
        forall p | !(p == dest || Below(p, dest)) ensures (p in r <==> p in t) && (p in t ==> r[p] == t[p]) {
          assert !Below(p, dest);
        }
    }
  }

  /**
   * After copying `es` into `dest`, `r` agrees with `t` outside `dest`, and
   * holds at `dest + q` exactly the item of the listing at `q` when nothing on
   * the way is passed over.
   */
  ghost predicate CopiedInto(r: map<seq<string>, Item>, t: map<seq<string>, Item>, es: seq<Entry>, src: string, dest: seq<string>, root: string) {
    && (forall p :: !Below(p, dest) ==> (p in r <==> p in t) && (p in t ==> r[p] == t[p]))
    && (forall q :: q != [] ==> (dest + q in r <==> Lookup(es, q).Some? && Passes(src, q, root)))
    && (forall q :: q != [] && dest + q in r ==> Lookup(es, q).Some? && r[dest + q] == ItemOf(Lookup(es, q).value))
  }

  /**
   * Copying a listing into an existing `dest` with nothing below it puts at
   * `dest + q` exactly the items of the listing at `q` that nothing on the way
   * passes over, and leaves every path not below `dest` as it was.
   */
  lemma {:induction false} EntriesCopied(es: seq<Entry>, src: string, dest: seq<string>, root: string, t: map<seq<string>, Item>)
    requires WellFormedEntries(es)
    requires dest in t
    requires forall p :: p in t ==> !Below(p, dest)
    ensures CopiedInto(CopyEntries(es, src, dest, root, t), t, es, src, dest, root)
    decreases es, 0
  {
    var r := CopyEntries(es, src, dest, root, t);
    if es == [] {
      forall q | q != [] ensures dest + q !in r {
        assert Below(dest + q, dest);
      }
    } else {
      var pre := es[..|es| - 1];
      var e := es[|es| - 1];
      assert forall i :: 0 <= i < |pre| ==> pre[i] == es[i];
      assert es == pre + [e];
      EntriesCopied(pre, src, dest, root, t);
      var prev := CopyEntries(pre, src, dest, root, t);
      if Skip(src, e.name, root) {
        SkipStep(pre, e, src, dest, root, t, prev);
      } else {
        var d1 := dest + [e.name];
        FreshBelow(pre, e, src, dest, root, t, prev);
        NodeCopied(e.node, Join(src, e.name), d1, root, prev);
        CopyStep(pre, e, src, dest, root, t, prev, r);
      }
    }
  }

  /** Nothing below `dest + [e.name]` exists before `e` is copied: its name is new to the listing. */
  lemma FreshBelow(pre: seq<Entry>, e: Entry, src: string, dest: seq<string>, root: string, t: map<seq<string>, Item>, prev: map<seq<string>, Item>)
    requires forall i :: 0 <= i < |pre| ==> pre[i].name != e.name
    requires dest in t && forall p :: p in t ==> !Below(p, dest)
    requires CopiedInto(prev, t, pre, src, dest, root)
    ensures Parent(dest + [e.name]) in prev
    ensures forall p :: p in prev ==> !(p == dest + [e.name] || Below(p, dest + [e.name]))
  {
    var d1 := dest + [e.name];
    assert Parent(d1) == dest;
    assert !Below(dest, dest);
    assert Child(pre, e.name).None?;
    forall p | p in prev ensures !(p == d1 || Below(p, d1)) {
      if Below(p, dest) {
        var q := p[|dest|..];
        assert p == dest + q;
      }
    }
  }

  /** A passed-over entry adds nothing. */
  lemma SkipStep(pre: seq<Entry>, e: Entry, src: string, dest: seq<string>, root: string, t: map<seq<string>, Item>, prev: map<seq<string>, Item>)
    requires forall i :: 0 <= i < |pre| ==> pre[i].name != e.name
    requires Skip(src, e.name, root)
    requires CopiedInto(prev, t, pre, src, dest, root)
    ensures CopiedInto(prev, t, pre + [e], src, dest, root)
  {
    assert Child(pre, e.name).None?;
    forall q | q != [] ensures (dest + q in prev <==> Lookup(pre + [e], q).Some? && Passes(src, q, root))
      && (dest + q in prev ==> Lookup(pre + [e], q).Some? && prev[dest + q] == ItemOf(Lookup(pre + [e], q).value))
    {
      ChildOfSnoc(pre, e, q[0]);
      if q[0] == e.name {
        assert Lookup(pre, q).None?;
      }
    }
  }

  /** A copied entry adds its own items below `dest + [e.name]` and changes nothing else. */
  lemma CopyStep(pre: seq<Entry>, e: Entry, src: string, dest: seq<string>, root: string, t: map<seq<string>, Item>,
                 prev: map<seq<string>, Item>, r: map<seq<string>, Item>)
    requires forall i :: 0 <= i < |pre| ==> pre[i].name != e.name
    requires !Skip(src, e.name, root)
    requires CopiedInto(prev, t, pre, src, dest, root)
    requires var d1 := dest + [e.name];
      && (forall p :: !(p == d1 || Below(p, d1)) ==> (p in r <==> p in prev) && (p in prev ==> r[p] == prev[p]))
      && (forall q :: d1 + q in r <==> LookupIn(e.node, q).Some? && Passes(Join(src, e.name), q, root))
      && (forall q :: d1 + q in r ==> LookupIn(e.node, q).Some? && r[d1 + q] == ItemOf(LookupIn(e.node, q).value))
    ensures CopiedInto(r, t, pre + [e], src, dest, root)
  {
    var d1 := dest + [e.name];
    forall p | !Below(p, dest) ensures (p in r <==> p in t) && (p in t ==> r[p] == t[p]) {
      assert !(p == d1 || Below(p, d1));
    }
    forall q | q != [] ensures (dest + q in r <==> Lookup(pre + [e], q).Some? && Passes(src, q, root))
      && (dest + q in r ==> Lookup(pre + [e], q).Some? && r[dest + q] == ItemOf(Lookup(pre + [e], q).value))
    {
      ChildOfSnoc(pre, e, q[0]);
      if q[0] == e.name {
        assert dest + q == d1 + q[1..];
      } else {
        assert (dest + q)[|dest|] == q[0];
        assert !(dest + q == d1 || Below(dest + q, d1));
      }
    }
  }

  /** The last entry of a listing answers for its own name; the earlier ones for every other name. */
  lemma ChildOfSnoc(pre: seq<Entry>, e: Entry, name: string)
    requires forall i :: 0 <= i < |pre| ==> pre[i].name != e.name
    ensures var es := pre + [e];
      Child(es, name) == if name == e.name then Some(e.node) else Child(pre, name)
  {
    var es := pre + [e];
    assert es[..|es| - 1] == pre;
  }

  /**
   * After the build, `dist/` itself is a directory, and a relative path holds
   * an item exactly when the repository has a file or directory there and no
   * name on the way is ignored or excluded; the item is that file's bytes or
   * a directory.
   */
  lemma BuildContents(root: string, es: seq<Entry>)
    requires WellFormedEntries(es)
    ensures var r := BuildSpec(root, es);
      && [] in r && r[[]] == DirItem
      && (forall q :: q != [] ==> (q in r <==> Lookup(es, q).Some? && Passes(root, q, root)))
      && (forall q :: q != [] && q in r ==> Lookup(es, q).Some? && r[q] == ItemOf(Lookup(es, q).value))
  {
    var t := map[[] := DirItem];
    EntriesCopied(es, root, [], root, t);
    assert !Below([], []);
    assert forall q: seq<string> {:trigger [] + q} :: [] + q == q;
  }

  /** A file over `MAX_BYTES` on a path that is neither ignored nor excluded is copied all the same. */
  lemma OversizedFileCopied(root: string, es: seq<Entry>, q: seq<string>, c: Bytes)
    requires WellFormedEntries(es) && q != []
    requires Lookup(es, q) == Some(File(c)) && |c| > MaxBytes
    requires Passes(root, q, root)
    ensures q in BuildSpec(root, es) && BuildSpec(root, es)[q] == FileItem(c)
  {
    BuildContents(root, es);
  }

  /** `path.join(src, ...names)`. */
  function JoinAll(src: string, names: seq<string>): string
    decreases |names|
  {
    if names == [] then src else JoinAll(Join(src, names[0]), names[1..])
  }

  /** Passing means that at every depth the name is not ignored and the path so far is not excluded. */
  lemma {:induction false} PassesEveryLevel(src: string, q: seq<string>, root: string)
    ensures Passes(src, q, root) <==> forall k :: 0 <= k < |q| ==> !Skip(JoinAll(src, q[..k]), q[k], root)
    decreases |q|
  {
    if q != [] {
      PassesEveryLevel(Join(src, q[0]), q[1..], root);
      forall k | 0 <= k < |q| - 1
        ensures JoinAll(src, q[..k + 1]) == JoinAll(Join(src, q[0]), q[1..][..k]) && q[k + 1] == q[1..][k]
      {
        assert q[..k + 1][1..] == q[1..][..k];
      }
      assert JoinAll(src, q[..0]) == src;
      if forall k :: 0 <= k < |q| ==> !Skip(JoinAll(src, q[..k]), q[k], root) {
        forall k | 0 <= k < |q| - 1 ensures !Skip(JoinAll(Join(src, q[0]), q[1..][..k]), q[1..][k], root) {
          assert !Skip(JoinAll(src, q[..k + 1]), q[k + 1], root);
        }
      }
      if Passes(src, q, root) {
        forall k | 0 <= k < |q| ensures !Skip(JoinAll(src, q[..k]), q[k], root) {
          if k > 0 {
            assert !Skip(JoinAll(Join(src, q[0]), q[1..][..k - 1]), q[1..][k - 1], root);
          }
        }
      }
    }
  }

  /** The one-name test behind the exclusion: a full name `n`, followed by nothing or by more path, is under `a` exactly when it is `a`. */
  lemma ComponentUnder(n: string, rest: string, a: string)
    requires '/' !in n && '/' !in a
    requires rest == "" || rest[0] == '/'
    ensures Under(n + rest, a) <==> n == a
  {
    var x := n + rest;
    if n == a && rest != "" {
      assert (a + "/") == x[..|a| + 1];
    }
    if StartsWith(x, a + "/") {
      assert x[|a|] == '/';
      if |n| == |a| {
        assert n == x[..|n|];
      }
    }
  }

  lemma UnderAfterPrefix(pre: string, x: string, a: string)
    ensures Under(pre + x, pre + a) <==> Under(x, a)
  {
    if StartsWith(pre + x, pre + a + "/") {
      assert (pre + x)[|pre|..] == x;
      assert (pre + a + "/")[|pre|..] == a + "/";
    }
    if StartsWith(x, a + "/") {
      assert pre + a + "/" == pre + (a + "/");
    }
    if pre + x == pre + a {
      assert (pre + x)[|pre|..] == x;
    }
  }

  /** Directories `pre + names[i]`: a name `n` followed by nothing or more path is under one of them exactly when it is one of the names. */
  lemma ExcludedAmong(pre: string, names: seq<string>, dirs: seq<string>, n: string, rest: string)
    requires |dirs| == |names| && forall i :: 0 <= i < |names| ==> dirs[i] == pre + names[i] && '/' !in names[i]
    requires '/' !in n
    requires rest == "" || rest[0] == '/'
    ensures Excluded(pre + (n + rest), dirs) <==> n in names
  {
    forall i | 0 <= i < |names| ensures Under(pre + (n + rest), dirs[i]) <==> n == names[i] {
      UnderAfterPrefix(pre, n + rest, names[i]);
      ComponentUnder(n, rest, names[i]);
    }
    if n in names {
      var i :| 0 <= i < |names| && names[i] == n;
      assert Under(pre + (n + rest), dirs[i]);
    }
  }

  /**
   * Under `non-semag/`, a name `n` with whatever path follows it is excluded
   * exactly when `n` is one of the three Escape Road folders: a name that
   * merely begins with one of them, such as `EscapeRoadX`, is copied.
   */
  lemma ExcludedNames(root: string, n: string, rest: string)
    requires '/' !in n
    requires rest == "" || rest[0] == '/'
    ensures Excluded(root + "/non-semag/" + n + rest, ExcludeDirs(root))
      <==> n == "EscapeRoad" || n == "EscapeRoad2" || n == "EscapeRoadCity"
  {
    var pre := root + "/non-semag/";
    var names := ["EscapeRoad", "EscapeRoad2", "EscapeRoadCity"];
    assert root + "/non-semag/" + n + rest == pre + (n + rest);
    ExcludedAmong(pre, names, ExcludeDirs(root), n, rest);
  }

  /** `non-semag/EscapeRoadX` shares only a string prefix with `non-semag/EscapeRoad` and is not excluded. */
  lemma SiblingNotExcluded(root: string)
    ensures !Excluded(root + "/non-semag/EscapeRoadX", ExcludeDirs(root))
  {
    ExcludedNames(root, "EscapeRoadX", "");
    assert root + "/non-semag/" + "EscapeRoadX" + "" == root + "/non-semag/EscapeRoadX";
  }

  /** The `dist/` directory and the calls that fill it. */
  class Dist {
    var tree: map<seq<string>, Item>

    constructor ()
      ensures tree == map[]
    {
      tree := map[];
    }

    method CopyRecurse(n: Node, src: string, dest: seq<string>, root: string)
      requires dest != []
      modifies this
      ensures tree == CopyNode(n, src, dest, root, old(tree))
      decreases n, 1
    {
      match n {
        case File(c) =>
          if Parent(dest) !in tree {
            tree := tree[Parent(dest) := DirItem];
          }
          tree := tree[dest := FileItem(c)];
        case Dir(es) =>
          if dest !in tree {
            tree := tree[dest := DirItem];
          }
          CopyListing(es, src, dest, root);
      }
    }

    /** The `for (const name of fs.readdirSync(src))` loop. */
    method CopyListing(es: seq<Entry>, src: string, dest: seq<string>, root: string)
      modifies this
      ensures tree == CopyEntries(es, src, dest, root, old(tree))
      decreases es, 0
    {
      ghost var t0 := tree;
      var i := 0;
      while i < |es|
        invariant 0 <= i <= |es|
        invariant tree == CopyEntries(es[..i], src, dest, root, t0)
      {
        var e := es[i];
        assert es[..i + 1][..i] == es[..i];
        var excluded := ShouldExclude(Join(src, e.name), ExcludeDirs(root));
        if !(e.name in Ignore) && !excluded {
          CopyRecurse(e.node, Join(src, e.name), dest + [e.name], root);
        }
        i := i + 1;
      }
      assert es[..i] == es;
    }

    /** The top level of the script: empty `dist/`, create it, copy the root listing. */
    method Build(root: string, es: seq<Entry>)
      modifies this
      ensures tree == BuildSpec(root, es)
    {
      tree := map[[] := DirItem];
      CopyListing(es, root, [], root);
    }
  }
}

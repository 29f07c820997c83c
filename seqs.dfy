/**
 * Order-preserving filtering and mapping of sequences: the shape of every
 * "for item in items: if test: out.append(...)" loop of the scripts.
 */
module Seqs {
  import opened Wrappers

  /** The elements of `s` that satisfy `p`, in order (Python `[x for x in s if p(x)]`). */
  function Keep<T>(s: seq<T>, p: T -> bool): seq<T> {
    if s == [] then [] else Keep(s[..|s| - 1], p) + (if p(s[|s| - 1]) then [s[|s| - 1]] else [])
  }

  /** Python `[f(x) for x in s]`. */
  function Map<T, U>(s: seq<T>, f: T -> U): (r: seq<U>)
    ensures |r| == |s| && forall i :: 0 <= i < |s| ==> r[i] == f(s[i])
  {
    seq(|s|, i requires 0 <= i < |s| => f(s[i]))
  }

  /** Python `s[:n]`. */
  function Take<T>(s: seq<T>, n: nat): (r: seq<T>)
    ensures |r| <= n && |r| <= |s| && r == s[..|r|]
    ensures |s| <= n ==> r == s
  {
    if |s| <= n then s else s[..n]
  }

  /** Extending the input by one element extends the kept list by at most that element. */
  lemma KeepSnoc<T>(s: seq<T>, x: T, p: T -> bool)
    ensures Keep(s + [x], p) == Keep(s, p) + (if p(x) then [x] else [])
  {
    assert (s + [x])[..|s + [x]| - 1] == s;
  }

  /** The kept list of a prefix one element longer. */
  lemma KeepPrefix<T>(s: seq<T>, i: nat, p: T -> bool)
    requires i < |s|
    ensures Keep(s[..i + 1], p) == Keep(s[..i], p) + (if p(s[i]) then [s[i]] else [])
  {
    assert s[..i + 1] == s[..i] + [s[i]];
    KeepSnoc(s[..i], s[i], p);
  }

  /** An element is kept exactly when it occurs in the input and satisfies the test. */
  lemma {:induction false} KeepIff<T>(s: seq<T>, p: T -> bool, x: T)
    ensures x in Keep(s, p) <==> x in s && p(x)
  {
    if s != [] {
      var init, last := s[..|s| - 1], s[|s| - 1];
      KeepIff(init, p, x);
      assert s == init + [last];
    }
  }

  /** Filtering is element by element: the result on a concatenation is the concatenation of the results. */
  lemma {:induction false} KeepAppend<T>(a: seq<T>, b: seq<T>, p: T -> bool)
    ensures Keep(a + b, p) == Keep(a, p) + Keep(b, p)
  {
    if b == [] {
      assert a + b == a;
    } else {
      var init, last := b[..|b| - 1], b[|b| - 1];
      KeepAppend(a, init, p);
      assert a + b == (a + init) + [last];
      KeepSnoc(a + init, last, p);
      KeepSnoc(init, last, p);
    }
  }

  /** When every element passes, nothing is dropped (duplicates included). */
  lemma {:induction false} KeepAll<T>(s: seq<T>, p: T -> bool)
    requires forall i :: 0 <= i < |s| ==> p(s[i])
    ensures Keep(s, p) == s
  {
    if s != [] {
      KeepAll(s[..|s| - 1], p);
    }
  }

  /** When no element passes, nothing is kept. */
  lemma {:induction false} KeepNone<T>(s: seq<T>, p: T -> bool)
    requires forall i :: 0 <= i < |s| ==> !p(s[i])
    ensures Keep(s, p) == []
  {
    if s != [] {
      KeepNone(s[..|s| - 1], p);
    }
  }

  /** What is kept and what is dropped add up to the input. */
  lemma {:induction false} KeepPartition<T>(s: seq<T>, p: T -> bool)
    ensures |Keep(s, p)| + |Keep(s, x => !p(x))| == |s|
  {
    if s != [] {
      KeepPartition(s[..|s| - 1], p);
    }
  }

  /**
   * The loop `for x in s: if p(x): kept.append(x) else: dropped += 1`: the
   * kept elements in order, and a count of the others.
   */
  method Filter<T>(s: seq<T>, p: T -> bool) returns (kept: seq<T>, dropped: nat)
    ensures kept == Keep(s, p)
    ensures |kept| + dropped == |s|
  {
    kept, dropped := [], 0;
    var i := 0;
    while i < |s|
      invariant 0 <= i <= |s|
      invariant kept == Keep(s[..i], p)
      invariant |kept| + dropped == i
    {
      assert s[..i + 1] == s[..i] + [s[i]];
      KeepSnoc(s[..i], s[i], p);
      if p(s[i]) {
        kept := kept + [s[i]];
      } else {
        dropped := dropped + 1;
      }
      i := i + 1;
    }
    assert s[..i] == s;
  }

  lemma MapSnoc<T, U>(s: seq<T>, x: T, f: T -> U)
    ensures Map(s + [x], f) == Map(s, f) + [f(x)]
  {
  }

  lemma MapAppend<T, U>(a: seq<T>, b: seq<T>, f: T -> U)
    ensures Map(a + b, f) == Map(a, f) + Map(b, f)
  {
  }

  lemma MapIn<T, U>(s: seq<T>, f: T -> U, y: U)
    requires y in Map(s, f)
    ensures exists x :: x in s && y == f(x)
  {
    var i :| 0 <= i < |s| && Map(s, f)[i] == y;
    assert s[i] in s;
  }

  /** No element occurs twice. */
  predicate Distinct<T(==)>(s: seq<T>) {
    forall i, j :: 0 <= i < j < |s| ==> s[i] != s[j]
  }

  /**
   * Python `list(some_set)`: every element once, in an order the set does
   * not determine (each step picks an arbitrary remaining element).
   */
  method ListOfSet<T(==)>(s: set<T>) returns (r: seq<T>)
    ensures Distinct(r) && |r| == |s|
    ensures forall x :: x in r <==> x in s
  {
    r := [];
    var rest := s;
    while rest != {}
      invariant rest <= s
      invariant Distinct(r)
      invariant forall x :: x in r <==> x in s && x !in rest
      invariant |r| + |rest| == |s|
      decreases |rest|
    {
      var x :| x in rest;
      r := r + [x];
      rest := rest - {x};
    }
  }
}

/**
 * Sequence operations behind the generator's list handling: keeping the
 * elements that pass a test (list comprehensions with an `if`), Python's
 * ordering of strings, and `sorted(...)` by a string key.
 */
module Seqs {

  /** The elements of `xs` that satisfy `p`, in their original order. */
  function Filter<T(!new)>(xs: seq<T>, p: T -> bool): (r: seq<T>)
    ensures |r| <= |xs|
    ensures forall x :: multiset(r)[x] == if p(x) then multiset(xs)[x] else 0
  {
    if xs == [] then []
    else
      var init, last := xs[..|xs| - 1], xs[|xs| - 1];
      assert xs == init + [last];
      Filter(init, p) + (if p(last) then [last] else [])
  }

  /** Every element kept by Filter passes the test and comes from the input. */
  lemma FilterMembers<T(!new)>(xs: seq<T>, p: T -> bool)
    ensures forall k :: 0 <= k < |Filter(xs, p)| ==> p(Filter(xs, p)[k]) && Filter(xs, p)[k] in xs
  {
    var r := Filter(xs, p);
    forall k | 0 <= k < |r| ensures p(r[k]) && r[k] in xs {
      assert r[k] in multiset(r);
    }
  }

  /** Nothing is kept when no element passes the test. */
  lemma {:induction false} FilterNone<T(!new)>(xs: seq<T>, p: T -> bool)
    requires forall k :: 0 <= k < |xs| ==> !p(xs[k])
    ensures Filter(xs, p) == []
  {
    if xs != [] {
      FilterNone(xs[..|xs| - 1], p);
    }
  }

  /** Python's `a <= b` on strings: lexicographic comparison of code points. */
  predicate LexLe(a: string, b: string)
    decreases |a|
  {
    a == [] || (b != [] && (a[0] < b[0] || (a[0] == b[0] && LexLe(a[1..], b[1..]))))
  }

  lemma {:induction false} LexLeTotal(a: string, b: string)
    ensures LexLe(a, b) || LexLe(b, a)
  {
    if a != [] && b != [] && a[0] == b[0] { LexLeTotal(a[1..], b[1..]); }
  }

  /**
   * Two strings each at most the other are equal. No other member relies on
   * it; with LexLeTotal and LexLeTransitive it makes LexLe a total order.
   */
  lemma {:induction false} LexLeAntisymmetric(a: string, b: string)
    requires LexLe(a, b) && LexLe(b, a)
    ensures a == b
  {
    if a != [] && b != [] {
      LexLeAntisymmetric(a[1..], b[1..]);
      assert a == [a[0]] + a[1..] && b == [b[0]] + b[1..];
    }
  }

  lemma {:induction false} LexLeTransitive(a: string, b: string, c: string)
    requires LexLe(a, b) && LexLe(b, c)
    ensures LexLe(a, c)
  {
    if a != [] && b != [] && c != [] && a[0] == b[0] == c[0] {
      LexLeTransitive(a[1..], b[1..], c[1..]);
    }
  }

  /** `xs` is in ascending order of `key`. */
  predicate SortedBy<T>(xs: seq<T>, key: T -> string) {
    forall i, j :: 0 <= i < j < |xs| ==> LexLe(key(xs[i]), key(xs[j]))
  }

  /** Inserts `x` in front of the first element of `ys` whose key is not smaller than its own. */
  function Insert<T>(x: T, ys: seq<T>, key: T -> string): (r: seq<T>)
    ensures multiset(r) == multiset(ys) + multiset{x}
  {
    if ys == [] || LexLe(key(x), key(ys[0])) then [x] + ys
    else
      assert ys == [ys[0]] + ys[1..];
      [ys[0]] + Insert(x, ys[1..], key)
  }

  /** Inserting into a sorted sequence keeps it sorted. */
  lemma {:induction false} InsertKeepsSorted<T>(x: T, ys: seq<T>, key: T -> string)
    requires SortedBy(ys, key)
    ensures SortedBy(Insert(x, ys, key), key)
  {
    if ys == [] || LexLe(key(x), key(ys[0])) {
      var r := [x] + ys;
      forall i, j | 0 <= i < j < |r| ensures LexLe(key(r[i]), key(r[j])) {
        if i == 0 && j > 1 {
          LexLeTransitive(key(x), key(ys[0]), key(ys[j - 1]));
        }
      }
    } else {
      var tail := ys[1..];
      assert SortedBy(tail, key);
      InsertKeepsSorted(x, tail, key);
      var rest := Insert(x, tail, key);
      LexLeTotal(key(x), key(ys[0]));
      forall j | 0 <= j < |rest| ensures LexLe(key(ys[0]), key(rest[j])) {
        assert rest[j] in multiset(rest);
        if rest[j] != x {
          assert rest[j] in multiset(tail);
          var m :| 0 <= m < |tail| && tail[m] == rest[j];
          assert ys[m + 1] == rest[j];
        }
      }
      var r := [ys[0]] + rest;
      forall i, j | 0 <= i < j < |r| ensures LexLe(key(r[i]), key(r[j])) {
        if i > 0 {
          assert r[i] == rest[i - 1] && r[j] == rest[j - 1];
        }
      }
    }
  }

  /**
   * `sorted(xs, key=key)`, as an insertion sort. Elements with equal keys
   * keep their input order, as Python's sort does; no lemma here states it.
   */
  function SortBy<T>(xs: seq<T>, key: T -> string): (r: seq<T>)
    ensures SortedBy(r, key)
    ensures multiset(r) == multiset(xs)
  {
    if xs == [] then []
    else
      assert xs == [xs[0]] + xs[1..];
      var sortedTail := SortBy(xs[1..], key);
      InsertKeepsSorted(xs[0], sortedTail, key);
      Insert(xs[0], sortedTail, key)
  }

  /** Keeping some elements of a sorted sequence leaves it sorted. */
  lemma {:induction false} FilterKeepsSorted<T(!new)>(xs: seq<T>, p: T -> bool, key: T -> string)
    requires SortedBy(xs, key)
    ensures SortedBy(Filter(xs, p), key)
  {
    if xs != [] {
      var init, last := xs[..|xs| - 1], xs[|xs| - 1];
      assert SortedBy(init, key);
      FilterKeepsSorted(init, p, key);
      if p(last) {
        FilterMembers(init, p);
        AppendKeepsSorted(Filter(init, p), last, key, init, xs);
      }
    }
  }

  /**
   * Appending an element whose key is not below the key of any element of
   * `xs`'s prefix `init` to a sorted selection from `init` keeps it sorted.
   */
  lemma AppendKeepsSorted<T>(f: seq<T>, last: T, key: T -> string, init: seq<T>, xs: seq<T>)
    requires SortedBy(f, key) && SortedBy(xs, key)
    requires xs == init + [last]
    requires forall k :: 0 <= k < |f| ==> f[k] in init
    ensures SortedBy(f + [last], key)
  {
    var r := f + [last];
    forall i, j | 0 <= i < j < |r| ensures LexLe(key(r[i]), key(r[j])) {
      var m :| 0 <= m < |init| && init[m] == f[i];
      assert xs[m] == f[i] && xs[|xs| - 1] == last;
      if j < |f| {
        assert r[i] == f[i] && r[j] == f[j];
      }
    }
  }
}

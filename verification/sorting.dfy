/**
 * The two orders the pages sort by: Python's string order (code-point
 * lexicographic, as `list.sort` and `sorted` use on `str` and on paths of
 * one directory) and the descending integer order `remove_rows` walks its
 * row positions in.
 */
module Sorting {
  import opened Seqs

  // ------------------------------------------------------------ string order

  /** `a <= b` on Python strings. */
  predicate LexLe(a: string, b: string)
    decreases |a|
  {
    |a| == 0 || (|b| > 0 && (a[0] < b[0] || (a[0] == b[0] && LexLe(a[1..], b[1..]))))
  }

  lemma {:induction false} LexLeTotal(a: string, b: string)
    ensures LexLe(a, b) || LexLe(b, a)
    decreases |a|
  {
    if |a| > 0 && |b| > 0 && a[0] == b[0] {
      LexLeTotal(a[1..], b[1..]);
    }
  }

  lemma {:induction false} LexLeTransitive(a: string, b: string, c: string)
    requires LexLe(a, b) && LexLe(b, c)
    ensures LexLe(a, c)
    decreases |a|
  {
    if |a| > 0 && a[0] == b[0] && b[0] == c[0] {
      LexLeTransitive(a[1..], b[1..], c[1..]);
    }
  }

  lemma {:induction false} LexLeAntisymmetric(a: string, b: string)
    requires LexLe(a, b) && LexLe(b, a)
    ensures a == b
    decreases |a|
  {
    if |a| > 0 {
      LexLeAntisymmetric(a[1..], b[1..]);
      assert a == [a[0]] + a[1..] && b == [b[0]] + b[1..];
    }
  }

  ghost predicate SortedBy<T>(s: seq<T>, key: T -> string) {
    forall i, j | 0 <= i < j < |s| :: LexLe(key(s[i]), key(s[j]))
  }

  function InsertBy<T>(x: T, s: seq<T>, key: T -> string): (r: seq<T>)
    requires SortedBy(s, key)
    ensures multiset(r) == multiset(s) + multiset{x}
    ensures SortedBy(r, key)
  {
    if |s| == 0 then [x]
    else if LexLe(key(x), key(s[0])) then
      SortedConsBy(x, s, key);
      [x] + s
    else
      LexLeTotal(key(x), key(s[0]));
      var rest := InsertBy(x, s[1..], key);
      assert s == [s[0]] + s[1..];
      AfterHeadBy(x, s, rest, key);
      SortedConsAbove(s[0], rest, key);
      [s[0]] + rest
  }

  /** A key at or below the first of a sorted sequence can be put in front of it. */
  lemma SortedConsBy<T>(h: T, s: seq<T>, key: T -> string)
    requires SortedBy(s, key)
    requires |s| > 0 ==> LexLe(key(h), key(s[0]))
    ensures SortedBy([h] + s, key)
  {
    var r := [h] + s;
    forall i, j | 0 <= i < j < |r| ensures LexLe(key(r[i]), key(r[j])) {
      assert r[j] == s[j - 1];
      if i > 0 {
        assert r[i] == s[i - 1];
      } else if j > 1 {
        LexLeTransitive(key(h), key(s[0]), key(s[j - 1]));
      }
    }
  }

  /** The tail with `x` inserted keeps every key at or above the head's. */
  lemma AfterHeadBy<T>(x: T, s: seq<T>, rest: seq<T>, key: T -> string)
    requires SortedBy(s, key) && |s| > 0 && LexLe(key(s[0]), key(x))
    requires multiset(rest) == multiset(s[1..]) + multiset{x}
    ensures forall k | 0 <= k < |rest| :: LexLe(key(s[0]), key(rest[k]))
  {
    forall k | 0 <= k < |rest| ensures LexLe(key(s[0]), key(rest[k])) {
      assert rest[k] in multiset(rest);
      if rest[k] != x {
        assert rest[k] in multiset(s[1..]);
        var j :| 0 <= j < |s[1..]| && s[1..][j] == rest[k];
        assert s[j + 1] == rest[k];
      }
    }
  }

  /** A maximum at the front of a sorted sequence keeps it sorted. */
  lemma SortedConsAbove<T>(h: T, rest: seq<T>, key: T -> string)
    requires SortedBy(rest, key) && forall k | 0 <= k < |rest| :: LexLe(key(h), key(rest[k]))
    ensures SortedBy([h] + rest, key)
  {
    var r := [h] + rest;
    forall i, j | 0 <= i < j < |r| ensures LexLe(key(r[i]), key(r[j])) {
      assert r[j] == rest[j - 1];
      if i > 0 {
        assert r[i] == rest[i - 1];
      }
    }
  }

  /** `sorted(xs, key=key)` (insertion sort; stable). */
  function SortBy<T>(s: seq<T>, key: T -> string): (r: seq<T>)
    ensures multiset(r) == multiset(s)
    ensures SortedBy(r, key)
  {
    if |s| == 0 then []
    else
      assert s == [s[0]] + s[1..];
      InsertBy(s[0], SortBy(s[1..], key), key)
  }

  /** Strings in code-point order. */
  ghost predicate Sorted(s: seq<string>) {
    forall i, j | 0 <= i < j < |s| :: LexLe(s[i], s[j])
  }

  function SortStrings(s: seq<string>): (r: seq<string>)
    ensures multiset(r) == multiset(s)
    ensures forall x :: x in r <==> x in s
    ensures Sorted(r)
  {
    var r := SortBy(s, (x: string) => x);
    assert forall x :: x in r <==> x in multiset(s);
    r
  }

  /** Sorted sequences without repeats are strictly increasing. */
  lemma SortedDistinctIsStrict(s: seq<string>)
    requires Sorted(s) && Distinct(s)
    ensures forall i, j | 0 <= i < j < |s| :: LexLe(s[i], s[j]) && !LexLe(s[j], s[i])
  {
    forall i, j | 0 <= i < j < |s| ensures !LexLe(s[j], s[i]) {
      if LexLe(s[j], s[i]) {
        LexLeAntisymmetric(s[i], s[j]);
      }
    }
  }

  // ------------------------------------------------------------ int order

  ghost predicate Descending(s: seq<int>) {
    forall i, j | 0 <= i < j < |s| :: s[i] >= s[j]
  }

  function InsertDescending(x: int, s: seq<int>): (r: seq<int>)
    requires Descending(s)
    ensures multiset(r) == multiset(s) + multiset{x}
    ensures Descending(r)
  {
    if |s| == 0 || x >= s[0] then [x] + s
    else
      var rest := InsertDescending(x, s[1..]);
      assert s == [s[0]] + s[1..];
      BelowHead(x, s, rest);
      DescendingCons(s[0], rest);
      [s[0]] + rest
  }

  /** Whatever the tail holds, plus a smaller `x`, stays at or below the head. */
  lemma BelowHead(x: int, s: seq<int>, rest: seq<int>)
    requires Descending(s) && |s| > 0 && x < s[0]
    requires multiset(rest) == multiset(s[1..]) + multiset{x}
    ensures forall k | 0 <= k < |rest| :: rest[k] <= s[0]
  {
    forall k | 0 <= k < |rest| ensures rest[k] <= s[0] {
      assert rest[k] in multiset(rest);
      if rest[k] != x {
        assert rest[k] in multiset(s[1..]);
        var i :| 0 <= i < |s[1..]| && s[1..][i] == rest[k];
        assert s[i + 1] == rest[k];
      }
    }
  }

  lemma DescendingCons(h: int, rest: seq<int>)
    requires Descending(rest) && forall k | 0 <= k < |rest| :: rest[k] <= h
    ensures Descending([h] + rest)
  {
    var r := [h] + rest;
    forall i, j | 0 <= i < j < |r| ensures r[i] >= r[j] {
      assert r[j] == rest[j - 1];
      if i > 0 {
        assert r[i] == rest[i - 1];
      }
    }
  }

  /** `sorted(rows, reverse=True)`. */
  function SortDescending(s: seq<int>): (r: seq<int>)
    ensures multiset(r) == multiset(s)
    ensures Descending(r)
  {
    if |s| == 0 then []
    else
      assert s == [s[0]] + s[1..];
      InsertDescending(s[0], SortDescending(s[1..]))
  }

  /** Sorting positions that are all different in descending order gives a strictly descending sequence of the same positions. */
  lemma SortDescendingStrict(s: seq<int>)
    requires Distinct(s)
    ensures StrictlyDescending(SortDescending(s))
    ensures |SortDescending(s)| == |s|
    ensures Elements(SortDescending(s)) == Elements(s)
  {
    var r := SortDescending(s);
    PermutationKeepsDistinct(s, r);
    assert |multiset(r)| == |multiset(s)|;
    forall x ensures x in r <==> x in s {
      assert x in r <==> x in multiset(r);
      assert x in s <==> x in multiset(s);
    }
  }
}

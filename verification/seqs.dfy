/**
 * Sequence utilities shared by the table operations: distinctness,
 * filtering (pandas boolean masks), first-occurrence de-duplication
 * (`Series.unique`) and removal of rows by position.
 */
module Seqs {
  import opened Options

  predicate Distinct<T(==)>(s: seq<T>) {
    forall i, j | 0 <= i < j < |s| :: s[i] != s[j]
  }

  function Elements<T>(s: seq<T>): set<T> {
    set x | x in s
  }

  // ------------------------------------------------------------- filtering

  /** The elements of `s` that satisfy `p`, in their original order. */
  function Filter<T(!new)>(s: seq<T>, p: T -> bool): (r: seq<T>)
    ensures |r| <= |s|
    ensures forall x :: x in r <==> x in s && p(x)
  {
    if |s| == 0 then []
    else (if p(s[0]) then [s[0]] else []) + Filter(s[1..], p)
  }

  /** `a` is obtained from `b` by deleting elements, keeping the order of the rest. */
  ghost predicate IsSubsequence<T>(a: seq<T>, b: seq<T>)
    decreases |b|
  {
    if |b| == 0 then |a| == 0
    else (|a| > 0 && a[0] == b[0] && IsSubsequence(a[1..], b[1..])) || IsSubsequence(a, b[1..])
  }

  lemma {:induction false} FilterIsSubsequence<T(!new)>(s: seq<T>, p: T -> bool)
    ensures IsSubsequence(Filter(s, p), s)
  {
    if |s| > 0 {
      FilterIsSubsequence(s[1..], p);
      if p(s[0]) {
        assert Filter(s, p) == [s[0]] + Filter(s[1..], p);
        assert Filter(s, p)[1..] == Filter(s[1..], p);
      } else {
        assert Filter(s, p) == Filter(s[1..], p);
      }
    }
  }

  /** A mask keeps every copy of a value it accepts and no copy of one it rejects. */
  lemma {:induction false} FilterCounts<T(!new)>(s: seq<T>, p: T -> bool)
    ensures forall x :: multiset(Filter(s, p))[x] == if p(x) then multiset(s)[x] else 0
  {
    if |s| > 0 {
      FilterCounts(s[1..], p);
      assert s == [s[0]] + s[1..];
      assert multiset(s) == multiset([s[0]]) + multiset(s[1..]);
      var h := if p(s[0]) then [s[0]] else [];
      assert Filter(s, p) == h + Filter(s[1..], p);
      assert multiset(Filter(s, p)) == multiset(h) + multiset(Filter(s[1..], p));
    }
  }

  /** Filtering twice with the same mask is filtering once. */
  lemma {:induction false} FilterIdempotent<T(!new)>(s: seq<T>, p: T -> bool)
    ensures Filter(Filter(s, p), p) == Filter(s, p)
  {
    if |s| > 0 {
      FilterIdempotent(s[1..], p);
      var f := Filter(s, p);
      if p(s[0]) {
        assert f == [s[0]] + Filter(s[1..], p);
        assert f[0] == s[0] && f[1..] == Filter(s[1..], p);
        assert Filter(f, p) == [f[0]] + Filter(f[1..], p);
      } else {
        assert f == Filter(s[1..], p);
      }
    }
  }

  /** A mask that holds everywhere keeps everything. */
  lemma {:induction false} FilterAll<T(!new)>(s: seq<T>, p: T -> bool)
    requires forall i | 0 <= i < |s| :: p(s[i])
    ensures Filter(s, p) == s
  {
    if |s| > 0 {
      FilterAll(s[1..], p);
      assert [s[0]] + s[1..] == s;
    }
  }

  // -------------------------------------------------------- de-duplication

  /** `Series.unique()`: each value once, at its first position. */
  function Unique<T(==,!new)>(s: seq<T>): (r: seq<T>)
    ensures Distinct(r)
    ensures forall x :: x in r <==> x in s
  {
    if |s| == 0 then []
    else
      var u := Unique(s[..|s| - 1]);
      assert forall x :: x in s <==> x in s[..|s| - 1] || x == s[|s| - 1] by {
        assert s == s[..|s| - 1] + [s[|s| - 1]];
      }
      if s[|s| - 1] in u then u else u + [s[|s| - 1]]
  }

  // ----------------------------------------------------- removal by position

  /** The elements of `s` whose positions, counted from `base`, are not in `drop`. */
  function KeepFrom<T>(s: seq<T>, drop: set<int>, base: int): seq<T>
    decreases |s|
  {
    if |s| == 0 then []
    else (if base in drop then [] else [s[0]]) + KeepFrom(s[1..], drop, base + 1)
  }

  /** The elements of `s` at the positions not in `drop`, in their original order. */
  function Keep<T>(s: seq<T>, drop: set<int>): seq<T> {
    KeepFrom(s, drop, 0)
  }

  lemma {:induction false} KeepFromUntouched<T>(s: seq<T>, drop: set<int>, base: int)
    requires forall d | d in drop :: d < base || d >= base + |s|
    ensures KeepFrom(s, drop, base) == s
    decreases |s|
  {
    if |s| > 0 {
      KeepFromUntouched(s[1..], drop, base + 1);
      assert [s[0]] + s[1..] == s;
    }
  }

  lemma {:induction false} KeepFromAppend<T>(a: seq<T>, b: seq<T>, drop: set<int>, base: int)
    ensures KeepFrom(a + b, drop, base) == KeepFrom(a, drop, base) + KeepFrom(b, drop, base + |a|)
    decreases |a|
  {
    if |a| == 0 {
      assert a + b == b;
    } else {
      var h := if base in drop then [] else [a[0]];
      assert (a + b)[1..] == a[1..] + b && (a + b)[0] == a[0];
      assert KeepFrom(a + b, drop, base) == h + KeepFrom(a[1..] + b, drop, base + 1);
      KeepFromAppend(a[1..], b, drop, base + 1);
      assert KeepFrom(a, drop, base) == h + KeepFrom(a[1..], drop, base + 1);
    }
  }

  lemma {:induction false} KeepFromIgnoresBelow<T>(s: seq<T>, drop: set<int>, base: int, m: int)
    requires m < base
    ensures KeepFrom(s, drop + {m}, base) == KeepFrom(s, drop, base)
    decreases |s|
  {
    if |s| > 0 {
      KeepFromIgnoresBelow(s[1..], drop, base + 1, m);
    }
  }

  /** Dropping position `m` below every already dropped position removes the element at `m` of the kept sequence. */
  lemma RemoveBelowDropped<T>(s: seq<T>, drop: set<int>, m: int)
    requires 0 <= m < |s|
    requires forall d | d in drop :: d > m
    ensures m < |Keep(s, drop)|
    ensures Keep(s, drop)[..m] + Keep(s, drop)[m + 1..] == Keep(s, drop + {m})
  {
    var rest := KeepFrom(s[m + 1..], drop, m + 1);
    KeepAt(s, drop, m);
    KeepWithout(s, drop, m);
    var k := Keep(s, drop);
    assert k[..m] == s[..m];
    assert k[m + 1..] == rest;
  }

  /** Below every dropped position, position `m` is kept, after the untouched prefix. */
  lemma KeepAt<T>(s: seq<T>, drop: set<int>, m: int)
    requires 0 <= m < |s|
    requires forall d | d in drop :: d > m
    ensures Keep(s, drop) == s[..m] + [s[m]] + KeepFrom(s[m + 1..], drop, m + 1)
  {
    var a, b := s[..m], s[m..];
    assert s == a + b;
    KeepFromAppend(a, b, drop, 0);
    KeepFromUntouched(a, drop, 0);
    assert b[1..] == s[m + 1..];
    assert KeepFrom(b, drop, m) == [s[m]] + KeepFrom(b[1..], drop, m + 1);
  }

  /** Dropping `m` as well removes exactly that position from the result. */
  lemma KeepWithout<T>(s: seq<T>, drop: set<int>, m: int)
    requires 0 <= m < |s|
    requires forall d | d in drop :: d > m
    ensures Keep(s, drop + {m}) == s[..m] + KeepFrom(s[m + 1..], drop, m + 1)
  {
    var a, b := s[..m], s[m..];
    assert s == a + b;
    KeepFromAppend(a, b, drop + {m}, 0);
    KeepFromUntouched(a, drop + {m}, 0);
    assert b[1..] == s[m + 1..];
    assert KeepFrom(b, drop + {m}, m) == KeepFrom(b[1..], drop + {m}, m + 1);
    KeepFromIgnoresBelow(b[1..], drop, m + 1, m);
  }

  predicate StrictlyDescending(s: seq<int>) {
    forall i, j | 0 <= i < j < |s| :: s[i] > s[j]
  }

  /** Deletes the positions `ds` one after another, as `DataFrame.drop` + `reset_index` does per position. */
  function RemoveEach<T>(s: seq<T>, ds: seq<int>): (r: seq<T>)
    requires StrictlyDescending(ds)
    requires forall i | 0 <= i < |ds| :: 0 <= ds[i] < |s|
    ensures |r| == |s| - |ds|
    decreases |ds|
  {
    if |ds| == 0 then s
    else RemoveEach(s[..ds[0]] + s[ds[0] + 1..], ds[1..])
  }

  /** Removing strictly descending positions one by one keeps exactly the other positions. */
  lemma {:induction false} RemoveEachIsKeep<T>(s: seq<T>, drop: set<int>, ds: seq<int>, cur: seq<T>)
    requires cur == Keep(s, drop)
    requires StrictlyDescending(ds)
    requires forall i | 0 <= i < |ds| :: 0 <= ds[i] < |s| && ds[i] < |cur|
    requires forall d, i | d in drop && 0 <= i < |ds| :: d > ds[i]
    ensures RemoveEach(cur, ds) == Keep(s, drop + Elements(ds))
    decreases |ds|
  {
    if |ds| == 0 {
      assert drop + Elements(ds) == drop;
    } else {
      var m := ds[0];
      RemoveBelowDropped(s, drop, m);
      var next := cur[..m] + cur[m + 1..];
      assert Elements(ds) == {m} + Elements(ds[1..]) by {
        assert ds == [m] + ds[1..];
      }
      assert drop + Elements(ds) == (drop + {m}) + Elements(ds[1..]);
      var rest := ds[1..];
      RestBelowHead(ds, drop);
      assert RemoveEach(cur, ds) == RemoveEach(next, rest);
      RemoveEachIsKeep(s, drop + {m}, rest, next);
    }
  }

  /** After the first position of a strictly descending sequence, everything lies below it and below the dropped set. */
  lemma RestBelowHead(ds: seq<int>, drop: set<int>)
    requires |ds| > 0 && StrictlyDescending(ds)
    requires forall d, i | d in drop && 0 <= i < |ds| :: d > ds[i]
    ensures StrictlyDescending(ds[1..])
    ensures forall i | 0 <= i < |ds| - 1 :: ds[1..][i] < ds[0]
    ensures forall d, i | d in drop + {ds[0]} && 0 <= i < |ds| - 1 :: d > ds[1..][i]
  {
  }

  lemma KeepNothing<T>(s: seq<T>)
    ensures Keep(s, {}) == s
  {
    KeepFromUntouched(s, {}, 0);
  }

  // ------------------------------------------------------------ multisets

  lemma {:induction false} DistinctMultiplicity<T>(s: seq<T>, x: T)
    requires Distinct(s)
    ensures multiset(s)[x] <= 1
  {
    if |s| > 0 {
      assert s == [s[0]] + s[1..];
      DistinctMultiplicity(s[1..], x);
      if x == s[0] {
        assert x !in s[1..];
      }
    }
  }

  lemma RepeatedMultiplicity<T>(s: seq<T>, i: int, j: int)
    requires 0 <= i < j < |s| && s[i] == s[j]
    ensures multiset(s)[s[i]] >= 2
  {
    assert s == s[..i] + [s[i]] + s[i + 1..j] + [s[j]] + s[j + 1..];
  }

  /** A rearrangement of a sequence without repeats has no repeats. */
  lemma PermutationKeepsDistinct<T>(a: seq<T>, b: seq<T>)
    requires Distinct(a) && multiset(a) == multiset(b)
    ensures Distinct(b)
  {
    forall i, j | 0 <= i < j < |b| ensures b[i] != b[j] {
      if b[i] == b[j] {
        RepeatedMultiplicity(b, i, j);
        DistinctMultiplicity(a, b[i]);
      }
    }
  }

  // ------------------------------------------------------------- options

  /** The values of the `Some` entries, in order. */
  function Somes<T>(s: seq<Option<T>>): (r: seq<T>)
    ensures |r| <= |s|
    ensures |r| == 0 <==> forall i | 0 <= i < |s| :: s[i].None?
  {
    if |s| == 0 then []
    else
      var rest := Somes(s[1..]);
      assert forall i | 1 <= i < |s| :: s[i] == s[1..][i - 1];
      match s[0]
      case None => rest
      case Some(x) => [x] + rest
  }

  /** A value is kept exactly when some entry holds it. */
  lemma {:induction false} SomesMembers<T>(s: seq<Option<T>>)
    ensures forall x :: x in Somes(s) <==> Some(x) in s
    decreases |s|
  {
    if |s| > 0 {
      SomesMembers(s[1..]);
      assert forall x :: Some(x) in s <==> s[0] == Some(x) || Some(x) in s[1..];
    }
  }

  /** Appending a `Some` entry appends its value. */
  lemma {:induction false} SomesAppendSome<T(!new)>(s: seq<Option<T>>, x: T)
    ensures Somes(s + [Some(x)]) == Somes(s) + [x]
    decreases |s|
  {
    if |s| > 0 {
      assert (s + [Some(x)])[1..] == s[1..] + [Some(x)];
      SomesAppendSome(s[1..], x);
    }
  }

  /** Appending a `None` entry changes nothing. */
  lemma {:induction false} SomesAppendNone<T(!new)>(s: seq<Option<T>>)
    ensures Somes(s + [None]) == Somes(s)
    decreases |s|
  {
    if |s| > 0 {
      assert (s + [None])[1..] == s[1..] + [None];
      SomesAppendNone(s[1..]);
    }
  }

  /** `k` is one of the positions listed in `ks`. */
  predicate AmongPositions(ks: seq<nat>, k: int) {
    exists i | 0 <= i < |ks| :: ks[i] == k
  }

  /**
   * The values come from increasing positions of `s`, one for each `Some`
   * entry: `ks[i]` is where the `i`-th value sits.
   */
  lemma {:induction false} SomesPositions<T(!new)>(s: seq<Option<T>>) returns (ks: seq<nat>)
    ensures |ks| == |Somes(s)|
    ensures forall i | 0 <= i < |ks| :: ks[i] < |s| && s[ks[i]] == Some(Somes(s)[i])
    ensures forall i, j | 0 <= i < j < |ks| :: ks[i] < ks[j]
    ensures forall k | 0 <= k < |s| && s[k].Some? :: AmongPositions(ks, k)
    decreases |s|
  {
    if |s| == 0 {
      return [];
    }
    var rest := SomesPositions(s[1..]);
    var shifted := ShiftPositions(s, rest);
    if s[0].Some? {
      ks := PositionsAfterSome(s, rest, shifted);
    } else {
      ks := PositionsAfterNone(s, rest, shifted);
    }
  }

  /** The positions of the tail, renumbered as positions of `s`. */
  lemma ShiftPositions<T>(s: seq<Option<T>>, rest: seq<nat>) returns (shifted: seq<nat>)
    requires |s| > 0
    requires forall k | 0 <= k < |s[1..]| && s[1..][k].Some? :: AmongPositions(rest, k)
    ensures |shifted| == |rest|
    ensures forall i | 0 <= i < |rest| :: shifted[i] == rest[i] + 1
    ensures forall k | 1 <= k < |s| && s[k].Some? :: AmongPositions(shifted, k)
  {
    shifted := seq(|rest|, i requires 0 <= i < |rest| => rest[i] + 1);
    forall k | 1 <= k < |s| && s[k].Some? ensures AmongPositions(shifted, k) {
      assert s[1..][k - 1] == s[k];
      var i :| 0 <= i < |rest| && rest[i] == k - 1;
      assert shifted[i] == k;
    }
  }

  lemma PositionsAfterNone<T(!new)>(s: seq<Option<T>>, rest: seq<nat>, shifted: seq<nat>) returns (ks: seq<nat>)
    requires |s| > 0 && s[0].None?
    requires |rest| == |Somes(s[1..])| && |shifted| == |rest|
    requires forall i | 0 <= i < |rest| :: rest[i] < |s[1..]| && s[1..][rest[i]] == Some(Somes(s[1..])[i])
    requires forall i, j | 0 <= i < j < |rest| :: rest[i] < rest[j]
    requires forall i | 0 <= i < |rest| :: shifted[i] == rest[i] + 1
    requires forall k | 1 <= k < |s| && s[k].Some? :: AmongPositions(shifted, k)
    ensures |ks| == |Somes(s)|
    ensures forall i | 0 <= i < |ks| :: ks[i] < |s| && s[ks[i]] == Some(Somes(s)[i])
    ensures forall i, j | 0 <= i < j < |ks| :: ks[i] < ks[j]
    ensures forall k | 0 <= k < |s| && s[k].Some? :: AmongPositions(ks, k)
  {
    ks := shifted;
    assert forall i | 0 <= i < |ks| :: ks[i] < |s| && s[ks[i]] == Some(Somes(s)[i]) by {
      assert Somes(s) == Somes(s[1..]);
      forall i | 0 <= i < |ks| ensures ks[i] < |s| && s[ks[i]] == Some(Somes(s)[i]) {
        assert s[ks[i]] == s[1..][rest[i]];
      }
    }
    assert forall k | 0 <= k < |s| && s[k].Some? :: AmongPositions(ks, k) by {
      forall k | 0 <= k < |s| && s[k].Some? ensures AmongPositions(ks, k) {
        assert k > 0;
      }
    }
  }

  lemma PositionsAfterSome<T(!new)>(s: seq<Option<T>>, rest: seq<nat>, shifted: seq<nat>) returns (ks: seq<nat>)
    requires |s| > 0 && s[0].Some?
    requires |rest| == |Somes(s[1..])| && |shifted| == |rest|
    requires forall i | 0 <= i < |rest| :: rest[i] < |s[1..]| && s[1..][rest[i]] == Some(Somes(s[1..])[i])
    requires forall i, j | 0 <= i < j < |rest| :: rest[i] < rest[j]
    requires forall i | 0 <= i < |rest| :: shifted[i] == rest[i] + 1
    requires forall k | 1 <= k < |s| && s[k].Some? :: AmongPositions(shifted, k)
    ensures |ks| == |Somes(s)|
    ensures forall i | 0 <= i < |ks| :: ks[i] < |s| && s[ks[i]] == Some(Somes(s)[i])
    ensures forall i, j | 0 <= i < j < |ks| :: ks[i] < ks[j]
    ensures forall k | 0 <= k < |s| && s[k].Some? :: AmongPositions(ks, k)
  {
    var vals := Somes(s[1..]);
    assert Somes(s) == [s[0].value] + vals;
    assert forall i | 0 <= i < |shifted| :: shifted[i] < |s| && s[shifted[i]] == Some(vals[i]) by {
      forall i | 0 <= i < |shifted| ensures shifted[i] < |s| && s[shifted[i]] == Some(vals[i]) {
        assert s[shifted[i]] == s[1..][rest[i]];
      }
    }
    ks := PrependPosition(s, vals, shifted);
  }

  /** Position 0 put in front of the positions of the remaining values. */
  lemma PrependPosition<T>(s: seq<Option<T>>, vals: seq<T>, shifted: seq<nat>) returns (ks: seq<nat>)
    requires |s| > 0 && s[0].Some? && |shifted| == |vals|
    requires forall i | 0 <= i < |shifted| :: 0 < shifted[i] < |s| && s[shifted[i]] == Some(vals[i])
    requires forall i, j | 0 <= i < j < |shifted| :: shifted[i] < shifted[j]
    requires forall k | 1 <= k < |s| && s[k].Some? :: AmongPositions(shifted, k)
    ensures ks == [0] + shifted
    ensures forall i | 0 <= i < |ks| :: ks[i] < |s| && s[ks[i]] == Some(([s[0].value] + vals)[i])
    ensures forall i, j | 0 <= i < j < |ks| :: ks[i] < ks[j]
    ensures forall k | 0 <= k < |s| && s[k].Some? :: AmongPositions(ks, k)
  {
    ks := [0] + shifted;
    assert forall i | 0 < i < |ks| :: ks[i] == shifted[i - 1];
    forall i, j | 0 <= i < j < |ks| ensures ks[i] < ks[j] {
      assert ks[j] == shifted[j - 1];
    }
    forall k | 0 <= k < |s| && s[k].Some? ensures AmongPositions(ks, k) {
      if k == 0 {
        assert ks[0] == 0;
      } else {
        var i :| 0 <= i < |shifted| && shifted[i] == k;
        assert ks[i + 1] == k;
      }
    }
  }
}

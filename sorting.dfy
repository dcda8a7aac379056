/** The two sorts the analytics rely on: Python's stable `list.sort(key=..., reverse=True)`
    on a real-valued key, and `sorted()` on strings (code-point lexicographic order).
    Each is specified as an insertion of the elements in list order. */
module Sorting {

  // ---------------------------------------------------------------------------
  // Stable sort by a real key, largest first

  predicate NonIncreasing<T>(xs: seq<T>, key: T -> real) {
    forall i, j :: 0 <= i < j < |xs| ==> key(xs[j]) <= key(xs[i])
  }

  /** Inserts `x` after every element whose key is at least `x`'s, so equal keys keep list order. */
  function InsertDesc<T>(x: T, ys: seq<T>, key: T -> real): (r: seq<T>)
    ensures |r| == |ys| + 1
  {
    if |ys| == 0 then [x]
    else if key(ys[0]) < key(x) then [x] + ys
    else [ys[0]] + InsertDesc(x, ys[1..], key)
  }

  lemma {:induction false} InsertDescPermutes<T>(x: T, ys: seq<T>, key: T -> real)
    ensures multiset(InsertDesc(x, ys, key)) == multiset(ys) + multiset{x}
  {
    if |ys| > 0 && key(x) <= key(ys[0]) {
      InsertDescPermutes(x, ys[1..], key);
      assert ys == [ys[0]] + ys[1..];
    }
  }

  /** `xs.sort(key=key, reverse=True)`: a permutation of `xs`, largest key first. */
  function SortDesc<T>(xs: seq<T>, key: T -> real): (r: seq<T>)
    ensures |r| == |xs|
  {
    if |xs| == 0 then []
    else InsertDesc(xs[|xs| - 1], SortDesc(xs[..|xs| - 1], key), key)
  }

  /** The sort is a permutation of its input. */
  lemma {:induction false} SortDescPermutes<T>(xs: seq<T>, key: T -> real)
    ensures multiset(SortDesc(xs, key)) == multiset(xs)
  {
    if |xs| > 0 {
      var init := xs[..|xs| - 1];
      SortDescPermutes(init, key);
      InsertDescPermutes(xs[|xs| - 1], SortDesc(init, key), key);
      assert xs == init + [xs[|xs| - 1]];
    }
  }

  /** Putting in front an element whose key is at least every other key keeps the order. */
  lemma ConsNonIncreasing<T>(y: T, rest: seq<T>, key: T -> real)
    requires NonIncreasing(rest, key)
    requires forall z :: z in rest ==> key(z) <= key(y)
    ensures NonIncreasing([y] + rest, key)
  {
    var r := [y] + rest;
    forall i, j | 0 <= i < j < |r| ensures key(r[j]) <= key(r[i]) {
      assert r[j] == rest[j - 1];
      if i > 0 {
        assert r[i] == rest[i - 1];
      }
    }
  }

  /** An element of `InsertDesc(x, ys, key)` is `x` or an element of `ys`. */
  lemma InsertDescFrom<T>(x: T, ys: seq<T>, key: T -> real)
    ensures forall z :: z in InsertDesc(x, ys, key) ==> z == x || z in ys
  {
    InsertDescPermutes(x, ys, key);
    forall z | z in InsertDesc(x, ys, key) ensures z == x || z in ys {
      assert z in multiset(InsertDesc(x, ys, key));
    }
  }

  lemma {:induction false} InsertDescSorted<T>(x: T, ys: seq<T>, key: T -> real)
    requires NonIncreasing(ys, key)
    ensures NonIncreasing(InsertDesc(x, ys, key), key)
  {
    if |ys| == 0 {
    } else if key(ys[0]) < key(x) {
      forall z | z in ys ensures key(z) <= key(x) {
        var i :| 0 <= i < |ys| && ys[i] == z;
        assert key(ys[i]) <= key(ys[0]);
      }
      ConsNonIncreasing(x, ys, key);
    } else {
      var tail := ys[1..];
      assert NonIncreasing(tail, key);
      InsertDescSorted(x, tail, key);
      InsertDescFrom(x, tail, key);
      forall z | z in tail ensures key(z) <= key(ys[0]) {
        var i :| 0 <= i < |tail| && tail[i] == z;
        assert z == ys[i + 1];
      }
      ConsNonIncreasing(ys[0], InsertDesc(x, tail, key), key);
    }
  }

  /** The result of `SortDesc` is ordered by non-increasing key. */
  lemma {:induction false} SortDescSorted<T>(xs: seq<T>, key: T -> real)
    ensures NonIncreasing(SortDesc(xs, key), key)
  {
    if |xs| > 0 {
      SortDescSorted(xs[..|xs| - 1], key);
      InsertDescSorted(xs[|xs| - 1], SortDesc(xs[..|xs| - 1], key), key);
    }
  }

  /** The elements of `xs` whose key is `k`, in list order. */
  function WithKey<T>(xs: seq<T>, key: T -> real, k: real): seq<T> {
    if |xs| == 0 then []
    else (if key(xs[0]) == k then [xs[0]] else []) + WithKey(xs[1..], key, k)
  }

  lemma {:induction false} WithKeyAppend<T>(xs: seq<T>, x: T, key: T -> real, k: real)
    ensures WithKey(xs + [x], key, k) == WithKey(xs, key, k) + (if key(x) == k then [x] else [])
  {
    if |xs| > 0 {
      assert (xs + [x])[1..] == xs[1..] + [x];
      WithKeyAppend(xs[1..], x, key, k);
    } else {
      assert [x][1..] == [];
    }
  }

  /** Each key is at most the one before it. */
  predicate StepsDown<T>(xs: seq<T>, key: T -> real) {
    forall i :: 0 < i < |xs| ==> key(xs[i]) <= key(xs[i - 1])
  }

  lemma SortedStepsDown<T>(xs: seq<T>, key: T -> real)
    ensures StepsDown(SortDesc(xs, key), key)
  {
    SortDescSorted(xs, key);
  }

  lemma StepsDownTail<T>(ys: seq<T>, key: T -> real)
    requires StepsDown(ys, key) && |ys| > 0
    ensures StepsDown(ys[1..], key)
    ensures |ys| > 1 ==> key(ys[1..][0]) <= key(ys[0])
  {
    var tail := ys[1..];
    forall i | 0 < i < |tail| ensures key(tail[i]) <= key(tail[i - 1]) {
      assert tail[i] == ys[i + 1] && tail[i - 1] == ys[i];
    }
  }

  /** The elements with key `k` of a list with a head in front. */
  lemma WithKeyCons<T>(y: T, ys: seq<T>, key: T -> real, k: real)
    ensures WithKey([y] + ys, key, k) == (if key(y) == k then [y] else []) + WithKey(ys, key, k)
  {
    assert ([y] + ys)[1..] == ys;
  }

  /** No key of a list that steps down from a head below `k` is `k`. */
  lemma {:induction false} WithKeyAbove<T>(ys: seq<T>, key: T -> real, k: real)
    requires StepsDown(ys, key) && (|ys| > 0 ==> key(ys[0]) < k)
    ensures WithKey(ys, key, k) == []
  {
    if |ys| > 0 {
      StepsDownTail(ys, key);
      WithKeyAbove(ys[1..], key, k);
    }
  }

  lemma {:induction false} InsertDescStable<T>(x: T, ys: seq<T>, key: T -> real, k: real)
    requires StepsDown(ys, key)
    ensures WithKey(InsertDesc(x, ys, key), key, k) == WithKey(ys, key, k) + (if key(x) == k then [x] else [])
  {
    var extra := if key(x) == k then [x] else [];
    if |ys| == 0 {
      WithKeyCons(x, [], key, k);
      assert [x] + [] == [x];
    } else if key(ys[0]) < key(x) {
      WithKeyCons(x, ys, key, k);
      if key(x) == k {
        WithKeyAbove(ys, key, k);
      }
    } else {
      var tail := ys[1..];
      var head := if key(ys[0]) == k then [ys[0]] else [];
      var inserted := InsertDesc(x, tail, key);
      assert InsertDesc(x, ys, key) == [ys[0]] + inserted;
      WithKeyCons(ys[0], inserted, key, k);
      WithKeyCons(ys[0], tail, key, k);
      assert ys == [ys[0]] + tail;
      StepsDownTail(ys, key);
      InsertDescStable(x, tail, key, k);
      assert head + (WithKey(tail, key, k) + extra) == (head + WithKey(tail, key, k)) + extra;
    }
  }

  /** Stability: the elements sharing any one key appear in the sorted list in their original order. */
  lemma {:induction false} SortDescStable<T>(xs: seq<T>, key: T -> real, k: real)
    ensures WithKey(SortDesc(xs, key), key, k) == WithKey(xs, key, k)
  {
    if |xs| > 0 {
      var init, x := xs[..|xs| - 1], xs[|xs| - 1];
      var sortedInit := SortDesc(init, key);
      SortDescLast(xs, key);
      SortedStepsDown(init, key);
      InsertDescStable(x, sortedInit, key, k);
      SortDescStable(init, key, k);
      WithKeyAppend(init, x, key, k);
      assert init + [x] == xs;
    }
  }

  lemma SortDescLast<T>(xs: seq<T>, key: T -> real)
    requires |xs| > 0
    ensures SortDesc(xs, key) == InsertDesc(xs[|xs| - 1], SortDesc(xs[..|xs| - 1], key), key)
  {
  }

  // ---------------------------------------------------------------------------
  // Strings in ascending code-point order

  /** Python's `a < b` on strings. */
  predicate LexLess(a: string, b: string) {
    if |a| == 0 then |b| > 0
    else if |b| == 0 then false
    else a[0] < b[0] || (a[0] == b[0] && LexLess(a[1..], b[1..]))
  }

  lemma {:induction false} LexLessIrreflexive(a: string)
    ensures !LexLess(a, a)
  {
    if |a| > 0 {
      LexLessIrreflexive(a[1..]);
    }
  }

  lemma {:induction false} LexLessTotal(a: string, b: string)
    ensures a == b || LexLess(a, b) || LexLess(b, a)
  {
    if |a| > 0 && |b| > 0 && a[0] == b[0] {
      LexLessTotal(a[1..], b[1..]);
      if a[1..] == b[1..] {
        assert a == [a[0]] + a[1..] && b == [b[0]] + b[1..];
      }
    }
  }

  lemma {:induction false} LexLessTransitive(a: string, b: string, c: string)
    requires LexLess(a, b) && LexLess(b, c)
    ensures LexLess(a, c)
  {
    if |a| > 0 && a[0] == b[0] && b[0] == c[0] {
      LexLessTransitive(a[1..], b[1..], c[1..]);
    }
  }

  predicate Ascending(xs: seq<string>) {
    forall i, j :: 0 <= i < j < |xs| ==> LexLess(xs[i], xs[j]) || xs[i] == xs[j]
  }

  /** Inserts `x` before the first element that is not smaller than it. */
  function InsertAsc(x: string, ys: seq<string>): (r: seq<string>)
    ensures |r| == |ys| + 1
  {
    if |ys| == 0 then [x]
    else if !LexLess(ys[0], x) then [x] + ys
    else [ys[0]] + InsertAsc(x, ys[1..])
  }

  lemma {:induction false} InsertAscPermutes(x: string, ys: seq<string>)
    ensures multiset(InsertAsc(x, ys)) == multiset(ys) + multiset{x}
  {
    if |ys| > 0 && LexLess(ys[0], x) {
      InsertAscPermutes(x, ys[1..]);
      assert ys == [ys[0]] + ys[1..];
    }
  }

  /** `sorted(xs)` for strings. */
  function SortStrings(xs: seq<string>): (r: seq<string>)
    ensures |r| == |xs|
  {
    if |xs| == 0 then []
    else InsertAsc(xs[|xs| - 1], SortStrings(xs[..|xs| - 1]))
  }

  /** `sorted` is a permutation of its input. */
  lemma {:induction false} SortStringsPermutes(xs: seq<string>)
    ensures multiset(SortStrings(xs)) == multiset(xs)
  {
    if |xs| > 0 {
      var init := xs[..|xs| - 1];
      SortStringsPermutes(init);
      InsertAscPermutes(xs[|xs| - 1], SortStrings(init));
      assert xs == init + [xs[|xs| - 1]];
    }
  }

  /** Putting in front a string no greater than any other keeps the order. */
  lemma ConsAscending(y: string, rest: seq<string>)
    requires Ascending(rest)
    requires forall z :: z in rest ==> LexLess(y, z) || y == z
    ensures Ascending([y] + rest)
  {
    var r := [y] + rest;
    forall i, j | 0 <= i < j < |r| ensures LexLess(r[i], r[j]) || r[i] == r[j] {
      assert r[j] == rest[j - 1];
      if i > 0 {
        assert r[i] == rest[i - 1];
      }
    }
  }

  /** An element of `InsertAsc(x, ys)` is `x` or an element of `ys`. */
  lemma InsertAscFrom(x: string, ys: seq<string>)
    ensures forall z :: z in InsertAsc(x, ys) ==> z == x || z in ys
  {
    InsertAscPermutes(x, ys);
    forall z | z in InsertAsc(x, ys) ensures z == x || z in ys {
      assert z in multiset(InsertAsc(x, ys));
    }
  }

  lemma {:induction false} InsertAscSorted(x: string, ys: seq<string>)
    requires Ascending(ys)
    ensures Ascending(InsertAsc(x, ys))
  {
    if |ys| == 0 {
    } else if !LexLess(ys[0], x) {
      LexLessTotal(x, ys[0]);
      forall z | z in ys ensures LexLess(x, z) || x == z {
        var i :| 0 <= i < |ys| && ys[i] == z;
        assert LexLess(ys[0], z) || ys[0] == z;
        if LexLess(ys[0], z) && x != ys[0] {
          LexLessTransitive(x, ys[0], z);
        }
      }
      ConsAscending(x, ys);
    } else {
      var tail := ys[1..];
      assert Ascending(tail);
      InsertAscSorted(x, tail);
      InsertAscFrom(x, tail);
      forall z | z in tail ensures LexLess(ys[0], z) || ys[0] == z {
        var i :| 0 <= i < |tail| && tail[i] == z;
        assert z == ys[i + 1];
      }
      ConsAscending(ys[0], InsertAsc(x, tail));
    }
  }

  /** `sorted` returns its strings in ascending order. */
  lemma {:induction false} SortStringsSorted(xs: seq<string>)
    ensures Ascending(SortStrings(xs))
  {
    if |xs| > 0 {
      SortStringsSorted(xs[..|xs| - 1]);
      InsertAscSorted(xs[|xs| - 1], SortStrings(xs[..|xs| - 1]));
    }
  }
}

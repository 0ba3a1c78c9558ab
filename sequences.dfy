/** Listing a table and filtering lists. A table keyed by an integer primary key
    is a `map<int, V>`; `SELECT` without `ORDER BY` is modelled as listing its
    rows in ascending key order. */
module Sequences {

  predicate Distinct<T(==)>(xs: seq<T>)
  {
    forall i, j :: 0 <= i < j < |xs| ==> xs[i] != xs[j]
  }

  predicate StrictlyIncreasing(xs: seq<int>)
  {
    forall i, j :: 0 <= i < j < |xs| ==> xs[i] < xs[j]
  }

  /** A non-empty set has an element. */
  lemma NonEmpty(s: set<int>)
    requires s != {}
    ensures exists y :: y in s
  {
    if forall y :: y !in s {
      assert false;
    }
  }

  lemma {:induction false} LeastOf(s: set<int>) returns (m: int)
    requires s != {}
    ensures m in s && forall x :: x in s ==> m <= x
    decreases |s|
  {
    NonEmpty(s);
    var y :| y in s;
    if s == {y} {
      m := y;
    } else {
      var k := LeastOf(s - {y});
      m := if y < k then y else k;
      forall x | x in s ensures m <= x {
        if x != y { assert x in s - {y}; }
      }
    }
  }

  lemma MinExists(s: set<int>)
    requires s != {}
    ensures exists m :: m in s && forall x :: x in s ==> m <= x
  {
    var m := LeastOf(s);
  }

  function Min(s: set<int>): (m: int)
    requires s != {}
    ensures m in s && forall x :: x in s ==> m <= x
  {
    MinExists(s);
    var m :| m in s && forall x :: x in s ==> m <= x; m
  }

  lemma IncreasingDistinct(xs: seq<int>)
    requires StrictlyIncreasing(xs)
    ensures Distinct(xs)
  {
  }

  /** The elements of a finite set of integers, smallest first. */
  function Ascending(s: set<int>): (r: seq<int>)
    ensures |r| == |s| && (forall x :: x in r <==> x in s) && StrictlyIncreasing(r)
    decreases |s|
  {
    if s == {} then []
    else
      var m := Min(s);
      var rest := Ascending(s - {m});
      AscendingStep(s, m, rest);
      [m] + rest
  }

  /** The smallest element followed by the rest in order lists the whole set in order. */
  lemma AscendingStep(s: set<int>, m: int, rest: seq<int>)
    requires m in s && forall x :: x in s ==> m <= x
    requires |rest| == |s - {m}| && (forall x :: x in rest <==> x in s - {m}) && StrictlyIncreasing(rest)
    ensures |[m] + rest| == |s| && (forall x :: x in [m] + rest <==> x in s) && StrictlyIncreasing([m] + rest)
  {
    var r := [m] + rest;
    forall i, j | 0 <= i < j < |r| ensures r[i] < r[j] {
      assert r[j] == rest[j - 1] && r[j] in rest;
      if i > 0 {
        assert r[i] == rest[i - 1];
      }
    }
  }

  /** The integers `lo, lo+1, ..., lo+n-1`. */
  function Interval(lo: int, n: nat): (r: set<int>)
    ensures forall k :: k in r <==> lo <= k < lo + n
    ensures |r| == n
    decreases n
  {
    if n == 0 then {} else
      var rest := Interval(lo + 1, n - 1);
      assert lo !in rest;
      {lo} + rest
  }

  /** The list `[lo, lo+1, ..., lo+n-1]`. */
  function Range(lo: int, n: nat): (r: seq<int>)
    ensures |r| == n && forall i :: 0 <= i < n ==> r[i] == lo + i
    decreases n
  {
    if n == 0 then [] else [lo] + Range(lo + 1, n - 1)
  }

  /** The keys `lo, lo+1, ..., lo+n-1` are listed in that order. */
  lemma {:induction false} AscendingInterval(lo: int, n: nat)
    ensures Ascending(Interval(lo, n)) == Range(lo, n)
    decreases n
  {
    if n > 0 {
      calc {
        Ascending(Interval(lo, n));
        == { IntervalSplit(lo, n); }
        [lo] + Ascending(Interval(lo + 1, n - 1));
        == { AscendingInterval(lo + 1, n - 1); }
        [lo] + Range(lo + 1, n - 1);
        ==
        Range(lo, n);
      }
    }
  }

  lemma IntervalSplit(lo: int, n: nat)
    requires n > 0
    ensures Ascending(Interval(lo, n)) == [lo] + Ascending(Interval(lo + 1, n - 1))
  {
    var s := Interval(lo, n);
    assert lo in s;
    assert Min(s) == lo;
    assert s - {lo} == Interval(lo + 1, n - 1);
  }

  /** The rows of a table in ascending key order. */
  function Rows<V(==,!new)>(t: map<int, V>): (r: seq<V>)
    ensures |r| == |t| && forall v :: v in r <==> v in t.Values
  {
    var ks := Ascending(t.Keys);
    var r := seq(|ks|, i requires 0 <= i < |ks| => t[ks[i]]);
    assert forall v :: v in t.Values ==> v in r by {
      forall v | v in t.Values ensures v in r {
        var k :| k in t && t[k] == v;
        var i :| 0 <= i < |ks| && ks[i] == k;
        assert r[i] == v;
      }
    }
    r
  }

  /** The row at position `i` of the listing is the row of the `i`-th smallest key. */
  lemma RowsAt<V(!new)>(t: map<int, V>, i: int)
    requires 0 <= i < |t|
    ensures Rows(t)[i] == t[Ascending(t.Keys)[i]]
  {
  }

  /** The rows of a table that satisfy `p`. */
  lemma FilterRowsMembers<V(!new)>(t: map<int, V>, p: V -> bool)
    ensures forall x :: x in Filter(Rows(t), p) <==> x in t.Values && p(x)
  {
  }

  /** In a table keyed `lo, ..., lo+n-1` the `i`-th row is the one under `lo + i`. */
  lemma RowsOfInterval<V(!new)>(t: map<int, V>, lo: int, n: nat, i: int)
    requires t.Keys == Interval(lo, n) && 0 <= i < n
    ensures lo + i in t && Rows(t)[i] == t[lo + i]
  {
    assert lo + i in Interval(lo, n);
    AscendingInterval(lo, n);
    RowsAt(t, i);
  }

  /** A table whose rows are pairwise different lists each row once. */
  lemma RowsDistinct<V(!new)>(t: map<int, V>)
    requires forall a, b :: a in t && b in t && a != b ==> t[a] != t[b]
    ensures Distinct(Rows(t))
  {
    var ks := Ascending(t.Keys);
    forall i, j | 0 <= i < j < |Rows(t)| ensures Rows(t)[i] != Rows(t)[j] {
      RowsAt(t, i);
      RowsAt(t, j);
    }
  }

  /** The elements of `xs` that satisfy `p`, in their original order. */
  function Filter<T(!new)>(xs: seq<T>, p: T -> bool): (r: seq<T>)
    ensures |r| <= |xs|
    ensures forall x :: x in r <==> x in xs && p(x)
    ensures forall x :: multiset(r)[x] == if p(x) then multiset(xs)[x] else 0
  {
    if xs == [] then []
    else
      var rest := Filter(xs[1..], p);
      assert xs == [xs[0]] + xs[1..];
      if p(xs[0]) then [xs[0]] + rest else rest
  }

  lemma {:induction false} FilterDistinct<T(!new)>(xs: seq<T>, p: T -> bool)
    requires Distinct(xs)
    ensures Distinct(Filter(xs, p))
    decreases |xs|
  {
    if xs != [] {
      var tail := xs[1..];
      assert Distinct(tail) by {
        forall i, j | 0 <= i < j < |tail| ensures tail[i] != tail[j] {
          assert tail[i] == xs[i + 1] && tail[j] == xs[j + 1];
        }
      }
      FilterDistinct(tail, p);
      assert xs[0] !in tail by {
        forall i | 0 <= i < |tail| ensures tail[i] != xs[0] {
          assert tail[i] == xs[i + 1];
        }
      }
    }
  }

  /** In a list without repetitions nothing occurs twice. */
  lemma {:induction false} CountAtMostOne<T>(xs: seq<T>)
    requires Distinct(xs)
    ensures forall v :: multiset(xs)[v] <= 1
    decreases |xs|
  {
    if xs != [] {
      var tail := xs[1..];
      assert Distinct(tail) by {
        forall i, j | 0 <= i < j < |tail| ensures tail[i] != tail[j] {
          assert tail[i] == xs[i + 1] && tail[j] == xs[j + 1];
        }
      }
      CountAtMostOne(tail);
      assert xs == [xs[0]] + tail;
      assert xs[0] !in tail by {
        forall i | 0 <= i < |tail| ensures tail[i] != xs[0] {
          assert tail[i] == xs[i + 1];
        }
      }
    }
  }

  /** A value at two positions is counted at least twice. */
  lemma CountTwoPositions<T>(ys: seq<T>, i: int, j: int)
    requires 0 <= i < j < |ys|
    ensures ys[i] == ys[j] ==> multiset(ys)[ys[i]] >= 2
  {
    assert ys == ys[..j] + ys[j..];
    assert ys[i] in ys[..j];
    assert ys[j] in ys[j..];
  }

  /** Reordering a list without repetitions gives a list without repetitions. */
  lemma PermutationDistinct<T>(xs: seq<T>, ys: seq<T>)
    requires Distinct(xs) && multiset(xs) == multiset(ys)
    ensures Distinct(ys)
  {
    CountAtMostOne(xs);
    forall i, j | 0 <= i < j < |ys| ensures ys[i] != ys[j] {
      CountTwoPositions(ys, i, j);
    }
  }

  /** `[f(x) for x in xs]`. */
  function MapSeq<T, U>(xs: seq<T>, f: T -> U): (r: seq<U>)
    ensures |r| == |xs| && forall k :: 0 <= k < |xs| ==> r[k] == f(xs[k])
  {
    if xs == [] then [] else [f(xs[0])] + MapSeq(xs[1..], f)
  }

  /** Filtering commutes with a map that keeps the filtered property. */
  lemma {:induction false} FilterMap<T(!new), U(!new)>(xs: seq<T>, f: T -> U, p: T -> bool, q: U -> bool)
    requires forall x :: q(f(x)) == p(x)
    ensures MapSeq(Filter(xs, p), f) == Filter(MapSeq(xs, f), q)
    decreases |xs|
  {
    if xs != [] {
      FilterMap(xs[1..], f, p, q);
      assert MapSeq(xs, f)[1..] == MapSeq(xs[1..], f);
      assert Filter(xs, p) == if p(xs[0]) then [xs[0]] + Filter(xs[1..], p) else Filter(xs[1..], p);
    }
  }

  /** Two lists that agree after `g` agree after any `f` that looks only at
      what `g` keeps. */
  lemma MapSeqFactor<T, V>(xs: seq<T>, ys: seq<T>, g: T -> T, f: T -> V)
    requires MapSeq(xs, g) == MapSeq(ys, g)
    requires forall x :: f(g(x)) == f(x)
    ensures MapSeq(xs, f) == MapSeq(ys, f)
  {
    assert |xs| == |MapSeq(xs, g)| == |ys|;
    forall k | 0 <= k < |xs| ensures f(xs[k]) == f(ys[k]) {
      assert MapSeq(xs, g)[k] == g(xs[k]) && MapSeq(ys, g)[k] == g(ys[k]);
      assert f(g(xs[k])) == f(xs[k]) && f(g(ys[k])) == f(ys[k]);
    }
  }

  /** A filter every element passes keeps the list as it is. */
  lemma {:induction false} FilterAll<T(!new)>(xs: seq<T>, p: T -> bool)
    requires forall i :: 0 <= i < |xs| ==> p(xs[i])
    ensures Filter(xs, p) == xs
    decreases |xs|
  {
    if xs != [] {
      FilterAll(xs[1..], p);
    }
  }
  /** `key` increases strictly along `xs`. */
  predicate IncreasingBy<T>(xs: seq<T>, key: T -> int)
  {
    forall i, j :: 0 <= i < j < |xs| ==> key(xs[i]) < key(xs[j])
  }

  /** Filtering keeps a list ordered by an increasing key. */
  lemma {:induction false} FilterIncreasing<T(!new)>(xs: seq<T>, key: T -> int, p: T -> bool)
    requires IncreasingBy(xs, key)
    ensures IncreasingBy(Filter(xs, p), key)
    decreases |xs|
  {
    if xs != [] {
      var tail := xs[1..];
      IncreasingTail(xs, key);
      FilterIncreasing(tail, key, p);
      var rest := Filter(tail, p);
      if p(xs[0]) {
        assert Filter(xs, p) == [xs[0]] + rest;
        IncreasingCons(xs[0], rest, key);
      } else {
        assert Filter(xs, p) == rest;
      }
    }
  }

  /** The tail of an increasing list is increasing and above its head. */
  lemma IncreasingTail<T>(xs: seq<T>, key: T -> int)
    requires xs != [] && IncreasingBy(xs, key)
    ensures IncreasingBy(xs[1..], key)
    ensures forall y :: y in xs[1..] ==> key(xs[0]) < key(y)
  {
    var tail := xs[1..];
    forall i, j | 0 <= i < j < |tail| ensures key(tail[i]) < key(tail[j]) {
      assert tail[i] == xs[i + 1] && tail[j] == xs[j + 1];
    }
    forall y | y in tail ensures key(xs[0]) < key(y) {
      var m :| 0 <= m < |tail| && tail[m] == y;
      assert tail[m] == xs[m + 1];
    }
  }

  /** An element below every element of an increasing list can go in front. */
  lemma IncreasingCons<T>(x: T, rest: seq<T>, key: T -> int)
    requires IncreasingBy(rest, key) && forall y :: y in rest ==> key(x) < key(y)
    ensures IncreasingBy([x] + rest, key)
  {
    var r := [x] + rest;
    forall i, j | 0 <= i < j < |r| ensures key(r[i]) < key(r[j]) {
      assert r[j] == rest[j - 1];
      if i > 0 {
        assert r[i] == rest[i - 1];
      }
    }
  }
}

/** `ORDER BY` on one sort field, ascending or descending. A sort field's value
    is mapped to a `Key` (a sequence of integers compared lexicographically), so
    texts, dates and nullable dates share one ordering. Rows with equal keys
    keep their input order; the database leaves that order open. */
module Sorting {
  import opened Outcomes
  import opened Sequences

  type Key = seq<int>

  /** Lexicographic order on keys; a proper prefix comes first. */
  predicate KeyLe(a: Key, b: Key)
    decreases |a|
  {
    if a == [] then true
    else if b == [] then false
    else a[0] < b[0] || (a[0] == b[0] && KeyLe(a[1..], b[1..]))
  }

  lemma {:induction false} KeyLeTotal(a: Key, b: Key)
    ensures KeyLe(a, b) || KeyLe(b, a)
    decreases |a|
  {
    if a != [] && b != [] && a[0] == b[0] {
      KeyLeTotal(a[1..], b[1..]);
    }
  }

  lemma {:induction false} KeyLeTrans(a: Key, b: Key, c: Key)
    requires KeyLe(a, b) && KeyLe(b, c)
    ensures KeyLe(a, c)
    decreases |a|
  {
    if a != [] && b != [] && c != [] && a[0] == b[0] && b[0] == c[0] {
      KeyLeTrans(a[1..], b[1..], c[1..]);
    }
  }

  lemma {:induction false} KeyLeAntisym(a: Key, b: Key)
    requires KeyLe(a, b) && KeyLe(b, a)
    ensures a == b
    decreases |a|
  {
    if a != [] {
      KeyLeAntisym(a[1..], b[1..]);
      assert a == [a[0]] + a[1..] && b == [b[0]] + b[1..];
    }
  }

  /** `a` may be listed before `b` under `ORDER BY ... ASC` (or `DESC` when `desc`). */
  predicate InOrder(a: Key, b: Key, desc: bool)
  {
    if desc then KeyLe(b, a) else KeyLe(a, b)
  }

  lemma InOrderTotal(a: Key, b: Key, desc: bool)
    ensures InOrder(a, b, desc) || InOrder(b, a, desc)
  {
    KeyLeTotal(a, b);
  }

  lemma InOrderTrans(a: Key, b: Key, c: Key, desc: bool)
    requires InOrder(a, b, desc) && InOrder(b, c, desc)
    ensures InOrder(a, c, desc)
  {
    if desc { KeyLeTrans(c, b, a); } else { KeyLeTrans(a, b, c); }
  }

  /** Every earlier row may precede every later row. */
  predicate SortedBy<T>(xs: seq<T>, key: T -> Key, desc: bool)
  {
    forall i, j :: 0 <= i < j < |xs| ==> InOrder(key(xs[i]), key(xs[j]), desc)
  }

  /** Places `x` before the first row it may precede. */
  function Insert<T>(x: T, xs: seq<T>, key: T -> Key, desc: bool): (r: seq<T>)
    ensures multiset(r) == multiset(xs) + multiset{x}
    ensures |r| == |xs| + 1
  {
    if xs == [] then [x]
    else if InOrder(key(x), key(xs[0]), desc) then [x] + xs
    else
      assert xs == [xs[0]] + xs[1..];
      [xs[0]] + Insert(x, xs[1..], key, desc)
  }

  /** The rows of `xs` in `ORDER BY key` order. */
  function SortBy<T>(xs: seq<T>, key: T -> Key, desc: bool): (r: seq<T>)
    ensures multiset(r) == multiset(xs)
    ensures |r| == |xs|
  {
    if xs == [] then []
    else
      assert xs == [xs[0]] + xs[1..];
      Insert(xs[0], SortBy(xs[1..], key, desc), key, desc)
  }

  lemma {:induction false} InsertSorted<T>(x: T, xs: seq<T>, key: T -> Key, desc: bool)
    requires SortedBy(xs, key, desc)
    ensures SortedBy(Insert(x, xs, key, desc), key, desc)
    decreases |xs|
  {
    if xs == [] {
    } else if InOrder(key(x), key(xs[0]), desc) {
      forall j | 0 <= j < |xs| ensures InOrder(key(x), key(xs[j]), desc) {
        if j > 0 {
          InOrderTrans(key(x), key(xs[0]), key(xs[j]), desc);
        }
      }
      SortedCons(x, xs, key, desc);
    } else {
      InOrderTotal(key(x), key(xs[0]), desc);
      SortedTail(xs, key, desc);
      InsertSorted(x, xs[1..], key, desc);
      var rest := Insert(x, xs[1..], key, desc);
      HeadBeforeInsert(x, xs, key, desc);
      SortedCons(xs[0], rest, key, desc);
    }
  }

  lemma SortedTail<T>(xs: seq<T>, key: T -> Key, desc: bool)
    requires xs != [] && SortedBy(xs, key, desc)
    ensures SortedBy(xs[1..], key, desc)
  {
    var tail := xs[1..];
    forall i, j | 0 <= i < j < |tail| ensures InOrder(key(tail[i]), key(tail[j]), desc) {
      assert tail[i] == xs[i + 1] && tail[j] == xs[j + 1];
    }
  }

  lemma SortedCons<T>(h: T, t: seq<T>, key: T -> Key, desc: bool)
    requires SortedBy(t, key, desc)
    requires forall j :: 0 <= j < |t| ==> InOrder(key(h), key(t[j]), desc)
    ensures SortedBy([h] + t, key, desc)
  {
    var r := [h] + t;
    forall i, j | 0 <= i < j < |r| ensures InOrder(key(r[i]), key(r[j]), desc) {
      assert r[j] == t[j - 1];
      if i > 0 {
        assert r[i] == t[i - 1];
      }
    }
  }

  /** The head of a sorted list that `x` does not precede may precede every
      row of the insertion into its tail. */
  lemma HeadBeforeInsert<T>(x: T, xs: seq<T>, key: T -> Key, desc: bool)
    requires xs != [] && SortedBy(xs, key, desc) && InOrder(key(xs[0]), key(x), desc)
    ensures forall j :: 0 <= j < |Insert(x, xs[1..], key, desc)| ==>
      InOrder(key(xs[0]), key(Insert(x, xs[1..], key, desc)[j]), desc)
  {
    var tail := xs[1..];
    var rest := Insert(x, tail, key, desc);
    forall j | 0 <= j < |rest| ensures InOrder(key(xs[0]), key(rest[j]), desc) {
      assert rest[j] in multiset(rest);
      if rest[j] != x {
        assert rest[j] in multiset(tail);
        var m :| 0 <= m < |tail| && tail[m] == rest[j];
        assert tail[m] == xs[m + 1];
      }
    }
  }

  /** The sort yields a sorted permutation of its input. */
  lemma {:induction false} SortBySorted<T>(xs: seq<T>, key: T -> Key, desc: bool)
    ensures SortedBy(SortBy(xs, key, desc), key, desc)
    ensures multiset(SortBy(xs, key, desc)) == multiset(xs)
    decreases |xs|
  {
    if xs != [] {
      SortBySorted(xs[1..], key, desc);
      InsertSorted(xs[0], SortBy(xs[1..], key, desc), key, desc);
    }
  }

  /** Sorting a list without repetitions keeps its members, each once, and orders them. */
  lemma SortDistinct<T>(xs: seq<T>, key: T -> Key, desc: bool)
    requires Distinct(xs)
    ensures var r := SortBy(xs, key, desc);
      (forall x :: x in r <==> x in xs) && Distinct(r) && SortedBy(r, key, desc)
  {
    var r := SortBy(xs, key, desc);
    SortBySorted(xs, key, desc);
    forall x ensures x in r <==> x in xs {
      assert x in r <==> x in multiset(r);
      assert x in xs <==> x in multiset(xs);
    }
    PermutationDistinct(xs, r);
  }

  /** Rows already in order are left where they are. */
  lemma {:induction false} SortedUnchanged<T>(xs: seq<T>, key: T -> Key, desc: bool)
    requires SortedBy(xs, key, desc)
    ensures SortBy(xs, key, desc) == xs
    decreases |xs|
  {
    if xs != [] {
      var tail := xs[1..];
      SortedTail(xs, key, desc);
      calc {
        SortBy(xs, key, desc);
        Insert(xs[0], SortBy(tail, key, desc), key, desc);
        == { SortedUnchanged(tail, key, desc); }
        Insert(xs[0], tail, key, desc);
        == { if tail != [] { assert InOrder(key(xs[0]), key(tail[0]), desc); } }
        [xs[0]] + tail;
        xs;
      }
    }
  }

  /** Sorting commutes with a map that keeps the key. */
  lemma {:induction false} InsertMap<T, U>(x: T, xs: seq<T>, f: T -> U, key: T -> Key, fkey: U -> Key, desc: bool)
    requires forall y :: fkey(f(y)) == key(y)
    ensures MapSeq(Insert(x, xs, key, desc), f) == Insert(f(x), MapSeq(xs, f), fkey, desc)
    decreases |xs|
  {
    if xs != [] && !InOrder(key(x), key(xs[0]), desc) {
      InsertMap(x, xs[1..], f, key, fkey, desc);
      assert MapSeq(xs, f)[1..] == MapSeq(xs[1..], f);
    }
  }

  lemma {:induction false} SortByMap<T, U>(xs: seq<T>, f: T -> U, key: T -> Key, fkey: U -> Key, desc: bool)
    requires forall y :: fkey(f(y)) == key(y)
    ensures MapSeq(SortBy(xs, key, desc), f) == SortBy(MapSeq(xs, f), fkey, desc)
    decreases |xs|
  {
    if xs != [] {
      SortByMap(xs[1..], f, key, fkey, desc);
      InsertMap(xs[0], SortBy(xs[1..], key, desc), f, key, fkey, desc);
      assert MapSeq(xs, f)[1..] == MapSeq(xs[1..], f);
    }
  }

  // ---------------------------------------------------------------------------
  // Keys of the sort fields
  // ---------------------------------------------------------------------------

  /** A text compared character by character (code-point order). */
  function TextKey(s: string): (k: Key)
    ensures |k| == |s| && forall i :: 0 <= i < |s| ==> k[i] == s[i] as int
  {
    seq(|s|, i requires 0 <= i < |s| => s[i] as int)
  }

  /** An integer column. */
  function IntKey(n: int): Key
  {
    [n]
  }

  lemma IntKeyOrder(a: int, b: int)
    ensures KeyLe(IntKey(a), IntKey(b)) <==> a <= b
  {
  }

  /** A date compared by its day number. */
  function DateKey(d: int): Key
  {
    [d]
  }

  /** A nullable date: any date sorts before NULL, as PostgreSQL does by
      default (NULLS LAST ascending, NULLS FIRST descending). */
  function NullableDateKey(d: Option<int>): Key
  {
    match d
    case Some(v) => [0, v]
    case None => [1]
  }

  lemma DateKeyOrder(a: int, b: int)
    ensures KeyLe(DateKey(a), DateKey(b)) <==> a <= b
  {
  }

  /** Dates keep their order, and NULL follows every date. */
  lemma NullableDateKeyOrder(a: Option<int>, b: Option<int>)
    ensures KeyLe(NullableDateKey(a), NullableDateKey(b)) <==>
              (b.None? || (a.Some? && a.value <= b.value))
  {
    match a {
      case Some(x) =>
        match b {
          case Some(y) =>
            assert NullableDateKey(a)[1..] == DateKey(x) && NullableDateKey(b)[1..] == DateKey(y);
            DateKeyOrder(x, y);
          case None =>
        }
      case None =>
        match b {
          case Some(y) =>
          case None =>
            assert NullableDateKey(a)[1..] == [] && NullableDateKey(b)[1..] == [];
        }
    }
  }
}

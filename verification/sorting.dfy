/** Ordering rows by one sort key, the way `sort_values`, `nlargest` and `nsmallest` do:
    present values by direction, missing values last (pandas' `na_position='last'`). */
module Sorting {

  /** A row's sort key: a number, or `Absent` for a missing value. */
  datatype SortKey = Value(v: int) | Absent

  /** `a` may stand before `b`: present values in the chosen direction, and a missing value
      only after every present one. */
  predicate Before(a: SortKey, b: SortKey, descending: bool) {
    match (a, b)
    case (Value(x), Value(y)) => if descending then x >= y else x <= y
    case (Value(_), Absent) => true
    case (Absent, Value(_)) => false
    case (Absent, Absent) => true
  }

  /** Every element may stand before every later one. */
  predicate Sorted<T>(xs: seq<T>, key: T -> SortKey, descending: bool) {
    forall i, j :: 0 <= i < j < |xs| ==> Before(key(xs[i]), key(xs[j]), descending)
  }

  function Min(a: int, b: int): int {
    if a <= b then a else b
  }

  lemma SortedTail<T>(xs: seq<T>, key: T -> SortKey, descending: bool)
    requires |xs| > 0
    requires Sorted(xs, key, descending)
    ensures Sorted(xs[1..], key, descending)
  {
    forall i, j | 0 <= i < j < |xs[1..]|
      ensures Before(key(xs[1..][i]), key(xs[1..][j]), descending)
    {
      assert xs[1..][i] == xs[i + 1] && xs[1..][j] == xs[j + 1];
    }
  }

  /** Putting back the first element in front of a sorted re-arrangement of the others and the
      inserted element keeps the whole sorted, when the inserted element does not go first. */
  lemma InsertBehindHead<T>(x: T, xs: seq<T>, rest: seq<T>, key: T -> SortKey, descending: bool)
    requires |xs| > 0
    requires Sorted(xs, key, descending)
    requires !Before(key(x), key(xs[0]), descending)
    requires Sorted(rest, key, descending)
    requires multiset(rest) == multiset(xs[1..]) + multiset{x}
    ensures Sorted([xs[0]] + rest, key, descending)
  {
    var r := [xs[0]] + rest;
    forall i, j | 0 <= i < j < |r| ensures Before(key(r[i]), key(r[j]), descending) {
      if i == 0 {
        var y := rest[j - 1];
        assert y in multiset(rest);
        if y == x {
        } else {
          assert y in multiset(xs[1..]);
          var m :| 0 <= m < |xs[1..]| && xs[1..][m] == y;
          assert xs[m + 1] == y;
        }
      } else {
        assert r[i] == rest[i - 1] && r[j] == rest[j - 1];
      }
    }
  }

  /** Inserts `x` into a sorted sequence, in front of the first element it may stand before. */
  function Insert<T(==)>(x: T, xs: seq<T>, key: T -> SortKey, descending: bool): (r: seq<T>)
    requires Sorted(xs, key, descending)
    ensures multiset(r) == multiset(xs) + multiset{x}
    ensures Sorted(r, key, descending)
    decreases |xs|
  {
    if |xs| == 0 then [x]
    else if Before(key(x), key(xs[0]), descending) then [x] + xs
    else
      SortedTail(xs, key, descending);
      var rest := Insert(x, xs[1..], key, descending);
      InsertBehindHead(x, xs, rest, key, descending);
      assert xs == [xs[0]] + xs[1..];
      [xs[0]] + rest
  }

  /** Sorts by `key` in the given direction with missing keys last. Which of two elements with
      equal keys comes first is this model's choice, not a promise of the source. */
  function Sort<T(==)>(xs: seq<T>, key: T -> SortKey, descending: bool): (r: seq<T>)
    ensures multiset(r) == multiset(xs)
    ensures |r| == |xs|
    ensures Sorted(r, key, descending)
    decreases |xs|
  {
    if |xs| == 0 then []
    else
      assert xs == [xs[0]] + xs[1..];
      var r := Insert(xs[0], Sort(xs[1..], key, descending), key, descending);
      assert |r| == |multiset(r)| == |multiset(xs)| == |xs|;
      r
  }

  /** The elements after position `k` of a sorted arrangement of `xs` are exactly the ones left
      out of its first `k`, and none of them may stand before any chosen one. */
  lemma PrefixKeepsExtremes<T>(xs: seq<T>, s: seq<T>, k: nat, key: T -> SortKey, descending: bool)
    requires multiset(s) == multiset(xs)
    requires Sorted(s, key, descending)
    requires k <= |s|
    ensures multiset(s[..k]) <= multiset(xs)
    ensures forall x, y :: x in multiset(xs) - multiset(s[..k]) && y in s[..k] ==>
      Before(key(y), key(x), descending)
  {
    var r := s[..k];
    assert s == r + s[k..];
    assert multiset(s) == multiset(r) + multiset(s[k..]);
    assert multiset(xs) - multiset(r) == multiset(s[k..]);
    forall x, y | x in multiset(xs) - multiset(r) && y in r
      ensures Before(key(y), key(x), descending)
    {
      assert x in multiset(s[k..]);
      var j :| 0 <= j < |s[k..]| && s[k..][j] == x;
      var i :| 0 <= i < |r| && r[i] == y;
      assert s[i] == y && s[k + j] == x;
    }
  }

  /** `nlargest(n)` (descending) or `nsmallest(n)` (ascending): the first `n` elements in key
      order, or all of them when there are fewer. */
  function TakeFirst<T(==)>(xs: seq<T>, key: T -> SortKey, descending: bool, n: nat): (r: seq<T>)
    ensures |r| == Min(n, |xs|)
    ensures Sorted(r, key, descending)
    ensures multiset(r) <= multiset(xs)
    ensures forall x, y :: x in multiset(xs) - multiset(r) && y in r ==> Before(key(y), key(x), descending)
  {
    var s := Sort(xs, key, descending);
    PrefixKeepsExtremes(xs, s, Min(n, |s|), key, descending);
    s[..Min(n, |s|)]
  }

  /** `f` applied to every element, in order. */
  function MapSeq<T, U>(f: T -> U, xs: seq<T>): (r: seq<U>)
    ensures |r| == |xs|
    ensures forall i :: 0 <= i < |xs| ==> r[i] == f(xs[i])
  {
    seq(|xs|, i requires 0 <= i < |xs| => f(xs[i]))
  }

  /** Mapping with an `f` that keeps every key keeps a sequence sorted. */
  lemma SortedMap<T, U>(xs: seq<T>, f: T -> U, key: T -> SortKey, key2: U -> SortKey, descending: bool)
    requires forall x :: key2(f(x)) == key(x)
    requires Sorted(xs, key, descending)
    ensures Sorted(MapSeq(f, xs), key2, descending)
  {
  }

  /** Inserting in front commutes with a mapping that keeps every key. */
  lemma InsertMapFront<T, U>(x: T, xs: seq<T>, f: T -> U,
                             key: T -> SortKey, key2: U -> SortKey, descending: bool)
    requires forall y :: key2(f(y)) == key(y)
    requires Sorted(xs, key, descending)
    requires Sorted(MapSeq(f, xs), key2, descending)
    requires |xs| == 0 || Before(key(x), key(xs[0]), descending)
    ensures Insert(f(x), MapSeq(f, xs), key2, descending) == MapSeq(f, Insert(x, xs, key, descending))
  {
    assert MapSeq(f, [x] + xs) == [f(x)] + MapSeq(f, xs);
  }

  /** Inserting behind the first element commutes with a mapping that keeps every key, once
      it does for the remaining elements. */
  lemma InsertMapBehind<T, U>(x: T, xs: seq<T>, f: T -> U,
                              key: T -> SortKey, key2: U -> SortKey, descending: bool)
    requires forall y :: key2(f(y)) == key(y)
    requires |xs| > 0
    requires Sorted(xs, key, descending)
    requires Sorted(MapSeq(f, xs), key2, descending)
    requires !Before(key(x), key(xs[0]), descending)
    requires Sorted(xs[1..], key, descending)
    requires Sorted(MapSeq(f, xs[1..]), key2, descending)
    requires Insert(f(x), MapSeq(f, xs[1..]), key2, descending) == MapSeq(f, Insert(x, xs[1..], key, descending))
    ensures Insert(f(x), MapSeq(f, xs), key2, descending) == MapSeq(f, Insert(x, xs, key, descending))
  {
    var ys := MapSeq(f, xs);
    var rest := Insert(x, xs[1..], key, descending);
    assert ys[1..] == MapSeq(f, xs[1..]);
    assert MapSeq(f, [xs[0]] + rest) == [f(xs[0])] + MapSeq(f, rest);
  }

  /** Inserting commutes with a mapping that keeps every key. */
  lemma {:induction false} InsertMap<T, U>(x: T, xs: seq<T>, f: T -> U,
                                           key: T -> SortKey, key2: U -> SortKey, descending: bool)
    requires forall y :: key2(f(y)) == key(y)
    requires Sorted(xs, key, descending)
    ensures Sorted(MapSeq(f, xs), key2, descending)
    ensures Insert(f(x), MapSeq(f, xs), key2, descending) == MapSeq(f, Insert(x, xs, key, descending))
    decreases |xs|
  {
    SortedMap(xs, f, key, key2, descending);
    if |xs| == 0 || Before(key(x), key(xs[0]), descending) {
      InsertMapFront(x, xs, f, key, key2, descending);
    } else {
      SortedTail(xs, key, descending);
      InsertMap(x, xs[1..], f, key, key2, descending);
      InsertMapBehind(x, xs, f, key, key2, descending);
    }
  }

  /** Sorting commutes with a mapping that keeps every key. */
  lemma {:induction false} SortMap<T, U>(xs: seq<T>, f: T -> U,
                                         key: T -> SortKey, key2: U -> SortKey, descending: bool)
    requires forall y :: key2(f(y)) == key(y)
    ensures Sort(MapSeq(f, xs), key2, descending) == MapSeq(f, Sort(xs, key, descending))
    decreases |xs|
  {
    if |xs| > 0 {
      var mapped := MapSeq(f, xs);
      assert mapped[0] == f(xs[0]);
      assert mapped[1..] == MapSeq(f, xs[1..]);
      SortMap(xs[1..], f, key, key2, descending);
      InsertMap(xs[0], Sort(xs[1..], key, descending), f, key, key2, descending);
    }
  }

  /** Taking the first `n` in key order commutes with a mapping that keeps every key: mapping
      first and ranking after chooses the same elements in the same order. */
  lemma TakeFirstMap<T, U>(xs: seq<T>, f: T -> U, key: T -> SortKey, key2: U -> SortKey,
                           descending: bool, n: nat)
    requires forall y :: key2(f(y)) == key(y)
    ensures TakeFirst(MapSeq(f, xs), key2, descending, n) == MapSeq(f, TakeFirst(xs, key, descending, n))
  {
    SortMap(xs, f, key, key2, descending);
    var s := Sort(xs, key, descending);
    assert MapSeq(f, s)[..Min(n, |s|)] == MapSeq(f, s[..Min(n, |s|)]);
  }
}

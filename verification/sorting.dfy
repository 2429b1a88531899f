/** `Array.prototype.sort` with a numeric comparator `(a, b) => key(a) -
    key(b)`: a stable sort into ascending key order. A descending sort
    (`key(b) - key(a)`) is the ascending sort on the negated key. */
module Sorting {

  import opened Common

  predicate SortedBy<T>(xs: seq<T>, key: T -> real)
  {
    forall i, j :: 0 <= i < j < |xs| ==> key(xs[i]) <= key(xs[j])
  }

  /** Places `x` after every element whose key is not greater. */
  function Insert<T>(x: T, ys: seq<T>, key: T -> real): (r: seq<T>)
    requires SortedBy(ys, key)
    ensures SortedBy(r, key)
    ensures multiset(r) == multiset(ys) + multiset{x}
    decreases |ys|
  {
    if |ys| == 0 then [x]
    else if key(x) < key(ys[0]) then
      ConsSorted(x, ys, key);
      [x] + ys
    else
      var rest := Insert(x, ys[1..], key);
      assert ys == [ys[0]] + ys[1..];
      KeyFloor(rest, ys[1..], x, key, key(ys[0]));
      ConsSorted(ys[0], rest, key);
      [ys[0]] + rest
  }

  /** A sorted list stays sorted behind an element whose key is at most
      every key in it. */
  lemma ConsSorted<T>(h: T, ys: seq<T>, key: T -> real)
    requires SortedBy(ys, key)
    requires forall i :: 0 <= i < |ys| ==> key(h) <= key(ys[i])
    ensures SortedBy([h] + ys, key)
  {
    forall i, j | 0 <= i < j < |[h] + ys| ensures key(([h] + ys)[i]) <= key(([h] + ys)[j]) {
      assert ([h] + ys)[j] == ys[j - 1];
      if i > 0 { assert ([h] + ys)[i] == ys[i - 1]; }
    }
  }

  /** Every element of a permutation of `ys` plus `x` has a key of at
      least `b` when `x` and all of `ys` do. */
  lemma KeyFloor<T>(r: seq<T>, ys: seq<T>, x: T, key: T -> real, b: real)
    requires multiset(r) == multiset(ys) + multiset{x}
    requires b <= key(x) && forall i :: 0 <= i < |ys| ==> b <= key(ys[i])
    ensures forall i :: 0 <= i < |r| ==> b <= key(r[i])
  {
    forall i | 0 <= i < |r| ensures b <= key(r[i]) {
      assert r[i] in multiset(r);
      if r[i] != x {
        assert r[i] in multiset(ys);
        assert r[i] in ys;
      }
    }
  }

  /** Insertion sort: each element is inserted into the sorted elements
      before it, after those with an equal key, so equal keys keep their
      order. */
  function SortBy<T>(xs: seq<T>, key: T -> real): (r: seq<T>)
    ensures SortedBy(r, key)
    ensures multiset(r) == multiset(xs)
    ensures |r| == |xs|
  {
    if |xs| == 0 then []
    else
      var r := Insert(xs[|xs| - 1], SortBy(xs[..|xs| - 1], key), key);
      assert xs == xs[..|xs| - 1] + [xs[|xs| - 1]];
      assert |r| == |multiset(r)|;
      r
  }

  /** Sorting an already sorted list changes nothing. */
  lemma {:induction false} SortSorted<T>(xs: seq<T>, key: T -> real)
    requires SortedBy(xs, key)
    ensures SortBy(xs, key) == xs
    decreases |xs|
  {
    if |xs| > 0 {
      var init := xs[..|xs| - 1];
      SortSorted(init, key);
      SortByUnfold(xs, key);
      InsertLast(xs[|xs| - 1], init, key);
      SnocLast(xs);
    }
  }

  lemma {:induction false} InsertLast<T>(x: T, ys: seq<T>, key: T -> real)
    requires SortedBy(ys, key)
    requires forall i :: 0 <= i < |ys| ==> key(ys[i]) <= key(x)
    ensures Insert(x, ys, key) == ys + [x]
    decreases |ys|
  {
    if |ys| > 0 {
      InsertLast(x, ys[1..], key);
      InsertUnfold(x, ys, key);
      ConcatAssoc([ys[0]], ys[1..], [x]);
      assert [ys[0]] + ys[1..] == ys;
    }
  }

  lemma SnocLast<T>(xs: seq<T>)
    requires |xs| > 0
    ensures xs[..|xs| - 1] + [xs[|xs| - 1]] == xs
  {
  }

  lemma SortByUnfold<T>(xs: seq<T>, key: T -> real)
    requires |xs| > 0
    ensures SortBy(xs, key) == Insert(xs[|xs| - 1], SortBy(xs[..|xs| - 1], key), key)
  {
  }

  /** The elements whose key is `k`. */
  function WithKey<T>(key: T -> real, k: real): T -> bool
  {
    x => key(x) == k
  }

  /** Stability: for every key, the elements with that key appear in the
      sorted list in the order they had in the input. */
  lemma {:induction false} SortStable<T>(xs: seq<T>, key: T -> real, k: real)
    ensures Filter(SortBy(xs, key), WithKey(key, k)) == Filter(xs, WithKey(key, k))
    decreases |xs|
  {
    if |xs| > 0 {
      var init := xs[..|xs| - 1];
      var last := xs[|xs| - 1];
      SortStable(init, key, k);
      SortByUnfold(xs, key);
      InsertStable(last, SortBy(init, key), key, k);
      FilterSnoc(init, last, WithKey(key, k));
      SnocLast(xs);
    }
  }

  /** Inserting `x` puts it behind every element with its key. */
  lemma {:induction false} InsertStable<T>(x: T, ys: seq<T>, key: T -> real, k: real)
    requires SortedBy(ys, key)
    ensures Filter(Insert(x, ys, key), WithKey(key, k))
            == Filter(ys, WithKey(key, k)) + (if key(x) == k then [x] else [])
    decreases |ys|
  {
    if |ys| == 0 {
      assert [x][1..] == [];
    } else if key(x) < key(ys[0]) {
      InsertFront(x, ys, key, k);
    } else {
      InsertStable(x, ys[1..], key, k);
      InsertUnfold(x, ys, key);
      FilterConsSuffix(ys[0], Insert(x, ys[1..], key), ys[1..], WithKey(key, k), if key(x) == k then [x] else []);
      assert [ys[0]] + ys[1..] == ys;
    }
  }

  lemma InsertFront<T>(x: T, ys: seq<T>, key: T -> real, k: real)
    requires SortedBy(ys, key) && |ys| > 0 && key(x) < key(ys[0])
    ensures Filter(Insert(x, ys, key), WithKey(key, k))
            == Filter(ys, WithKey(key, k)) + (if key(x) == k then [x] else [])
  {
    assert Insert(x, ys, key) == [x] + ys;
    FilterCons(x, ys, WithKey(key, k));
    if key(x) == k {
      NoneWithKey(ys, key, k);
    }
  }

  /** Putting the same element in front of two lists whose filters differ
      by a suffix keeps that difference. */
  lemma FilterConsSuffix<T>(h: T, rest: seq<T>, t: seq<T>, p: T -> bool, tail: seq<T>)
    requires Filter(rest, p) == Filter(t, p) + tail
    ensures Filter([h] + rest, p) == Filter([h] + t, p) + tail
  {
    var hh := if p(h) then [h] else [];
    FilterCons(h, rest, p);
    FilterCons(h, t, p);
    ConcatAssoc(hh, Filter(t, p), tail);
  }

  lemma InsertUnfold<T>(x: T, ys: seq<T>, key: T -> real)
    requires SortedBy(ys, key) && |ys| > 0 && key(ys[0]) <= key(x)
    ensures Insert(x, ys, key) == [ys[0]] + Insert(x, ys[1..], key)
  {
  }

  lemma FilterCons<T>(h: T, ys: seq<T>, p: T -> bool)
    ensures Filter([h] + ys, p) == (if p(h) then [h] else []) + Filter(ys, p)
  {
    assert ([h] + ys)[1..] == ys;
  }

  /** No element of a sorted list that starts above `k` has key `k`. */
  lemma NoneWithKey<T>(ys: seq<T>, key: T -> real, k: real)
    requires SortedBy(ys, key) && |ys| > 0 && k < key(ys[0])
    ensures Filter(ys, WithKey(key, k)) == []
  {
    forall i | 0 <= i < |ys|
      ensures k < key(ys[i])
    {
      if i > 0 {
        assert key(ys[0]) <= key(ys[i]);
      }
    }

  }
}

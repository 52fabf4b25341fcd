/** A stable sort by integer key, standing for Rust's `sort_by_key`. */
module Sorting {

  ghost predicate SortedBy<T>(xs: seq<T>, key: T -> int) {
    forall i, j :: 0 <= i < j < |xs| ==> key(xs[i]) <= key(xs[j])
  }

  ghost predicate DistinctKeys<T>(xs: seq<T>, key: T -> int) {
    forall i, j :: 0 <= i < j < |xs| ==> key(xs[i]) != key(xs[j])
  }

  /** Insert `x` after every element whose key is not larger. */
  function Insert<T>(x: T, xs: seq<T>, key: T -> int): (r: seq<T>)
    ensures multiset(r) == multiset(xs) + multiset{x}
  {
    if xs == [] || key(x) < key(xs[0]) then [x] + xs
    else
      assert xs == [xs[0]] + xs[1..];
      [xs[0]] + Insert(x, xs[1..], key)
  }

  function SortBy<T>(xs: seq<T>, key: T -> int): (r: seq<T>)
    ensures multiset(r) == multiset(xs)
    ensures |r| == |xs|
  {
    if xs == [] then []
    else
      assert xs == xs[..|xs| - 1] + [xs[|xs| - 1]];
      var r := Insert(xs[|xs| - 1], SortBy(xs[..|xs| - 1], key), key);
      assert |multiset(r)| == |multiset(xs)|;
      r
  }

  lemma {:induction false} InsertSorted<T>(x: T, xs: seq<T>, key: T -> int)
    requires SortedBy(xs, key)
    ensures SortedBy(Insert(x, xs, key), key)
  {
    if xs != [] && key(x) >= key(xs[0]) {
      InsertSorted(x, xs[1..], key);
      var r := Insert(x, xs[1..], key);
      forall j | 0 <= j < |r| ensures key(xs[0]) <= key(r[j]) {
        assert r[j] in multiset(r);
        assert r[j] == x || r[j] in xs[1..];
      }
    }
  }

  lemma {:induction false} SortBySorted<T>(xs: seq<T>, key: T -> int)
    ensures SortedBy(SortBy(xs, key), key)
  {
    if xs != [] {
      SortBySorted(xs[..|xs| - 1], key);
      InsertSorted(xs[|xs| - 1], SortBy(xs[..|xs| - 1], key), key);
    }
  }

  /** Members survive a permutation. */
  lemma SameMembers<T>(xs: seq<T>, ys: seq<T>)
    requires multiset(xs) == multiset(ys)
    ensures forall x :: x in xs <==> x in ys
  {
    forall x ensures x in xs <==> x in ys {
      assert x in multiset(xs) <==> x in multiset(ys);
    }
  }

  ghost predicate Distinct<T>(xs: seq<T>) {
    forall i, j :: 0 <= i < j < |xs| ==> xs[i] != xs[j]
  }

  /** So does having no member twice. */
  lemma OncePermuted<T>(xs: seq<T>, ys: seq<T>)
    requires multiset(xs) == multiset(ys) && Distinct(xs)
    ensures Distinct(ys)
  {
    SameMembers(xs, ys);
    forall i, j | 0 <= i < j < |ys| ensures ys[i] != ys[j] {
      assert ys[i] in xs;
      var a :| 0 <= a < |xs| && xs[a] == ys[i];
      OnceInMultiset(xs, a);
      if ys[i] == ys[j] { TwiceInMultiset(ys, i, j); }
    }
  }

  /** Distinctness of keys survives a permutation. */
  lemma DistinctPermuted<T>(xs: seq<T>, ys: seq<T>, key: T -> int)
    requires multiset(xs) == multiset(ys) && DistinctKeys(xs, key)
    ensures DistinctKeys(ys, key)
  {
    SameMembers(xs, ys);
    OncePermuted(xs, ys);
    forall i, j | 0 <= i < j < |ys| ensures key(ys[i]) != key(ys[j]) {
      assert ys[i] in xs && ys[j] in xs;
      var a :| 0 <= a < |xs| && xs[a] == ys[i];
      var b :| 0 <= b < |xs| && xs[b] == ys[j];
      assert a != b;
    }
  }

  lemma TwiceInMultiset<T>(ys: seq<T>, i: nat, j: nat)
    requires i < j < |ys| && ys[i] == ys[j]
    ensures multiset(ys)[ys[i]] >= 2
  {
    assert ys == ys[..i] + [ys[i]] + ys[i + 1..j] + [ys[j]] + ys[j + 1..];
  }

  lemma OnceInMultiset<T>(xs: seq<T>, a: nat)
    requires a < |xs| && Distinct(xs)
    ensures multiset(xs)[xs[a]] == 1
  {
    assert xs == xs[..a] + [xs[a]] + xs[a + 1..];
    assert xs[a] !in xs[..a] && xs[a] !in xs[a + 1..];
  }

  ghost predicate Ordered<T>(xs: seq<T>, less: (T, T) -> bool) {
    forall i, j :: 0 <= i < j < |xs| ==> less(xs[i], xs[j])
  }

  ghost predicate Asymmetric<T>(xs: seq<T>, less: (T, T) -> bool) {
    forall x, y :: x in xs && y in xs && less(x, y) ==> !less(y, x)
  }

  /** There is one way to list given members in a strict order. */
  lemma {:induction false} OneOrder<T>(xs: seq<T>, ys: seq<T>, less: (T, T) -> bool)
    requires Ordered(xs, less) && Ordered(ys, less) && Asymmetric(xs, less)
    requires forall x :: x in xs <==> x in ys
    ensures xs == ys
  {
    if ys != [] { assert ys[0] in xs; }
    if xs != [] {
      SameFirst(xs, ys, less);
      forall x ensures x in xs[1..] <==> x in ys[1..] {
        NotFirst(xs, less, x);
        NotFirst(ys, less, x);
      }
      OneOrder(xs[1..], ys[1..], less);
    }
  }

  lemma SameFirst<T>(xs: seq<T>, ys: seq<T>, less: (T, T) -> bool)
    requires Ordered(xs, less) && Ordered(ys, less) && Asymmetric(xs, less) && xs != []
    requires forall x :: x in xs <==> x in ys
    ensures ys != [] && xs[0] == ys[0]
  {
    assert xs[0] in ys && ys[0] in xs;
    var i :| 0 <= i < |xs| && xs[i] == ys[0];
    var j :| 0 <= j < |ys| && ys[j] == xs[0];
  }

  lemma NotFirst<T>(xs: seq<T>, less: (T, T) -> bool, x: T)
    requires Ordered(xs, less) && Asymmetric(xs, less) && xs != []
    ensures x in xs[1..] <==> x in xs && x != xs[0]
  {
    assert xs == [xs[0]] + xs[1..];
    if x in xs[1..] {
      var k :| 0 < k < |xs| && xs[k] == x;
      assert less(xs[0], xs[k]);
    }
  }

  /** Two sorted permutations of one another agree when keys are distinct. */
  lemma SortedUnique<T>(xs: seq<T>, ys: seq<T>, key: T -> int)
    requires multiset(xs) == multiset(ys)
    requires DistinctKeys(xs, key) && SortedBy(xs, key) && SortedBy(ys, key)
    ensures xs == ys
  {
    var less := (a: T, b: T) => key(a) < key(b);
    SameMembers(xs, ys);
    DistinctPermuted(xs, ys, key);
    forall i, j | 0 <= i < j < |ys| ensures less(ys[i], ys[j]) { assert key(ys[i]) <= key(ys[j]); }
    OneOrder(xs, ys, less);
  }
}

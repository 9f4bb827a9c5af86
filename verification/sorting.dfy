/** Python's `sorted(xs, key=...)` for string keys: a stable sort, modelled as
    insertion sort. */
module Sorting {
  import opened PyStr

  ghost predicate SortedBy<T>(xs: seq<T>, key: T -> string) {
    forall i, j :: 0 <= i < j < |xs| ==> StrLe(key(xs[i]), key(xs[j]))
  }

  /** `sorted` is a stable sort of `xs` by `key`: ordered by key, the same
      elements, and elements with equal keys in their order in `xs`. */
  ghost predicate StablySorted<T>(sorted: seq<T>, xs: seq<T>, key: T -> string) {
    SortedBy(sorted, key) && multiset(sorted) == multiset(xs)
    && forall k :: WithKey(sorted, key, k) == WithKey(xs, key, k)
  }

  /** The elements of `xs` whose key is `k`, in their order in `xs`. */
  function WithKey<T>(xs: seq<T>, key: T -> string, k: string): seq<T> {
    if xs == [] then [] else (if key(xs[0]) == k then [xs[0]] else []) + WithKey(xs[1..], key, k)
  }

  lemma {:induction false} WithKeyAppend<T>(xs: seq<T>, x: T, key: T -> string, k: string)
    ensures WithKey(xs + [x], key, k) == WithKey(xs, key, k) + (if key(x) == k then [x] else [])
    decreases |xs|
  {
    if xs != [] {
      assert (xs + [x])[1..] == xs[1..] + [x];
      WithKeyAppend(xs[1..], x, key, k);
    }
  }

  lemma {:induction false} WithKeyNone<T>(xs: seq<T>, key: T -> string, k: string)
    requires forall i :: 0 <= i < |xs| ==> key(xs[i]) != k
    ensures WithKey(xs, key, k) == []
    decreases |xs|
  {
    if xs != [] {
      WithKeyNone(xs[1..], key, k);
    }
  }

  /** Inserts `x` after every element whose key is not greater than its own. */
  function Insert<T(==)>(x: T, xs: seq<T>, key: T -> string): (r: seq<T>)
    requires SortedBy(xs, key)
    ensures SortedBy(r, key)
    ensures multiset(r) == multiset(xs) + multiset{x}
    ensures forall k :: WithKey(r, key, k) == WithKey(xs, key, k) + (if key(x) == k then [x] else [])
    decreases |xs|
  {
    if xs == [] then [x]
    else if !StrLe(key(xs[0]), key(x)) then
      InsertFront(x, xs, key);
      [x] + xs
    else
      var rest := Insert(x, xs[1..], key);
      InsertBehind(x, xs, rest, key);
      [xs[0]] + rest
  }

  lemma InsertFront<T>(x: T, xs: seq<T>, key: T -> string)
    requires SortedBy(xs, key) && xs != [] && !StrLe(key(xs[0]), key(x))
    ensures SortedBy([x] + xs, key)
    ensures forall k :: WithKey([x] + xs, key, k) == WithKey(xs, key, k) + (if key(x) == k then [x] else [])
  {
    StrLeTotal(key(xs[0]), key(x));
    forall j | 0 <= j < |xs|
      ensures StrLe(key(x), key(xs[j])) && key(xs[j]) != key(x)
    {
      StrLeRefl(key(xs[0]));
      StrLeTrans(key(x), key(xs[0]), key(xs[j]));
    }
    WithKeyNone(xs, key, key(x));
    forall k
      ensures WithKey([x] + xs, key, k) == WithKey(xs, key, k) + (if key(x) == k then [x] else [])
    {
      assert ([x] + xs)[1..] == xs;
    }
  }

  lemma ElementsOfInsert<T>(x: T, xs: seq<T>, rest: seq<T>)
    requires multiset(rest) == multiset(xs) + multiset{x}
    ensures forall y :: y in rest ==> y == x || y in xs
  {
    forall y | y in rest
      ensures y == x || y in xs
    {
      assert y in multiset(rest);
    }
  }

  lemma InsertBehindSorted<T>(x: T, xs: seq<T>, rest: seq<T>, key: T -> string)
    requires SortedBy(xs, key) && xs != [] && StrLe(key(xs[0]), key(x))
    requires SortedBy(rest, key) && forall y :: y in rest ==> y == x || y in xs[1..]
    ensures SortedBy([xs[0]] + rest, key)
  {
    var r := [xs[0]] + rest;
    forall j | 0 < j < |r|
      ensures StrLe(key(xs[0]), key(r[j]))
    {
      assert r[j] == rest[j - 1] && rest[j - 1] in rest;
      if r[j] != x {
        var m :| 0 <= m < |xs[1..]| && xs[1..][m] == r[j];
        assert xs[m + 1] == r[j];
      }
    }
    forall i, j | 0 <= i < j < |r|
      ensures StrLe(key(r[i]), key(r[j]))
    {
      if i > 0 {
        assert r[i] == rest[i - 1] && r[j] == rest[j - 1];
      }
    }
  }

  lemma InsertBehind<T>(x: T, xs: seq<T>, rest: seq<T>, key: T -> string)
    requires SortedBy(xs, key) && xs != [] && StrLe(key(xs[0]), key(x))
    requires SortedBy(rest, key) && multiset(rest) == multiset(xs[1..]) + multiset{x}
    requires forall k :: WithKey(rest, key, k) == WithKey(xs[1..], key, k) + (if key(x) == k then [x] else [])
    ensures SortedBy([xs[0]] + rest, key)
    ensures multiset([xs[0]] + rest) == multiset(xs) + multiset{x}
    ensures forall k :: WithKey([xs[0]] + rest, key, k) == WithKey(xs, key, k) + (if key(x) == k then [x] else [])
  {
    ElementsOfInsert(x, xs[1..], rest);
    InsertBehindSorted(x, xs, rest, key);
    InsertBehindMultiset(x, xs, rest);
    InsertBehindWithKey(x, xs, rest, key);
  }

  lemma InsertBehindMultiset<T>(x: T, xs: seq<T>, rest: seq<T>)
    requires xs != [] && multiset(rest) == multiset(xs[1..]) + multiset{x}
    ensures multiset([xs[0]] + rest) == multiset(xs) + multiset{x}
  {
    assert xs == [xs[0]] + xs[1..];
  }

  lemma InsertBehindWithKey<T>(x: T, xs: seq<T>, rest: seq<T>, key: T -> string)
    requires xs != []
    requires forall k :: WithKey(rest, key, k) == WithKey(xs[1..], key, k) + (if key(x) == k then [x] else [])
    ensures forall k :: WithKey([xs[0]] + rest, key, k) == WithKey(xs, key, k) + (if key(x) == k then [x] else [])
  {
    forall k
      ensures WithKey([xs[0]] + rest, key, k) == WithKey(xs, key, k) + (if key(x) == k then [x] else [])
    {
      WithKeyFront(xs[0], rest, key, k);
      WithKeyFront(xs[0], xs[1..], key, k);
      assert [xs[0]] + xs[1..] == xs;
    }
  }

  lemma WithKeyFront<T>(y: T, ys: seq<T>, key: T -> string, k: string)
    ensures WithKey([y] + ys, key, k) == (if key(y) == k then [y] else []) + WithKey(ys, key, k)
  {
    assert ([y] + ys)[1..] == ys;
  }

  /** `sorted(xs, key=key)`: sorted by key, a permutation of `xs`, and stable —
      the elements sharing a key keep their input order. */
  function SortBy<T(==)>(xs: seq<T>, key: T -> string): (r: seq<T>)
    ensures SortedBy(r, key)
    ensures multiset(r) == multiset(xs) && |r| == |xs|
    ensures forall k :: WithKey(r, key, k) == WithKey(xs, key, k)
    decreases |xs|
  {
    if xs == [] then []
    else
      var init := xs[..|xs| - 1];
      var last := xs[|xs| - 1];
      assert xs == init + [last];
      var r := Insert(last, SortBy(init, key), key);
      assert forall k :: WithKey(xs, key, k) == WithKey(init, key, k) + (if key(last) == k then [last] else []) by {
        forall k
          ensures WithKey(xs, key, k) == WithKey(init, key, k) + (if key(last) == k then [last] else [])
        {
          WithKeyAppend(init, last, key, k);
        }
      }
      assert |r| == |multiset(r)|;
      r
  }

  /** The elements with key `k` are exactly the elements of `xs` whose key
      is `k`. */
  lemma {:induction false} WithKeyMembers<T>(xs: seq<T>, key: T -> string, k: string)
    ensures forall x :: x in WithKey(xs, key, k) <==> x in xs && key(x) == k
    decreases |xs|
  {
    if xs != [] {
      WithKeyMembers(xs[1..], key, k);
      assert xs == [xs[0]] + xs[1..];
    }
  }

  lemma EmptyByKeys<T>(xs: seq<T>, ys: seq<T>, key: T -> string)
    requires forall k :: WithKey(xs, key, k) == WithKey(ys, key, k)
    ensures xs == [] <==> ys == []
  {
    if xs != [] {
      WithKeyMembers(xs, key, key(xs[0]));
      WithKeyMembers(ys, key, key(xs[0]));
      assert xs[0] in WithKey(ys, key, key(xs[0]));
    }
    if ys != [] {
      WithKeyMembers(xs, key, key(ys[0]));
      WithKeyMembers(ys, key, key(ys[0]));
      assert ys[0] in WithKey(xs, key, key(ys[0]));
    }
  }

  /** The head of a sorted sequence has a key no greater than any element's. */
  lemma HeadLeast<T>(xs: seq<T>, key: T -> string, y: T)
    requires SortedBy(xs, key) && y in xs
    ensures StrLe(key(xs[0]), key(y))
  {
    var j :| 0 <= j < |xs| && xs[j] == y;
    if j == 0 {
      StrLeRefl(key(y));
    }
  }

  /** A stable sort is unique: two sequences sorted by the same key that
      agree on the order of every key's elements are equal. So `SortBy` is
      the one sequence `StablySorted` describes. */
  lemma {:induction false} StableSortUnique<T>(a: seq<T>, b: seq<T>, key: T -> string)
    requires SortedBy(a, key) && SortedBy(b, key)
    requires forall k :: WithKey(a, key, k) == WithKey(b, key, k)
    ensures a == b
    decreases |a|
  {
    EmptyByKeys(a, b, key);
    if a != [] {
      var x, y := a[0], b[0];
      WithKeyMembers(a, key, key(y));
      WithKeyMembers(b, key, key(y));
      WithKeyMembers(a, key, key(x));
      WithKeyMembers(b, key, key(x));
      assert y in WithKey(a, key, key(y));
      assert x in WithKey(b, key, key(x));
      HeadLeast(a, key, y);
      HeadLeast(b, key, x);
      StrLeAntisym(key(x), key(y));
      forall k
        ensures WithKey(a, key, k) == (if key(x) == k then [x] else []) + WithKey(a[1..], key, k)
        ensures WithKey(b, key, k) == (if key(y) == k then [y] else []) + WithKey(b[1..], key, k)
      {
        WithKeyFront(x, a[1..], key, k);
        WithKeyFront(y, b[1..], key, k);
        assert [x] + a[1..] == a && [y] + b[1..] == b;
      }
      assert ([x] + WithKey(a[1..], key, key(x)))[0] == x;
      assert x == y;
      forall k
        ensures WithKey(a[1..], key, k) == WithKey(b[1..], key, k)
      {
        if key(x) == k {
          assert [x] + WithKey(a[1..], key, k) == [x] + WithKey(b[1..], key, k);
          assert ([x] + WithKey(a[1..], key, k))[1..] == WithKey(a[1..], key, k);
          assert ([x] + WithKey(b[1..], key, k))[1..] == WithKey(b[1..], key, k);
        } else {
          assert [] + WithKey(a[1..], key, k) == WithKey(a[1..], key, k);
          assert [] + WithKey(b[1..], key, k) == WithKey(b[1..], key, k);
        }
      }
      StableSortUnique(a[1..], b[1..], key);
      assert a == [x] + a[1..] && b == [y] + b[1..];
    }
  }

  /** `SortBy` is the stable sort of its input, and the only one. */
  lemma SortByIsStablySorted<T>(xs: seq<T>, sorted: seq<T>, key: T -> string)
    ensures StablySorted(sorted, xs, key) <==> sorted == SortBy(xs, key)
  {
    var r := SortBy(xs, key);
    if StablySorted(sorted, xs, key) {
      StableSortUnique(sorted, r, key);
    }
  }

  ghost predicate Distinct<T>(xs: seq<T>) {
    forall i, j :: 0 <= i < j < |xs| ==> xs[i] != xs[j]
  }

  lemma {:induction false} DistinctOnce<T>(xs: seq<T>, x: T)
    requires Distinct(xs)
    ensures multiset(xs)[x] <= 1
    decreases |xs|
  {
    if xs != [] {
      assert xs == [xs[0]] + xs[1..];
      DistinctOnce(xs[1..], x);
      if xs[0] == x {
        assert x !in xs[1..];
      }
    }
  }

  lemma TwiceCounted<T>(xs: seq<T>, i: int, j: int)
    requires 0 <= i < j < |xs|
    ensures xs[i] == xs[j] ==> multiset(xs)[xs[i]] >= 2
  {
    assert xs == xs[..j] + xs[j..];
    assert xs[i] in xs[..j];
    assert xs[j] in xs[j..];
  }

  /** A permutation of a sequence without repetitions has none either. */
  lemma PermutationKeepsDistinct<T>(xs: seq<T>, ys: seq<T>)
    requires multiset(xs) == multiset(ys) && Distinct(xs)
    ensures Distinct(ys)
  {
    forall i, j | 0 <= i < j < |ys|
      ensures ys[i] != ys[j]
    {
      TwiceCounted(ys, i, j);
      DistinctOnce(xs, ys[i]);
    }
  }
}

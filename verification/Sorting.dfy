/** Sorting by an integer key, as the C++ and Java code does with library sorts. */
module Sorting {

  ghost predicate SortedBy<T>(xs: seq<T>, key: T -> int) {
    forall i, j :: 0 <= i < j < |xs| ==> key(xs[i]) <= key(xs[j])
  }

  ghost predicate DistinctKeys<T>(xs: seq<T>, key: T -> int) {
    forall i, j :: 0 <= i < j < |xs| ==> key(xs[i]) != key(xs[j])
  }

  function Insert<T>(x: T, xs: seq<T>, key: T -> int): seq<T> {
    if |xs| == 0 || key(x) <= key(xs[0]) then [x] + xs else [xs[0]] + Insert(x, xs[1..], key)
  }

  function Sort<T>(xs: seq<T>, key: T -> int): seq<T> {
    if |xs| == 0 then [] else Insert(xs[0], Sort(xs[1..], key), key)
  }

  lemma {:induction false} InsertAdds<T>(x: T, xs: seq<T>, key: T -> int)
    ensures multiset(Insert(x, xs, key)) == multiset{x} + multiset(xs)
    ensures forall y :: y in Insert(x, xs, key) ==> y == x || y in xs
  {
    if |xs| > 0 && key(x) > key(xs[0]) {
      assert xs == [xs[0]] + xs[1..];
      InsertAdds(x, xs[1..], key);
    }
  }

  lemma {:induction false} InsertSorts<T>(x: T, xs: seq<T>, key: T -> int)
    requires SortedBy(xs, key)
    ensures SortedBy(Insert(x, xs, key), key)
  {
    if |xs| > 0 && key(x) > key(xs[0]) {
      InsertSorts(x, xs[1..], key);
      InsertAdds(x, xs[1..], key);
      PrependSmallest(xs[0], Insert(x, xs[1..], key), key);
    }
  }

  lemma PrependSmallest<T>(x: T, xs: seq<T>, key: T -> int)
    requires SortedBy(xs, key) && forall y :: y in xs ==> key(x) <= key(y)
    ensures SortedBy([x] + xs, key)
  {
  }

  /** The result is sorted and a permutation of the input. */
  lemma {:induction false} SortSorts<T>(xs: seq<T>, key: T -> int)
    ensures SortedBy(Sort(xs, key), key)
    ensures multiset(Sort(xs, key)) == multiset(xs)
    ensures |Sort(xs, key)| == |xs|
  {
    if |xs| > 0 {
      assert xs == [xs[0]] + xs[1..];
      SortSorts(xs[1..], key);
      InsertSorts(xs[0], Sort(xs[1..], key), key);
      InsertAdds(xs[0], Sort(xs[1..], key), key);
    }
    assert |multiset(Sort(xs, key))| == |Sort(xs, key)| && |multiset(xs)| == |xs|;
  }

  lemma SortMembers<T>(xs: seq<T>, key: T -> int)
    ensures forall x :: x in Sort(xs, key) <==> x in xs
  {
    SortSorts(xs, key);
    assert forall x :: x in Sort(xs, key) <==> x in multiset(Sort(xs, key));
    assert forall x :: x in xs <==> x in multiset(xs);
  }

  ghost predicate StrictlySortedBy<T>(xs: seq<T>, key: T -> int) {
    forall i, j :: 0 <= i < j < |xs| ==> key(xs[i]) < key(xs[j])
  }

  /** Distinct keys make the order strict. */
  lemma SortDistinct<T>(xs: seq<T>, key: T -> int)
    requires DistinctKeys(xs, key)
    ensures StrictlySortedBy(Sort(xs, key), key)
  {
    SortSorts(xs, key);
    var r := Sort(xs, key);
    forall i, j | 0 <= i < j < |r| ensures key(r[i]) != key(r[j]) {
      PermutationKeepsDistinct(xs, r, key, i, j);
    }
  }

  lemma PermutationKeepsDistinct<T>(xs: seq<T>, ys: seq<T>, key: T -> int, i: nat, j: nat)
    requires multiset(xs) == multiset(ys) && DistinctKeys(xs, key) && i < j < |ys|
    ensures key(ys[i]) != key(ys[j])
  {
    assert ys[i] in multiset(ys) && ys[j] in multiset(ys);
    var a :| 0 <= a < |xs| && xs[a] == ys[i];
    var b :| 0 <= b < |xs| && xs[b] == ys[j];
    if a == b {
      TwiceMeansTwo(ys, i, j);
      OnceIfDistinct(xs, key, a);
      assert false;
    }
  }

  lemma TwiceMeansTwo<T>(ys: seq<T>, i: nat, j: nat)
    requires i < j < |ys| && ys[i] == ys[j]
    ensures multiset(ys)[ys[i]] >= 2
  {
    assert ys == ys[..j] + ys[j..];
    assert ys[..j][i] == ys[i] && ys[j..][0] == ys[j];
    assert ys[i] in multiset(ys[..j]) && ys[j] in multiset(ys[j..]);
  }

  lemma OnceIfDistinct<T>(xs: seq<T>, key: T -> int, a: nat)
    requires a < |xs| && DistinctKeys(xs, key)
    ensures multiset(xs)[xs[a]] == 1
  {
    assert xs == xs[..a] + [xs[a]] + xs[a + 1..];
    assert xs[a] !in xs[..a] && xs[a] !in xs[a + 1..];
  }

  lemma SmallestFirst<T>(xs: seq<T>, ys: seq<T>, key: T -> int)
    requires StrictlySortedBy(xs, key) && StrictlySortedBy(ys, key) && multiset(xs) == multiset(ys) && |xs| > 0
    ensures |ys| > 0 && xs[0] == ys[0]
  {
    assert xs[0] in multiset(ys);
    var j :| 0 <= j < |ys| && ys[j] == xs[0];
    assert ys[0] in multiset(xs);
    var i :| 0 <= i < |xs| && xs[i] == ys[0];
  }

  lemma DropFirst<T>(xs: seq<T>)
    requires |xs| > 0
    ensures multiset(xs[1..]) == multiset(xs) - multiset{xs[0]}
  {
    assert xs == [xs[0]] + xs[1..];
  }

  lemma SameTails<T>(xs: seq<T>, ys: seq<T>)
    requires |xs| > 0 && |ys| > 0 && xs[0] == ys[0] && multiset(xs) == multiset(ys)
    ensures multiset(xs[1..]) == multiset(ys[1..])
  {
    DropFirst(xs);
    DropFirst(ys);
  }

  lemma TailStaysSorted<T>(xs: seq<T>, key: T -> int)
    requires StrictlySortedBy(xs, key) && |xs| > 0
    ensures StrictlySortedBy(xs[1..], key)
  {
  }

  /** With distinct keys there is only one sorted permutation, so any correct sort returns it. */
  lemma {:induction false} SortedPermutationIsUnique<T>(xs: seq<T>, ys: seq<T>, key: T -> int)
    requires StrictlySortedBy(xs, key) && StrictlySortedBy(ys, key) && multiset(xs) == multiset(ys)
    ensures xs == ys
  {
    if |xs| > 0 {
      SmallestFirst(xs, ys, key);
      TailStaysSorted(xs, key);
      TailStaysSorted(ys, key);
      hide StrictlySortedBy;
      SameTails(xs, ys);
      SortedPermutationIsUnique(xs[1..], ys[1..], key);
      assert xs == [xs[0]] + xs[1..] && ys == [ys[0]] + ys[1..];
    } else if |ys| > 0 {
      SmallestFirst(ys, xs, key);
    }
  }

  /** The elements with key k, in order. */
  ghost function WithKey<T(!new)>(xs: seq<T>, key: T -> int, k: int): seq<T> {
    if |xs| == 0 then [] else (if key(xs[0]) == k then [xs[0]] else []) + WithKey(xs[1..], key, k)
  }

  lemma WithKeyFirst<T(!new)>(x: T, xs: seq<T>, key: T -> int, k: int)
    ensures WithKey([x] + xs, key, k) == (if key(x) == k then [x] else []) + WithKey(xs, key, k)
  {
    assert ([x] + xs)[1..] == xs;
  }

  lemma {:induction false} InsertIsStable<T(!new)>(x: T, xs: seq<T>, key: T -> int, k: int)
    ensures WithKey(Insert(x, xs, key), key, k) == (if key(x) == k then [x] else []) + WithKey(xs, key, k)
  {
    hide WithKey;
    if |xs| == 0 || key(x) <= key(xs[0]) {
      WithKeyFirst(x, xs, key, k);
    } else {
      InsertIsStable(x, xs[1..], key, k);
      WithKeyFirst(xs[0], Insert(x, xs[1..], key), key, k);
      WithKeyFirst(xs[0], xs[1..], key, k);
      assert xs == [xs[0]] + xs[1..];
    }
  }

  /** Elements with equal keys keep their order, as in Java's list sort. */
  lemma {:induction false} SortIsStable<T(!new)>(xs: seq<T>, key: T -> int, k: int)
    ensures WithKey(Sort(xs, key), key, k) == WithKey(xs, key, k)
  {
    if |xs| > 0 {
      SortIsStable(xs[1..], key, k);
      InsertIsStable(xs[0], Sort(xs[1..], key), key, k);
    }
  }
}

/** Stable sorting by a numeric key, and what it keeps: the elements, and the order within each key. */
module Sorting {
  import opened Common

  ghost predicate SortedBy<T>(s: seq<T>, key: T -> nat) {
    forall i, j | 0 <= i < j < |s| :: key(s[i]) <= key(s[j])
  }

  /** The elements with one key, in the order they occur. */
  function Bucket<T>(s: seq<T>, key: T -> nat, k: nat): seq<T> {
    if s == [] then [] else (if key(s[0]) == k then [s[0]] else []) + Bucket(s[1..], key, k)
  }

  /** Goes before everything not smaller, so that earlier equals stay earlier. */
  function Insert<T>(x: T, s: seq<T>, key: T -> nat): seq<T> {
    if s == [] || key(x) <= key(s[0]) then [x] + s else [s[0]] + Insert(x, s[1..], key)
  }

  function StableSort<T>(s: seq<T>, key: T -> nat): seq<T> {
    if s == [] then [] else Insert(s[0], StableSort(s[1..], key), key)
  }

  lemma {:induction false} InsertKeeps<T>(x: T, s: seq<T>, key: T -> nat)
    ensures multiset(Insert(x, s, key)) == multiset{x} + multiset(s)
    ensures |Insert(x, s, key)| == 1 + |s|
  {
    if !(s == [] || key(x) <= key(s[0])) {
      InsertKeeps(x, s[1..], key);
      assert s == [s[0]] + s[1..];
    }
  }

  lemma {:induction false} InsertSorts<T>(x: T, s: seq<T>, key: T -> nat)
    requires SortedBy(s, key)
    ensures SortedBy(Insert(x, s, key), key)
  {
    if !(s == [] || key(x) <= key(s[0])) {
      InsertSorts(x, s[1..], key);
      InsertKeeps(x, s[1..], key);
      var r := Insert(x, s[1..], key);
      forall j | 0 <= j < |r| ensures key(s[0]) <= key(r[j]) {
        assert r[j] in multiset(r);
        assert r[j] == x || r[j] in s[1..];
      }
    }
  }

  lemma {:induction false} InsertKeepsBuckets<T>(x: T, s: seq<T>, key: T -> nat, k: nat)
    ensures Bucket(Insert(x, s, key), key, k) == Bucket([x] + s, key, k)
  {
    assert ([x] + s)[1..] == s;
    if !(s == [] || key(x) <= key(s[0])) {
      InsertKeepsBuckets(x, s[1..], key, k);
      assert ([s[0]] + Insert(x, s[1..], key))[1..] == Insert(x, s[1..], key);
      assert ([x] + s[1..])[1..] == s[1..];
    }
  }

  lemma {:induction false} StableSortSorts<T>(s: seq<T>, key: T -> nat)
    ensures SortedBy(StableSort(s, key), key)
    ensures multiset(StableSort(s, key)) == multiset(s)
    ensures |StableSort(s, key)| == |s|
  {
    if s != [] {
      hide Insert, SortedBy;
      StableSortSorts(s[1..], key);
      InsertSorts(s[0], StableSort(s[1..], key), key);
      InsertKeeps(s[0], StableSort(s[1..], key), key);
      assert s == [s[0]] + s[1..];
    }
  }

  lemma Remove<T>(s: seq<T>, i: nat, f: T -> nat)
    requires i < |s|
    ensures Sum(s, f) == f(s[i]) + Sum(s[..i] + s[i + 1..], f)
  {
    hide Sum;
    SumSplit(s, i, f);
    SumConcat(s[..i], s[i + 1..], f);
  }

  lemma RemoveOne<T>(s: seq<T>, i: nat)
    requires i < |s|
    ensures multiset(s[..i] + s[i + 1..]) == multiset(s) - multiset{s[i]}
  {
    assert s == s[..i] + [s[i]] + s[i + 1..];
  }

  lemma Pick<T>(a: seq<T>, b: seq<T>) returns (i: nat)
    requires multiset(a) == multiset(b) && a != []
    ensures i < |b| && b[i] == a[0] && multiset(a[1..]) == multiset(b[..i] + b[i + 1..])
  {
    assert a[0] in multiset(b);
    i :| 0 <= i < |b| && b[i] == a[0];
    RemoveOne(a, 0);
    RemoveOne(b, i);
    assert a[..0] + a[1..] == a[1..];
  }

  /** A sum does not depend on the order. */
  lemma {:induction false} SumPermutes<T>(a: seq<T>, b: seq<T>, f: T -> nat)
    requires multiset(a) == multiset(b)
    ensures Sum(a, f) == Sum(b, f)
    decreases |a|
  {
    if a == [] {
      assert |b| == |multiset(b)| == 0;
    } else {
      var i := Pick(a, b);
      Remove(b, i, f);
      SumPermutes(a[1..], b[..i] + b[i + 1..], f);
    }
  }

  /** Elements of weight one up to position n make the sum exceed n. */
  lemma PrefixSum<T>(s: seq<T>, n: nat, f: T -> nat)
    requires n < |s| && forall k | 0 <= k <= n :: f(s[k]) >= 1
    ensures Sum(s, f) > n
  {
    assert s == s[..n + 1] + s[n + 1..];
    SumConcat(s[..n + 1], s[n + 1..], f);
    AtLeastLength(s[..n + 1], f);
  }

  lemma {:induction false} AtLeastLength<T>(s: seq<T>, f: T -> nat)
    requires forall k | 0 <= k < |s| :: f(s[k]) >= 1
    ensures Sum(s, f) >= |s|
  {
    if s != [] {
      AtLeastLength(s[1..], f);
    }
  }

  /** The sort is stable: within each key nothing moves. */
  lemma {:induction false} StableSortIsStable<T>(s: seq<T>, key: T -> nat, k: nat)
    ensures Bucket(StableSort(s, key), key, k) == Bucket(s, key, k)
  {
    if s != [] {
      StableSortIsStable(s[1..], key, k);
      InsertKeepsBuckets(s[0], StableSort(s[1..], key), key, k);
      assert ([s[0]] + StableSort(s[1..], key))[1..] == StableSort(s[1..], key);
    }
  }

  predicate Ascending(s: seq<nat>) {
    forall i, j | 0 <= i < j < |s| :: s[i] <= s[j]
  }

  lemma SameLeast(a: seq<nat>, b: seq<nat>)
    requires Ascending(a) && Ascending(b) && multiset(a) == multiset(b) && a != []
    ensures b != [] && a[0] == b[0]
  {
    assert a[0] in multiset(b);
    assert b[0] in multiset(a);
  }

  /** Numbers have one ascending arrangement. */
  lemma {:induction false} AscendingUnique(a: seq<nat>, b: seq<nat>)
    requires Ascending(a) && Ascending(b) && multiset(a) == multiset(b)
    ensures a == b
  {
    if a == [] {
      assert |b| == |multiset(b)| == 0;
    } else {
      SameLeast(a, b);
      assert a == [a[0]] + a[1..] && b == [b[0]] + b[1..];
      SameTails(a[0], a[1..], b[1..]);
      AscendingUnique(a[1..], b[1..]);
    }
  }

  lemma SameTails(x: nat, a: seq<nat>, b: seq<nat>)
    requires multiset([x] + a) == multiset([x] + b)
    ensures multiset(a) == multiset(b)
  {
    assert multiset(a) == multiset([x] + a) - multiset{x};
    assert multiset(b) == multiset([x] + b) - multiset{x};
  }

  lemma {:induction false} BucketConcat<T>(a: seq<T>, b: seq<T>, key: T -> nat, k: nat)
    ensures Bucket(a + b, key, k) == Bucket(a, key, k) + Bucket(b, key, k)
  {
    if a == [] {
      assert a + b == b;
    } else {
      assert (a + b)[1..] == a[1..] + b;
      BucketConcat(a[1..], b, key, k);
      var head := if key(a[0]) == k then [a[0]] else [];
      assert head + (Bucket(a[1..], key, k) + Bucket(b, key, k)) == (head + Bucket(a[1..], key, k)) + Bucket(b, key, k);
    }
  }

  lemma {:induction false} BucketMembers<T>(s: seq<T>, key: T -> nat, k: nat)
    ensures forall x :: x in Bucket(s, key, k) <==> x in s && key(x) == k
  {
    if s != [] {
      BucketMembers(s[1..], key, k);
      assert forall x :: x in s <==> x == s[0] || x in s[1..];
    }
  }

  lemma {:induction false} BucketUniform<T>(s: seq<T>, key: T -> nat, i: nat, k: nat)
    requires forall x | x in s :: key(x) == i
    ensures Bucket(s, key, k) == if k == i then s else []
  {
    if s != [] {
      assert s[0] in s && forall x | x in s[1..] :: x in s;
      BucketUniform(s[1..], key, i, k);
    }
  }

  function Map<T, U>(s: seq<T>, f: T -> U): (r: seq<U>)
    ensures |r| == |s| && forall k | 0 <= k < |s| :: r[k] == f(s[k])
  {
    if s == [] then [] else [f(s[0])] + Map(s[1..], f)
  }

  lemma {:induction false} MapInsert<T, U>(x: T, s: seq<T>, key: T -> nat, f: T -> U)
    ensures multiset(Map(Insert(x, s, key), f)) == multiset{f(x)} + multiset(Map(s, f))
  {
    if s == [] || key(x) <= key(s[0]) {
      assert ([x] + s)[1..] == s;
    } else {
      MapInsert(x, s[1..], key, f);
      var r := Insert(x, s[1..], key);
      assert ([s[0]] + r)[1..] == r;
    }
  }

  /** Sorting before a map loses nothing of the map's values. */
  lemma {:induction false} MapSort<T, U>(s: seq<T>, key: T -> nat, f: T -> U)
    ensures multiset(Map(StableSort(s, key), f)) == multiset(Map(s, f))
  {
    if s != [] {
      MapSort(s[1..], key, f);
      MapInsert(s[0], StableSort(s[1..], key), key, f);
    }
  }
}

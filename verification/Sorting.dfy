/** The host language's `sort`: ascending by a key, and stable. */
module Sorting {
  function Insert<T>(x: T, s: seq<T>, key: T -> real): seq<T> {
    if s == [] || key(x) <= key(s[0]) then [x] + s else [s[0]] + Insert(x, s[1..], key)
  }

  function Sort<T>(s: seq<T>, key: T -> real): seq<T> {
    if s == [] then [] else Insert(s[0], Sort(s[1..], key), key)
  }

  predicate Ascending<T>(s: seq<T>, key: T -> real) {
    forall i, j :: 0 <= i < j < |s| ==> key(s[i]) <= key(s[j])
  }

  /** The elements with key `v`, in order. */
  function Class<T>(s: seq<T>, key: T -> real, v: real): seq<T> {
    if s == [] then []
    else if key(s[0]) == v then [s[0]] + Class(s[1..], key, v)
    else Class(s[1..], key, v)
  }

  lemma {:induction false} InsertPermutes<T>(x: T, s: seq<T>, key: T -> real)
    ensures multiset(Insert(x, s, key)) == multiset{x} + multiset(s)
  {
    if s != [] && key(x) > key(s[0]) {
      InsertPermutes(x, s[1..], key);
      assert s == [s[0]] + s[1..];
    }
  }

  predicate Above<T>(s: seq<T>, key: T -> real, low: real) {
    forall i :: 0 <= i < |s| ==> low <= key(s[i])
  }

  lemma {:induction false} InsertAbove<T>(x: T, s: seq<T>, key: T -> real, low: real)
    requires Above(s, key, low) && low <= key(x)
    ensures Above(Insert(x, s, key), key, low)
  {
    if s != [] && key(x) > key(s[0]) {
      InsertAbove(x, s[1..], key, low);
    }
  }

  lemma {:induction false} InsertSorted<T>(x: T, s: seq<T>, key: T -> real)
    requires Ascending(s, key)
    ensures Ascending(Insert(x, s, key), key)
  {
    if s != [] && key(x) > key(s[0]) {
      InsertSorted(x, s[1..], key);
      InsertAbove(x, s[1..], key, key(s[0]));
    }
  }

  lemma {:induction false} InsertClass<T>(x: T, s: seq<T>, key: T -> real, v: real)
    requires Ascending(s, key)
    ensures Class(Insert(x, s, key), key, v) == (if key(x) == v then [x] else []) + Class(s, key, v)
  {
    if s == [] || key(x) <= key(s[0]) {
      assert ([x] + s)[1..] == s;
    } else {
      var rest := Insert(x, s[1..], key);
      InsertClass(x, s[1..], key, v);
      assert ([s[0]] + rest)[1..] == rest;
    }
  }

  /** `Sort` orders its input, permutes it, and keeps elements of equal key in their order. */
  lemma {:induction false} SortIsStable<T>(s: seq<T>, key: T -> real)
    ensures Ascending(Sort(s, key), key)
    ensures multiset(Sort(s, key)) == multiset(s) && |Sort(s, key)| == |s|
    ensures forall v :: Class(Sort(s, key), key, v) == Class(s, key, v)
  {
    if s != [] {
      var rest := Sort(s[1..], key);
      SortIsStable(s[1..], key);
      InsertSorted(s[0], rest, key);
      InsertPermutes(s[0], rest, key);
      assert s == [s[0]] + s[1..];
      forall v ensures Class(Sort(s, key), key, v) == Class(s, key, v) {
        InsertClass(s[0], rest, key, v);
      }
      SameSize(Sort(s, key), s);
    }
  }

  lemma SameSize<T>(a: seq<T>, b: seq<T>)
    requires multiset(a) == multiset(b)
    ensures |a| == |b|
  {
    assert |multiset(a)| == |a| && |multiset(b)| == |b|;
  }

  /** Those three facts leave no choice: any such arrangement is the one `Sort` returns. */
  lemma {:induction false} StableSortIsUnique<T>(a: seq<T>, b: seq<T>, key: T -> real)
    requires Ascending(a, key) && Ascending(b, key)
    requires forall v :: Class(a, key, v) == Class(b, key, v)
    ensures a == b
  {
    if a == [] {
      if b != [] { assert Class(b, key, key(b[0])) != []; }
    } else {
      assert Class(b, key, key(a[0])) != [];
      HeadBelow(b, key, key(a[0]));
      HeadBelow(a, key, key(b[0]));
      assert Class(b, key, key(b[0])) != [];
      var v := key(a[0]);
      assert key(b[0]) == v;
      assert Class(a, key, v)[0] == a[0] && Class(b, key, v)[0] == b[0];
      forall w ensures Class(a[1..], key, w) == Class(b[1..], key, w) {
        if w == v {
          assert Class(a, key, w)[1..] == Class(a[1..], key, w);
          assert Class(b, key, w)[1..] == Class(b[1..], key, w);
        }
        assert Class(a, key, w) == Class(b, key, w);
      }
      StableSortIsUnique(a[1..], b[1..], key);
    }
  }

  lemma {:induction false} HeadBelow<T>(s: seq<T>, key: T -> real, v: real)
    requires Ascending(s, key) && Class(s, key, v) != []
    ensures s != [] && key(s[0]) <= v
  {
    if key(s[0]) != v {
      HeadBelow(s[1..], key, v);
    }
  }

  lemma {:induction false} InsertMembers<T>(x: T, s: seq<T>, key: T -> real, e: T)
    ensures e in Insert(x, s, key) <==> e == x || e in s
  {
    if s != [] && key(x) > key(s[0]) {
      InsertMembers(x, s[1..], key, e);
      assert e in s <==> e == s[0] || e in s[1..];
    }
  }

  lemma {:induction false} SortMembers<T>(s: seq<T>, key: T -> real, e: T)
    ensures e in Sort(s, key) <==> e in s
  {
    if s != [] {
      SortMembers(s[1..], key, e);
      InsertMembers(s[0], Sort(s[1..], key), key, e);
      assert e in s <==> e == s[0] || e in s[1..];
    }
  }

  /** No two elements have the same identity. */
  predicate DistinctBy<T, K(==)>(s: seq<T>, id: T -> K) {
    forall i, j :: 0 <= i < j < |s| ==> id(s[i]) != id(s[j])
  }

  lemma {:induction false} InsertDistinct<T, K>(x: T, s: seq<T>, key: T -> real, id: T -> K)
    requires DistinctBy(s, id) && forall e :: e in s ==> id(e) != id(x)
    ensures DistinctBy(Insert(x, s, key), id)
  {
    if s != [] && key(x) > key(s[0]) {
      InsertDistinct(x, s[1..], key, id);
      var rest := Insert(x, s[1..], key);
      forall j | 0 <= j < |rest| ensures id(s[0]) != id(rest[j]) {
        InsertMembers(x, s[1..], key, rest[j]);
      }
    }
  }

  lemma {:induction false} SortDistinct<T, K>(s: seq<T>, key: T -> real, id: T -> K)
    requires DistinctBy(s, id)
    ensures DistinctBy(Sort(s, key), id)
  {
    if s != [] {
      var rest := Sort(s[1..], key);
      SortDistinct(s[1..], key, id);
      forall e | e in rest ensures id(e) != id(s[0]) {
        SortMembers(s[1..], key, e);
      }
      InsertDistinct(s[0], rest, key, id);
    }
  }

  /** Sorting leaves what is in order alone. */
  lemma {:induction false} SortOfAscending<T>(s: seq<T>, key: T -> real)
    requires Ascending(s, key)
    ensures Sort(s, key) == s
  {
    if s != [] {
      SortOfAscending(s[1..], key);
      assert |s| > 1 ==> key(s[0]) <= key(s[1]);
      assert [s[0]] + s[1..] == s;
    }
  }
}

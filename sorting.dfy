/**
 * `Vec::sort_by_key` as both `load_outbound_range` implementations of src/storage.rs use it: a stable
 * sort of (key, value) pairs on a `u32` key. The library's algorithm is not part of this model, so the
 * sort is given by a reference definition (insertion) and its three promises are proved about it:
 * ascending keys, the same elements, and equal keys kept in their original order.
 */
module Sorting {
  import opened Bytes

  predicate SortedByKey<T>(s: seq<(U32, T)>)
  {
    forall i, j :: 0 <= i < j < |s| ==> s[i].0 <= s[j].0
  }

  /** The pairs of `s` whose key is `k`, in the order of `s`. */
  function WithKey<T>(s: seq<(U32, T)>, k: U32): seq<(U32, T)>
  {
    if s == [] then [] else (if s[0].0 == k then [s[0]] else []) + WithKey(s[1..], k)
  }

  /** `x` placed before the first pair whose key is not smaller than its own. */
  function Insert<T>(x: (U32, T), s: seq<(U32, T)>): (r: seq<(U32, T)>)
    ensures |r| == |s| + 1 && (r[0] == x || (s != [] && r[0] == s[0]))
  {
    if s == [] || x.0 <= s[0].0 then [x] + s else [s[0]] + Insert(x, s[1..])
  }

  lemma {:induction false} InsertSorted<T>(x: (U32, T), s: seq<(U32, T)>)
    requires SortedByKey(s)
    ensures SortedByKey(Insert(x, s))
  {
    if s != [] && s[0].0 < x.0 {
      var tail := Insert(x, s[1..]);
      InsertSorted(x, s[1..]);
      assert s[0].0 <= tail[0].0;
      assert forall j :: 0 <= j < |tail| ==> s[0].0 <= tail[j].0;
    }
  }

  lemma {:induction false} InsertElements<T>(x: (U32, T), s: seq<(U32, T)>)
    ensures multiset(Insert(x, s)) == multiset(s) + multiset{x}
  {
    if s != [] && s[0].0 < x.0 {
      InsertElements(x, s[1..]);
      assert s == [s[0]] + s[1..];
    }
  }

  function SortByKey<T>(s: seq<(U32, T)>): (r: seq<(U32, T)>)
    ensures |r| == |s|
    ensures multiset(r) == multiset(s)
    ensures SortedByKey(r)
  {
    if s == [] then []
    else
      var sorted := SortByKey(s[1..]);
      InsertSorted(s[0], sorted);
      InsertElements(s[0], sorted);
      assert s == [s[0]] + s[1..];
      Insert(s[0], sorted)
  }

  lemma {:induction false} InsertWithKey<T>(x: (U32, T), s: seq<(U32, T)>, k: U32)
    ensures WithKey(Insert(x, s), k) == (if x.0 == k then [x] else []) + WithKey(s, k)
  {
    if s == [] || x.0 <= s[0].0 {
      assert ([x] + s)[1..] == s;
    } else {
      InsertWithKey(x, s[1..], k);
      assert ([s[0]] + Insert(x, s[1..]))[1..] == Insert(x, s[1..]);
    }
  }

  /** The sort is stable: for every key, the pairs holding it keep their relative order. */
  lemma {:induction false} SortByKeyStable<T>(s: seq<(U32, T)>, k: U32)
    ensures WithKey(SortByKey(s), k) == WithKey(s, k)
  {
    if s != [] {
      SortByKeyStable(s[1..], k);
      InsertWithKey(s[0], SortByKey(s[1..]), k);
    }
  }

  /** The values of the pairs, in order. */
  function Values<T>(s: seq<(U32, T)>): (r: seq<T>)
    ensures |r| == |s| && forall i :: 0 <= i < |s| ==> r[i] == s[i].1
  {
    if s == [] then [] else [s[0].1] + Values(s[1..])
  }

  /** Each pair's value replaced by `f` of it, the key kept. */
  function MapValues<T, U>(s: seq<(U32, T)>, f: T -> U): (r: seq<(U32, U)>)
    ensures |r| == |s| && forall i :: 0 <= i < |s| ==> r[i] == (s[i].0, f(s[i].1))
  {
    if s == [] then [] else [(s[0].0, f(s[0].1))] + MapValues(s[1..], f)
  }

  lemma {:induction false} InsertMapValues<T, U>(x: (U32, T), s: seq<(U32, T)>, f: T -> U)
    ensures MapValues(Insert(x, s), f) == Insert((x.0, f(x.1)), MapValues(s, f))
  {
    if s == [] || x.0 <= s[0].0 {
      assert MapValues([x] + s, f) == [(x.0, f(x.1))] + MapValues(s, f);
    } else {
      InsertMapValues(x, s[1..], f);
      assert MapValues(s, f)[1..] == MapValues(s[1..], f);
      assert MapValues([s[0]] + Insert(x, s[1..]), f) == [(s[0].0, f(s[0].1))] + MapValues(Insert(x, s[1..]), f);
    }
  }

  /** Sorting only looks at keys: sorting and then rewriting the values is rewriting and then sorting. */
  lemma {:induction false} SortByKeyMapValues<T, U>(s: seq<(U32, T)>, f: T -> U)
    ensures MapValues(SortByKey(s), f) == SortByKey(MapValues(s, f))
  {
    if s != [] {
      SortByKeyMapValues(s[1..], f);
      InsertMapValues(s[0], SortByKey(s[1..]), f);
      assert MapValues(s, f)[1..] == MapValues(s[1..], f);
    }
  }

  /** The pairs whose key lies in `[begin, end]`, in order. */
  function InRange<T>(s: seq<(U32, T)>, begin: U32, end: U32): (r: seq<(U32, T)>)
    ensures |r| <= |s|
    ensures forall i :: 0 <= i < |r| ==> begin <= r[i].0 <= end && r[i] in s
  {
    if s == [] then []
    else InRange(s[..|s| - 1], begin, end) + (if begin <= s[|s| - 1].0 <= end then [s[|s| - 1]] else [])
  }

  /** Rewriting values distributes over concatenation. */
  lemma MapValuesAppend<T, U>(a: seq<(U32, T)>, b: seq<(U32, T)>, f: T -> U)
    ensures MapValues(a + b, f) == MapValues(a, f) + MapValues(b, f)
  {
    assert |MapValues(a + b, f)| == |MapValues(a, f) + MapValues(b, f)|;
    forall i | 0 <= i < |a + b|
      ensures MapValues(a + b, f)[i] == (MapValues(a, f) + MapValues(b, f))[i]
    {
      if i >= |a| {
        assert (a + b)[i] == b[i - |a|];
      }
    }
  }

  lemma InRangeSnoc<T>(a: seq<(U32, T)>, x: (U32, T), begin: U32, end: U32)
    ensures InRange(a + [x], begin, end) == InRange(a, begin, end) + (if begin <= x.0 <= end then [x] else [])
  {
    assert (a + [x])[..|a|] == a;
  }

  lemma MapValuesSnoc<T, U>(a: seq<(U32, T)>, x: (U32, T), f: T -> U)
    ensures MapValues(a + [x], f) == MapValues(a, f) + [(x.0, f(x.1))]
  {
    MapValuesAppend(a, [x], f);
  }

  /** Selecting by key and rewriting values commute. */
  lemma {:induction false} InRangeMapValues<T, U>(s: seq<(U32, T)>, f: T -> U, begin: U32, end: U32)
    ensures InRange(MapValues(s, f), begin, end) == MapValues(InRange(s, begin, end), f)
  {
    if s != [] {
      var init := s[..|s| - 1];
      var last := s[|s| - 1];
      assert s == init + [last];
      InRangeMapValues(init, f, begin, end);
      MapValuesSnoc(init, last, f);
      InRangeSnoc(MapValues(init, f), (last.0, f(last.1)), begin, end);
      InRangeSnoc(init, last, begin, end);
      if begin <= last.0 <= end {
        MapValuesSnoc(InRange(init, begin, end), last, f);
      }
    }
  }

  lemma ValuesSnoc<T>(a: seq<(U32, T)>, x: (U32, T))
    ensures Values(a + [x]) == Values(a) + [x.1]
  {
    assert forall i :: 0 <= i < |a| ==> (a + [x])[i] == a[i];
  }

  /** Choosing the entries in range and sorting them keeps only entries of `s`. */
  lemma SortedInRangeFrom<T>(s: seq<(U32, T)>, begin: U32, end: U32)
    ensures forall x :: x in SortByKey(InRange(s, begin, end)) ==> x in s
  {
    forall x | x in SortByKey(InRange(s, begin, end))
      ensures x in s
    {
      var r := InRange(s, begin, end);
      assert x in multiset(SortByKey(r));
      assert x in multiset(r);
      var j :| 0 <= j < |r| && r[j] == x;
    }
  }

  /** A nonempty sequence is its front followed by its last element. */
  lemma SnocSplit<T>(s: seq<T>)
    requires s != []
    ensures s == s[..|s| - 1] + [s[|s| - 1]]
  {
  }
  /** Appending is associative; stated on plain variables, which keeps the steps that use it cheap. */
  lemma AppendAssoc<T>(a: seq<T>, b: seq<T>, c: seq<T>)
    ensures a + b + c == a + (b + c)
  {
  }
}

/** Python's `sorted(xs, key=..., reverse=...)` is a stable sort: it orders
    the elements by a total preorder and keeps elements that tie in their
    input order. `SortBy` is that sort, written as an insertion sort, with
    the three facts that determine its result proved about it: it is a
    permutation, it is sorted, and every class of tied elements keeps its
    input order. */
module Sorting {

  /** `le` orders every pair and is transitive. */
  ghost predicate TotalPreorder<T(!new)>(le: (T, T) -> bool)
  {
    && (forall a, b :: le(a, b) || le(b, a))
    && (forall a, b, c :: le(a, b) && le(b, c) ==> le(a, c))
  }

  predicate Sorted<T>(s: seq<T>, le: (T, T) -> bool)
  {
    forall i, j :: 0 <= i < j < |s| ==> le(s[i], s[j])
  }

  /** Inserts `x` after every element that `le` puts at or before it. */
  function InsertBy<T>(x: T, s: seq<T>, le: (T, T) -> bool): (r: seq<T>)
    ensures |r| == |s| + 1
  {
    if s == [] then [x]
    else if le(s[0], x) then [s[0]] + InsertBy(x, s[1..], le)
    else [x] + s
  }

  lemma {:induction false} InsertByPermutes<T>(x: T, s: seq<T>, le: (T, T) -> bool)
    ensures multiset(InsertBy(x, s, le)) == multiset(s) + multiset{x}
    decreases |s|
  {
    if s != [] && le(s[0], x) {
      InsertByPermutes(x, s[1..], le);
      assert s == [s[0]] + s[1..];
    }
  }

  /** The stable sort of `s` by `le`. */
  function SortBy<T>(s: seq<T>, le: (T, T) -> bool): (r: seq<T>)
    ensures |r| == |s|
  {
    if s == [] then [] else InsertBy(s[|s| - 1], SortBy(s[..|s| - 1], le), le)
  }

  /** `SortBy` returns a permutation of its input. */
  lemma {:induction false} SortByPermutes<T>(s: seq<T>, le: (T, T) -> bool)
    ensures multiset(SortBy(s, le)) == multiset(s)
    decreases |s|
  {
    if s != [] {
      SortByPermutes(s[..|s| - 1], le);
      InsertByPermutes(s[|s| - 1], SortBy(s[..|s| - 1], le), le);
      assert s == s[..|s| - 1] + [s[|s| - 1]];
    }
  }

  lemma {:induction false} InsertBySorted<T(!new)>(x: T, s: seq<T>, le: (T, T) -> bool)
    requires TotalPreorder(le)
    requires Sorted(s, le)
    ensures Sorted(InsertBy(x, s, le), le)
    decreases |s|
  {
    if s != [] {
      var r := InsertBy(x, s, le);
      if le(s[0], x) {
        var rest := InsertBy(x, s[1..], le);
        InsertBySorted(x, s[1..], le);
        InsertByPermutes(x, s[1..], le);
        assert r == [s[0]] + rest;
        forall j | 0 <= j < |rest| ensures le(s[0], rest[j]) {
          assert rest[j] in multiset(rest);
          assert rest[j] == x || rest[j] in multiset(s[1..]);
        }
      } else {
        assert le(x, s[0]);
        assert r == [x] + s;
      }
    }
  }

  /** `SortBy` returns a sorted sequence. */
  lemma {:induction false} SortBySorted<T(!new)>(s: seq<T>, le: (T, T) -> bool)
    requires TotalPreorder(le)
    ensures Sorted(SortBy(s, le), le)
    decreases |s|
  {
    if s != [] {
      SortBySorted(s[..|s| - 1], le);
      InsertBySorted(s[|s| - 1], SortBy(s[..|s| - 1], le), le);
    }
  }

  /** The elements of `s` that tie with `c` (each is at or before the
      other under `le`), in their order in `s`. */
  function Ties<T>(s: seq<T>, le: (T, T) -> bool, c: T): seq<T>
  {
    if s == [] then []
    else (if le(s[0], c) && le(c, s[0]) then [s[0]] else []) + Ties(s[1..], le, c)
  }

  lemma {:induction false} TiesAppend<T>(a: seq<T>, b: seq<T>, le: (T, T) -> bool, c: T)
    ensures Ties(a + b, le, c) == Ties(a, le, c) + Ties(b, le, c)
    decreases |a|
  {
    if a == [] {
      assert a + b == b;
    } else {
      var first := if le(a[0], c) && le(c, a[0]) then [a[0]] else [];
      TiesAppend(a[1..], b, le, c);
      assert (a + b)[0] == a[0] && (a + b)[1..] == a[1..] + b;
      assert Ties(a + b, le, c) == first + Ties(a[1..] + b, le, c);
    }
  }

  /** In a sorted sequence that starts strictly after `x`, nothing ties with
      anything that ties with `x`. */
  lemma {:induction false} NoTiesAfter<T(!new)>(x: T, s: seq<T>, le: (T, T) -> bool, c: T)
    requires TotalPreorder(le)
    requires Sorted(s, le)
    requires s != [] && !le(s[0], x)
    requires le(x, c) && le(c, x)
    ensures Ties(s, le, c) == []
    decreases |s|
  {
    if |s| > 1 {
      assert !le(s[1], x);
      NoTiesAfter(x, s[1..], le, c);
    }
    assert !le(s[0], c);
  }

  lemma InsertByTiesStep<T>(x: T, s: seq<T>, le: (T, T) -> bool, c: T)
    requires s != [] && le(s[0], x)
    requires Ties(InsertBy(x, s[1..], le), le, c) ==
             Ties(s[1..], le, c) + (if le(x, c) && le(c, x) then [x] else [])
    ensures Ties(InsertBy(x, s, le), le, c) ==
            Ties(s, le, c) + (if le(x, c) && le(c, x) then [x] else [])
  {
    var rest := InsertBy(x, s[1..], le);
    var r := [s[0]] + rest;
    var first := if le(s[0], c) && le(c, s[0]) then [s[0]] else [];
    assert InsertBy(x, s, le) == r;
    assert r[0] == s[0] && r[1..] == rest;
    assert Ties(r, le, c) == first + Ties(rest, le, c);
    assert Ties(s, le, c) == first + Ties(s[1..], le, c);
  }

  lemma {:induction false} InsertByTies<T(!new)>(x: T, s: seq<T>, le: (T, T) -> bool, c: T)
    requires TotalPreorder(le)
    requires Sorted(s, le)
    ensures Ties(InsertBy(x, s, le), le, c) ==
            Ties(s, le, c) + (if le(x, c) && le(c, x) then [x] else [])
    decreases |s|
  {
    if s == [] {
    } else if le(s[0], x) {
      InsertByTies(x, s[1..], le, c);
      InsertByTiesStep(x, s, le, c);
    } else {
      assert ([x] + s)[1..] == s;
      if le(x, c) && le(c, x) {
        NoTiesAfter(x, s, le, c);
      }
    }
  }

  /** `SortBy` is stable: the elements that tie with any `c` come out in
      the order they went in. */
  lemma {:induction false} SortByStable<T(!new)>(s: seq<T>, le: (T, T) -> bool, c: T)
    requires TotalPreorder(le)
    ensures Ties(SortBy(s, le), le, c) == Ties(s, le, c)
    decreases |s|
  {
    if s != [] {
      var init, x := s[..|s| - 1], s[|s| - 1];
      SortByStable(init, le, c);
      SortBySorted(init, le);
      InsertByTies(x, SortBy(init, le), le, c);
      assert s == init + [x];
      TiesAppend(init, [x], le, c);
    }
  }

  /** No two elements of `s` share a key. */
  predicate DistinctBy<T, K(==)>(s: seq<T>, key: T -> K)
  {
    forall i, j :: 0 <= i < j < |s| ==> key(s[i]) != key(s[j])
  }

  lemma {:induction false} InsertByDistinct<T, K>(x: T, s: seq<T>, le: (T, T) -> bool, key: T -> K)
    requires DistinctBy(s, key)
    requires forall y :: y in s ==> key(y) != key(x)
    ensures DistinctBy(InsertBy(x, s, le), key)
    decreases |s|
  {
    if s != [] && le(s[0], x) {
      var rest := InsertBy(x, s[1..], le);
      InsertByDistinct(x, s[1..], le, key);
      InsertByPermutes(x, s[1..], le);
      forall j | 0 <= j < |rest| ensures key(s[0]) != key(rest[j]) {
        assert rest[j] in multiset(rest);
        assert rest[j] == x || rest[j] in multiset(s[1..]);
      }
      assert InsertBy(x, s, le) == [s[0]] + rest;
    }
  }

  /** Sorting keeps the keys pairwise distinct. */
  lemma {:induction false} SortByDistinct<T, K>(s: seq<T>, le: (T, T) -> bool, key: T -> K)
    requires DistinctBy(s, key)
    ensures DistinctBy(SortBy(s, le), key)
    decreases |s|
  {
    if s != [] {
      var init, x := s[..|s| - 1], s[|s| - 1];
      SortByDistinct(init, le, key);
      SortByPermutes(init, le);
      forall y | y in SortBy(init, le) ensures key(y) != key(x) {
        assert y in multiset(SortBy(init, le));
        var i :| 0 <= i < |init| && init[i] == y;
        assert s[i] == y;
      }
      InsertByDistinct(x, SortBy(init, le), le, key);
    }
  }

  function Min(a: int, b: int): int
  {
    if a < b then a else b
  }

  /** `sorted(s, ...)[:n]`: the first `n` elements of the stable sort. */
  function TopBy<T>(s: seq<T>, le: (T, T) -> bool, n: nat): (top: seq<T>)
    ensures |top| == Min(n, |s|)
  {
    SortBy(s, le)[..Min(n, |s|)]
  }

  /** The ties with `c` in a prefix are a prefix of the ties in the whole. */
  lemma TiesPrefix<T>(s: seq<T>, n: nat, le: (T, T) -> bool, c: T)
    requires n <= |s|
    ensures Ties(s, le, c) == Ties(s[..n], le, c) + Ties(s[n..], le, c)
  {
    assert s == s[..n] + s[n..];
    TiesAppend(s[..n], s[n..], le, c);
  }

  /** `TopBy` keeps elements of its input, each at most as often as it occurs. */
  lemma TopByFromInput<T>(s: seq<T>, le: (T, T) -> bool, n: nat)
    ensures multiset(TopBy(s, le, n)) <= multiset(s)
  {
    var sorted := SortBy(s, le);
    var m := Min(n, |s|);
    SortByPermutes(s, le);
    assert sorted == sorted[..m] + sorted[m..];
    assert multiset(sorted) == multiset(sorted[..m]) + multiset(sorted[m..]);
  }

  /** `TopBy` returns its elements in `le` order. */
  lemma TopBySorted<T(!new)>(s: seq<T>, le: (T, T) -> bool, n: nat)
    requires TotalPreorder(le)
    ensures Sorted(TopBy(s, le, n), le)
  {
    SortBySorted(s, le);
  }

  /** Nothing `TopBy` leaves out ranks before anything it keeps. */
  lemma TopByDominates<T(!new)>(s: seq<T>, le: (T, T) -> bool, n: nat)
    requires TotalPreorder(le)
    ensures forall x :: x in s ==>
              x in multiset(TopBy(s, le, n)) || forall y :: y in TopBy(s, le, n) ==> le(y, x)
  {
    var sorted := SortBy(s, le);
    var m := Min(n, |s|);
    var top := sorted[..m];
    SortByPermutes(s, le);
    SortBySorted(s, le);
    forall x | x in s
      ensures x in multiset(top) || forall y :: y in top ==> le(y, x)
    {
      assert x in multiset(sorted);
      var j :| 0 <= j < |sorted| && sorted[j] == x;
      if j < m {
        assert top[j] == x;
      } else {
        forall y | y in top ensures le(y, x) {
          var i :| 0 <= i < m && top[i] == y;
          assert sorted[i] == y;
        }
      }
    }
  }

  /** Elements that tie keep their input order in `TopBy`: the ties it keeps
      are the earliest ones of the input. */
  lemma TopByStable<T(!new)>(s: seq<T>, le: (T, T) -> bool, n: nat, c: T)
    requires TotalPreorder(le)
    ensures |Ties(TopBy(s, le, n), le, c)| <= |Ties(s, le, c)|
    ensures Ties(s, le, c)[..|Ties(TopBy(s, le, n), le, c)|] == Ties(TopBy(s, le, n), le, c)
  {
    var sorted := SortBy(s, le);
    SortByStable(s, le, c);
    TiesPrefix(sorted, Min(n, |s|), le, c);
  }
}

/** Counting, filtering, grouping and summing over sequences: the building
    blocks of Python's list comprehensions (`len([d for d in xs if p(d)])`,
    `[d for d in xs if p(d)]`) and of dictionaries that group records by a
    key, whose keys keep their first-insertion order. */
module Collections {

  /** `len([x for x in s if p(x)])`. */
  function Count<T>(s: seq<T>, p: T -> bool): (n: nat)
    ensures n <= |s|
  {
    if s == [] then 0 else Count(s[..|s| - 1], p) + (if p(s[|s| - 1]) then 1 else 0)
  }

  /** No element is counted exactly when none satisfies `p`. */
  lemma {:induction false} CountZeroIff<T>(s: seq<T>, p: T -> bool)
    ensures Count(s, p) == 0 <==> forall i :: 0 <= i < |s| ==> !p(s[i])
    decreases |s|
  {
    if s != [] {
      var init := s[..|s| - 1];
      CountZeroIff(init, p);
      assert forall i :: 0 <= i < |init| ==> init[i] == s[i];
    }
  }

  /** Every element is counted exactly when all satisfy `p`. */
  lemma {:induction false} CountAllIff<T>(s: seq<T>, p: T -> bool)
    ensures Count(s, p) == |s| <==> forall i :: 0 <= i < |s| ==> p(s[i])
    decreases |s|
  {
    if s != [] {
      var init := s[..|s| - 1];
      CountAllIff(init, p);
      assert forall i :: 0 <= i < |init| ==> init[i] == s[i];
    }
  }

  /** `[x for x in s if p(x)]`. */
  function Filter<T>(s: seq<T>, p: T -> bool): (r: seq<T>)
    ensures |r| == Count(s, p)
  {
    if s == [] then []
    else Filter(s[..|s| - 1], p) + (if p(s[|s| - 1]) then [s[|s| - 1]] else [])
  }

  /** The filter keeps exactly the elements that pass the test. */
  lemma {:induction false} FilterMembers<T>(s: seq<T>, p: T -> bool)
    ensures forall x :: x in Filter(s, p) <==> x in s && p(x)
    decreases |s|
  {
    if s != [] {
      var init := s[..|s| - 1];
      FilterMembers(init, p);
      assert s == init + [s[|s| - 1]];
    }
  }

  lemma {:induction false} FilterAppend<T>(a: seq<T>, b: seq<T>, p: T -> bool)
    ensures Filter(a + b, p) == Filter(a, p) + Filter(b, p)
    decreases |b|
  {
    if b == [] {
      assert a + b == a;
    } else {
      FilterAppend(a, b[..|b| - 1], p);
      assert (a + b)[..|a + b| - 1] == a + b[..|b| - 1];
    }
  }

  /** Filtering twice keeps what passes both tests, in the original order. */
  lemma {:induction false} FilterTwice<T>(s: seq<T>, p: T -> bool, q: T -> bool, both: T -> bool)
    requires forall x :: both(x) == (p(x) && q(x))
    ensures Filter(Filter(s, p), q) == Filter(s, both)
    decreases |s|
  {
    if s != [] {
      var init, last := s[..|s| - 1], s[|s| - 1];
      FilterTwice(init, p, q, both);
      FilterAppend(Filter(init, p), if p(last) then [last] else [], q);
      assert Filter([last], q) == if q(last) then [last] else [] by {
        assert [last][..0] == [];
      }
      assert Filter([], q) == [];
    }
  }

  /** A filter that every element passes returns its input. */
  lemma {:induction false} FilterKeepsAll<T>(s: seq<T>, p: T -> bool)
    requires forall x :: x in s ==> p(x)
    ensures Filter(s, p) == s
    decreases |s|
  {
    if s != [] {
      FilterKeepsAll(s[..|s| - 1], p);
    }
  }

  /** No two positions of `ks` hold the same key. */
  predicate Distinct<K(==)>(ks: seq<K>)
  {
    forall i, j :: 0 <= i < j < |ks| ==> ks[i] != ks[j]
  }

  /** Some element of `s` has key `k`. */
  predicate HasKey<T, K(==)>(s: seq<T>, key: T -> K, k: K)
  {
    exists i :: 0 <= i < |s| && key(s[i]) == k
  }

  lemma HasKeySnoc<T, K>(s: seq<T>, key: T -> K, k: K)
    requires s != []
    ensures HasKey(s, key, k) <==> HasKey(s[..|s| - 1], key, k) || key(s[|s| - 1]) == k
  {
    if HasKey(s, key, k) && key(s[|s| - 1]) != k {
      var i :| 0 <= i < |s| && key(s[i]) == k;
      assert s[..|s| - 1][i] == s[i];
    }
    if HasKey(s[..|s| - 1], key, k) {
      var i :| 0 <= i < |s| - 1 && key(s[..|s| - 1][i]) == k;
      assert s[i] == s[..|s| - 1][i];
    }
  }

  /** The keys of a Python dict filled by `for x in s: d[key(x)] ...`, in
      insertion order: each distinct key once, where it first appears. */
  function Keys<T, K(==)>(s: seq<T>, key: T -> K): (ks: seq<K>)
    ensures |ks| <= |s|
  {
    if s == [] then []
    else
      var ks := Keys(s[..|s| - 1], key);
      var k := key(s[|s| - 1]);
      if k in ks then ks else ks + [k]
  }

  /** No key is listed twice. */
  lemma {:induction false} KeysDistinct<T, K>(s: seq<T>, key: T -> K)
    ensures Distinct(Keys(s, key))
    decreases |s|
  {
    if s != [] {
      KeysDistinct(s[..|s| - 1], key);
    }
  }

  /** Every listed key is the key of some element, and the key of every
      element is listed. */
  lemma {:induction false} KeysExact<T, K>(s: seq<T>, key: T -> K)
    ensures forall k :: k in Keys(s, key) ==> HasKey(s, key, k)
    ensures forall i :: 0 <= i < |s| ==> key(s[i]) in Keys(s, key)
    decreases |s|
  {
    if s != [] {
      var init := s[..|s| - 1];
      KeysExact(init, key);
      forall k | k in Keys(s, key) ensures HasKey(s, key, k) {
        HasKeySnoc(s, key, k);
      }
      forall i | 0 <= i < |s| ensures key(s[i]) in Keys(s, key) {
        if i < |s| - 1 {
          assert key(s[i]) == key(init[i]);
        }
      }
    }
  }

  /** The elements of `s` whose key is `k`, in order: the records a grouping
      loop folds into the dictionary entry for `k`. */
  function Group<T, K(==)>(s: seq<T>, key: T -> K, k: K): (g: seq<T>)
    ensures |g| <= |s|
  {
    if s == [] then []
    else Group(s[..|s| - 1], key, k) + (if key(s[|s| - 1]) == k then [s[|s| - 1]] else [])
  }

  /** A group holds elements of `s` with key `k`, and is empty exactly when
      no element has key `k`. */
  lemma {:induction false} GroupExact<T, K>(s: seq<T>, key: T -> K, k: K)
    ensures forall x :: x in Group(s, key, k) ==> x in s && key(x) == k
    ensures Group(s, key, k) == [] <==> !HasKey(s, key, k)
    decreases |s|
  {
    if s != [] {
      var init := s[..|s| - 1];
      GroupExact(init, key, k);
      HasKeySnoc(s, key, k);
      forall x | x in Group(s, key, k) ensures x in s && key(x) == k {
        if x in Group(init, key, k) {
          var i :| 0 <= i < |init| && init[i] == x;
          assert s[i] == x;
        }
      }
    }
  }

  /** A key that is not listed has an empty group. */
  lemma GroupOfUnlisted<T, K>(s: seq<T>, key: T -> K, k: K)
    requires k !in Keys(s, key)
    ensures Group(s, key, k) == []
  {
    KeysExact(s, key);
    GroupExact(s, key, k);
  }

  /** How many elements of the groups named in `ks` satisfy `p`, added up
      over those groups. */
  function GroupCounts<T, K(==)>(s: seq<T>, key: T -> K, ks: seq<K>, p: T -> bool): nat
  {
    if ks == [] then 0 else GroupCounts(s, key, ks[..|ks| - 1], p) + Count(Group(s, key, ks[|ks| - 1]), p)
  }

  /** How many positions of `ks` hold `k`. */
  function Occurrences<K(==)>(ks: seq<K>, k: K): nat
  {
    if ks == [] then 0 else Occurrences(ks[..|ks| - 1], k) + (if ks[|ks| - 1] == k then 1 else 0)
  }

  lemma {:induction false} OccurrencesDistinct<K>(ks: seq<K>, k: K)
    requires Distinct(ks)
    ensures Occurrences(ks, k) == if k in ks then 1 else 0
    decreases |ks|
  {
    if ks != [] {
      var init := ks[..|ks| - 1];
      OccurrencesDistinct(init, k);
      assert ks == init + [ks[|ks| - 1]];
    }
  }

  /** Appending `x` to `s` appends it to the group of its key and leaves
      every other group as it was. */
  lemma GroupSnoc<T, K>(s: seq<T>, x: T, key: T -> K, k: K)
    ensures Group(s + [x], key, k) == Group(s, key, k) + (if key(x) == k then [x] else [])
  {
    assert (s + [x])[..|s + [x]| - 1] == s;
  }

  /** Appending `x` to `s` adds its key at the end unless it is there already. */
  lemma KeysSnoc<T, K>(s: seq<T>, x: T, key: T -> K)
    ensures Keys(s + [x], key) == if key(x) in Keys(s, key) then Keys(s, key) else Keys(s, key) + [key(x)]
  {
    assert (s + [x])[..|s + [x]| - 1] == s;
  }

  lemma {:induction false} GroupCountsSnoc<T, K>(s: seq<T>, x: T, key: T -> K, ks: seq<K>, p: T -> bool)
    ensures GroupCounts(s + [x], key, ks, p) ==
            GroupCounts(s, key, ks, p) + (if p(x) then Occurrences(ks, key(x)) else 0)
    decreases |ks|
  {
    if ks != [] {
      GroupCountsSnoc(s, x, key, ks[..|ks| - 1], p);
      GroupCountSnoc(s, x, key, ks[|ks| - 1], p);
    }
  }

  /** Appending `x` adds one to the count of its own group when it passes. */
  lemma GroupCountSnoc<T, K>(s: seq<T>, x: T, key: T -> K, k: K, p: T -> bool)
    ensures Count(Group(s + [x], key, k), p) == Count(Group(s, key, k), p) + (if key(x) == k && p(x) then 1 else 0)
  {
    var g := Group(s, key, k);
    GroupSnoc(s, x, key, k);
    if key(x) == k {
      assert (g + [x])[..|g|] == g;
    } else {
      assert g + [] == g;
    }
  }

  /** The groups of a dictionary keyed by `key` partition its input: every
      element satisfying `p` is counted in exactly one group. */
  lemma {:induction false} GroupsPartition<T, K>(s: seq<T>, key: T -> K, p: T -> bool)
    ensures GroupCounts(s, key, Keys(s, key), p) == Count(s, p)
    decreases |s|
  {
    if s != [] {
      var init, x := s[..|s| - 1], s[|s| - 1];
      GroupsPartition(init, key, p);
      GroupsPartitionStep(init, x, key, p);
      InitPlusLast(s);
    }
  }

  /** A non-empty sequence is its prefix followed by its last element. */
  lemma InitPlusLast<T>(s: seq<T>)
    requires s != []
    ensures s == s[..|s| - 1] + [s[|s| - 1]]
  {
  }

  /** Appending one element keeps the groups a partition. */
  lemma GroupsPartitionStep<T, K>(init: seq<T>, x: T, key: T -> K, p: T -> bool)
    requires GroupCounts(init, key, Keys(init, key), p) == Count(init, p)
    ensures GroupCounts(init + [x], key, Keys(init + [x], key), p) == Count(init + [x], p)
  {
    var s := init + [x];
    var ks, ks' := Keys(init, key), Keys(s, key);
    GroupCountsSnoc(init, x, key, ks', p);
    KeysSnoc(init, x, key);
    KeysDistinct(s, key);
    OccurrencesDistinct(ks', key(x));
    if key(x) !in ks {
      GroupCountsUnlisted(init, key, ks, key(x), p);
    }
    assert s[..|s| - 1] == init;
  }

  /** A group of a key the input does not have adds nothing. */
  lemma GroupCountsUnlisted<T, K>(s: seq<T>, key: T -> K, ks: seq<K>, k: K, p: T -> bool)
    requires k !in Keys(s, key)
    ensures GroupCounts(s, key, ks + [k], p) == GroupCounts(s, key, ks, p)
  {
    assert (ks + [k])[..|ks|] == ks;
    GroupOfUnlisted(s, key, k);
  }

  /** `sum(f(x) for x in s)`. */
  function SumOf<T>(s: seq<T>, f: T -> int): int
  {
    if s == [] then 0 else SumOf(s[..|s| - 1], f) + f(s[|s| - 1])
  }

  lemma {:induction false} SumOfAppend<T>(a: seq<T>, b: seq<T>, f: T -> int)
    ensures SumOf(a + b, f) == SumOf(a, f) + SumOf(b, f)
    decreases |b|
  {
    if b == [] {
      assert a + b == a;
    } else {
      SumOfAppend(a, b[..|b| - 1], f);
      assert (a + b)[..|a + b| - 1] == a + b[..|b| - 1];
    }
  }

  /** A sum does not depend on the order of its terms. */
  lemma {:induction false} SumOfPermutation<T>(a: seq<T>, b: seq<T>, f: T -> int)
    requires multiset(a) == multiset(b)
    ensures SumOf(a, f) == SumOf(b, f)
    decreases |a|
  {
    if a != [] {
      var init, x := a[..|a| - 1], a[|a| - 1];
      assert a == init + [x];
      assert x in multiset(b);
      var i :| 0 <= i < |b| && b[i] == x;
      var rest := b[..i] + b[i + 1..];
      assert b == b[..i] + [x] + b[i + 1..];
      assert multiset(b) == multiset(b[..i]) + multiset{x} + multiset(b[i + 1..]);
      assert multiset(a) == multiset(init) + multiset{x};
      assert multiset(rest) == multiset(b[..i]) + multiset(b[i + 1..]);
      assert multiset(rest) == multiset(b) - multiset{x};
      assert multiset(init) == multiset(a) - multiset{x};
      SumOfPermutation(init, rest, f);
      SumOfAppend(b[..i] + [x], b[i + 1..], f);
      SumOfAppend(b[..i], [x], f);
      SumOfAppend(b[..i], b[i + 1..], f);
      assert SumOf([x], f) == f(x) by { assert [x][..0] == []; }
    }
  }

  /** With terms that are never negative, a prefix sums to at most the whole. */
  lemma {:induction false} SumOfPrefix<T>(s: seq<T>, n: nat, f: T -> int)
    requires n <= |s|
    requires forall x :: x in s ==> f(x) >= 0
    ensures SumOf(s[..n], f) <= SumOf(s, f)
    decreases |s|
  {
    if n < |s| {
      SumOfPrefix(s[..|s| - 1], n, f);
      assert s[..|s| - 1][..n] == s[..n];
    } else {
      assert s[..n] == s;
    }
  }

  /** One more factor of `a`. */
  lemma MulSucc(a: int, n: int)
    ensures a * (n + 1) == a * n + a
  {
  }

  /** A sum of terms in [lo, hi] lies in [lo * |s|, hi * |s|]. */
  lemma {:induction false} SumOfBounds<T>(s: seq<T>, f: T -> int, lo: int, hi: int)
    requires forall x :: x in s ==> lo <= f(x) <= hi
    ensures lo * |s| <= SumOf(s, f) <= hi * |s|
    decreases |s|
  {
    if s != [] {
      var init := s[..|s| - 1];
      assert forall x :: x in init ==> x in s;
      SumOfBounds(init, f, lo, hi);
      assert s[|s| - 1] in s;
      MulSucc(lo, |init|);
      MulSucc(hi, |init|);
    }
  }
}

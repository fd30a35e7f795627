/**
 * Sequence operations that the table queries are built from: the set of keys
 * of a table, filtering on a key, summing a column, and finding the first row
 * with a given key.  A table is a `seq` of rows; the functions here are
 * generic in the row type and take the column they look at as a function.
 */
module Sequences {
  import opened Wrappers

  /** `a` is `b` with some elements left out and the rest kept in order. */
  ghost predicate IsSubseq<T>(a: seq<T>, b: seq<T>)
    decreases |b|
  {
    || a == []
    || (&& b != []
        && (|| (a[|a| - 1] == b[|b| - 1] && IsSubseq(a[..|a| - 1], b[..|b| - 1]))
            || IsSubseq(a, b[..|b| - 1])))
  }

  lemma {:induction false} SubseqOfItself<T>(s: seq<T>)
    ensures IsSubseq(s, s)
    decreases |s|
  {
    if s != [] {
      SubseqOfItself(s[..|s| - 1]);
    }
  }

  /** A subsequence of a subsequence of `c` is a subsequence of `c`. */
  lemma {:induction false} IsSubseqTransitive<T>(a: seq<T>, b: seq<T>, c: seq<T>)
    requires IsSubseq(a, b) && IsSubseq(b, c)
    ensures IsSubseq(a, c)
    decreases |c|
  {
    if a != [] && b != [] {
      var c' := c[..|c| - 1];
      if IsSubseq(b, c') {
        IsSubseqTransitive(a, b, c');
      } else {
        var b' := b[..|b| - 1];
        if a[|a| - 1] == b[|b| - 1] && IsSubseq(a[..|a| - 1], b') {
          IsSubseqTransitive(a[..|a| - 1], b', c');
        } else {
          IsSubseqTransitive(a, b', c');
        }
      }
    }
  }

  /** The set of values that `key` takes on the elements of `s`. */
  function Keys<T(==,!new), K(==)>(s: seq<T>, key: T -> K): set<K> {
    set x | x in s :: key(x)
  }

  lemma KeysSnoc<T(!new), K>(s: seq<T>, x: T, key: T -> K)
    ensures Keys(s + [x], key) == Keys(s, key) + {key(x)}
  {
    assert forall y :: y in s + [x] <==> y in s || y == x;
  }

  /** No two elements of `s` share a key. */
  predicate DistinctKeys<T, K(==)>(s: seq<T>, key: T -> K) {
    forall i, j :: 0 <= i < j < |s| ==> key(s[i]) != key(s[j])
  }

  /** No value occurs twice in `s`. */
  predicate Distinct<T(==)>(s: seq<T>) {
    forall i, j :: 0 <= i < j < |s| ==> s[i] != s[j]
  }

  /** The elements of `s` whose key is `k`, in their order in `s`. */
  function Where<T(==,!new), K(==)>(s: seq<T>, key: T -> K, k: K): (r: seq<T>)
    ensures forall x :: x in r <==> x in s && key(x) == k
    ensures IsSubseq(r, s)
    ensures |r| <= |s|
    decreases |s|
  {
    if s == [] then []
    else
      var init, last := s[..|s| - 1], s[|s| - 1];
      assert s == init + [last];
      var rest := Where(init, key, k);
      if key(last) == k then
        assert (rest + [last])[..|rest|] == rest;
        rest + [last]
      else
        rest
  }

  /** Filtering keeps every copy of each element with the key, and no copy of any other. */
  lemma {:induction false} WhereMultiset<T(!new), K>(s: seq<T>, key: T -> K, k: K)
    ensures forall x :: multiset(Where(s, key, k))[x] == if key(x) == k then multiset(s)[x] else 0
    decreases |s|
  {
    if s != [] {
      var init, last := s[..|s| - 1], s[|s| - 1];
      assert s == init + [last];
      assert multiset(s) == multiset(init) + multiset{last};
      WhereMultiset(init, key, k);
    }
  }

  /** Filtering on a key that no element has gives nothing. */
  lemma WhereNone<T(!new), K>(s: seq<T>, key: T -> K, k: K)
    requires k !in Keys(s, key)
    ensures Where(s, key, k) == []
  {
    assert forall x :: x in s ==> key(x) != k;
  }

  /** Filtering keeps the elements' keys pairwise distinct for any other key. */
  lemma {:induction false} WhereKeepsDistinct<T(!new), K, L>(s: seq<T>, key: T -> K, k: K, other: T -> L)
    requires DistinctKeys(s, other)
    ensures DistinctKeys(Where(s, key, k), other)
    decreases |s|
  {
    if s != [] {
      var init, last := s[..|s| - 1], s[|s| - 1];
      WhereKeepsDistinct(init, key, k, other);
      var rest := Where(init, key, k);
      if key(last) == k {
        forall i | 0 <= i < |rest|
          ensures other(rest[i]) != other(last)
        {
          assert rest[i] in init;
        }
      }
    }
  }

  /** Two filters give the same rows in either order. */
  lemma {:induction false} WhereCommute<T(!new), K, L>(s: seq<T>, k1: T -> K, a: K, k2: T -> L, b: L)
    ensures Where(Where(s, k1, a), k2, b) == Where(Where(s, k2, b), k1, a)
    decreases |s|
  {
    if s != [] {
      var init, last := s[..|s| - 1], s[|s| - 1];
      WhereCommute(init, k1, a, k2, b);
      var w1, w2 := Where(init, k1, a), Where(init, k2, b);
      if k1(last) == a {
        assert (w1 + [last])[..|w1|] == w1;
      }
      if k2(last) == b {
        assert (w2 + [last])[..|w2|] == w2;
      }
    }
  }

  /** The sum of `val` over the elements of `s`. */
  function SumOf<T(==,!new)>(s: seq<T>, val: T -> int): int
    decreases |s|
  {
    if s == [] then 0 else SumOf(s[..|s| - 1], val) + val(s[|s| - 1])
  }

  lemma SumOfSingleton<T(!new)>(x: T, val: T -> int)
    ensures SumOf([x], val) == val(x)
  {
    assert [x][..0] == [];
  }

  lemma {:induction false} SumOfNonNegative<T(!new)>(s: seq<T>, val: T -> int)
    requires forall x :: x in s ==> val(x) >= 0
    ensures SumOf(s, val) >= 0
    decreases |s|
  {
    if s != [] {
      assert forall x :: x in s[..|s| - 1] ==> x in s;
      SumOfNonNegative(s[..|s| - 1], val);
    }
  }

  /**
   * The first element of `s` whose key is `k`, if there is one: the element
   * at the least index with that key.
   */
  function First<T(==,!new), K(==)>(s: seq<T>, key: T -> K, k: K): (r: Option<T>)
    ensures r.Some? <==> k in Keys(s, key)
    ensures r.Some? ==> r.value in s && key(r.value) == k
    ensures forall i :: 0 <= i < |s| && key(s[i]) == k && (forall j :: 0 <= j < i ==> key(s[j]) != k) ==>
              r == Some(s[i])
    decreases |s|
  {
    if s == [] then None
    else
      assert s == [s[0]] + s[1..];
      if key(s[0]) == k then Some(s[0])
      else
        var rest := First(s[1..], key, k);
        LeastMatchOfTail(s, key, k, rest);
        rest
  }

  /** When the head does not match, the least match of the tail is the least match of `s`. */
  lemma LeastMatchOfTail<T, K>(s: seq<T>, key: T -> K, k: K, rest: Option<T>)
    requires s != [] && key(s[0]) != k
    requires forall i :: 0 <= i < |s[1..]| && key(s[1..][i]) == k && (forall j :: 0 <= j < i ==> key(s[1..][j]) != k) ==>
               rest == Some(s[1..][i])
    ensures forall i :: 0 <= i < |s| && key(s[i]) == k && (forall j :: 0 <= j < i ==> key(s[j]) != k) ==>
              rest == Some(s[i])
  {
    forall i | 0 <= i < |s| && key(s[i]) == k && (forall j :: 0 <= j < i ==> key(s[j]) != k)
      ensures rest == Some(s[i])
    {
      assert i != 0;
      assert s[1..][i - 1] == s[i];
      assert forall j :: 0 <= j < i - 1 ==> s[1..][j] == s[j + 1];
    }
  }

  /** Appending an element changes the first match only for a key not seen before. */
  lemma {:induction false} FirstSnoc<T(!new), K>(s: seq<T>, x: T, key: T -> K, k: K)
    ensures First(s + [x], key, k) ==
            if k in Keys(s, key) then First(s, key, k) else if key(x) == k then Some(x) else None
    decreases |s|
  {
    if s != [] {
      assert (s + [x])[0] == s[0];
      if key(s[0]) == k {
        assert s[0] in s;
      } else {
        var t := s[1..];
        assert (s + [x])[1..] == t + [x];
        FirstSnoc(t, x, key, k);
        assert s == [s[0]] + t;
        assert k in Keys(s, key) <==> k in Keys(t, key);
      }
    }
  }

  /** The first match is the head of the filtered sequence. */
  lemma {:induction false} FirstIsHeadOfWhere<T(!new), K>(s: seq<T>, key: T -> K, k: K)
    ensures First(s, key, k) == if Where(s, key, k) == [] then None else Some(Where(s, key, k)[0])
    decreases |s|
  {
    if s != [] {
      var init, last := s[..|s| - 1], s[|s| - 1];
      assert s == init + [last];
      FirstIsHeadOfWhere(init, key, k);
      FirstSnoc(init, last, key, k);
      if Where(init, key, k) != [] {
        assert Where(init, key, k)[0] in Where(init, key, k);
      }
    }
  }

  /** The first `n` elements of `s`, or all of them when there are fewer. */
  function Take<T(==,!new)>(s: seq<T>, n: nat): (r: seq<T>)
    ensures |r| == if |s| < n then |s| else n
    ensures r == s[..|r|]
  {
    if |s| <= n then s else s[..n]
  }
}

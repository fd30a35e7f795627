/**
 * The orderings the queries produce: a strictly ascending list of distinct
 * values (`unique` followed by `sort`, or the sorted keys of a `groupby`), and
 * a table sorted on one integer column (`sort_values`).  Strings are compared
 * code point by code point, as Python and NumPy compare them.
 */
module Sorting {
  import opened Sequences

  /** `lt` is a strict total order on `T`. */
  ghost predicate StrictTotalOrder<T(!new)>(lt: (T, T) -> bool) {
    && (forall x :: !lt(x, x))
    && (forall x, y, z :: lt(x, y) && lt(y, z) ==> lt(x, z))
    && (forall x, y :: x != y ==> lt(x, y) || lt(y, x))
  }

  /** Every element of `s` is `lt`-below every later one. */
  predicate StrictlyAscending<T>(s: seq<T>, lt: (T, T) -> bool) {
    forall i, j :: 0 <= i < j < |s| ==> lt(s[i], s[j])
  }

  /** Adds `x` to the ascending list `s` unless it is already there. */
  function InsertUnique<T(==,!new)>(x: T, s: seq<T>, lt: (T, T) -> bool): (r: seq<T>)
    ensures forall y :: y in r <==> y == x || y in s
    ensures StrictTotalOrder(lt) && StrictlyAscending(s, lt) ==> StrictlyAscending(r, lt)
  {
    if x in s then s
    else if s == [] then [x]
    else if lt(x, s[0]) then
      assert StrictTotalOrder(lt) && StrictlyAscending(s, lt) ==> forall y :: y in s ==> lt(x, y) by {
        if StrictTotalOrder(lt) && StrictlyAscending(s, lt) {
          forall y | y in s ensures lt(x, y) {
            var j :| 0 <= j < |s| && s[j] == y;
            if j > 0 { assert lt(s[0], s[j]); }
          }
        }
      }
      [x] + s
    else
      var rest := InsertUnique(x, s[1..], lt);
      assert s == [s[0]] + s[1..];
      assert StrictTotalOrder(lt) && StrictlyAscending(s, lt) ==> forall y :: y in rest ==> lt(s[0], y) by {
        if StrictTotalOrder(lt) && StrictlyAscending(s, lt) {
          forall y | y in rest ensures lt(s[0], y) {
            if y != x {
              var j :| 1 <= j < |s| && s[j] == y;
            }
          }
        }
      }
      [s[0]] + rest
  }

  /** The distinct values of `xs`, in strictly ascending order. */
  function SortedSet<T(==,!new)>(xs: seq<T>, lt: (T, T) -> bool): (r: seq<T>)
    ensures forall y :: y in r <==> y in xs
    ensures StrictTotalOrder(lt) ==> StrictlyAscending(r, lt)
    decreases |xs|
  {
    if xs == [] then []
    else
      var init := xs[..|xs| - 1];
      assert xs == init + [xs[|xs| - 1]];
      InsertUnique(xs[|xs| - 1], SortedSet(init, lt), lt)
  }

  /** A strictly ascending list has no repeated value. */
  lemma AscendingIsDistinct<T(!new)>(s: seq<T>, lt: (T, T) -> bool)
    requires StrictTotalOrder(lt) && StrictlyAscending(s, lt)
    ensures Distinct(s)
  {
  }

  /** The values `key` takes on `s`, in table order (one per row). */
  function KeyList<T(==,!new), K(==,!new)>(s: seq<T>, key: T -> K): (r: seq<K>)
    ensures forall k :: k in r <==> k in Keys(s, key)
    decreases |s|
  {
    if s == [] then []
    else
      var init := s[..|s| - 1];
      assert s == init + [s[|s| - 1]];
      KeysSnoc(init, s[|s| - 1], key);
      KeyList(init, key) + [key(s[|s| - 1])]
  }

  /** The distinct keys of the rows of `s`, ascending. */
  function SortedKeys<T(==,!new), K(==,!new)>(s: seq<T>, key: T -> K, lt: (K, K) -> bool): (r: seq<K>)
    ensures forall k :: k in r <==> k in Keys(s, key)
    ensures StrictTotalOrder(lt) ==> StrictlyAscending(r, lt) && Distinct(r)
  {
    SortedSet(KeyList(s, key), lt)
  }

  /** Integer order. */
  predicate IntLt(a: int, b: int) { a < b }

  lemma IntLtIsStrictTotalOrder()
    ensures StrictTotalOrder(IntLt)
  {
  }

  /** Lexicographic order on strings: a proper prefix comes first. */
  predicate StrLt(a: string, b: string)
    decreases |a|
  {
    if a == [] then b != []
    else if b == [] then false
    else if a[0] != b[0] then a[0] < b[0]
    else StrLt(a[1..], b[1..])
  }

  lemma {:induction false} StrLtIrreflexive(a: string)
    ensures !StrLt(a, a)
    decreases |a|
  {
    if a != [] { StrLtIrreflexive(a[1..]); }
  }

  lemma {:induction false} StrLtTransitive(a: string, b: string, c: string)
    requires StrLt(a, b) && StrLt(b, c)
    ensures StrLt(a, c)
    decreases |a|
  {
    if a != [] && b != [] && c != [] && a[0] == b[0] && b[0] == c[0] {
      StrLtTransitive(a[1..], b[1..], c[1..]);
    }
  }

  lemma {:induction false} StrLtConnected(a: string, b: string)
    requires a != b
    ensures StrLt(a, b) || StrLt(b, a)
    decreases |a|
  {
    if a != [] && b != [] && a[0] == b[0] {
      assert a == [a[0]] + a[1..] && b == [b[0]] + b[1..];
      StrLtConnected(a[1..], b[1..]);
    }
  }

  /** String order is a strict total order. */
  lemma StrLtIsStrictTotalOrder()
    ensures StrictTotalOrder(StrLt)
  {
    forall x: string ensures !StrLt(x, x) { StrLtIrreflexive(x); }
    forall x: string, y: string, z: string | StrLt(x, y) && StrLt(y, z) ensures StrLt(x, z) {
      StrLtTransitive(x, y, z);
    }
    forall x: string, y: string | x != y ensures StrLt(x, y) || StrLt(y, x) {
      StrLtConnected(x, y);
    }
  }

  /** `rank` does not decrease along `s`. */
  predicate NonDecreasing<T>(s: seq<T>, rank: T -> int) {
    forall i, j :: 0 <= i < j < |s| ==> rank(s[i]) <= rank(s[j])
  }

  /** Putting an element no greater than any of `rest` in front keeps the order. */
  lemma ConsNonDecreasing<T>(h: T, rest: seq<T>, rank: T -> int)
    requires NonDecreasing(rest, rank)
    requires forall y :: y in rest ==> rank(h) <= rank(y)
    ensures NonDecreasing([h] + rest, rank)
  {
    var r := [h] + rest;
    forall i, j | 0 <= i < j < |r| ensures rank(r[i]) <= rank(r[j]) {
      assert r[j] == rest[j - 1];
      if i == 0 {
        assert rest[j - 1] in rest;
      } else {
        assert r[i] == rest[i - 1];
      }
    }
  }

  /** Inserts `x` into `s` before the first element whose rank is at least that of `x`. */
  function InsertBy<T(==,!new)>(x: T, s: seq<T>, rank: T -> int): (r: seq<T>)
    ensures |r| == |s| + 1
    ensures multiset(r) == multiset(s) + multiset{x}
    ensures forall y :: y in r <==> y == x || y in s
  {
    if s == [] then [x]
    else if rank(x) <= rank(s[0]) then [x] + s
    else
      assert s == [s[0]] + s[1..];
      [s[0]] + InsertBy(x, s[1..], rank)
  }

  /** Inserting into a sequence sorted on `rank` keeps it sorted. */
  lemma {:induction false} InsertBySorted<T(!new)>(x: T, s: seq<T>, rank: T -> int)
    requires NonDecreasing(s, rank)
    ensures NonDecreasing(InsertBy(x, s, rank), rank)
    decreases |s|
  {
    if s == [] {
    } else if rank(x) <= rank(s[0]) {
      assert forall y :: y in s ==> rank(x) <= rank(y) by {
        forall y | y in s ensures rank(x) <= rank(y) {
          var j :| 0 <= j < |s| && s[j] == y;
          assert rank(s[0]) <= rank(s[j]) || j == 0;
        }
      }
      ConsNonDecreasing(x, s, rank);
    } else {
      var tail := s[1..];
      assert NonDecreasing(tail, rank) by {
        forall i, j | 0 <= i < j < |tail| ensures rank(tail[i]) <= rank(tail[j]) {
          assert tail[i] == s[i + 1] && tail[j] == s[j + 1];
        }
      }
      InsertBySorted(x, tail, rank);
      var rest := InsertBy(x, tail, rank);
      assert forall y :: y in rest ==> rank(s[0]) <= rank(y) by {
        forall y | y in rest ensures rank(s[0]) <= rank(y) {
          if y != x {
            var j :| 0 <= j < |tail| && tail[j] == y;
            assert s[j + 1] == y;
          }
        }
      }
      ConsNonDecreasing(s[0], rest, rank);
    }
  }

  /** Stable insertion sort on `rank`: a permutation of `s` that does not decrease in rank. */
  function SortBy<T(==,!new)>(s: seq<T>, rank: T -> int): (r: seq<T>)
    ensures NonDecreasing(r, rank)
    ensures |r| == |s|
    ensures multiset(r) == multiset(s)
    ensures forall y :: y in r <==> y in s
    decreases |s|
  {
    if s == [] then []
    else
      assert s == [s[0]] + s[1..];
      InsertBySorted(s[0], SortBy(s[1..], rank), rank);
      InsertBy(s[0], SortBy(s[1..], rank), rank)
  }

  /** Sorting keeps the elements' keys pairwise distinct. */
  lemma {:induction false} InsertByKeepsDistinct<T(!new), K>(x: T, s: seq<T>, rank: T -> int, key: T -> K)
    requires NonDecreasing(s, rank) && DistinctKeys(s, key)
    requires forall y :: y in s ==> key(y) != key(x)
    ensures DistinctKeys(InsertBy(x, s, rank), key)
  {
    if s != [] && rank(x) > rank(s[0]) {
      assert s == [s[0]] + s[1..];
      InsertByKeepsDistinct(x, s[1..], rank, key);
      var rest := InsertBy(x, s[1..], rank);
      assert forall y :: y in rest ==> key(y) != key(s[0]);
    }
  }

  lemma {:induction false} SortByKeepsDistinct<T(!new), K>(s: seq<T>, rank: T -> int, key: T -> K)
    requires DistinctKeys(s, key)
    ensures DistinctKeys(SortBy(s, rank), key)
    decreases |s|
  {
    if s != [] {
      assert s == [s[0]] + s[1..];
      SortByKeepsDistinct(s[1..], rank, key);
      var sorted := SortBy(s[1..], rank);
      forall y | y in sorted ensures key(y) != key(s[0]) {
        assert y in multiset(s[1..]);
      }
      InsertByKeepsDistinct(s[0], sorted, rank, key);
    }
  }
}

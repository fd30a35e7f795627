/**
 * The one deduplication primitive every query uses: keep the first row of
 * each key, in table order (pandas `drop_duplicates(subset=...)` with its
 * default `keep='first'`).  The key is a function of the row, so the five key
 * sets of the queries are five instances of the same definition.
 */
module Deduplication {
  import opened Wrappers
  import opened Sequences

  /**
   * Keep-first deduplication.  The result is an order-preserving subsequence
   * of `s` whose keys are pairwise distinct, that has every key of `s`, and
   * whose every row is the first row of `s` with its key.
   */
  function Dedup<T(==,!new), K(==)>(s: seq<T>, key: T -> K): (r: seq<T>)
    ensures forall x :: x in r ==> x in s
    ensures DistinctKeys(r, key)
    ensures Keys(r, key) == Keys(s, key)
    decreases |s|
  {
    if s == [] then []
    else
      var init, last := s[..|s| - 1], s[|s| - 1];
      assert s == init + [last];
      var d := Dedup(init, key);
      KeysSnoc(init, last, key);
      if key(last) in Keys(init, key) then
        d
      else
        KeysSnoc(d, last, key);
        assert forall i :: 0 <= i < |d| ==> key(d[i]) in Keys(d, key);
        d + [last]
  }

  /** Appending a row adds it exactly when its key is new. */
  lemma DedupSnoc<T(!new), K>(s: seq<T>, x: T, key: T -> K)
    ensures Dedup(s + [x], key) == if key(x) in Keys(s, key) then Dedup(s, key) else Dedup(s, key) + [x]
  {
    assert (s + [x])[..|s|] == s;
  }

  /** Deduplication keeps the surviving rows in their original order. */
  lemma {:induction false} DedupIsSubseq<T(!new), K>(s: seq<T>, key: T -> K)
    ensures IsSubseq(Dedup(s, key), s)
    decreases |s|
  {
    if s != [] {
      var init, last := s[..|s| - 1], s[|s| - 1];
      assert s == init + [last];
      DedupIsSubseq(init, key);
      var d := Dedup(init, key);
      if key(last) !in Keys(init, key) {
        assert (d + [last])[..|d|] == d;
      }
    }
  }

  /** Every row that survives is the first row of the table with its key. */
  lemma {:induction false} DedupKeepsFirst<T(!new), K>(s: seq<T>, key: T -> K, x: T)
    requires x in Dedup(s, key)
    ensures First(s, key, key(x)) == Some(x)
    decreases |s|
  {
    var init, last := s[..|s| - 1], s[|s| - 1];
    assert s == init + [last];
    FirstSnoc(init, last, key, key(x));
    var d := Dedup(init, key);
    if x in d {
      DedupKeepsFirst(init, key, x);
      assert key(x) in Keys(init, key);
    } else {
      assert x == last && key(last) !in Keys(init, key);
    }
  }

  /** A table whose keys are already distinct is left as it is. */
  lemma {:induction false} DedupOfDistinct<T(!new), K>(s: seq<T>, key: T -> K)
    requires DistinctKeys(s, key)
    ensures Dedup(s, key) == s
    decreases |s|
  {
    if s != [] {
      var init, last := s[..|s| - 1], s[|s| - 1];
      assert s == init + [last];
      DedupOfDistinct(init, key);
      assert key(last) !in Keys(init, key) by {
        forall x | x in init ensures key(x) != key(last) {
          var i :| 0 <= i < |init| && init[i] == x;
          assert s[i] == x;
        }
      }
    }
  }

  /** Deduplicating twice on the same key is the same as deduplicating once. */
  lemma DedupIdempotent<T(!new), K>(s: seq<T>, key: T -> K)
    ensures Dedup(Dedup(s, key), key) == Dedup(s, key)
  {
    DedupOfDistinct(Dedup(s, key), key);
  }

  /**
   * A row whose key already occurred earlier contributes nothing, wherever it
   * stands in the table: removing it does not change the result.
   */
  lemma {:induction false} DedupDropsLaterDuplicate<T(!new), K>(a: seq<T>, x: T, b: seq<T>, key: T -> K)
    requires key(x) in Keys(a, key)
    ensures Dedup(a + [x] + b, key) == Dedup(a + b, key)
    decreases |b|
  {
    KeysSnoc(a, x, key);
    if b == [] {
      assert a + [x] + b == a + [x];
      assert a + b == a;
    } else {
      var init, last := b[..|b| - 1], b[|b| - 1];
      DedupDropsLaterDuplicate(a, x, init, key);
      assert a + [x] + b == (a + [x] + init) + [last];
      assert a + b == (a + init) + [last];
      DedupSnoc(a + [x] + init, last, key);
      DedupSnoc(a + init, last, key);
      assert Keys(a + [x] + init, key) == Keys(a + init, key) by {
        assert a + [x] + init == (a + [x]) + init;
        KeysAppend(a + [x], init, key);
        KeysAppend(a, init, key);
      }
    }
  }

  lemma KeysAppend<T(!new), K>(a: seq<T>, b: seq<T>, key: T -> K)
    ensures Keys(a + b, key) == Keys(a, key) + Keys(b, key)
  {
    assert forall y :: y in a + b <==> y in a || y in b;
  }

  /**
   * Deduplicating a table followed by a non-empty block of rows that all share
   * one key adds at most the block's first row.
   */
  lemma {:induction false} DedupAppendBlock<T(!new), K>(a: seq<T>, b: seq<T>, k: K, key: T -> K)
    requires b != []
    requires forall y :: y in b ==> key(y) == k
    ensures Dedup(a + b, key) == if k in Keys(a, key) then Dedup(a, key) else Dedup(a, key) + [b[0]]
    decreases |b|
  {
    if |b| == 1 {
      assert a + b == a + [b[0]];
      DedupSnoc(a, b[0], key);
    } else {
      var init, last := b[..|b| - 1], b[|b| - 1];
      assert init[0] == b[0] && init[0] in b && last in b;
      assert forall y :: y in init ==> y in b;
      DedupAppendBlock(a, init, k, key);
      SeenInBlock(a, init, key);
      DedupSnoc(a + init, last, key);
      assert a + b == (a + init) + [last];
    }
  }

  lemma SeenInBlock<T(!new), K>(a: seq<T>, init: seq<T>, key: T -> K)
    requires init != []
    ensures key(init[0]) in Keys(a + init, key)
  {
    assert init[0] in a + init;
  }
}

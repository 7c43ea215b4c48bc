/** Keep-first de-duplication by a key, as `DataFrame.drop_duplicates(subset=..., keep="first")`
    performs it: one pass over the rows, remembering the keys already seen. */
module Dedup {
  import opened Seqs

  /** The keys that occur in `xs`. */
  function Keys<T, K>(xs: seq<T>, key: T -> K): set<K>
    decreases |xs|
  {
    if |xs| == 0 then {} else {key(xs[0])} + Keys(xs[1..], key)
  }

  /** No two elements of `xs` share a key. */
  predicate DistinctKeys<T, K(==)>(xs: seq<T>, key: T -> K) {
    forall i, j :: 0 <= i < j < |xs| ==> key(xs[i]) != key(xs[j])
  }

  /** The elements of `xs` whose key is neither in `seen` nor held by an earlier element. */
  function KeepFirstFrom<T, K(==)>(xs: seq<T>, key: T -> K, seen: set<K>): (r: seq<T>)
    ensures |r| <= |xs|
    ensures forall j :: 0 <= j < |r| ==> r[j] in xs
    decreases |xs|
  {
    if |xs| == 0 then []
    else if key(xs[0]) in seen then KeepFirstFrom(xs[1..], key, seen)
    else [xs[0]] + KeepFirstFrom(xs[1..], key, seen + {key(xs[0])})
  }

  /** `drop_duplicates(keep="first")`: the first element of each key, in input order. */
  function KeepFirst<T, K(==)>(xs: seq<T>, key: T -> K): (r: seq<T>)
    ensures |r| <= |xs|
    ensures forall j :: 0 <= j < |r| ==> r[j] in xs
  {
    KeepFirstFrom(xs, key, {})
  }

  /** Index of the first element of `xs` whose key is `k`. */
  function FirstIndex<T, K(==)>(xs: seq<T>, key: T -> K, k: K): (i: nat)
    requires k in Keys(xs, key)
    ensures i < |xs| && key(xs[i]) == k
    ensures forall j :: 0 <= j < i ==> key(xs[j]) != k
    decreases |xs|
  {
    if key(xs[0]) == k then 0 else 1 + FirstIndex(xs[1..], key, k)
  }

  lemma {:induction false} KeysMember<T, K>(xs: seq<T>, key: T -> K, i: nat)
    requires i < |xs|
    ensures key(xs[i]) in Keys(xs, key)
    decreases i
  {
    if i > 0 {
      KeysMember(xs[1..], key, i - 1);
    }
  }

  lemma {:induction false} KeysConcat<T, K>(xs: seq<T>, ys: seq<T>, key: T -> K)
    ensures Keys(xs + ys, key) == Keys(xs, key) + Keys(ys, key)
    decreases |xs|
  {
    if |xs| > 0 {
      assert (xs + ys)[1..] == xs[1..] + ys;
      KeysConcat(xs[1..], ys, key);
    } else {
      assert xs + ys == ys;
    }
  }

  /** Sequences whose elements have the same keys element by element have the same key set. */
  lemma {:induction false} KeysPointwise<T, U, K>(xs: seq<T>, kx: T -> K, ys: seq<U>, ky: U -> K)
    requires |xs| == |ys|
    requires forall j :: 0 <= j < |xs| ==> kx(xs[j]) == ky(ys[j])
    ensures Keys(xs, kx) == Keys(ys, ky)
    decreases |xs|
  {
    if |xs| > 0 {
      KeysPointwise(xs[1..], kx, ys[1..], ky);
    }
  }

  /** The kept keys are the input's keys minus those already seen. */
  lemma {:induction false} KeepFirstFromKeys<T, K>(xs: seq<T>, key: T -> K, seen: set<K>)
    ensures Keys(KeepFirstFrom(xs, key, seen), key) == Keys(xs, key) - seen
    decreases |xs|
  {
    if |xs| > 0 {
      var k := key(xs[0]);
      if k in seen {
        KeepFirstFromKeys(xs[1..], key, seen);
      } else {
        var rest := KeepFirstFrom(xs[1..], key, seen + {k});
        KeepFirstFromKeys(xs[1..], key, seen + {k});
        assert ([xs[0]] + rest)[1..] == rest;
      }
    }
  }

  /** No kept element has a seen key, and no two kept elements share a key. */
  lemma {:induction false} KeepFirstFromDistinct<T, K>(xs: seq<T>, key: T -> K, seen: set<K>)
    ensures var r := KeepFirstFrom(xs, key, seen);
      DistinctKeys(r, key) && forall j :: 0 <= j < |r| ==> key(r[j]) !in seen
    decreases |xs|
  {
    if |xs| > 0 {
      var k := key(xs[0]);
      if k in seen {
        KeepFirstFromDistinct(xs[1..], key, seen);
      } else {
        KeepFirstFromDistinct(xs[1..], key, seen + {k});
      }
    }
  }

  /** The kept elements appear in the input in the same order. */
  lemma {:induction false} KeepFirstFromSubsequence<T, K>(xs: seq<T>, key: T -> K, seen: set<K>)
    ensures IsSubsequence(KeepFirstFrom(xs, key, seen), xs)
    decreases |xs|
  {
    if |xs| > 0 {
      var k := key(xs[0]);
      if k in seen {
        KeepFirstFromSubsequence(xs[1..], key, seen);
      } else {
        var r := KeepFirstFrom(xs, key, seen);
        KeepFirstFromSubsequence(xs[1..], key, seen + {k});
        assert r[1..] == KeepFirstFrom(xs[1..], key, seen + {k});
      }
    }
  }

  /** Each kept element is the first input element with its key, and the kept
      elements are ordered by where their keys first occur. */
  lemma {:induction false} KeepFirstFromFirst<T, K>(xs: seq<T>, key: T -> K, seen: set<K>)
    ensures var r := KeepFirstFrom(xs, key, seen);
      && (forall j :: 0 <= j < |r| ==> key(r[j]) in Keys(xs, key))
      && (forall j :: 0 <= j < |r| ==> r[j] == xs[FirstIndex(xs, key, key(r[j]))])
      && (forall j1, j2 :: 0 <= j1 < j2 < |r| ==>
            FirstIndex(xs, key, key(r[j1])) < FirstIndex(xs, key, key(r[j2])))
    decreases |xs|
  {
    if |xs| > 0 {
      var k := key(xs[0]);
      var r := KeepFirstFrom(xs, key, seen);
      var seen' := if k in seen then seen else seen + {k};
      var tail := KeepFirstFrom(xs[1..], key, seen');
      KeepFirstFromFirst(xs[1..], key, seen');
      KeepFirstFromDistinct(xs[1..], key, seen');
      // Every key of the tail's output differs from k (it is in seen'), so its
      // first occurrence in xs is one past its first occurrence in xs[1..].
      forall j | 0 <= j < |tail|
        ensures key(tail[j]) in Keys(xs, key)
        ensures FirstIndex(xs, key, key(tail[j])) == 1 + FirstIndex(xs[1..], key, key(tail[j]))
      {
        KeysShift(xs, key, key(tail[j]));
      }
      KeysMember(xs, key, 0);
      if k !in seen {
        assert r == [xs[0]] + tail;
        assert FirstIndex(xs, key, k) == 0;
      }
    }
  }

  lemma KeysShift<T, K>(xs: seq<T>, key: T -> K, k: K)
    requires |xs| > 0 && k in Keys(xs[1..], key) && k != key(xs[0])
    ensures k in Keys(xs, key)
    ensures FirstIndex(xs, key, k) == 1 + FirstIndex(xs[1..], key, k)
  {
  }

  /** Elements with pairwise different keys have as many keys as elements. */
  lemma {:induction false} DistinctKeysCount<T, K>(xs: seq<T>, key: T -> K)
    requires DistinctKeys(xs, key)
    ensures |Keys(xs, key)| == |xs|
    decreases |xs|
  {
    if |xs| > 0 {
      DistinctKeysCount(xs[1..], key);
      if key(xs[0]) in Keys(xs[1..], key) {
        var i := FirstIndex(xs[1..], key, key(xs[0]));
      }
    }
  }

  /** Keep-first de-duplication: unique keys, every input key kept once, each
      kept element the first of its key, input order preserved. */
  lemma KeepFirstSpec<T, K>(xs: seq<T>, key: T -> K)
    ensures var r := KeepFirst(xs, key);
      && DistinctKeys(r, key)
      && Keys(r, key) == Keys(xs, key)
      && |r| == |Keys(xs, key)|
      && IsSubsequence(r, xs)
      && (forall j :: 0 <= j < |r| ==> key(r[j]) in Keys(xs, key))
      && (forall j :: 0 <= j < |r| ==> r[j] == xs[FirstIndex(xs, key, key(r[j]))])
      && (forall j1, j2 :: 0 <= j1 < j2 < |r| ==>
            FirstIndex(xs, key, key(r[j1])) < FirstIndex(xs, key, key(r[j2])))
  {
    KeepFirstFromKeys(xs, key, {});
    KeepFirstFromDistinct(xs, key, {});
    KeepFirstFromSubsequence(xs, key, {});
    KeepFirstFromFirst(xs, key, {});
    DistinctKeysCount(KeepFirst(xs, key), key);
  }

  /** Input whose keys are already distinct, and disjoint from `seen`, is kept whole. */
  lemma {:induction false} KeepFirstFromDistinctInput<T, K>(xs: seq<T>, key: T -> K, seen: set<K>)
    requires DistinctKeys(xs, key)
    requires forall j :: 0 <= j < |xs| ==> key(xs[j]) !in seen
    ensures KeepFirstFrom(xs, key, seen) == xs
    decreases |xs|
  {
    if |xs| > 0 {
      KeepFirstFromDistinctInput(xs[1..], key, seen + {key(xs[0])});
      assert xs == [xs[0]] + xs[1..];
    }
  }

  /** When nothing is dropped, the input had distinct keys, none of them in `seen`. */
  lemma {:induction false} KeepFirstFromWhole<T, K>(xs: seq<T>, key: T -> K, seen: set<K>)
    requires |KeepFirstFrom(xs, key, seen)| == |xs|
    ensures KeepFirstFrom(xs, key, seen) == xs
    ensures DistinctKeys(xs, key)
    ensures forall j :: 0 <= j < |xs| ==> key(xs[j]) !in seen
    decreases |xs|
  {
    if |xs| > 0 {
      var k := key(xs[0]);
      if k !in seen {
        var tail := xs[1..];
        KeepFirstFromWhole(tail, key, seen + {k});
        assert xs == [xs[0]] + tail;
        forall i, j | 0 <= i < j < |xs|
          ensures key(xs[i]) != key(xs[j])
        {
          if i > 0 {
            assert xs[i] == tail[i - 1] && xs[j] == tail[j - 1];
          } else {
            assert xs[j] == tail[j - 1];
          }
        }
        forall j | 0 <= j < |xs|
          ensures key(xs[j]) !in seen
        {
          if j > 0 {
            assert xs[j] == tail[j - 1];
          }
        }
      }
    }
  }

  /** Keep-first de-duplication drops nothing exactly when the keys are already distinct. */
  lemma KeepFirstDropsNothingIff<T, K>(xs: seq<T>, key: T -> K)
    ensures DistinctKeys(xs, key) <==> KeepFirst(xs, key) == xs
    ensures DistinctKeys(xs, key) <==> |KeepFirst(xs, key)| == |xs|
  {
    if DistinctKeys(xs, key) {
      KeepFirstFromDistinctInput(xs, key, {});
    }
    if |KeepFirst(xs, key)| == |xs| {
      KeepFirstFromWhole(xs, key, {});
    }
  }

  /** De-duplicating twice is de-duplicating once. */
  lemma KeepFirstIdempotent<T, K>(xs: seq<T>, key: T -> K)
    ensures KeepFirst(KeepFirst(xs, key), key) == KeepFirst(xs, key)
  {
    KeepFirstFromDistinct(xs, key, {});
    KeepFirstFromDistinctInput(KeepFirst(xs, key), key, {});
  }

  /** The hash-set scan that computes `KeepFirst`. */
  method KeepFirstScan<T, K(==)>(xs: seq<T>, key: T -> K) returns (out: seq<T>)
    ensures out == KeepFirst(xs, key)
  {
    out := [];
    var seen: set<K> := {};
    var i := 0;
    while i < |xs|
      invariant 0 <= i <= |xs|
      invariant out + KeepFirstFrom(xs[i..], key, seen) == KeepFirst(xs, key)
    {
      assert xs[i..][1..] == xs[i + 1..];
      var k := key(xs[i]);
      if k !in seen {
        out := out + [xs[i]];
        seen := seen + {k};
      }
      i := i + 1;
    }
  }
}

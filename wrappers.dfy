/**
 * The optional value used wherever the JavaScript source has `null` or
 * `undefined`, and the integer `Math.min`/`Math.max` shared by the modules.
 */
module Wrappers {

  datatype Option<+T> = None | Some(value: T)

  /** `Math.min` and `Math.max` of two integers. */
  function Min(a: int, b: int): int
  {
    if a <= b then a else b
  }

  function Max(a: int, b: int): int
  {
    if a >= b then a else b
  }

}

/**
 * Order-preserving filtering and "keep the first element per key", the shape
 * of every `seen`-Set loop and every insertion-ordered `Map` in the analyzer
 * and the reference solvers.
 */
module KeepFirst {

  /** The elements of `xs` that satisfy `p`, in order. */
  function Filter<T>(xs: seq<T>, p: T -> bool): (r: seq<T>)
    ensures |r| <= |xs|
    ensures forall x :: x in r ==> x in xs && p(x)
    ensures forall x :: x in xs && p(x) ==> x in r
  {
    if xs == [] then []
    else Filter(xs[..|xs| - 1], p) + (if p(xs[|xs| - 1]) then [xs[|xs| - 1]] else [])
  }

  /** The set of keys that occur in `xs`. */
  function KeysOf<T, K>(xs: seq<T>, key: T -> K): set<K>
  {
    set i | 0 <= i < |xs| :: key(xs[i])
  }

  /** True when no element of `xs` before index `i` has the key of `xs[i]`. */
  predicate IsFirst<T, K(==)>(xs: seq<T>, key: T -> K, i: int)
    requires 0 <= i < |xs|
  {
    forall j :: 0 <= j < i ==> key(xs[j]) != key(xs[i])
  }

  /**
   * `xs` with every element dropped whose key already occurred earlier:
   * a loop that skips `x` when `seen.has(key(x))` and otherwise adds the key
   * to `seen` and pushes `x`.
   */
  function DedupBy<T, K(==)>(xs: seq<T>, key: T -> K): (r: seq<T>)
  {
    if xs == [] then []
    else
      var r0 := DedupBy(xs[..|xs| - 1], key);
      if key(xs[|xs| - 1]) in KeysOf(r0, key) then r0 else r0 + [xs[|xs| - 1]]
  }

  /** The index of the first element of `xs` whose key is `k`. */
  function FirstIndex<T, K(==)>(xs: seq<T>, key: T -> K, k: K): (i: nat)
    requires k in KeysOf(xs, key)
    ensures i < |xs| && key(xs[i]) == k && IsFirst(xs, key, i)
  {
    if key(xs[0]) == k then 0
    else
      assert k in KeysOf(xs[1..], key) by {
        var j :| 0 <= j < |xs| && key(xs[j]) == k;
        assert xs[1..][j - 1] == xs[j];
      }
      1 + FirstIndex(xs[1..], key, k)
  }

  lemma FilterSnoc<T>(xs: seq<T>, x: T, p: T -> bool)
    ensures Filter(xs + [x], p) == Filter(xs, p) + (if p(x) then [x] else [])
  {
    assert (xs + [x])[..|xs|] == xs;
  }

  lemma DedupSnoc<T, K>(xs: seq<T>, x: T, key: T -> K)
    ensures DedupBy(xs + [x], key)
         == if key(x) in KeysOf(DedupBy(xs, key), key) then DedupBy(xs, key) else DedupBy(xs, key) + [x]
  {
    assert (xs + [x])[..|xs|] == xs;
  }

  lemma KeysOfSnoc<T, K>(xs: seq<T>, x: T, key: T -> K)
    ensures KeysOf(xs + [x], key) == KeysOf(xs, key) + {key(x)}
  {
    var ys := xs + [x];
    forall k | k in KeysOf(ys, key) ensures k in KeysOf(xs, key) + {key(x)} {
      var j :| 0 <= j < |ys| && key(ys[j]) == k;
      if j < |xs| { assert ys[j] == xs[j]; }
    }
    forall k | k in KeysOf(xs, key) ensures k in KeysOf(ys, key) {
      var j :| 0 <= j < |xs| && key(xs[j]) == k;
      assert ys[j] == xs[j];
    }
    assert ys[|xs|] == x;
  }

  /** Deduplication keeps exactly the keys that occur: none is lost, none invented. */
  lemma {:induction false} DedupKeys<T, K>(xs: seq<T>, key: T -> K)
    ensures KeysOf(DedupBy(xs, key), key) == KeysOf(xs, key)
  {
    if xs != [] {
      var init, x := xs[..|xs| - 1], xs[|xs| - 1];
      assert xs == init + [x];
      DedupKeys(init, key);
      KeysOfSnoc(init, x, key);
      var r0 := DedupBy(init, key);
      if key(x) !in KeysOf(r0, key) {
        KeysOfSnoc(r0, x, key);
      }
    }
  }

  /** Every element of the result is the first occurrence of its key in `xs`. */
  lemma {:induction false} DedupFirst<T, K>(xs: seq<T>, key: T -> K)
    ensures forall j :: 0 <= j < |DedupBy(xs, key)| ==>
      key(DedupBy(xs, key)[j]) in KeysOf(xs, key) &&
      DedupBy(xs, key)[j] == xs[FirstIndex(xs, key, key(DedupBy(xs, key)[j]))]
  {
    if xs != [] {
      var init, x := xs[..|xs| - 1], xs[|xs| - 1];
      DedupFirst(init, key);
      DedupKeys(init, key);
      var r0, r := DedupBy(init, key), DedupBy(xs, key);
      forall j | 0 <= j < |r|
        ensures key(r[j]) in KeysOf(xs, key) && r[j] == xs[FirstIndex(xs, key, key(r[j]))]
      {
        if j < |r0| {
          var k := key(r[j]);
          var fi := FirstIndex(init, key, k);
          assert xs[fi] == init[fi];
          FirstIndexPrefix(init, xs, key, k);
        } else {
          assert r[j] == x && key(x) !in KeysOf(init, key);
          assert key(x) == key(xs[|xs| - 1]);
          var fi := FirstIndex(xs, key, key(x));
        }
      }
    }
  }

  /** The first occurrence of a key in a prefix is its first occurrence in the whole. */
  lemma FirstIndexPrefix<T, K>(pre: seq<T>, xs: seq<T>, key: T -> K, k: K)
    requires pre <= xs && k in KeysOf(pre, key)
    ensures k in KeysOf(xs, key) && FirstIndex(xs, key, k) == FirstIndex(pre, key, k)
  {
    var i := FirstIndex(pre, key, k);
    assert xs[i] == pre[i];
    var i' := FirstIndex(xs, key, k);
  }

  /** The kept elements have pairwise distinct keys and appear in the order of their first occurrence. */
  lemma {:induction false} DedupOrdered<T, K>(xs: seq<T>, key: T -> K)
    ensures forall a, b :: 0 <= a < b < |DedupBy(xs, key)| ==>
      key(DedupBy(xs, key)[a]) in KeysOf(xs, key) && key(DedupBy(xs, key)[b]) in KeysOf(xs, key) &&
      FirstIndex(xs, key, key(DedupBy(xs, key)[a])) < FirstIndex(xs, key, key(DedupBy(xs, key)[b]))
  {
    if xs != [] {
      var init, x := xs[..|xs| - 1], xs[|xs| - 1];
      DedupOrdered(init, key);
      DedupKeys(init, key);
      DedupKeys(xs, key);
      var r0, r := DedupBy(init, key), DedupBy(xs, key);
      forall a, b | 0 <= a < b < |DedupBy(xs, key)|
        ensures key(DedupBy(xs, key)[a]) in KeysOf(xs, key) && key(DedupBy(xs, key)[b]) in KeysOf(xs, key) &&
                FirstIndex(xs, key, key(DedupBy(xs, key)[a])) < FirstIndex(xs, key, key(DedupBy(xs, key)[b]))
      {
        assert a < |r0|;
        assert r[a] == r0[a];
        assert r[a] in r && r[b] in r;
        assert key(r[a]) in KeysOf(r, key) && key(r[b]) in KeysOf(r, key);
        assert key(r[a]) in KeysOf(init, key) by { assert r[a] == r0[a]; assert key(r0[a]) in KeysOf(r0, key); }
        FirstIndexPrefix(init, xs, key, key(r[a]));
        if b < |r0| {
          assert r[b] == r0[b];
          assert key(r0[b]) in KeysOf(r0, key);
          FirstIndexPrefix(init, xs, key, key(r[b]));
        } else {
          assert r[b] == x && key(x) !in KeysOf(init, key);
        }
      }
    } else {
      assert |DedupBy(xs, key)| == 0;
    }
  }

  /** Every kept element is an element of the input. */
  lemma DedupSubset<T, K>(xs: seq<T>, key: T -> K)
    ensures forall x :: x in DedupBy(xs, key) ==> x in xs
  {
    DedupFirst(xs, key);
    forall x | x in DedupBy(xs, key) ensures x in xs {
      var j :| 0 <= j < |DedupBy(xs, key)| && DedupBy(xs, key)[j] == x;
    }
  }

  /** When no two different elements share a key, de-duplication loses no element. */
  lemma DedupInjective<T, K>(xs: seq<T>, key: T -> K)
    requires forall a, b :: a in xs && b in xs && key(a) == key(b) ==> a == b
    ensures forall x :: x in DedupBy(xs, key) <==> x in xs
  {
    DedupSubset(xs, key);
    DedupKeys(xs, key);
    forall x | x in xs ensures x in DedupBy(xs, key) {
      var i :| 0 <= i < |xs| && xs[i] == x;
      assert key(x) in KeysOf(DedupBy(xs, key), key);
      var j :| 0 <= j < |DedupBy(xs, key)| && key(DedupBy(xs, key)[j]) == key(x);
      assert DedupBy(xs, key)[j] in DedupBy(xs, key);
    }
  }

  /** No two kept elements share a key. */
  lemma DedupDistinct<T, K>(xs: seq<T>, key: T -> K)
    ensures forall a, b :: 0 <= a < b < |DedupBy(xs, key)| ==> key(DedupBy(xs, key)[a]) != key(DedupBy(xs, key)[b])
  {
    DedupOrdered(xs, key);
  }
}

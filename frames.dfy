/**
 * The two data-frame operations the cleaning scripts are built from. A chain of row-wise
 * masks and column assignments is one function from a raw row to the cleaned row, or to
 * nothing when some mask drops it; `drop_duplicates(subset=[col])` keeps, with pandas'
 * default `keep="first"`, the first row of every key.
 */
module Frames {
  import opened Wrappers

  /** The rows `f` keeps, as `f` maps them, in their original order. */
  function FilterMap<T, U>(xs: seq<T>, f: T -> Option<U>): (ys: seq<U>)
    ensures |ys| <= |xs|
    decreases |xs|
  {
    if xs == [] then []
    else
      var init := FilterMap(xs[..|xs| - 1], f);
      var y := f(xs[|xs| - 1]);
      if y.Some? then init + [y.value] else init
  }

  predicate Increasing(idx: seq<nat>) {
    forall a, b :: 0 <= a < b < |idx| ==> idx[a] < idx[b]
  }

  /** `ys` is exactly the rows of `xs` that `f` keeps, and `idx` lists their positions. */
  ghost predicate Picks<T, U>(xs: seq<T>, f: T -> Option<U>, ys: seq<U>, idx: seq<nat>) {
    && |idx| == |ys| && Increasing(idx)
    && (forall k :: 0 <= k < |idx| ==> idx[k] < |xs| && f(xs[idx[k]]) == Some(ys[k]))
    && (forall i :: 0 <= i < |xs| && f(xs[i]).Some? ==> i in idx)
  }

  /** The filtered frame keeps every row `f` keeps, and nothing else, in order. */
  lemma {:induction false} FilterMapPicks<T, U>(xs: seq<T>, f: T -> Option<U>) returns (idx: seq<nat>)
    ensures Picks(xs, f, FilterMap(xs, f), idx)
    decreases |xs|
  {
    if xs == [] {
      idx := [];
    } else {
      var n := |xs| - 1;
      var idx0 := FilterMapPicks(xs[..n], f);
      idx := PicksSnoc(xs, n, f, FilterMap(xs[..n], f), idx0);
    }
  }

  lemma PicksSnoc<T, U>(xs: seq<T>, n: nat, f: T -> Option<U>, ys: seq<U>, idx0: seq<nat>) returns (idx: seq<nat>)
    requires n == |xs| - 1 && Picks(xs[..n], f, ys, idx0)
    ensures Picks(xs, f, if f(xs[n]).Some? then ys + [f(xs[n]).value] else ys, idx)
  {
    var pre := xs[..n];
    var zs := if f(xs[n]).Some? then ys + [f(xs[n]).value] else ys;
    idx := if f(xs[n]).Some? then idx0 + [n] else idx0;
    forall k | 0 <= k < |idx| ensures idx[k] < |xs| && f(xs[idx[k]]) == Some(zs[k]) {
      if k < |idx0| {
        assert idx[k] == idx0[k] && pre[idx0[k]] == xs[idx0[k]];
      }
    }
    forall a, b | 0 <= a < b < |idx| ensures idx[a] < idx[b] {
      if b < |idx0| {
        assert idx[a] == idx0[a] && idx[b] == idx0[b];
      } else {
        assert idx[a] == idx0[a] && idx0[a] < n;
      }
    }
    forall i | 0 <= i < |xs| && f(xs[i]).Some? ensures i in idx {
      if i < n {
        assert pre[i] == xs[i];
        assert i in idx0;
      } else {
        assert idx[|idx0|] == n;
      }
    }
  }

  // ---------------------------------------------------------------------
  // drop_duplicates
  // ---------------------------------------------------------------------

  /** Some row of `ys` has key `k`. */
  predicate KeyIn<T, K(==)>(ys: seq<T>, key: T -> K, k: K) {
    exists j :: 0 <= j < |ys| && key(ys[j]) == k
  }

  /** `drop_duplicates(subset=[key])`: a row is kept unless an earlier kept row has its key. */
  function KeepFirst<T, K(==)>(xs: seq<T>, key: T -> K): (ys: seq<T>)
    ensures |ys| <= |xs|
    decreases |xs|
  {
    if xs == [] then []
    else
      var init := KeepFirst(xs[..|xs| - 1], key);
      var x := xs[|xs| - 1];
      if KeyIn(init, key, key(x)) then init else init + [x]
  }

  /** No row before position `i` has the key of row `i`. */
  ghost predicate IsFirst<T, K>(xs: seq<T>, key: T -> K, i: nat)
    requires i < |xs|
  {
    forall j :: 0 <= j < i ==> key(xs[j]) != key(xs[i])
  }

  predicate KeysDistinct<T, K(==)>(ys: seq<T>, key: T -> K) {
    forall a, b :: 0 <= a < b < |ys| ==> key(ys[a]) != key(ys[b])
  }

  lemma KeyInSnoc<T, K>(ys: seq<T>, y: T, key: T -> K, k: K)
    ensures KeyIn(ys + [y], key, k) <==> KeyIn(ys, key, k) || key(y) == k
  {
    var zs := ys + [y];
    if KeyIn(ys, key, k) {
      var j :| 0 <= j < |ys| && key(ys[j]) == k;
      assert key(zs[j]) == k;
    }
    if key(y) == k {
      assert key(zs[|ys|]) == k;
    }
    if KeyIn(zs, key, k) && key(y) != k {
      var j :| 0 <= j < |zs| && key(zs[j]) == k;
      assert key(ys[j]) == k;
    }
  }

  /** Dropping duplicates loses no key. */
  lemma {:induction false} KeepFirstKeys<T, K>(xs: seq<T>, key: T -> K, k: K)
    ensures KeyIn(KeepFirst(xs, key), key, k) <==> KeyIn(xs, key, k)
    decreases |xs|
  {
    if xs != [] {
      var n := |xs| - 1;
      var init := KeepFirst(xs[..n], key);
      KeepFirstKeys(xs[..n], key, k);
      KeepFirstKeys(xs[..n], key, key(xs[n]));
      KeyInSnoc(init, xs[n], key, k);
      assert xs == xs[..n] + [xs[n]];
      KeyInSnoc(xs[..n], xs[n], key, k);
    }
  }

  /** The first rows of their keys, with `idx` listing their positions. */
  ghost predicate PicksFirst<T, K>(xs: seq<T>, key: T -> K, ys: seq<T>, idx: seq<nat>) {
    && |idx| == |ys| && Increasing(idx)
    && (forall k :: 0 <= k < |idx| ==> idx[k] < |xs| && ys[k] == xs[idx[k]] && IsFirst(xs, key, idx[k]))
    && (forall i :: 0 <= i < |xs| && IsFirst(xs, key, i) ==> i in idx)
  }

  /** Dropping duplicates keeps exactly the first row of every key, in order. */
  lemma {:induction false} KeepFirstPicks<T, K>(xs: seq<T>, key: T -> K) returns (idx: seq<nat>)
    ensures PicksFirst(xs, key, KeepFirst(xs, key), idx)
    decreases |xs|
  {
    if xs == [] {
      idx := [];
    } else {
      var n := |xs| - 1;
      var idx0 := KeepFirstPicks(xs[..n], key);
      KeepFirstKeys(xs[..n], key, key(xs[n]));
      idx := PicksFirstSnoc(xs, n, key, KeepFirst(xs[..n], key), idx0);
    }
  }

  lemma PicksFirstSnoc<T, K>(xs: seq<T>, n: nat, key: T -> K, ys: seq<T>, idx0: seq<nat>) returns (idx: seq<nat>)
    requires n == |xs| - 1 && PicksFirst(xs[..n], key, ys, idx0)
    requires KeyIn(ys, key, key(xs[n])) <==> KeyIn(xs[..n], key, key(xs[n]))
    ensures PicksFirst(xs, key, if KeyIn(ys, key, key(xs[n])) then ys else ys + [xs[n]], idx)
  {
    var pre := xs[..n];
    var dup := KeyIn(ys, key, key(xs[n]));
    var zs := if dup then ys else ys + [xs[n]];
    idx := if dup then idx0 else idx0 + [n];
    assert forall i :: 0 <= i < n ==> pre[i] == xs[i];
    assert IsFirst(xs, key, n) <==> !dup by {
      if dup {
        var j :| 0 <= j < n && key(pre[j]) == key(xs[n]);
      }
    }
    forall k | 0 <= k < |idx| ensures idx[k] < |xs| && zs[k] == xs[idx[k]] && IsFirst(xs, key, idx[k]) {
      if k < |idx0| {
        assert idx[k] == idx0[k] && IsFirst(pre, key, idx0[k]);
      }
    }
    forall a, b | 0 <= a < b < |idx| ensures idx[a] < idx[b] {
      if b < |idx0| {
        assert idx[a] == idx0[a] && idx[b] == idx0[b];
      } else {
        assert idx[a] == idx0[a] && idx0[a] < n;
      }
    }
    forall i | 0 <= i < |xs| && IsFirst(xs, key, i) ensures i in idx {
      if i < n {
        assert IsFirst(pre, key, i);
        assert i in idx0;
      } else {
        assert idx[|idx0|] == n;
      }
    }
  }

  /** A frame without duplicates has pairwise distinct keys. */
  lemma KeepFirstDistinct<T, K>(xs: seq<T>, key: T -> K)
    ensures KeysDistinct(KeepFirst(xs, key), key)
  {
    var ys := KeepFirst(xs, key);
    var idx := KeepFirstPicks(xs, key);
    forall a, b | 0 <= a < b < |ys| ensures key(ys[a]) != key(ys[b]) {
      assert idx[a] < idx[b];
    }
  }

  // ---------------------------------------------------------------------
  // Filters followed by drop_duplicates
  // ---------------------------------------------------------------------

  /** Row `i` survives the filters, and no earlier surviving row has its key. */
  ghost predicate FirstKept<T, U, K>(xs: seq<T>, f: T -> Option<U>, key: U -> K, i: nat)
    requires i < |xs|
  {
    f(xs[i]).Some? && forall j :: 0 <= j < i && f(xs[j]).Some? ==> key(f(xs[j]).value) != key(f(xs[i]).value)
  }

  /** The cleaned frame is, in order, the rows that survive the filters and come first for their key. */
  ghost predicate CleanedFrom<T, U, K>(xs: seq<T>, f: T -> Option<U>, key: U -> K, ys: seq<U>, idx: seq<nat>) {
    && |idx| == |ys| && Increasing(idx)
    && (forall k :: 0 <= k < |idx| ==> idx[k] < |xs| && FirstKept(xs, f, key, idx[k]) && f(xs[idx[k]]) == Some(ys[k]))
    && (forall i :: 0 <= i < |xs| && FirstKept(xs, f, key, i) ==> i in idx)
  }

  lemma FirstKeptSound<T, U, K>(xs: seq<T>, f: T -> Option<U>, key: U -> K, ys: seq<U>, fidx: seq<nat>, m: nat)
    requires Picks(xs, f, ys, fidx) && m < |ys| && IsFirst(ys, key, m)
    ensures FirstKept(xs, f, key, fidx[m])
  {
    var i := fidx[m];
    forall j | 0 <= j < i && f(xs[j]).Some? ensures key(f(xs[j]).value) != key(f(xs[i]).value) {
      var m' :| 0 <= m' < |fidx| && fidx[m'] == j;
      assert m' < m;
    }
  }

  lemma FirstKeptComplete<T, U, K>(xs: seq<T>, f: T -> Option<U>, key: U -> K, ys: seq<U>, fidx: seq<nat>, i: nat)
    requires Picks(xs, f, ys, fidx) && i < |xs| && FirstKept(xs, f, key, i)
    ensures exists m :: 0 <= m < |ys| && fidx[m] == i && IsFirst(ys, key, m)
  {
    var m :| 0 <= m < |fidx| && fidx[m] == i;
    forall m' | 0 <= m' < m ensures key(ys[m']) != key(ys[m]) {
      assert fidx[m'] < i;
    }
  }

  /** `idx` maps each position of `didx` through `fidx`. */
  ghost predicate Composed(idx: seq<nat>, fidx: seq<nat>, didx: seq<nat>) {
    |idx| == |didx| && forall k :: 0 <= k < |didx| ==> didx[k] < |fidx| && idx[k] == fidx[didx[k]]
  }

  lemma ComposedIncreasing(idx: seq<nat>, fidx: seq<nat>, didx: seq<nat>)
    requires Composed(idx, fidx, didx) && Increasing(fidx) && Increasing(didx)
    ensures Increasing(idx)
  {
    forall a, b | 0 <= a < b < |idx| ensures idx[a] < idx[b] {
      assert didx[a] < didx[b];
    }
  }

  lemma ComposedSound<T, U, K>(xs: seq<T>, f: T -> Option<U>, key: U -> K, ys: seq<U>, zs: seq<U>, idx: seq<nat>, fidx: seq<nat>, didx: seq<nat>)
    requires Picks(xs, f, ys, fidx) && PicksFirst(ys, key, zs, didx) && Composed(idx, fidx, didx)
    ensures forall k :: 0 <= k < |idx| ==> idx[k] < |xs| && FirstKept(xs, f, key, idx[k]) && f(xs[idx[k]]) == Some(zs[k])
  {
    forall k | 0 <= k < |idx|
      ensures idx[k] < |xs| && FirstKept(xs, f, key, idx[k]) && f(xs[idx[k]]) == Some(zs[k])
    {
      FirstKeptSound(xs, f, key, ys, fidx, didx[k]);
    }
  }

  lemma ComposedCompleteAt<T, U, K>(xs: seq<T>, f: T -> Option<U>, key: U -> K, ys: seq<U>, zs: seq<U>, idx: seq<nat>, fidx: seq<nat>, didx: seq<nat>, i: nat)
    requires Picks(xs, f, ys, fidx) && PicksFirst(ys, key, zs, didx) && Composed(idx, fidx, didx)
    requires i < |xs| && FirstKept(xs, f, key, i)
    ensures i in idx
  {
    FirstKeptComplete(xs, f, key, ys, fidx, i);
    var m :| 0 <= m < |ys| && fidx[m] == i && IsFirst(ys, key, m);
    assert m in didx;
    var k :| 0 <= k < |didx| && didx[k] == m;
    assert idx[k] == i;
  }

  /** The rows the filters and `drop_duplicates` leave, characterised on the raw frame. */
  lemma CleanedRows<T, U, K>(xs: seq<T>, f: T -> Option<U>, key: U -> K) returns (idx: seq<nat>)
    ensures CleanedFrom(xs, f, key, KeepFirst(FilterMap(xs, f), key), idx)
  {
    var ys := FilterMap(xs, f);
    var fidx := FilterMapPicks(xs, f);
    var didx := KeepFirstPicks(ys, key);
    idx := seq(|didx|, k requires 0 <= k < |didx| => fidx[didx[k]]);
    assert Composed(idx, fidx, didx);
    ComposedIncreasing(idx, fidx, didx);
    var zs := KeepFirst(ys, key);
    ComposedSound(xs, f, key, ys, zs, idx, fidx, didx);
    forall i | 0 <= i < |xs| && FirstKept(xs, f, key, i) ensures i in idx {
      ComposedCompleteAt(xs, f, key, ys, zs, idx, fidx, didx, i);
    }
  }

  /** Every key of a surviving row is in the cleaned frame, once. */
  lemma CleanedKeys<T, U, K>(xs: seq<T>, f: T -> Option<U>, key: U -> K)
    ensures var zs := KeepFirst(FilterMap(xs, f), key);
      && KeysDistinct(zs, key)
      && forall i :: 0 <= i < |xs| && f(xs[i]).Some? ==> KeyIn(zs, key, key(f(xs[i]).value))
  {
    var ys := FilterMap(xs, f);
    var fidx := FilterMapPicks(xs, f);
    KeepFirstDistinct(ys, key);
    forall i | 0 <= i < |xs| && f(xs[i]).Some? ensures KeyIn(KeepFirst(ys, key), key, key(f(xs[i]).value)) {
      var m :| 0 <= m < |fidx| && fidx[m] == i;
      KeepFirstKeys(ys, key, key(ys[m]));
    }
  }
}

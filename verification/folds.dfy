/**
 * The left-to-right scans the original writes as loops: a running minimum or maximum
 * started from a seed, and the "first strict minimum" scan that keeps the current best
 * unless a later value is strictly smaller (`if (d < minDistance)`), and the scan for the
 * first record with a given key, which is the record a `find`-guarded insert keeps.
 */
module Folds {
  import opened Wrappers

  /** `std::min` on two reals. */
  function Min(a: real, b: real): (m: real)
    ensures m <= a && m <= b
    ensures m == a || m == b
  {
    if b < a then b else a
  }

  /** `std::max` on two reals. */
  function Max(a: real, b: real): (m: real)
    ensures m >= a && m >= b
    ensures m == a || m == b
  {
    if a < b then b else a
  }

  /** `k` is the position a strict-`<` scan from the front ends on. */
  ghost predicate IsFirstMinimum(ds: seq<real>, k: int)
  {
    && 0 <= k < |ds|
    && (forall i | 0 <= i < |ds| :: ds[k] <= ds[i])
    && (forall i | 0 <= i < k :: ds[k] < ds[i])
  }

  /** Position of the first smallest value: the scan keeps its candidate on ties. */
  function ArgMinFirst(ds: seq<real>): (k: nat)
    requires |ds| > 0
    ensures IsFirstMinimum(ds, k)
  {
    if |ds| == 1 then 0
    else
      var k := ArgMinFirst(ds[..|ds| - 1]);
      assert ds[..|ds| - 1][k] == ds[k];
      if ds[|ds| - 1] < ds[k] then |ds| - 1 else k
  }

  /** There is only one first minimum, so `ArgMinFirst` is determined by its contract. */
  lemma FirstMinimumUnique(ds: seq<real>, k: int, k': int)
    requires IsFirstMinimum(ds, k) && IsFirstMinimum(ds, k')
    ensures k == k'
  {
    assert ds[k] == ds[k'];
  }

  /** Running minimum of `xs` started from `seed` (`if (x < m) m = x`). */
  function MinFrom(seed: real, xs: seq<real>): (m: real)
    ensures m <= seed
    ensures forall i | 0 <= i < |xs| :: m <= xs[i]
    ensures m == seed || exists i | 0 <= i < |xs| :: m == xs[i]
  {
    if |xs| == 0 then seed
    else
      var m := MinFrom(seed, xs[..|xs| - 1]);
      assert forall i | 0 <= i < |xs| - 1 :: xs[..|xs| - 1][i] == xs[i];
      if xs[|xs| - 1] < m then xs[|xs| - 1] else m
  }

  /** Running maximum of `xs` started from `seed` (`if (x > m) m = x`). */
  function MaxFrom(seed: real, xs: seq<real>): (m: real)
    ensures m >= seed
    ensures forall i | 0 <= i < |xs| :: m >= xs[i]
    ensures m == seed || exists i | 0 <= i < |xs| :: m == xs[i]
  {
    if |xs| == 0 then seed
    else
      var m := MaxFrom(seed, xs[..|xs| - 1]);
      assert forall i | 0 <= i < |xs| - 1 :: xs[..|xs| - 1][i] == xs[i];
      if xs[|xs| - 1] > m then xs[|xs| - 1] else m
  }

  /** Minimum of a non-empty sequence, scanned from its first element (the original's
      "take the first, then `if (d < m) m = d` over the rest"). */
  function MinOf(ds: seq<real>): (m: real)
    requires |ds| > 0
    ensures forall i | 0 <= i < |ds| :: m <= ds[i]
    ensures exists i | 0 <= i < |ds| :: m == ds[i]
  {
    var m := MinFrom(ds[0], ds[1..]);
    assert forall i | 0 < i < |ds| :: ds[1..][i - 1] == ds[i];
    assert m != ds[0] ==> exists j | 0 <= j < |ds[1..]| :: m == ds[1..][j];
    m
  }

  /** A prefix one element longer is the prefix with that element appended. */
  lemma TakeOneMore<T>(s: seq<T>, i: nat)
    requires i < |s|
    ensures s[..i + 1] == s[..i] + [s[i]]
  {
  }

  /** Position of the first element whose key is `id`, scanning from the front; `None`
      when there is none. */
  function FirstWithKey<R>(rs: seq<R>, key: R -> int, id: int): Option<nat>
    decreases |rs|
  {
    if |rs| == 0 then None
    else
      var earlier := FirstWithKey(rs[..|rs| - 1], key, id);
      if earlier.Some? then earlier
      else if key(rs[|rs| - 1]) == id then Some(|rs| - 1)
      else None
  }

  /** `FirstWithKey` is what its name says: `None` exactly when no element has the key,
      and otherwise a position with the key and none before it. */
  lemma {:induction false} FirstWithKeyMeaning<R>(rs: seq<R>, key: R -> int, id: int)
    ensures FirstWithKey(rs, key, id).None? <==> forall i | 0 <= i < |rs| :: key(rs[i]) != id
    ensures FirstWithKey(rs, key, id).Some? ==>
      var i := FirstWithKey(rs, key, id).value;
      i < |rs| && key(rs[i]) == id && forall j | 0 <= j < i :: key(rs[j]) != id
    decreases |rs|
  {
    if |rs| > 0 {
      var n := |rs| - 1;
      var prefix := rs[..n];
      FirstWithKeyMeaning(prefix, key, id);
      assert forall i | 0 <= i < n :: prefix[i] == rs[i];
    }
  }
}

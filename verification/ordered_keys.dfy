/**
 * The iteration order of a `std::map<int, ...>`: keys in strictly increasing order.
 * Every loop of the original over a node, link, road or sensor map walks `Ascending`
 * of the map's key set.
 */
module OrderedKeys {

  /** A set without elements is empty. */
  lemma EmptyWithoutElements(s: set<int>)
    ensures (forall x :: x !in s) ==> s == {}
  {
    if forall x :: x !in s {
      assert s <= {};
    }
  }

  /** Adding `x` to a set whose least element is `m` gives least element `min(x, m)`. */
  lemma LeastOfAdded(s: set<int>, x: int, m: int)
    requires m in s && forall k | k in s :: m <= k
    ensures var l := if x < m then x else m;
      l in s + {x} && forall k | k in s + {x} :: l <= k
  {
  }

  /** Every finite non-empty set of integers has a least element. */
  lemma {:induction false} LeastExists(s: set<int>)
    requires s != {}
    ensures exists m :: m in s && forall k | k in s :: m <= k
    decreases |s|
  {
    EmptyWithoutElements(s);
    var x :| x in s;
    var rest := s - {x};
    assert s == rest + {x} by {
      assert s <= rest + {x};
    }
    if exists y :: y in rest {
      LeastExists(rest);
      var m :| m in rest && forall k | k in rest :: m <= k;
      LeastOfAdded(rest, x, m);
    } else {
      assert rest == {} by {
        assert rest <= {};
      }
      assert forall k | k in s :: x <= k;
    }
  }

  /** The least key of a non-empty key set (`begin()` of the map). */
  function Least(s: set<int>): (m: int)
    requires s != {}
    ensures m in s
    ensures forall k | k in s :: m <= k
  {
    LeastExists(s);
    var m :| m in s && forall k | k in s :: m <= k;
    m
  }

  /** The keys of `s` in the order a `std::map` visits them. */
  function Ascending(s: set<int>): (r: seq<int>)
    ensures |r| == |s|
    ensures forall i | 0 <= i < |r| :: r[i] in s
    ensures forall k | k in s :: k in r
    ensures forall i | 0 < i < |r| :: r[0] < r[i]
    decreases |s|
  {
    if s == {} then []
    else
      var m := Least(s);
      [m] + Ascending(s - {m})
  }

  /** The keys come in strictly increasing order. */
  lemma {:induction false} AscendingSorted(s: set<int>)
    ensures forall i, j | 0 <= i < j < |Ascending(s)| :: Ascending(s)[i] < Ascending(s)[j]
    decreases |s|
  {
    if s != {} {
      var m := Least(s);
      var r, rest := Ascending(s), Ascending(s - {m});
      AscendingSorted(s - {m});
      Cons(m, rest, r);
    }
  }

  /** A sequence `r == [m] + rest` whose head is below every later element is sorted
      when `rest` is. */
  lemma Cons(m: int, rest: seq<int>, r: seq<int>)
    requires r == [m] + rest
    requires forall i | 0 < i < |r| :: r[0] < r[i]
    requires forall i, j | 0 <= i < j < |rest| :: rest[i] < rest[j]
    ensures forall i, j | 0 <= i < j < |r| :: r[i] < r[j]
  {
    forall i, j | 0 <= i < j < |r|
      ensures r[i] < r[j]
    {
      if 0 < i {
        assert r[i] == rest[i - 1] && r[j] == rest[j - 1];
      }
    }
  }

  /** A sequence of keys without repetition. */
  predicate Distinct(keys: seq<int>)
  {
    forall i, j | 0 <= i < j < |keys| :: keys[i] != keys[j]
  }

  /** A one-element key set holds only its least element. */
  lemma SingleKey(s: set<int>)
    requires |s| == 1
    ensures s == {Least(s)}
  {
    var rest := s - {Least(s)};
    assert |rest| == 0;
    assert rest == {};
    assert s <= {Least(s)};
  }

  /** A two-element key set is its least element and the least element of the rest,
      which is larger: `begin()` and the entry after it. */
  lemma TwoKeys(s: set<int>)
    requires |s| == 2
    ensures var a := Least(s); s - {a} != {} && a < Least(s - {a}) && s == {a, Least(s - {a})}
  {
    var a := Least(s);
    var rest := s - {a};
    assert |rest| == 1;
    assert rest != {} by {
      var empty: set<int> := {};
      assert |rest| != |empty|;
    }
    SingleKey(rest);
    forall x | x in s
      ensures x == a || x == Least(rest)
    {
      if x != a {
        assert x in rest;
      }
    }
    assert s <= {a, Least(rest)};
  }
}

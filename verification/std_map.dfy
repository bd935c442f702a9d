/**
 * `std::map::insert` on a map keyed by ID: the pair goes in only when the key is absent,
 * and an existing entry is never replaced. Every `add...Link` of the original guards its
 * insert with the same `find(...) == end()` test, which has the same effect.
 */
module StdMap {

  /** Insert `k -> v` unless `k` is already a key. */
  function InsertIfAbsent<V>(m: map<int, V>, k: int, v: V): (r: map<int, V>)
    ensures r.Keys == m.Keys + {k}
    ensures forall j | j in m :: r[j] == m[j]
    ensures k !in m ==> r[k] == v
  {
    if k in m then m else m[k := v]
  }

  /** A repeated insert with the same key changes nothing, whatever value it carries. */
  lemma InsertIfAbsentIdempotent<V>(m: map<int, V>, k: int, v: V, w: V)
    ensures InsertIfAbsent(InsertIfAbsent(m, k, v), k, w) == InsertIfAbsent(m, k, v)
  {
  }

  /** Inserting a key that is present changes nothing; inserting one that is absent adds
      exactly that entry. */
  lemma InsertIfAbsentCases<V>(m: map<int, V>, k: int, v: V)
    ensures k in m ==> InsertIfAbsent(m, k, v) == m
    ensures k !in m ==> InsertIfAbsent(m, k, v) == m[k := v]
  {
    var r := InsertIfAbsent(m, k, v);
    if k in m {
      assert r.Keys == m.Keys;
    } else {
      assert r.Keys == m[k := v].Keys;
    }
  }
}

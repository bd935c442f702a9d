/**
 * The two loops both matchers share. The inner loop walks a sequence of links and
 * keeps the first one whose distance is least (`if (distance < minDistance)`); the
 * outer loop inserts `vdsID -> roadID` into a `std::map` for each station whose
 * nearest link has a road, so the first insert of a key wins.
 */
module Nearest {
  import opened Wrappers
  import opened StdMap
  import opened Folds
  import opened Links

  /** The distance of each link of `hs`, in order. */
  function Distances(dist: LinkRef -> real, hs: seq<LinkRef>): (ds: seq<real>)
    ensures |ds| == |hs| && forall i | 0 <= i < |hs| :: ds[i] == dist(hs[i])
  {
    seq(|hs|, i requires 0 <= i < |hs| => dist(hs[i]))
  }

  /** The inner loop: start from the first link, and move to a later one only when it
      is strictly nearer. It ends on the first link of least distance. */
  method ScanNearest(dist: LinkRef -> real, hs: seq<LinkRef>) returns (h: LinkRef, k: nat)
    requires |hs| > 0
    ensures k < |hs| && h == hs[k]
    ensures forall i | 0 <= i < |hs| :: dist(h) <= dist(hs[i])
    ensures forall i | 0 <= i < k :: dist(h) < dist(hs[i])
    ensures IsFirstMinimum(Distances(dist, hs), k)
  {
    k := 0;
    var minDistance := dist(hs[0]);
    var i := 1;
    while i < |hs|
      invariant 1 <= i <= |hs| && k < i
      invariant minDistance == dist(hs[k])
      invariant forall j | 0 <= j < i :: minDistance <= dist(hs[j])
      invariant forall j | 0 <= j < k :: minDistance < dist(hs[j])
    {
      var distance := dist(hs[i]);
      if distance < minDistance {
        minDistance := distance;
        k := i;
      }
      i := i + 1;
    }
    h := hs[k];
  }

  /** The scan's choice is the one `ArgMinFirst` describes. */
  lemma ScanIsArgMinFirst(dist: LinkRef -> real, hs: seq<LinkRef>, k: nat)
    requires |hs| > 0 && IsFirstMinimum(Distances(dist, hs), k)
    ensures k == ArgMinFirst(Distances(dist, hs))
  {
    FirstMinimumUnique(Distances(dist, hs), k, ArgMinFirst(Distances(dist, hs)));
  }

  /** `m` is what the outer loop leaves after inserting `(keys[j], roads[j].value)` for
      each `j` in order whose road is present, into an empty `std::map`: a key is in `m`
      exactly when some station with that key has a road, and its value is the road of
      the first such station. */
  ghost predicate Recorded(m: map<int, int>, keys: seq<int>, roads: seq<Option<int>>)
    requires |keys| == |roads|
  {
    && (forall x :: x in m <==> exists j | 0 <= j < |keys| :: keys[j] == x && roads[j].Some?)
    && (forall x | x in m :: exists j | 0 <= j < |keys| ::
          && keys[j] == x && roads[j] == Some(m[x])
          && forall j' | 0 <= j' < j :: keys[j'] == x ==> roads[j'].None?)
  }

  /** One more round of the outer loop: `insert` when the road is present. */
  function Record(m: map<int, int>, key: int, road: Option<int>): (r: map<int, int>)
    ensures road.None? ==> r == m
    ensures road.Some? ==> r == InsertIfAbsent(m, key, road.value)
  {
    if road.Some? then InsertIfAbsent(m, key, road.value) else m
  }

  /** Nothing is recorded before the loop starts. */
  lemma RecordedEmpty()
    ensures Recorded(map[], [], [])
  {
  }

  /** Each round keeps `Recorded`. */
  lemma RecordedStep(m: map<int, int>, keys: seq<int>, roads: seq<Option<int>>, key: int, road: Option<int>)
    requires |keys| == |roads| && Recorded(m, keys, roads)
    ensures Recorded(Record(m, key, road), keys + [key], roads + [road])
  {
    var keys', roads', r := keys + [key], roads + [road], Record(m, key, road);
    var n := |keys|;
    assert forall j | 0 <= j < n :: keys'[j] == keys[j] && roads'[j] == roads[j];
    assert keys'[n] == key && roads'[n] == road;
    forall x
      ensures x in r <==> exists j | 0 <= j < |keys'| :: keys'[j] == x && roads'[j].Some?
    {
      if x in m {
        var j :| 0 <= j < n && keys[j] == x && roads[j].Some?;
        assert keys'[j] == x && roads'[j].Some?;
      }
    }
    forall x | x in r
      ensures exists j | 0 <= j < |keys'| ::
        && keys'[j] == x && roads'[j] == Some(r[x])
        && forall j' | 0 <= j' < j :: keys'[j'] == x ==> roads'[j'].None?
    {
      if x in m {
        var j :| 0 <= j < n && keys[j] == x && roads[j] == Some(m[x])
          && forall j' | 0 <= j' < j :: keys[j'] == x ==> roads[j'].None?;
        assert keys'[j] == x && roads'[j] == Some(r[x]);
      } else {
        assert forall j' | 0 <= j' < n :: keys'[j'] == x ==> roads'[j'].None?;
      }
    }
  }

  /** The outer loop as a fold: the map after recording every station of `keys`, in
      order. */
  function RecordAll(keys: seq<int>, roads: seq<Option<int>>): (m: map<int, int>)
    requires |keys| == |roads|
    decreases |keys|
  {
    if |keys| == 0 then map[]
    else
      var n := |keys| - 1;
      Record(RecordAll(keys[..n], roads[..n]), keys[n], roads[n])
  }

  /** The fold records what `Recorded` describes. */
  lemma {:induction false} RecordAllRecorded(keys: seq<int>, roads: seq<Option<int>>)
    requires |keys| == |roads|
    ensures Recorded(RecordAll(keys, roads), keys, roads)
    decreases |keys|
  {
    if |keys| == 0 {
      RecordedEmpty();
    } else {
      var n := |keys| - 1;
      RecordAllRecorded(keys[..n], roads[..n]);
      RecordedStep(RecordAll(keys[..n], roads[..n]), keys[..n], roads[..n], keys[n], roads[n]);
      assert keys[..n] + [keys[n]] == keys;
      assert roads[..n] + [roads[n]] == roads;
    }
  }

  /** Only the given keys are recorded. */
  lemma RecordAllKeys(keys: seq<int>, roads: seq<Option<int>>)
    requires |keys| == |roads|
    ensures forall x | x in RecordAll(keys, roads) :: x in keys
  {
    RecordAllRecorded(keys, roads);
  }

  /** The `i`-th round of the loop extends the fold by one station. */
  lemma RecordAllNext(keys: seq<int>, roads: seq<Option<int>>, i: int)
    requires |keys| == |roads| && 0 <= i < |keys|
    ensures RecordAll(keys[..i + 1], roads[..i + 1]) == Record(RecordAll(keys[..i], roads[..i]), keys[i], roads[i])
  {
    assert keys[..i + 1][..i] == keys[..i];
    assert roads[..i + 1][..i] == roads[..i];
  }

  /** The loop's last prefix is the whole sequence. */
  lemma RecordAllWhole(keys: seq<int>, roads: seq<Option<int>>)
    requires |keys| == |roads|
    ensures RecordAll(keys[..|keys|], roads[..|roads|]) == RecordAll(keys, roads)
  {
    assert keys[..|keys|] == keys && roads[..|roads|] == roads;
  }

  /** With keys that do not repeat, a key is recorded exactly when its station has a
      road, and then with that road. */
  lemma RecordedDistinct(m: map<int, int>, keys: seq<int>, roads: seq<Option<int>>)
    requires |keys| == |roads| && Recorded(m, keys, roads)
    requires forall a, b | 0 <= a < b < |keys| :: keys[a] != keys[b]
    ensures forall x | x in m :: x in keys
    ensures forall j | 0 <= j < |keys| :: keys[j] in m <==> roads[j].Some?
    ensures forall j | 0 <= j < |keys| && roads[j].Some? :: m[keys[j]] == roads[j].value
  {
    forall j | 0 <= j < |keys| && keys[j] in m
      ensures roads[j] == Some(m[keys[j]])
    {
      var j0 :| 0 <= j0 < |keys| && keys[j0] == keys[j] && roads[j0] == Some(m[keys[j]])
        && forall j' | 0 <= j' < j0 :: keys[j'] == keys[j] ==> roads[j'].None?;
      assert j0 == j;
    }
  }
}

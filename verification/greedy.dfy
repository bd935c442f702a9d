/**
 * The greedy matcher: each detector station is measured against every link of the
 * network, the first nearest link wins, and the station is recorded against that
 * link's road when it has one.
 */
module Greedy {
  import opened Wrappers
  import opened StdMap
  import opened OrderedKeys
  import opened Folds
  import opened Links
  import opened Roads
  import opened Networks
  import opened Nearest

  /** The distance both matchers compare, `calcLinkDistanceFromPoint(lon, lat)` of each
      link from the station's position. The matchers below take the measure as a
      parameter `measure`, and their contracts hold for every measure, this one included. */
  function Measure(root: real -> real, net: Network): (measure: Vds -> LinkRef -> real)
    ensures forall v, h: LinkRef | PlacedRef(net.nodes, net.arena, h) ::
      measure(v)(h) == LinkPointDistance(root, net.nodes, net.arena[h], v.pos.lon, v.pos.lat)
  {
    (v: Vds) => DistanceTo(root, net.nodes, net.arena, v.pos.lon, v.pos.lat)
  }

  /** The link objects of the link map, in the map's ascending ID order. */
  function LinkOrder(net: Network): (hs: seq<LinkRef>)
    ensures |hs| == |net.links|
    ensures forall k | 0 <= k < |hs| :: Ascending(net.links.Keys)[k] in net.links
    ensures forall k | 0 <= k < |hs| :: hs[k] == net.links[Ascending(net.links.Keys)[k]]
  {
    var ids := Ascending(net.links.Keys);
    seq(|ids|, k requires 0 <= k < |ids| => net.links[ids[k]])
  }

  /** The ID of the link the greedy scan settles on under distance `dist`: no link of the
      map is nearer, and every link of a smaller ID is strictly farther, so among the
      nearest links it is the one of least ID. The scan starts at `links->begin()`, so
      the map must not be empty. */
  function GreedyId(net: Network, dist: LinkRef -> real): (id: int)
    requires |net.links| > 0
    ensures id in net.links
    ensures forall id' | id' in net.links :: dist(net.links[id]) <= dist(net.links[id'])
    ensures forall id' | id' in net.links && id' < id :: dist(net.links[id]) < dist(net.links[id'])
  {
    var k := ArgMinFirst(Distances(dist, LinkOrder(net)));
    GreedyIdFacts(net, dist, k);
    Ascending(net.links.Keys)[k]
  }

  /** The first minimum of the link order, read back in terms of IDs. */
  lemma GreedyIdFacts(net: Network, dist: LinkRef -> real, k: nat)
    requires IsFirstMinimum(Distances(dist, LinkOrder(net)), k)
    ensures k < |Ascending(net.links.Keys)|
    ensures var id := Ascending(net.links.Keys)[k];
      && id in net.links
      && (forall id' | id' in net.links :: dist(net.links[id]) <= dist(net.links[id']))
      && (forall id' | id' in net.links && id' < id :: dist(net.links[id]) < dist(net.links[id']))
  {
    var ids, hs := Ascending(net.links.Keys), LinkOrder(net);
    var ds := Distances(dist, hs);
    AscendingSorted(net.links.Keys);
    forall id' | id' in net.links
      ensures dist(net.links[ids[k]]) <= dist(net.links[id'])
      ensures id' < ids[k] ==> dist(net.links[ids[k]]) < dist(net.links[id'])
    {
      var k' :| 0 <= k' < |ids| && ids[k'] == id';
      assert ds[k'] == dist(net.links[id']);
      if id' < ids[k] {
        assert k' < k;
      }
    }
  }

  /** The greedy choice is the only ID with those two properties. */
  lemma GreedyIdUnique(net: Network, dist: LinkRef -> real, id: int)
    requires |net.links| > 0 && id in net.links
    requires forall id' | id' in net.links :: dist(net.links[id]) <= dist(net.links[id'])
    requires forall id' | id' in net.links && id' < id :: dist(net.links[id]) < dist(net.links[id'])
    ensures id == GreedyId(net, dist)
  {
  }

  /** The road of the greedy link, if it has one. */
  function GreedyRoad(net: Network, dist: LinkRef -> real): (road: Option<int>)
    requires |net.links| > 0 && Placed(net.nodes, net.arena, net.links)
  {
    net.arena[net.links[GreedyId(net, dist)]].road
  }

  /** The greedy roads of the stations, in the station map's ascending ID order. */
  function GreedyRoads(net: Network, measure: Vds -> LinkRef -> real): (roads: seq<Option<int>>)
    requires |net.links| > 0 && Placed(net.nodes, net.arena, net.links)
    ensures |roads| == |net.vds|
    ensures forall k | 0 <= k < |roads| :: Ascending(net.vds.Keys)[k] in net.vds
    ensures forall k | 0 <= k < |roads| ::
      roads[k] == GreedyRoad(net, measure(net.vds[Ascending(net.vds.Keys)[k]]))
  {
    var ids := Ascending(net.vds.Keys);
    seq(|ids|, k requires 0 <= k < |ids| => GreedyRoad(net, measure(net.vds[ids[k]])))
  }

  /** The scan over the link order ends on the object of the greedy ID. */
  lemma GreedyScan(net: Network, dist: LinkRef -> real, h: LinkRef, k: nat)
    requires |net.links| > 0 && Placed(net.nodes, net.arena, net.links)
    requires IsFirstMinimum(Distances(dist, LinkOrder(net)), k)
    requires h == LinkOrder(net)[k]
    ensures h == net.links[GreedyId(net, dist)]
    ensures h < |net.arena| && net.arena[h].road == GreedyRoad(net, dist)
  {
    ScanIsArgMinFirst(dist, LinkOrder(net), k);
  }

  /** The inner loop of the greedy matcher: scan the link objects `hs`, in the link
      map's ID order, for the first nearest one under `dist`. It is the link of the
      greedy ID. */
  method NearestLink(net: Network, hs: seq<LinkRef>, dist: LinkRef -> real) returns (h: LinkRef)
    requires |net.links| > 0 && Placed(net.nodes, net.arena, net.links) && hs == LinkOrder(net)
    ensures h == net.links[GreedyId(net, dist)]
    ensures h < |net.arena| && net.arena[h].road == GreedyRoad(net, dist)
  {
    var k;
    h, k := ScanNearest(dist, hs);
    GreedyScan(net, dist, h, k);
  }

  /** The state of the outer loop after `i` rounds: `m` is the fold of the first `i`
      stations in ID order. */
  ghost predicate GreedyPrefix(net: Network, measure: Vds -> LinkRef -> real, i: nat, m: map<int, int>)
  {
    && |net.links| > 0 && Placed(net.nodes, net.arena, net.links) && i <= |net.vds|
    && m == RecordAll(Ascending(net.vds.Keys)[..i], GreedyRoads(net, measure)[..i])
  }

  /** The loop starts from the empty map. */
  lemma GreedyPrefixEmpty(net: Network, measure: Vds -> LinkRef -> real)
    requires |net.links| > 0 && Placed(net.nodes, net.arena, net.links)
    ensures GreedyPrefix(net, measure, 0, map[])
  {
  }

  /** One round of the outer loop, for the `i`-th station in ID order: recording the
      road of its greedy link extends the fold by that station. */
  lemma GreedyRound(net: Network, measure: Vds -> LinkRef -> real, i: nat, m: map<int, int>, h: LinkRef)
    requires GreedyPrefix(net, measure, i, m) && i < |net.vds|
    requires h < |net.arena| && net.arena[h].road == GreedyRoad(net, measure(net.vds[Ascending(net.vds.Keys)[i]]))
    ensures GreedyPrefix(net, measure, i + 1, Record(m, Ascending(net.vds.Keys)[i], net.arena[h].road))
  {
    var ids, roads := Ascending(net.vds.Keys), GreedyRoads(net, measure);
    assert net.arena[h].road == roads[i];
    RecordAllNext(ids, roads, i);
  }

  /** The loop's last state holds the whole fold. */
  lemma GreedyPrefixWhole(net: Network, measure: Vds -> LinkRef -> real, m: map<int, int>)
    requires GreedyPrefix(net, measure, |net.vds|, m)
    ensures m == RecordAll(Ascending(net.vds.Keys), GreedyRoads(net, measure))
  {
    RecordAllWhole(Ascending(net.vds.Keys), GreedyRoads(net, measure));
  }

  /** `matchVDSToRoads_Greedy` without the timing and the output file, under the measure
      `measure` (`Measure` in the original): for each station,
      in ID order, scan every link for the first nearest one, and insert the station's ID
      with that link's road when the link has a road. A station ID is in the result
      exactly when its greedy link has a road, and maps to that road (`GreedyKeys`). */
  method MatchGreedy(net: Network, measure: Vds -> LinkRef -> real) returns (m: map<int, int>)
    requires |net.links| > 0 && Placed(net.nodes, net.arena, net.links)
    ensures m == RecordAll(Ascending(net.vds.Keys), GreedyRoads(net, measure))
  {
    var hs := LinkOrder(net);
    var n := |net.vds|;
    m := map[];
    GreedyPrefixEmpty(net, measure);
    var i := 0;
    while i < n
      invariant i <= n && GreedyPrefix(net, measure, i, m)
    {
      m := GreedyStation(net, measure, hs, i, m);
      i := i + 1;
    }
    GreedyPrefixWhole(net, measure, m);
  }

  /** One round of the outer loop: match the `i`-th station in ID order and insert its
      ID with the road of its nearest link, when that link has a road. */
  method GreedyStation(net: Network, measure: Vds -> LinkRef -> real, hs: seq<LinkRef>, i: nat, m: map<int, int>)
    returns (m': map<int, int>)
    requires GreedyPrefix(net, measure, i, m) && i < |net.vds| && hs == LinkOrder(net)
    ensures GreedyPrefix(net, measure, i + 1, m')
  {
    var id := Ascending(net.vds.Keys)[i];
    var h := NearestLink(net, hs, measure(net.vds[id]));
    GreedyRound(net, measure, i, m, h);
    var road := net.arena[h].road;
    m' := m;
    if road.Some? {
      m' := InsertIfAbsent(m, id, road.value);
    }
  }

  /** What the greedy result records, read by station: the stations are recorded under
      their map keys, which do not repeat, so every key is a station's and a station is
      in the result exactly when its greedy link has a road, and maps to that road. */
  lemma GreedyKeys(net: Network, measure: Vds -> LinkRef -> real, m: map<int, int>)
    requires |net.links| > 0 && Placed(net.nodes, net.arena, net.links)
    requires m == RecordAll(Ascending(net.vds.Keys), GreedyRoads(net, measure))
    ensures m.Keys <= net.vds.Keys
    ensures forall id | id in net.vds ::
      id in m <==> GreedyRoad(net, measure(net.vds[id])).Some?
    ensures forall id | id in m ::
      m[id] == GreedyRoad(net, measure(net.vds[id])).value
  {
    var ids := Ascending(net.vds.Keys);
    RecordAllKeys(ids, GreedyRoads(net, measure));
    forall x | x in m
      ensures x in net.vds
    {
      var k :| 0 <= k < |ids| && ids[k] == x;
    }
    forall id | id in net.vds
      ensures id in m <==> GreedyRoad(net, measure(net.vds[id])).Some?
      ensures id in m ==> m[id] == GreedyRoad(net, measure(net.vds[id])).value
    {
      GreedyKey(net, measure, m, id);
    }
  }

  /** `GreedyKeys` for one station. */
  lemma GreedyKey(net: Network, measure: Vds -> LinkRef -> real, m: map<int, int>, id: int)
    requires |net.links| > 0 && Placed(net.nodes, net.arena, net.links) && id in net.vds
    requires m == RecordAll(Ascending(net.vds.Keys), GreedyRoads(net, measure))
    ensures id in m <==> GreedyRoad(net, measure(net.vds[id])).Some?
    ensures id in m ==> m[id] == GreedyRoad(net, measure(net.vds[id])).value
  {
    var ids, roads := Ascending(net.vds.Keys), GreedyRoads(net, measure);
    AscendingSorted(net.vds.Keys);
    RecordAllRecorded(ids, roads);
    RecordedDistinct(m, ids, roads);
    var k :| 0 <= k < |ids| && ids[k] == id;
    assert roads[k] == GreedyRoad(net, measure(net.vds[id]));
  }
}

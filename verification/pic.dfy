/**
 * The PIC (point in cell) matcher: a grid is laid over the network, every link is
 * handed to the cells it crosses, and each detector station is measured only against
 * the links of the cell holding it. The first nearest of those wins, and the station is
 * recorded against that link's road when it has one.
 */
module Pic {
  import opened Wrappers
  import opened StdMap
  import opened OrderedKeys
  import opened Folds
  import opened Links
  import opened Roads
  import opened Networks
  import opened Cells
  import opened Grids
  import opened GridAssign
  import opened LinkAssignment
  import opened Nearest
  import opened Greedy

  /** Every link object in a cell of `g` is the object of some link of the link map. */
  predicate CellsFromMap(g: Grid, net: Network)
  {
    forall i, j | 0 <= i < |g.cells| && 0 <= j < |g.cells[i]| ::
      forall h | h in g.cells[i][j].links :: exists id | id in net.links :: net.links[id] == h
  }

  /** The grid the PIC matcher searches: `build` over the network's nodes with cells of
      side `dimension`, then `assignLinksToGrid`. It is laid out, and its cells hold only
      links of the link map. */
  function PicGrid(net: Network, dimension: real): (g: Grid)
    requires |net.nodes| > 0 && dimension > 0.0 && Placed(net.nodes, net.arena, net.links)
    ensures Laid(g) && g.dimension == dimension && CellsFromMap(g, net)
  {
    BuiltReachable(net, dimension);
    var g0 := Grids.Built(net.nodes, dimension);
    var g := AssignLinksToGrid(net, g0);
    SameFrameLaid(g0, g);
    PicGridFromMap(net, g0);
    g
  }

  /** Assigning the link map's links to an empty grid puts nothing else in its cells. */
  lemma PicGridFromMap(net: Network, g0: Grid)
    requires Laid(g0) && Empty(g0) && Placed(net.nodes, net.arena, net.links) && LinksReachable(g0, net)
    ensures CellsFromMap(AssignLinksToGrid(net, g0), net)
  {
    var g := AssignLinksToGrid(net, g0);
    forall i, j, h | 0 <= i < |g.cells| && 0 <= j < |g.cells[i]| && h in g.cells[i][j].links
      ensures exists id | id in net.links :: net.links[id] == h
    {
      PicCellFromMap(net, g0, (i, j), h);
    }
  }

  /** One cell of `PicGridFromMap`. */
  lemma PicCellFromMap(net: Network, g0: Grid, t: (int, int), h: LinkRef)
    requires Laid(g0) && Empty(g0) && Placed(net.nodes, net.arena, net.links) && LinksReachable(g0, net)
    requires OnGrid(AssignLinksToGrid(net, g0), t)
    requires h in AssignLinksToGrid(net, g0).cells[t.0][t.1].links
    ensures exists id | id in net.links :: net.links[id] == h
  {
    AssignLinksToGridMembership(net, g0, t, h);
  }

  /** Every link of a cell the lookup yields is placed in the network. */
  lemma ContainingPlaced(g: Grid, net: Network, lat: real, lon: real)
    requires Spans(g) && CellsFromMap(g, net) && Placed(net.nodes, net.arena, net.links)
    requires Containing(g, lat, lon).Some?
    ensures forall h | h in Containing(g, lat, lon).value.links :: PlacedRef(net.nodes, net.arena, h)
  {
    var i, j := Band(g.minLat, lat, g.dimension, g.numY), Band(g.minLon, lon, g.dimension, g.numX);
    assert Containing(g, lat, lon).value == g.cells[i][j];
    forall h | h in g.cells[i][j].links
      ensures PlacedRef(net.nodes, net.arena, h)
    {
      var id :| id in net.links && net.links[id] == h;
    }
  }

  /** Every link of a cell the lookup yields is a link of the link map. */
  lemma ContainingFromMap(g: Grid, net: Network, lat: real, lon: real)
    requires Spans(g) && CellsFromMap(g, net)
    requires Containing(g, lat, lon).Some?
    ensures forall h | h in Containing(g, lat, lon).value.links :: exists id | id in net.links :: net.links[id] == h
  {
    var i, j := Band(g.minLat, lat, g.dimension, g.numY), Band(g.minLon, lon, g.dimension, g.numX);
    assert Containing(g, lat, lon).value == g.cells[i][j];
  }

  /** The link the PIC matcher settles on for station `v` under distance `dist`: none
      when the lookup finds no cell or the cell holds no link; otherwise a link of the
      cell that no link of the cell is nearer than, and strictly nearer than every entry
      of the cell's vector before its first occurrence. */
  function PicLink(g: Grid, v: Vds, dist: LinkRef -> real): (r: Option<LinkRef>)
    requires Spans(g)
    ensures var c := Containing(g, v.pos.lat, v.pos.lon);
      r.None? <==> c.None? || |c.value.links| == 0
    ensures r.Some? ==> var hs := Containing(g, v.pos.lat, v.pos.lon).value.links;
      && r.value in hs
      && (forall h | h in hs :: dist(r.value) <= dist(h))
      && exists k | 0 <= k < |hs| :: hs[k] == r.value && forall k' | 0 <= k' < k :: dist(r.value) < dist(hs[k'])
  {
    var c := Containing(g, v.pos.lat, v.pos.lon);
    if c.None? || |c.value.links| == 0 then None
    else
      var hs := c.value.links;
      var k := ArgMinFirst(Distances(dist, hs));
      assert forall k' | 0 <= k' < |hs| :: Distances(dist, hs)[k'] == dist(hs[k']);
      Some(hs[k])
  }

  /** The road the PIC matcher records station `v` against: the road of its PIC link,
      when there is a link and the link has a road. */
  function PicRoad(net: Network, g: Grid, v: Vds, dist: LinkRef -> real): (road: Option<int>)
    requires Spans(g) && CellsFromMap(g, net) && Placed(net.nodes, net.arena, net.links)
  {
    var l := PicLink(g, v, dist);
    if l.None? then None
    else
      ContainingPlaced(g, net, v.pos.lat, v.pos.lon);
      net.arena[l.value].road
  }

  /** The scan over the station's cell ends on its PIC link. */
  lemma PicScan(net: Network, g: Grid, v: Vds, dist: LinkRef -> real, h: LinkRef, k: nat)
    requires Spans(g) && CellsFromMap(g, net) && Placed(net.nodes, net.arena, net.links)
    requires Containing(g, v.pos.lat, v.pos.lon).Some?
    requires IsFirstMinimum(Distances(dist, Containing(g, v.pos.lat, v.pos.lon).value.links), k)
    requires h == Containing(g, v.pos.lat, v.pos.lon).value.links[k]
    ensures h < |net.arena| && net.arena[h].road == PicRoad(net, g, v, dist)
  {
    var hs := Containing(g, v.pos.lat, v.pos.lon).value.links;
    ScanIsArgMinFirst(dist, hs, k);
    assert PicLink(g, v, dist) == Some(h);
    ContainingPlaced(g, net, v.pos.lat, v.pos.lon);
    assert h in hs;
  }

  /** The ID each station is recorded under, `vds->getID()`, in the station map's
      ascending ID order. */
  function StationKeys(net: Network): (keys: seq<int>)
    ensures |keys| == |net.vds|
    ensures forall k | 0 <= k < |keys| :: Ascending(net.vds.Keys)[k] in net.vds
    ensures forall k | 0 <= k < |keys| :: keys[k] == net.vds[Ascending(net.vds.Keys)[k]].id
  {
    var ids := Ascending(net.vds.Keys);
    seq(|ids|, k requires 0 <= k < |ids| => net.vds[ids[k]].id)
  }

  /** The PIC roads of the stations, in the station map's ascending ID order. */
  function PicRoads(net: Network, measure: Vds -> LinkRef -> real, g: Grid): (roads: seq<Option<int>>)
    requires Spans(g) && CellsFromMap(g, net) && Placed(net.nodes, net.arena, net.links)
    ensures |roads| == |net.vds|
    ensures forall k | 0 <= k < |roads| :: Ascending(net.vds.Keys)[k] in net.vds
    ensures forall k | 0 <= k < |roads| ::
      var v := net.vds[Ascending(net.vds.Keys)[k]];
      roads[k] == PicRoad(net, g, v, measure(v))
  {
    var ids := Ascending(net.vds.Keys);
    seq(|ids|, k requires 0 <= k < |ids| =>
      var v := net.vds[ids[k]];
      PicRoad(net, g, v, measure(v)))
  }

  /** Each station's recorded ID is its key in the station map, as `createVDS` makes it. */
  predicate VdsKeyed(net: Network)
  {
    forall id | id in net.vds :: net.vds[id].id == id
  }

  /** One station of the PIC loop: look up its cell, and when the cell holds links scan
      them for the first nearest one; the result is that link's road, if any. */
  method CellRoad(net: Network, g: Grid, v: Vds, dist: LinkRef -> real) returns (road: Option<int>)
    requires Spans(g) && CellsFromMap(g, net) && Placed(net.nodes, net.arena, net.links)
    ensures road == PicRoad(net, g, v, dist)
  {
    var cell := Containing(g, v.pos.lat, v.pos.lon);
    road := None;
    if cell.Some? && |cell.value.links| > 0 {
      var h, k := ScanNearest(dist, cell.value.links);
      PicScan(net, g, v, dist, h, k);
      road := net.arena[h].road;
    }
  }

  /** The map the PIC loop has built after the first `i` stations in ID order. */
  ghost function PicPrefix(net: Network, measure: Vds -> LinkRef -> real, g: Grid, i: nat): map<int, int>
    requires Spans(g) && CellsFromMap(g, net) && Placed(net.nodes, net.arena, net.links) && i <= |net.vds|
  {
    RecordAll(StationKeys(net)[..i], PicRoads(net, measure, g)[..i])
  }

  /** One round of the PIC loop, for the `i`-th station in ID order: recording its PIC
      road under its ID extends the fold by that station. */
  lemma PicRound(net: Network, measure: Vds -> LinkRef -> real, g: Grid, i: nat, road: Option<int>)
    requires Spans(g) && CellsFromMap(g, net) && Placed(net.nodes, net.arena, net.links) && i < |net.vds|
    requires var v := net.vds[Ascending(net.vds.Keys)[i]]; road == PicRoad(net, g, v, measure(v))
    ensures PicPrefix(net, measure, g, i + 1) == Record(PicPrefix(net, measure, g, i), net.vds[Ascending(net.vds.Keys)[i]].id, road)
  {
    var keys, roads := StationKeys(net), PicRoads(net, measure, g);
    assert road == roads[i];
    RecordAllNext(keys, roads, i);
  }

  /** The loop's last prefix is the whole fold. */
  lemma PicPrefixWhole(net: Network, measure: Vds -> LinkRef -> real, g: Grid)
    requires Spans(g) && CellsFromMap(g, net) && Placed(net.nodes, net.arena, net.links)
    ensures PicPrefix(net, measure, g, |net.vds|) == RecordAll(StationKeys(net), PicRoads(net, measure, g))
  {
    RecordAllWhole(StationKeys(net), PicRoads(net, measure, g));
  }

  /** `matchVDSToRoads_PIC` run on one thread, without the timing and the output file,
      under the measure `measure` (`Measure` in the original):
      build the grid and assign the links to it; then for each station, in ID order, look
      up its cell, and when the cell holds links scan them for the first nearest one and
      insert the station's ID with that link's road when the link has a road. What that
      records is read by station in `PicKeys` and `PicKeysKeyed`. */
  method MatchPic(net: Network, measure: Vds -> LinkRef -> real, dimension: real) returns (m: map<int, int>)
    requires |net.nodes| > 0 && dimension > 0.0 && Placed(net.nodes, net.arena, net.links)
    ensures m == RecordAll(StationKeys(net), PicRoads(net, measure, PicGrid(net, dimension)))
  {
    var g := PicGrid(net, dimension);
    var ids := Ascending(net.vds.Keys);
    m := map[];
    var i := 0;
    while i < |ids|
      invariant 0 <= i <= |ids|
      invariant m == PicPrefix(net, measure, g, i)
    {
      var v := net.vds[ids[i]];
      var road := CellRoad(net, g, v, measure(v));
      PicRound(net, measure, g, i, road);
      if road.Some? {
        m := InsertIfAbsent(m, v.id, road.value);
      }
      i := i + 1;
    }
    PicPrefixWhole(net, measure, g);
  }

  /** What the PIC result records: `Recorded` over the stations' own IDs, so every key
      is the ID of some station. */
  lemma PicKeys(net: Network, measure: Vds -> LinkRef -> real, g: Grid, m: map<int, int>)
    requires Spans(g) && CellsFromMap(g, net) && Placed(net.nodes, net.arena, net.links)
    requires m == RecordAll(StationKeys(net), PicRoads(net, measure, g))
    ensures Recorded(m, StationKeys(net), PicRoads(net, measure, g))
    ensures forall x | x in m :: exists id | id in net.vds :: net.vds[id].id == x
  {
    var ids, keys, roads := Ascending(net.vds.Keys), StationKeys(net), PicRoads(net, measure, g);
    RecordAllRecorded(keys, roads);
    forall x | x in m
      ensures exists id | id in net.vds :: net.vds[id].id == x
    {
      var j :| 0 <= j < |keys| && keys[j] == x && roads[j].Some?;
      assert net.vds[ids[j]].id == x;
    }
  }

  /** When the stations are keyed by their own IDs, the PIC result is keyed by station:
      a station is in it exactly when its PIC link has a road, and maps to that road. */
  lemma PicKeysKeyed(net: Network, measure: Vds -> LinkRef -> real, g: Grid, m: map<int, int>)
    requires Spans(g) && CellsFromMap(g, net) && Placed(net.nodes, net.arena, net.links)
    requires VdsKeyed(net)
    requires m == RecordAll(StationKeys(net), PicRoads(net, measure, g))
    ensures m.Keys <= net.vds.Keys
    ensures forall id | id in net.vds ::
      id in m <==> PicRoad(net, g, net.vds[id], measure(net.vds[id])).Some?
    ensures forall id | id in m ::
      m[id] == PicRoad(net, g, net.vds[id], measure(net.vds[id])).value
  {
    var keys, roads := StationKeys(net), PicRoads(net, measure, g);
    RecordAllKeys(keys, roads);
    forall x | x in m
      ensures x in net.vds
    {
      var k :| 0 <= k < |keys| && keys[k] == x;
    }
    forall id | id in net.vds
      ensures id in m <==> PicRoad(net, g, net.vds[id], measure(net.vds[id])).Some?
      ensures id in m ==> m[id] == PicRoad(net, g, net.vds[id], measure(net.vds[id])).value
    {
      PicKeyKeyed(net, measure, g, m, id);
    }
  }

  /** `PicKeysKeyed` for one station. */
  lemma PicKeyKeyed(net: Network, measure: Vds -> LinkRef -> real, g: Grid, m: map<int, int>, id: int)
    requires Spans(g) && CellsFromMap(g, net) && Placed(net.nodes, net.arena, net.links)
    requires VdsKeyed(net) && id in net.vds
    requires m == RecordAll(StationKeys(net), PicRoads(net, measure, g))
    ensures id in m <==> PicRoad(net, g, net.vds[id], measure(net.vds[id])).Some?
    ensures id in m ==> m[id] == PicRoad(net, g, net.vds[id], measure(net.vds[id])).value
  {
    var ids, keys, roads := Ascending(net.vds.Keys), StationKeys(net), PicRoads(net, measure, g);
    assert keys == ids;
    AscendingSorted(net.vds.Keys);
    RecordAllRecorded(keys, roads);
    RecordedDistinct(m, keys, roads);
    var k :| 0 <= k < |ids| && ids[k] == id;
    assert roads[k] == PicRoad(net, g, net.vds[id], measure(net.vds[id]));
  }

  /** The PIC matcher never finds a link nearer than the greedy one: its link is a link of
      the map, and no link of the map is nearer than the greedy link. */
  lemma PicNeverNearer(net: Network, g: Grid, v: Vds, dist: LinkRef -> real)
    requires |net.links| > 0 && Spans(g) && CellsFromMap(g, net)
    requires PicLink(g, v, dist).Some?
    ensures dist(net.links[GreedyId(net, dist)]) <= dist(PicLink(g, v, dist).value)
  {
    ContainingFromMap(g, net, v.pos.lat, v.pos.lon);
    var id :| id in net.links && net.links[id] == PicLink(g, v, dist).value;
  }

  /** When the station's cell holds the greedy link, the PIC matcher finds a link just as
      near as the greedy one. */
  lemma PicAgreesWithGreedy(net: Network, g: Grid, v: Vds, dist: LinkRef -> real)
    requires |net.links| > 0 && Spans(g) && CellsFromMap(g, net)
    requires Containing(g, v.pos.lat, v.pos.lon).Some?
    requires net.links[GreedyId(net, dist)] in Containing(g, v.pos.lat, v.pos.lon).value.links
    ensures PicLink(g, v, dist).Some?
    ensures dist(PicLink(g, v, dist).value) == dist(net.links[GreedyId(net, dist)])
  {
    PicNeverNearer(net, g, v, dist);
  }

  // ---------------------------------------------------------------------------
  // Cell size
  // ---------------------------------------------------------------------------

  /** `dimension = maxLengthOfLink / divideWith`: the side of a cell, a fraction of the
      longest link. */
  function Dimension(maxLength: real, divideWith: real): (dimension: real)
    requires divideWith != 0.0
    ensures dimension * divideWith == maxLength
    ensures maxLength > 0.0 && divideWith > 0.0 ==> dimension > 0.0
    ensures divideWith >= 1.0 && maxLength >= 0.0 ==> dimension <= maxLength
  {
    maxLength / divideWith
  }
}

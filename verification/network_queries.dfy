/**
 * The rest of `Network`'s own bookkeeping: the detector stations read from their file
 * (`createVDS`), the ID lookups (`getNode`, `getLink`, `getVDS`, `getRoad`), the bounding
 * box of the nodes (`setPosLimits`) and `addRoad`.
 */
module NetworkQueries {
  import opened Wrappers
  import opened StdMap
  import opened OrderedKeys
  import opened Folds
  import opened GeoPosition
  import opened Links
  import opened Nodes
  import opened Roads
  import opened Networks

  /** The station ID of a data line of the detector file. */
  function VdsIdOf(rec: VdsRecord): int
  {
    rec.id
  }

  /** `createVDS` over the parsed data lines in file order: a station ID seen before is
      skipped, a new one gets a station at the line's position. */
  function CreateVds(records: seq<VdsRecord>): (vds: map<int, Vds>)
    ensures forall id | id in vds :: vds[id].id == id
    decreases |records|
  {
    if |records| == 0 then map[]
    else
      var rec := records[|records| - 1];
      InsertIfAbsent(CreateVds(records[..|records| - 1]), rec.id, Vds(rec.id, GeoPos(rec.lat, rec.lon)))
  }

  /** The stations are exactly the IDs of the data lines, each at the position of the
      first line with its ID. */
  lemma {:induction false} CreateVdsFromRecords(records: seq<VdsRecord>)
    ensures forall id :: id in CreateVds(records) <==> FirstWithKey(records, VdsIdOf, id).Some?
    ensures forall id | id in CreateVds(records) ::
      var i := FirstWithKey(records, VdsIdOf, id).value;
      i < |records| && CreateVds(records)[id] == Vds(id, GeoPos(records[i].lat, records[i].lon))
    decreases |records|
  {
    if |records| > 0 {
      var n := |records| - 1;
      var prefix := records[..n];
      CreateVdsFromRecords(prefix);
      assert forall i | 0 <= i < n :: prefix[i] == records[i];
    }
  }

  /** `getNode`: null exactly when no node has the ID. */
  function GetNode(net: Network, id: int): (r: Option<Node>)
    ensures r.Some? <==> id in net.nodes
    ensures r.Some? ==> r.value == net.nodes[id]
  {
    Find(net.nodes, id)
  }

  /** `getLink`: null exactly when the link map has no such ID. */
  function GetLink(net: Network, id: int): (r: Option<LinkRef>)
    ensures r.Some? <==> id in net.links
    ensures r.Some? ==> r.value == net.links[id]
  {
    Find(net.links, id)
  }

  /** `getVDS(vdsID)`: null exactly when no station has the ID. */
  function GetVds(net: Network, id: int): (r: Option<Vds>)
    ensures r.Some? <==> id in net.vds
    ensures r.Some? ==> r.value == net.vds[id]
  {
    Find(net.vds, id)
  }

  /** `getRoad`: null exactly when no road has the ID. */
  function GetRoad(net: Network, id: int): (r: Option<Road>)
    ensures r.Some? <==> id in net.roads
    ensures r.Some? ==> r.value == net.roads[id]
  {
    Find(net.roads, id)
  }

  /** In a valid network the link found under an ID carries that ID. */
  lemma GetLinkCarriesId(net: Network, id: int)
    requires Valid(net)
    ensures GetLink(net, id).Some? ==> GetLink(net, id).value < |net.arena| && net.arena[GetLink(net, id).value].id == id
  {
  }

  /** `addRoad`: a new road object under the given ID; an existing entry is replaced
      (`roads[roadID] = road`), and nothing else changes. */
  function AddRoad(net: Network, rid: int): (r: Network)
    ensures r.roads.Keys == net.roads.Keys + {rid}
    ensures r.roads[rid] == NewRoad(rid)
    ensures forall k | k in net.roads && k != rid :: r.roads[k] == net.roads[k]
    ensures r == net.(roads := r.roads)
  {
    net.(roads := net.roads[rid := NewRoad(rid)])
  }

  /** The seeds of `setPosLimits`: minima start at 1e9, maxima at -1e9. */
  const MinSeed: real := 1000000000.0
  const MaxSeed: real := -1000000000.0

  /** One coordinate of every node, in key order. */
  function Coordinates(nodes: map<int, Node>, coord: GeoPos -> real): (xs: seq<real>)
    ensures |xs| == |nodes|
    ensures forall i | 0 <= i < |xs| :: Ascending(nodes.Keys)[i] in nodes && xs[i] == coord(nodes[Ascending(nodes.Keys)[i]].pos)
  {
    var ks := Ascending(nodes.Keys);
    seq(|ks|, i requires 0 <= i < |ks| => coord(nodes[ks[i]].pos))
  }

  /** The running minimum and maximum of one coordinate bound that coordinate of every
      node, and each is the coordinate of some node unless it is still its seed. */
  lemma CoordinateScans(nodes: map<int, Node>, coord: GeoPos -> real)
    ensures var lo, hi := MinFrom(MinSeed, Coordinates(nodes, coord)), MaxFrom(MaxSeed, Coordinates(nodes, coord));
      && (forall k | k in nodes :: lo <= coord(nodes[k].pos) <= hi)
      && (lo == MinSeed || exists k | k in nodes :: lo == coord(nodes[k].pos))
      && (hi == MaxSeed || exists k | k in nodes :: hi == coord(nodes[k].pos))
  {
    var ks := Ascending(nodes.Keys);
    var xs := Coordinates(nodes, coord);
    var lo, hi := MinFrom(MinSeed, xs), MaxFrom(MaxSeed, xs);
    forall k | k in nodes
      ensures lo <= coord(nodes[k].pos) <= hi
    {
      assert k in ks;
      var i :| 0 <= i < |ks| && ks[i] == k;
      assert xs[i] == coord(nodes[k].pos);
    }
    if lo != MinSeed {
      var i :| 0 <= i < |xs| && lo == xs[i];
      assert ks[i] in nodes;
    }
    if hi != MaxSeed {
      var i :| 0 <= i < |xs| && hi == xs[i];
      assert ks[i] in nodes;
    }
  }

  function Lat(p: GeoPos): real { p.lat }
  function Lon(p: GeoPos): real { p.lon }

  /** `setPosLimits`: the smallest and largest latitude and longitude over all nodes,
      each scanned from its seed. Only the two limits change. */
  function SetPosLimits(net: Network): (r: Network)
    ensures r == net.(minPos := r.minPos, maxPos := r.maxPos)
    ensures r.minPos.Some? && r.maxPos.Some?
    ensures r.minPos.value.lat <= MinSeed && r.minPos.value.lon <= MinSeed
    ensures r.maxPos.value.lat >= MaxSeed && r.maxPos.value.lon >= MaxSeed
  {
    var lats, lons := Coordinates(net.nodes, Lat), Coordinates(net.nodes, Lon);
    net.(minPos := Some(GeoPos(MinFrom(MinSeed, lats), MinFrom(MinSeed, lons))),
         maxPos := Some(GeoPos(MaxFrom(MaxSeed, lats), MaxFrom(MaxSeed, lons))))
  }

  /** After `setPosLimits` every node lies inside the box from `minPos` to `maxPos`, and
      each of the four limits is a coordinate of some node, or its seed when there is no
      node. */
  lemma SetPosLimitsBounds(net: Network)
    ensures var r := SetPosLimits(net);
      var lo, hi := r.minPos.value, r.maxPos.value;
      && (forall k | k in net.nodes ::
            lo.lat <= net.nodes[k].pos.lat <= hi.lat && lo.lon <= net.nodes[k].pos.lon <= hi.lon)
      && (lo.lat == MinSeed || exists k | k in net.nodes :: lo.lat == net.nodes[k].pos.lat)
      && (lo.lon == MinSeed || exists k | k in net.nodes :: lo.lon == net.nodes[k].pos.lon)
      && (hi.lat == MaxSeed || exists k | k in net.nodes :: hi.lat == net.nodes[k].pos.lat)
      && (hi.lon == MaxSeed || exists k | k in net.nodes :: hi.lon == net.nodes[k].pos.lon)
  {
    CoordinateScans(net.nodes, Lat);
    CoordinateScans(net.nodes, Lon);
  }
}

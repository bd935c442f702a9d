/**
 * A road (`Road`): a chain of links between two nodes that are not intermediate, with the
 * links keyed by link ID. Links are `LinkRef`s into the store of link objects; the road's
 * nodes are node IDs.
 */
module Roads {
  import opened Wrappers
  import opened StdMap
  import opened OrderedKeys
  import opened Folds
  import opened MathFunc
  import opened SegmentDistance
  import opened LinkGeometry
  import opened Links
  import opened Nodes

  datatype Road = Road(id: int, start: Option<int>, end: Option<int>, links: map<int, LinkRef>, length: real)

  /** `Road(ID)`: no nodes and no links. The original leaves the length unset until
      `computeLength`; here it starts at zero. */
  function NewRoad(id: int): (r: Road)
    ensures r.id == id && r.start == None && r.end == None
    ensures r.links == map[] && r.length == 0.0
  {
    Road(id, None, None, map[], 0.0)
  }

  /** `addLink`: insert when the link ID is absent; nothing else changes. */
  function AddLink(road: Road, id: int, h: LinkRef): (r: Road)
    ensures r.links.Keys == road.links.Keys + {id}
    ensures forall k | k in road.links :: r.links[k] == road.links[k]
    ensures id !in road.links ==> r.links[id] == h
    ensures r == road.(links := r.links)
  {
    road.(links := InsertIfAbsent(road.links, id, h))
  }

  /** `addLink` with an ID the road already holds changes nothing. */
  lemma AddLinkIdempotent(road: Road, id: int, h: LinkRef, h': LinkRef)
    ensures AddLink(AddLink(road, id, h), id, h') == AddLink(road, id, h)
    ensures id in road.links ==> AddLink(road, id, h') == road
  {
    InsertIfAbsentIdempotent(road.links, id, h, h');
    InsertIfAbsentCases(road.links, id, h');
  }

  /** `getLink`: null exactly when the ID is absent. */
  function GetLink(road: Road, id: int): (r: Option<LinkRef>)
    ensures r.Some? <==> id in road.links
    ensures r.Some? ==> r.value == road.links[id]
  {
    Find(road.links, id)
  }

  /** Every link of the map lies in a store of `count` link objects. */
  predicate LinksBelow(links: map<int, LinkRef>, count: nat)
  {
    forall k | k in links :: links[k] < count
  }

  /** Sum of the lengths of the links with the given IDs, smallest ID first. */
  function SumLengths(arena: seq<Link>, links: map<int, LinkRef>, keys: set<int>): real
    requires LinksBelow(links, |arena|)
    requires keys <= links.Keys
    decreases |keys|
  {
    if keys == {} then 0.0
    else
      var k := Least(keys);
      arena[links[k]].length + SumLengths(arena, links, keys - {k})
  }

  /** `computeLength`: the road's length becomes the sum of its links' lengths; nothing
      else changes. With non-negative link lengths, the road is at least as long as each
      of its links, and a one-link road is exactly as long as its link. */
  function ComputeLength(arena: seq<Link>, road: Road): (r: Road)
    requires LinksBelow(road.links, |arena|)
    ensures r == road.(length := r.length)
    ensures (forall k | k in road.links :: arena[road.links[k]].length >= 0.0) ==>
      forall k | k in road.links :: 0.0 <= arena[road.links[k]].length <= r.length
    ensures forall k | k in road.links && road.links.Keys == {k} :: r.length == arena[road.links[k]].length
  {
    var total := SumLengths(arena, road.links, road.links.Keys);
    assert (forall k | k in road.links :: arena[road.links[k]].length >= 0.0) ==>
      forall k | k in road.links :: arena[road.links[k]].length <= total by {
      if forall k | k in road.links :: arena[road.links[k]].length >= 0.0 {
        forall k | k in road.links
          ensures arena[road.links[k]].length <= total
        {
          SumLengthsAtLeastPart(arena, road.links, road.links.Keys, k);
        }
      }
    }
    assert forall k | k in road.links && road.links.Keys == {k} :: total == arena[road.links[k]].length by {
      forall k | k in road.links && road.links.Keys == {k}
        ensures total == arena[road.links[k]].length
      {
        SumLengthsAdd(arena, road.links, {}, k);
        assert {} + {k} == road.links.Keys;
      }
    }
    road.(length := total)
  }

  /** The sum over a set with one more link is the old sum plus that link's length,
      whatever the position of its ID among the others. */
  lemma {:induction false} SumLengthsAdd(arena: seq<Link>, links: map<int, LinkRef>, keys: set<int>, x: int)
    requires LinksBelow(links, |arena|)
    requires keys <= links.Keys && x in links && x !in keys
    ensures SumLengths(arena, links, keys + {x}) == SumLengths(arena, links, keys) + arena[links[x]].length
    decreases |keys|
  {
    var all := keys + {x};
    var k := Least(all);
    if k == x {
      assert all - {k} == keys;
    } else {
      assert k in keys;
      assert Least(keys) == k;
      assert all - {k} == (keys - {k}) + {x};
      SumLengthsAdd(arena, links, keys - {k}, x);
    }
  }

  /** The sum only reads the entries of the given IDs. */
  lemma {:induction false} SumLengthsIgnoresOthers(arena: seq<Link>, links: map<int, LinkRef>, keys: set<int>, x: int, h: LinkRef)
    requires LinksBelow(links, |arena|) && h < |arena|
    requires keys <= links.Keys && x !in keys
    ensures LinksBelow(links[x := h], |arena|)
    ensures SumLengths(arena, links[x := h], keys) == SumLengths(arena, links, keys)
    decreases |keys|
  {
    if keys != {} {
      SumLengthsIgnoresOthers(arena, links, keys - {Least(keys)}, x, h);
    }
  }

  /** The sum reads only the lengths of the links it adds up. */
  lemma {:induction false} SumLengthsReadsLengths(arena: seq<Link>, arena': seq<Link>, links: map<int, LinkRef>, keys: set<int>)
    requires LinksBelow(links, |arena|) && |arena'| == |arena|
    requires keys <= links.Keys
    requires forall k | k in keys :: arena'[links[k]].length == arena[links[k]].length
    ensures SumLengths(arena', links, keys) == SumLengths(arena, links, keys)
    decreases |keys|
  {
    if keys != {} {
      SumLengthsReadsLengths(arena, arena', links, keys - {Least(keys)});
    }
  }

  /** With non-negative lengths the sum is at least each of its parts. */
  lemma {:induction false} SumLengthsAtLeastPart(arena: seq<Link>, links: map<int, LinkRef>, keys: set<int>, x: int)
    requires LinksBelow(links, |arena|)
    requires keys <= links.Keys && x in keys
    requires forall k | k in links :: arena[links[k]].length >= 0.0
    ensures 0.0 <= arena[links[x]].length <= SumLengths(arena, links, keys)
    decreases |keys|
  {
    SumLengthsNonNegative(arena, links, keys - {x});
    SumLengthsAdd(arena, links, keys - {x}, x);
    assert (keys - {x}) + {x} == keys;
  }

  /** With non-negative lengths the sum is non-negative. */
  lemma {:induction false} SumLengthsNonNegative(arena: seq<Link>, links: map<int, LinkRef>, keys: set<int>)
    requires LinksBelow(links, |arena|)
    requires keys <= links.Keys
    requires forall k | k in links :: arena[links[k]].length >= 0.0
    ensures SumLengths(arena, links, keys) >= 0.0
    decreases |keys|
  {
    if keys != {} {
      SumLengthsNonNegative(arena, links, keys - {Least(keys)});
    }
  }

  /** The road length is additive: a road without links has length zero, adding a link
      that is new to the road adds exactly that link's length, and adding one it already
      holds adds nothing. */
  lemma AddLinkAddsLength(arena: seq<Link>, road: Road, id: int, h: LinkRef)
    requires LinksBelow(road.links, |arena|) && h < |arena|
    ensures ComputeLength(arena, NewRoad(road.id)).length == 0.0
    ensures LinksBelow(AddLink(road, id, h).links, |arena|)
    ensures id !in road.links ==>
      ComputeLength(arena, AddLink(road, id, h)).length == ComputeLength(arena, road).length + arena[h].length
    ensures id in road.links ==>
      ComputeLength(arena, AddLink(road, id, h)).length == ComputeLength(arena, road).length
  {
    InsertIfAbsentCases(road.links, id, h);
    if id !in road.links {
      var links' := road.links[id := h];
      SumLengthsIgnoresOthers(arena, road.links, road.links.Keys, id, h);
      SumLengthsAdd(arena, links', road.links.Keys, id);
      assert road.links.Keys + {id} == links'.Keys;
    }
  }

  /** `calcLinkDistanceFromPoint` of a link, with its nodes' coordinates looked up:
      longitude is the x coordinate and latitude the y coordinate. */
  function LinkPointDistance(root: real -> real, nodes: map<int, Node>, l: Link, px: real, py: real): real
    requires l.start in nodes && l.end in nodes
  {
    var s, e := nodes[l.start].pos, nodes[l.end].pos;
    LinkDistance(root, s.lon, s.lat, e.lon, e.lat, px, py)
  }

  /** Link `h` lies in the store and has both of its nodes in `nodes`. */
  predicate PlacedRef(nodes: map<int, Node>, arena: seq<Link>, h: LinkRef)
  {
    h < |arena| && arena[h].start in nodes && arena[h].end in nodes
  }

  /** Every link of the map is placed. */
  predicate Placed(nodes: map<int, Node>, arena: seq<Link>, links: map<int, LinkRef>)
  {
    forall k | k in links :: links[k] < |arena| && arena[links[k]].start in nodes && arena[links[k]].end in nodes
  }

  /** The distance from the point (px, py) to each link object, as the matching code and
      `calRoadDistanceFromPoint` compute it. Links that are not placed do not occur. */
  function DistanceTo(root: real -> real, nodes: map<int, Node>, arena: seq<Link>, px: real, py: real): (dist: LinkRef -> real)
    ensures forall h: LinkRef | PlacedRef(nodes, arena, h) :: dist(h) == LinkPointDistance(root, nodes, arena[h], px, py)
  {
    (h: LinkRef) => if PlacedRef(nodes, arena, h) then LinkPointDistance(root, nodes, arena[h], px, py) else -1.0
  }

  /** `calRoadDistanceFromPoint`, given each link's distance to the point: -1 for a road
      without links; otherwise the least of its links' distances, which one of them has. */
  function RoadDistance(dist: LinkRef -> real, road: Road): (d: real)
    ensures |road.links| == 0 ==> d == -1.0
    ensures |road.links| > 0 ==>
      && (forall k | k in road.links :: d <= dist(road.links[k]))
      && (exists k | k in road.links :: d == dist(road.links[k]))
  {
    if |road.links| == 0 then -1.0
    else
      var ks := Ascending(road.links.Keys);
      var ds := seq(|ks|, i requires 0 <= i < |ks| => dist(road.links[ks[i]]));
      var d := MinOf(ds);
      assert forall k | k in road.links :: d <= dist(road.links[k]) by {
        forall k | k in road.links
          ensures d <= dist(road.links[k])
        {
          var i :| 0 <= i < |ks| && ks[i] == k;
          assert d <= ds[i];
        }
      }
      assert exists k | k in road.links :: d == dist(road.links[k]) by {
        var j :| 0 <= j < |ds| && d == ds[j];
        assert ks[j] in road.links;
      }
      d
  }

  /** What `calRoadDistanceFromPoint` means for a road with links: the distance from the
      point to the nearest point of any of the road's links, which some point of some link
      attains. */
  lemma RoadDistanceMeaning(root: real -> real, nodes: map<int, Node>, arena: seq<Link>, road: Road, px: real, py: real)
    requires IsSquareRoot(root)
    requires Placed(nodes, arena, road.links)
    requires |road.links| > 0
    ensures var d := RoadDistance(DistanceTo(root, nodes, arena, px, py), road);
      && d >= 0.0
      && (forall k, t | k in road.links && 0.0 <= t <= 1.0 ::
            d <= PointsDistance(root, px, py, SegmentPoint(nodes, arena[road.links[k]], t).0, SegmentPoint(nodes, arena[road.links[k]], t).1))
      && (exists k, t | k in road.links && 0.0 <= t <= 1.0 ::
            d == PointsDistance(root, px, py, SegmentPoint(nodes, arena[road.links[k]], t).0, SegmentPoint(nodes, arena[road.links[k]], t).1))
  {
    var dist := DistanceTo(root, nodes, arena, px, py);
    var d := RoadDistance(dist, road);
    forall k, t | k in road.links && 0.0 <= t <= 1.0
      ensures d <= PointsDistance(root, px, py, SegmentPoint(nodes, arena[road.links[k]], t).0, SegmentPoint(nodes, arena[road.links[k]], t).1)
    {
      assert PlacedRef(nodes, arena, road.links[k]);
      LinkPointDistanceMeaning(root, nodes, arena[road.links[k]], px, py);
    }
    var k0 :| k0 in road.links && d == dist(road.links[k0]);
    assert PlacedRef(nodes, arena, road.links[k0]);
    LinkPointDistanceMeaning(root, nodes, arena[road.links[k0]], px, py);
  }

  /** The point at parameter `t` along a link, from its start node (`t = 0`) to its end
      node (`t = 1`), as (longitude, latitude). */
  function SegmentPoint(nodes: map<int, Node>, l: Link, t: real): (real, real)
    requires l.start in nodes && l.end in nodes
  {
    var s, e := nodes[l.start].pos, nodes[l.end].pos;
    (Lerp(s.lon, e.lon, t), Lerp(s.lat, e.lat, t))
  }

  /** `LinkDistanceMeaning` stated for a link of the network. */
  lemma LinkPointDistanceMeaning(root: real -> real, nodes: map<int, Node>, l: Link, px: real, py: real)
    requires IsSquareRoot(root)
    requires l.start in nodes && l.end in nodes
    ensures var d := LinkPointDistance(root, nodes, l, px, py);
      && d >= 0.0
      && (forall t | 0.0 <= t <= 1.0 :: d <= PointsDistance(root, px, py, SegmentPoint(nodes, l, t).0, SegmentPoint(nodes, l, t).1))
      && (exists t | 0.0 <= t <= 1.0 :: d == PointsDistance(root, px, py, SegmentPoint(nodes, l, t).0, SegmentPoint(nodes, l, t).1))
  {
    var s, e := nodes[l.start].pos, nodes[l.end].pos;
    var d := LinkPointDistance(root, nodes, l, px, py);
    LinkDistanceMeaning(root, s.lon, s.lat, e.lon, e.lat, px, py);
    var t :| 0.0 <= t <= 1.0 && d == PointsDistance(root, px, py, Lerp(s.lon, e.lon, t), Lerp(s.lat, e.lat, t));
    assert d == PointsDistance(root, px, py, SegmentPoint(nodes, l, t).0, SegmentPoint(nodes, l, t).1);
  }
}

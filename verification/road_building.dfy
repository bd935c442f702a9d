/**
 * `Network::createRoads`: every link leaving a non-intermediate node that has no road yet
 * starts a new road, numbered by the count of roads so far; the road follows the chain
 * of departure links through intermediate nodes (`isIntermediateGetDepar`) and ends at
 * the first node where there is none. Only road fields of link objects and the road map
 * change.
 *
 * The original walk has no bound (the loop-detection test is commented out); here each
 * walk takes at most one step per link object in the store.
 */
module RoadBuilding {
  import opened Wrappers
  import opened StdMap
  import opened OrderedKeys
  import opened Links
  import opened Nodes
  import opened Roads
  import opened Networks
  import opened NetworkQueries

  /** `arena` is `arena0` with at most the road fields changed. */
  predicate SameButRoads(arena0: seq<Link>, arena: seq<Link>)
  {
    |arena| == |arena0| && forall g | 0 <= g < |arena| :: arena[g] == arena0[g].(road := arena[g].road)
  }

  /** Whether a node is intermediate, and where a road goes on from it, do not depend on
      the road fields of the links. */
  lemma IntermediateIgnoresRoads(arena0: seq<Link>, arena: seq<Link>, n: Node, arr: LinkRef)
    requires SameButRoads(arena0, arena) && RefsBelow(n, |arena0|)
    ensures IsIntermediate(arena, n) == IsIntermediate(arena0, n)
    ensures IsIntermediateGetDepar(arena, n, arr) == IsIntermediateGetDepar(arena0, n, arr)
  {
    forall g | 0 <= g < |arena|
      ensures arena[g].opposite == arena0[g].opposite
    {
      assert arena[g] == arena0[g].(road := arena[g].road);
    }
  }

  /** Where the road goes on after arriving by link object `arr`: the departure link at
      the end node of `arr`. */
  function Departure(net: Network, arr: LinkRef): (r: Option<LinkRef>)
    requires Valid(net) && arr < |net.arena|
    ensures r.Some? ==> r.value < |net.arena| && net.arena[r.value].start == net.arena[arr].end
  {
    ValidRefsBelow(net);
    IsIntermediateGetDepar(net.arena, net.nodes[net.arena[arr].end], arr)
  }

  /** `chain` is a walk: each link object after the first is the departure link after its
      predecessor. */
  predicate Chained(net: Network, chain: seq<LinkRef>)
    requires Valid(net)
  {
    && (forall i | 0 <= i < |chain| :: chain[i] < |net.arena|)
    && (forall i | 0 <= i < |chain| - 1 :: chain[i] < |net.arena| && Departure(net, chain[i]) == Some(chain[i + 1]))
  }

  /** The walk of `createRoads` from link object `h`: `h`, then the departure link after
      it, and so on, while there is one, taking at most `fuel` steps. The original walk
      reads the link objects as it marks them; `IntermediateIgnoresRoads` shows that the
      marks do not change where it goes, so the walk is computed on the unmarked store. */
  function Walk(net: Network, h: LinkRef, fuel: nat): (chain: seq<LinkRef>)
    requires Valid(net) && h < |net.arena|
    ensures 1 <= |chain| <= fuel + 1 && chain[0] == h && Chained(net, chain)
    ensures Departure(net, chain[|chain| - 1]).None? || |chain| == fuel + 1
    decreases fuel
  {
    if fuel == 0 then [h]
    else
      match Departure(net, h)
      case None => [h]
      case Some(e) =>
        var rest := Walk(net, e, fuel - 1);
        ChainedCons(net, h, rest);
        [h] + rest
  }

  /** The walk of `createRoads` from each link object of the store, with one step per
      link object as its bound. */
  function Walks(net: Network): (walk: LinkRef -> seq<LinkRef>)
    requires Valid(net)
    ensures forall h: LinkRef | h < |net.arena| :: walk(h) == Walk(net, h, |net.arena|)
  {
    (h: LinkRef) => if h < |net.arena| then Walk(net, h, |net.arena|) else []
  }

  /** A walk stays a walk when the link object it departs from is put in front. */
  lemma ChainedCons(net: Network, h: LinkRef, rest: seq<LinkRef>)
    requires Valid(net) && h < |net.arena| && 1 <= |rest| && Chained(net, rest)
    requires Departure(net, h) == Some(rest[0])
    ensures Chained(net, [h] + rest) && ([h] + rest)[|rest|] == rest[|rest| - 1]
  {
    var c := [h] + rest;
    forall i | 0 <= i < |c| - 1
      ensures c[i] < |net.arena| && Departure(net, c[i]) == Some(c[i + 1])
    {
      if i > 0 {
        assert c[i] == rest[i - 1] && c[i + 1] == rest[i];
      }
    }
  }

  /** `setRoadOfLink(road)` on every link object of `chain`. */
  function MarkRoad(arena: seq<Link>, chain: seq<LinkRef>, rid: int): (r: seq<Link>)
    requires forall i | 0 <= i < |chain| :: chain[i] < |arena|
    ensures |r| == |arena|
    ensures forall g | 0 <= g < |r| :: r[g] == if g in chain then SetRoad(arena[g], rid) else arena[g]
    decreases |chain|
  {
    if |chain| == 0 then arena
    else
      var prefix := chain[..|chain| - 1];
      var last := chain[|chain| - 1];
      assert forall g :: g in chain <==> g in prefix || g == last;
      var a := MarkRoad(arena, prefix, rid);
      a[last := SetRoad(a[last], rid)]
  }

  /** `road->addLink(link->getID(), link)` for every link object of `chain`, in order. */
  function AddChain(road: Road, arena: seq<Link>, chain: seq<LinkRef>): (r: Road)
    requires forall i | 0 <= i < |chain| :: chain[i] < |arena|
    ensures r == road.(links := r.links)
    ensures forall k | k in road.links :: k in r.links && r.links[k] == road.links[k]
    ensures forall i | 0 <= i < |chain| :: arena[chain[i]].id in r.links
    ensures forall k | k in r.links && k !in road.links :: r.links[k] in chain && r.links[k] < |arena| && arena[r.links[k]].id == k
    decreases |chain|
  {
    if |chain| == 0 then road
    else
      var prefix := chain[..|chain| - 1];
      var last := chain[|chain| - 1];
      assert forall i | 0 <= i < |prefix| :: prefix[i] == chain[i];
      AddLink(AddChain(road, arena, prefix), arena[last].id, last)
  }

  /** The body of `createRoads` for one start link at node `n`, given the walk `chain`
      from it: road `rid` starts at `n`, takes in the links of the walk, ends at the end
      node of the walk's last link and sums its links' lengths; every link object of the
      walk gets the road. */
  function BuildRoad(arena: seq<Link>, rid: int, n: int, chain: seq<LinkRef>): (out: (seq<Link>, Road))
    requires 1 <= |chain| && forall i | 0 <= i < |chain| :: chain[i] < |arena|
    ensures |out.0| == |arena|
    ensures LinksBelow(out.1.links, |arena|)
  {
    var road := AddChain(NewRoad(rid).(start := Some(n)), arena, chain);
    var arena' := MarkRoad(arena, chain, rid);
    (arena', Roads.ComputeLength(arena', road.(end := Some(arena[chain[|chain| - 1]].end))))
  }

  /** What `BuildRoad` does to link objects that differ from `arena0` at most in their
      road fields: only road fields change, and only on the walk, where they become
      `rid`. */
  lemma BuildRoadMarks(arena0: seq<Link>, arena: seq<Link>, rid: int, n: int, chain: seq<LinkRef>)
    requires SameButRoads(arena0, arena)
    requires 1 <= |chain| && forall i | 0 <= i < |chain| :: chain[i] < |arena|
    ensures var arena' := BuildRoad(arena, rid, n, chain).0;
      && SameButRoads(arena0, arena')
      && (forall g | 0 <= g < |arena'| :: arena'[g].road == if g in chain then Some(rid) else arena[g].road)
      && arena'[chain[0]].road == Some(rid)
      && KeepsRoads(arena, arena')
  {
    var arena' := MarkRoad(arena, chain, rid);
    forall g | 0 <= g < |arena|
      ensures arena'[g] == arena0[g].(road := arena'[g].road)
    {
      assert arena[g] == arena0[g].(road := arena[g].road);
    }
  }

  /** The road `BuildRoad` makes starts at `n`, ends where the walk ends, holds every link
      of the walk under its ID and nothing else, and is as long as its links. */
  lemma BuildRoadMakes(arena0: seq<Link>, arena: seq<Link>, rid: int, n: int, chain: seq<LinkRef>)
    requires SameButRoads(arena0, arena)
    requires 1 <= |chain| && forall i | 0 <= i < |chain| :: chain[i] < |arena|
    ensures var road := BuildRoad(arena, rid, n, chain).1;
      && road.id == rid && road.start == Some(n) && road.end == Some(arena0[chain[|chain| - 1]].end)
      && (forall i | 0 <= i < |chain| :: arena0[chain[i]].id in road.links)
      && (forall k | k in road.links :: road.links[k] in chain && road.links[k] < |arena0| && arena0[road.links[k]].id == k)
      && road.length == SumLengths(arena0, road.links, road.links.Keys)
  {
    var road := AddChain(NewRoad(rid).(start := Some(n)), arena, chain);
    BuildRoadMarks(arena0, arena, rid, n, chain);
    var arena' := BuildRoad(arena, rid, n, chain).0;
    forall g | 0 <= g < |arena|
      ensures arena'[g].length == arena0[g].length && arena[g].id == arena0[g].id && arena[g].end == arena0[g].end
    {
      assert arena[g] == arena0[g].(road := arena[g].road);
      assert arena'[g] == arena0[g].(road := arena'[g].road);
    }
    SumLengthsReadsLengths(arena0, arena', road.links, road.links.Keys);
  }

  /** Every node refers only to link objects of the store. */
  predicate NodesBelow(nodes: map<int, Node>, arena0: seq<Link>)
  {
    forall s | s in nodes :: RefsBelow(nodes[s], |arena0|)
  }

  lemma NodeRefsBelow(nodes: map<int, Node>, arena0: seq<Link>, s: int)
    requires NodesBelow(nodes, arena0) && s in nodes
    ensures RefsBelow(nodes[s], |arena0|)
  {
  }

  /** `road` is the road of the walk `chain`: it ends at the end node of the walk's last
      link object, holds the ID of every link object of the walk, and every link object
      it holds is on the walk. */
  predicate Follows(arena0: seq<Link>, road: Road, chain: seq<LinkRef>)
  {
    && 1 <= |chain| && (forall i | 0 <= i < |chain| :: chain[i] < |arena0|)
    && road.end == Some(arena0[chain[|chain| - 1]].end)
    && (forall i | 0 <= i < |chain| :: arena0[chain[i]].id in road.links)
    && (forall k | k in road.links :: road.links[k] in chain)
  }

  /** Road `k` as `createRoads` leaves it: it carries its ID, starts at a node that is not
      intermediate and ends at a node, follows the walk `walk` gives for one of the links
      leaving its start node, holds links of the store under their own IDs, and is as
      long as they are together. */
  ghost predicate WellBuilt(nodes: map<int, Node>, arena0: seq<Link>, walk: LinkRef -> seq<LinkRef>, k: int, road: Road)
    requires NodesBelow(nodes, arena0)
  {
    && road.id == k
    && road.start.Some? && road.start.value in nodes
    && (NodeRefsBelow(nodes, arena0, road.start.value); !IsIntermediate(arena0, nodes[road.start.value]))
    && (exists j | j in nodes[road.start.value].outgoing :: Follows(arena0, road, walk(nodes[road.start.value].outgoing[j])))
    && road.end.Some? && road.end.value in nodes
    && LinksBelow(road.links, |arena0|)
    && (forall j | j in road.links :: arena0[road.links[j]].id == j)
    && road.length == SumLengths(arena0, road.links, road.links.Keys)
  }

  /** The roads built so far from the store `arena0`: they are numbered 0, 1, ... in
      order, each is `WellBuilt`, the link objects differ from `arena0` at most in their
      road fields, and a link object whose road changed belongs to a road that holds its
      ID. */
  ghost predicate RoadsSoFar(nodes: map<int, Node>, arena0: seq<Link>, walk: LinkRef -> seq<LinkRef>, arena: seq<Link>, roads: map<int, Road>)
    requires NodesBelow(nodes, arena0)
  {
    && SameButRoads(arena0, arena)
    && (forall k :: k in roads <==> 0 <= k < |roads|)
    && (forall k | k in roads :: WellBuilt(nodes, arena0, walk, k, roads[k]))
    && (forall g | 0 <= g < |arena| && arena[g].road != arena0[g].road ::
          arena[g].road.Some? && arena[g].road.value in roads && arena0[g].id in roads[arena[g].road.value].links)
  }

  /** Every link leaving a node of `done` that is not intermediate has a road. */
  ghost predicate Covered(nodes: map<int, Node>, arena0: seq<Link>, arena: seq<Link>, done: set<int>)
    requires NodesBelow(nodes, arena0) && |arena| == |arena0|
  {
    forall s, j | s in done && s in nodes && !IsIntermediate(arena0, nodes[s]) && j in nodes[s].outgoing ::
      arena[nodes[s].outgoing[j]].road.Some?
  }

  /** Road fields that are set stay set. */
  predicate KeepsRoads(arena: seq<Link>, arena': seq<Link>)
  {
    |arena'| == |arena| && forall g | 0 <= g < |arena| && arena[g].road.Some? :: arena'[g].road.Some?
  }

  /** A road built from a non-intermediate node along the walk from one of its outgoing
      links, a walk that ends at a node, is `WellBuilt`. */
  lemma BuildRoadWellBuilt(nodes: map<int, Node>, arena0: seq<Link>, walk: LinkRef -> seq<LinkRef>, arena: seq<Link>,
                           rid: int, n: int, j: int, chain: seq<LinkRef>)
    requires NodesBelow(nodes, arena0) && SameButRoads(arena0, arena)
    requires n in nodes && !IsIntermediate(arena0, nodes[n])
    requires j in nodes[n].outgoing && chain == walk(nodes[n].outgoing[j])
    requires 1 <= |chain| && forall i | 0 <= i < |chain| :: chain[i] < |arena|
    requires arena0[chain[|chain| - 1]].end in nodes
    ensures WellBuilt(nodes, arena0, walk, rid, BuildRoad(arena, rid, n, chain).1)
  {
    BuildRoadMakes(arena0, arena, rid, n, chain);
    assert Follows(arena0, BuildRoad(arena, rid, n, chain).1, walk(nodes[n].outgoing[j]));
  }

  /** Adding road number `|roads|` keeps the roads numbered 0, 1, ... */
  lemma NextRoadNumber(roads: map<int, Road>, road: Road, roads': map<int, Road>)
    requires forall k :: k in roads <==> 0 <= k < |roads|
    requires roads' == roads[|roads| := road]
    ensures |roads'| == |roads| + 1
    ensures forall k :: k in roads' <==> 0 <= k < |roads'|
  {
    assert |roads| !in roads;
  }

  /** Link objects whose road changed belong to a road holding their ID: this survives
      marking the walk `chain` with a new road `rid` that holds the walk's IDs. */
  lemma ChangedStep(arena0: seq<Link>, arena: seq<Link>, arena': seq<Link>, roads: map<int, Road>,
                    rid: int, road: Road, roads': map<int, Road>, chain: seq<LinkRef>)
    requires |arena| == |arena0| && |arena'| == |arena0|
    requires forall g | 0 <= g < |arena| && arena[g].road != arena0[g].road ::
      arena[g].road.Some? && arena[g].road.value in roads && arena0[g].id in roads[arena[g].road.value].links
    requires forall g | 0 <= g < |arena'| :: arena'[g].road == if g in chain then Some(rid) else arena[g].road
    requires forall i | 0 <= i < |chain| :: chain[i] < |arena0| && arena0[chain[i]].id in road.links
    requires rid !in roads && roads' == roads[rid := road]
    ensures forall g | 0 <= g < |arena'| && arena'[g].road != arena0[g].road ::
      arena'[g].road.Some? && arena'[g].road.value in roads' && arena0[g].id in roads'[arena'[g].road.value].links
  {
    forall g | 0 <= g < |arena'| && arena'[g].road != arena0[g].road
      ensures arena'[g].road.Some? && arena'[g].road.value in roads' && arena0[g].id in roads'[arena'[g].road.value].links
    {
      if g in chain {
        var i :| 0 <= i < |chain| && chain[i] == g;
      }
    }
  }

  /** `ChangedStep` for the road `BuildRoad` makes along `chain`. */
  lemma ChangedAfterBuild(arena0: seq<Link>, arena: seq<Link>, roads: map<int, Road>, rid: int, n: int, chain: seq<LinkRef>)
    requires SameButRoads(arena0, arena)
    requires 1 <= |chain| && forall i | 0 <= i < |chain| :: chain[i] < |arena|
    requires forall g | 0 <= g < |arena| && arena[g].road != arena0[g].road ::
      arena[g].road.Some? && arena[g].road.value in roads && arena0[g].id in roads[arena[g].road.value].links
    requires rid !in roads
    ensures var built := BuildRoad(arena, rid, n, chain); var roads' := roads[rid := built.1];
      forall g | 0 <= g < |built.0| && built.0[g].road != arena0[g].road ::
        built.0[g].road.Some? && built.0[g].road.value in roads' && arena0[g].id in roads'[built.0[g].road.value].links
  {
    var built := BuildRoad(arena, rid, n, chain);
    BuildRoadMarks(arena0, arena, rid, n, chain);
    BuildRoadMakes(arena0, arena, rid, n, chain);
    ChangedStep(arena0, arena, built.0, roads, rid, built.1, roads[rid := built.1], chain);
  }

  /** Every road stays `WellBuilt` when road number `|roads|` is built from the
      non-intermediate node `n` along the walk `chain`. */
  lemma AllWellBuiltStep(nodes: map<int, Node>, arena0: seq<Link>, walk: LinkRef -> seq<LinkRef>, arena: seq<Link>,
                         roads: map<int, Road>, n: int, j: int, chain: seq<LinkRef>)
    requires NodesBelow(nodes, arena0) && SameButRoads(arena0, arena)
    requires forall k | k in roads :: WellBuilt(nodes, arena0, walk, k, roads[k])
    requires n in nodes && !IsIntermediate(arena0, nodes[n])
    requires j in nodes[n].outgoing && chain == walk(nodes[n].outgoing[j])
    requires 1 <= |chain| && forall i | 0 <= i < |chain| :: chain[i] < |arena|
    requires arena0[chain[|chain| - 1]].end in nodes
    ensures var roads' := roads[|roads| := BuildRoad(arena, |roads|, n, chain).1];
      forall k | k in roads' :: WellBuilt(nodes, arena0, walk, k, roads'[k])
  {
    BuildRoadWellBuilt(nodes, arena0, walk, arena, |roads|, n, j, chain);
  }

  /** Starting road number `|roads|` at the non-intermediate node `n` along the walk
      `chain` from its outgoing link with ID `j` keeps `RoadsSoFar`. */
  lemma RoadStep(nodes: map<int, Node>, arena0: seq<Link>, walk: LinkRef -> seq<LinkRef>, arena: seq<Link>,
                 roads: map<int, Road>, n: int, j: int, chain: seq<LinkRef>)
    requires NodesBelow(nodes, arena0) && RoadsSoFar(nodes, arena0, walk, arena, roads)
    requires n in nodes && !IsIntermediate(arena0, nodes[n])
    requires j in nodes[n].outgoing && chain == walk(nodes[n].outgoing[j])
    requires 1 <= |chain| && forall i | 0 <= i < |chain| :: chain[i] < |arena|
    requires arena0[chain[|chain| - 1]].end in nodes
    ensures var built := BuildRoad(arena, |roads|, n, chain);
      RoadsSoFar(nodes, arena0, walk, built.0, roads[|roads| := built.1])
  {
    var rid := |roads|;
    var built := BuildRoad(arena, rid, n, chain);
    var roads' := roads[rid := built.1];
    assert SameButRoads(arena0, built.0) by {
      BuildRoadMarks(arena0, arena, rid, n, chain);
    }
    assert forall k :: k in roads' <==> 0 <= k < |roads'| by {
      NextRoadNumber(roads, built.1, roads');
    }
    assert forall g | 0 <= g < |built.0| && built.0[g].road != arena0[g].road ::
      built.0[g].road.Some? && built.0[g].road.value in roads' && arena0[g].id in roads'[built.0[g].road.value].links
    by {
      assert rid !in roads;
      ChangedAfterBuild(arena0, arena, roads, rid, n, chain);
    }
    assert forall k | k in roads' :: WellBuilt(nodes, arena0, walk, k, roads'[k]) by {
      AllWellBuiltStep(nodes, arena0, walk, arena, roads, n, j, chain);
    }
    RoadsSoFarIntro(nodes, arena0, walk, built.0, roads');
  }

  /** `RoadsSoFar` from its four parts. */
  lemma RoadsSoFarIntro(nodes: map<int, Node>, arena0: seq<Link>, walk: LinkRef -> seq<LinkRef>, arena: seq<Link>, roads: map<int, Road>)
    requires NodesBelow(nodes, arena0) && SameButRoads(arena0, arena)
    requires forall k :: k in roads <==> 0 <= k < |roads|
    requires forall k | k in roads :: WellBuilt(nodes, arena0, walk, k, roads[k])
    requires forall g | 0 <= g < |arena| && arena[g].road != arena0[g].road ::
      arena[g].road.Some? && arena[g].road.value in roads && arena0[g].id in roads[arena[g].road.value].links
    ensures RoadsSoFar(nodes, arena0, walk, arena, roads)
  {
  }

  /** The body of the inner loop of `createRoads` for a start link `h` at node `n` that
      has no road yet: `addRoad` with the next road number, then the road built along
      the walk from `h` stored under that number. */
  function StartRoad(net: Network, r: Network, n: int, h: LinkRef): (r': Network)
    requires Valid(net) && h < |net.arena| && |r.arena| == |net.arena|
    ensures r' == r.(arena := r'.arena, roads := r'.roads) && |r'.arena| == |r.arena|
    ensures r'.arena[h].road == Some(|r.roads|)
    ensures r'.roads.Keys == r.roads.Keys + {|r.roads|}
    ensures r'.roads[|r.roads|].id == |r.roads| && r'.roads[|r.roads|].start == Some(n)
    ensures forall k | k in r.roads && k != |r.roads| :: r'.roads[k] == r.roads[k]
  {
    RoadAlong(r, n, Walk(net, h, |net.arena|))
  }

  /** `addRoad` with the next road number, then the road built along `chain` from node
      `n` stored under that number. */
  function RoadAlong(r: Network, n: int, chain: seq<LinkRef>): (r': Network)
    requires 1 <= |chain| && forall i | 0 <= i < |chain| :: chain[i] < |r.arena|
    ensures r' == r.(arena := r'.arena, roads := r'.roads) && |r'.arena| == |r.arena|
    ensures r'.arena[chain[0]].road == Some(|r.roads|)
    ensures r'.roads.Keys == r.roads.Keys + {|r.roads|}
    ensures r'.roads[|r.roads|].id == |r.roads| && r'.roads[|r.roads|].start == Some(n)
    ensures forall k | k in r.roads && k != |r.roads| :: r'.roads[k] == r.roads[k]
  {
    var rid := |r.roads|;
    var built := BuildRoad(r.arena, rid, n, chain);
    BuildRoadMarks(r.arena, r.arena, rid, n, chain);
    BuildRoadMakes(r.arena, r.arena, rid, n, chain);
    var added := AddRoad(r, rid);
    added.(arena := built.0, roads := added.roads[rid := built.1])
  }

  /** Starting a road at `h` keeps `RoadsSoFar`, changes only the link objects and the
      road map, keeps every road field that was set, and gives `h` a road. */
  lemma StartRoadKeeps(net: Network, cur: Network, r: Network, n: int, j: int, h: LinkRef)
    requires Valid(net) && NodesBelow(net.nodes, net.arena)
    requires r == net.(arena := r.arena, roads := r.roads)
    requires RoadsSoFar(net.nodes, net.arena, Walks(net), r.arena, r.roads) && KeepsRoads(cur.arena, r.arena)
    requires n in net.nodes && !IsIntermediate(net.arena, net.nodes[n])
    requires j in net.nodes[n].outgoing && h == net.nodes[n].outgoing[j] && h < |net.arena|
    ensures var r' := StartRoad(net, r, n, h);
      && r' == net.(arena := r'.arena, roads := r'.roads)
      && RoadsSoFar(net.nodes, net.arena, Walks(net), r'.arena, r'.roads)
      && KeepsRoads(cur.arena, r'.arena) && KeepsRoads(r.arena, r'.arena)
      && r'.arena[h].road.Some?
  {
    var rid := |r.roads|;
    var chain := Walk(net, h, |net.arena|);
    var built := BuildRoad(r.arena, rid, n, chain);
    assert net.arena[chain[|chain| - 1]].end in net.nodes;
    RoadStep(net.nodes, net.arena, Walks(net), r.arena, r.roads, n, j, chain);
    BuildRoadMarks(net.arena, r.arena, rid, n, chain);
    KeepsRoadsTrans(cur.arena, r.arena, built.0);
    AddRoadThenSet(r, rid, built.1);
  }

  /** The inner loop of `createRoads` for the non-intermediate node `n`: each outgoing
      link, in ID order, that has no road yet starts road number `|roads|` (`addRoad`),
      built along its walk. */
  method RoadsFrom(net: Network, cur: Network, n: int) returns (r: Network)
    requires Valid(net) && NodesBelow(net.nodes, net.arena)
    requires cur == net.(arena := cur.arena, roads := cur.roads)
    requires RoadsSoFar(net.nodes, net.arena, Walks(net), cur.arena, cur.roads)
    requires n in net.nodes && !IsIntermediate(net.arena, net.nodes[n])
    ensures r == net.(arena := r.arena, roads := r.roads)
    ensures RoadsSoFar(net.nodes, net.arena, Walks(net), r.arena, r.roads)
    ensures KeepsRoads(cur.arena, r.arena)
    ensures forall j | j in net.nodes[n].outgoing :: r.arena[net.nodes[n].outgoing[j]].road.Some?
  {
    var out := net.nodes[n].outgoing;
    var todo := out.Keys;
    r := cur;
    while todo != {}
      invariant FromNode(net, cur, n, r, todo)
      decreases |todo|
    {
      var j := Least(todo);
      var h := out[j];
      if r.arena[h].road == None {
        FromNodeStart(net, cur, n, r, todo, j);
        r := StartRoad(net, r, n, h);
      } else {
        FromNodeSkip(net, cur, n, r, todo, j);
      }
      todo := todo - {j};
    }
  }

  /** The state of the inner loop of `createRoads` at node `n` with the outgoing link IDs
      `todo` still to visit: `RoadsSoFar` holds, only the link objects and the road map
      have changed, no road field set before the loop was cleared, and every visited link
      has a road. */
  ghost predicate FromNode(net: Network, cur: Network, n: int, r: Network, todo: set<int>)
    requires Valid(net) && n in net.nodes
  {
    && todo <= net.nodes[n].outgoing.Keys
    && r == net.(arena := r.arena, roads := r.roads)
    && NodesBelow(net.nodes, net.arena)
    && RoadsSoFar(net.nodes, net.arena, Walks(net), r.arena, r.roads)
    && KeepsRoads(cur.arena, r.arena)
    && forall j | j in net.nodes[n].outgoing && j !in todo ::
         net.nodes[n].outgoing[j] < |r.arena| && r.arena[net.nodes[n].outgoing[j]].road.Some?
  }

  /** A round of the inner loop whose link already has a road keeps its state. */
  lemma FromNodeSkip(net: Network, cur: Network, n: int, r: Network, todo: set<int>, j: int)
    requires Valid(net) && n in net.nodes
    requires FromNode(net, cur, n, r, todo) && j in todo
    requires net.nodes[n].outgoing[j] < |r.arena| && r.arena[net.nodes[n].outgoing[j]].road.Some?
    ensures FromNode(net, cur, n, r, todo - {j})
  {
  }

  /** A round of the inner loop that starts a road keeps its state. */
  lemma FromNodeStart(net: Network, cur: Network, n: int, r: Network, todo: set<int>, j: int)
    requires Valid(net) && n in net.nodes && !IsIntermediate(net.arena, net.nodes[n])
    requires FromNode(net, cur, n, r, todo) && j in todo
    ensures net.nodes[n].outgoing[j] < |net.arena|
    ensures FromNode(net, cur, n, StartRoad(net, r, n, net.nodes[n].outgoing[j]), todo - {j})
  {
    var h := net.nodes[n].outgoing[j];
    StartRoadKeeps(net, cur, r, n, j, h);
    var r' := StartRoad(net, r, n, h);
    VisitedGrow(net.nodes[n].outgoing, todo, j, r.arena, r'.arena);
  }

  /** The visited links keep their roads when one more visited link gets one. */
  lemma VisitedGrow(out: map<int, LinkRef>, todo: set<int>, j: int, arena: seq<Link>, arena': seq<Link>)
    requires forall j' | j' in out && j' !in todo :: out[j'] < |arena| && arena[out[j']].road.Some?
    requires KeepsRoads(arena, arena') && j in out && out[j] < |arena'| && arena'[out[j]].road.Some?
    ensures forall j' | j' in out && j' !in todo - {j} :: out[j'] < |arena'| && arena'[out[j']].road.Some?
  {
  }

  /** `createRoads` on a network without roads, visiting the nodes in ID order: the roads
      are numbered 0, 1, ... and `WellBuilt`, each the road of the walk from a link leaving
      its start node; only road fields of link objects and the road map change, a link
      object whose road changed belongs to a road that holds its ID, and every link
      leaving a node that is not intermediate has a road. */
  method CreateRoads(net: Network) returns (r: Network)
    requires Valid(net) && net.roads == map[]
    ensures NodesBelow(net.nodes, net.arena)
    ensures r == net.(arena := r.arena, roads := r.roads)
    ensures RoadsSoFar(net.nodes, net.arena, Walks(net), r.arena, r.roads)
    ensures |r.arena| == |net.arena| && Covered(net.nodes, net.arena, r.arena, net.nodes.Keys)
    ensures forall k | k in r.roads :: FollowsWalk(net, r.roads[k])
  {
    ValidRefsBelow(net);
    var todo := net.nodes.Keys;
    r := net;
    while todo != {}
      invariant todo <= net.nodes.Keys
      invariant r == net.(arena := r.arena, roads := r.roads)
      invariant RoadsSoFar(net.nodes, net.arena, Walks(net), r.arena, r.roads)
      invariant Covered(net.nodes, net.arena, r.arena, net.nodes.Keys - todo)
      decreases |todo|
    {
      var n := Least(todo);
      IntermediateIgnoresRoads(net.arena, r.arena, net.nodes[n], 0);
      if !IsIntermediate(r.arena, net.nodes[n]) {
        var before := r.arena;
        r := RoadsFrom(net, r, n);
        CoveredGrows(net.nodes, net.arena, before, r.arena, net.nodes.Keys - todo, n);
      }
      todo := todo - {n};
    }
    RoadsAreWalks(net, r.arena, r.roads);
  }

  /** `road` starts at a node of `net` and is the road of the walk of `createRoads` from
      one of the links leaving that node. */
  ghost predicate FollowsWalk(net: Network, road: Road)
    requires Valid(net)
  {
    && road.start.Some? && road.start.value in net.nodes
    && exists j | j in net.nodes[road.start.value].outgoing ::
         var h := net.nodes[road.start.value].outgoing[j];
         h < |net.arena| && Follows(net.arena, road, Walk(net, h, |net.arena|))
  }

  /** Every road of `RoadsSoFar` is the road of a walk from a link leaving its start
      node. */
  lemma RoadsAreWalks(net: Network, arena: seq<Link>, roads: map<int, Road>)
    requires Valid(net) && NodesBelow(net.nodes, net.arena)
    requires RoadsSoFar(net.nodes, net.arena, Walks(net), arena, roads)
    ensures forall k | k in roads :: FollowsWalk(net, roads[k])
  {
    forall k | k in roads
      ensures FollowsWalk(net, roads[k])
    {
      var road := roads[k];
      assert WellBuilt(net.nodes, net.arena, Walks(net), k, road);
      var s := road.start.value;
      var j :| j in net.nodes[s].outgoing && Follows(net.arena, road, Walks(net)(net.nodes[s].outgoing[j]));
      NodeRefsBelow(net.nodes, net.arena, s);
      assert net.nodes[s].outgoing[j] < |net.arena|;
    }
  }

  lemma KeepsRoadsTrans(a: seq<Link>, b: seq<Link>, c: seq<Link>)
    requires KeepsRoads(a, b) && KeepsRoads(b, c)
    ensures KeepsRoads(a, c)
  {
  }

  /** `addRoad` followed by storing the built road leaves the same road map as storing it
      directly. */
  lemma AddRoadThenSet(net: Network, rid: int, road: Road)
    ensures AddRoad(net, rid).roads[rid := road] == net.roads[rid := road]
  {
  }

  /** Visiting one more non-intermediate node whose outgoing links all got a road keeps
      the earlier nodes covered. */
  lemma CoveredGrows(nodes: map<int, Node>, arena0: seq<Link>, arena: seq<Link>, arena': seq<Link>, done: set<int>, n: int)
    requires NodesBelow(nodes, arena0) && |arena| == |arena0|
    requires Covered(nodes, arena0, arena, done) && KeepsRoads(arena, arena')
    requires n in nodes && forall j | j in nodes[n].outgoing :: arena'[nodes[n].outgoing[j]].road.Some?
    ensures Covered(nodes, arena0, arena', done + {n})
  {
  }
}

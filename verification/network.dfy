/**
 * The road network (`Network`): nodes, links and roads keyed by ID, the vehicle detection
 * stations (`VDS`), and the bounding box of the nodes. Every link object ever created
 * lives in `arena`; `links` holds the one the ID map kept. The input files arrive here
 * already parsed, as sequences of records in file order.
 */
module Networks {
  import opened Wrappers
  import opened StdMap
  import opened OrderedKeys
  import opened Folds
  import opened GeoPosition
  import opened MathFunc
  import opened Links
  import opened Nodes
  import opened Roads

  /** A vehicle detection station (`VDS`): an ID and a position. */
  datatype Vds = Vds(id: int, pos: GeoPos)

  /** One data line of the network file: link ID, then start node ID, longitude and
      latitude, then end node ID, longitude and latitude. */
  datatype LinkRecord = LinkRecord(
    linkId: int,
    startId: int, startLon: real, startLat: real,
    endId: int, endLon: real, endLat: real)

  /** One data line of the detector file: ID, latitude, longitude. */
  datatype VdsRecord = VdsRecord(id: int, lat: real, lon: real)

  datatype Network = Network(
    nodes: map<int, Node>,
    links: map<int, LinkRef>,
    arena: seq<Link>,
    roads: map<int, Road>,
    vds: map<int, Vds>,
    minPos: Option<GeoPos>,
    maxPos: Option<GeoPos>)

  /** `Network(...)`: everything empty, no position limits. */
  function EmptyNetwork(): (net: Network)
    ensures net.nodes == map[] && net.links == map[] && net.arena == []
    ensures net.roads == map[] && net.vds == map[]
    ensures net.minPos == None && net.maxPos == None
  {
    Network(map[], map[], [], map[], map[], None, None)
  }

  /** Each node is stored under its own ID. */
  predicate NodesKeyed(nodes: map<int, Node>)
  {
    forall n | n in nodes :: nodes[n].id == n
  }

  /** Both nodes of every link object exist. */
  predicate LinksPlaced(nodes: map<int, Node>, arena: seq<Link>)
  {
    forall i | 0 <= i < |arena| :: arena[i].start in nodes && arena[i].end in nodes
  }

  /** A node's outgoing links start at it and are stored under their own IDs. */
  predicate OutgoingAgree(nodes: map<int, Node>, arena: seq<Link>)
  {
    forall n, k | n in nodes && k in nodes[n].outgoing ::
      nodes[n].outgoing[k] < |arena|
      && arena[nodes[n].outgoing[k]].start == n && arena[nodes[n].outgoing[k]].id == k
  }

  /** A node's incoming links end at it and are stored under their own IDs. */
  predicate IncomingAgree(nodes: map<int, Node>, arena: seq<Link>)
  {
    forall n, k | n in nodes && k in nodes[n].incoming ::
      nodes[n].incoming[k] < |arena|
      && arena[nodes[n].incoming[k]].end == n && arena[nodes[n].incoming[k]].id == k
  }

  /** The link map stores each link under its own ID. */
  predicate LinkMapAgrees(links: map<int, LinkRef>, arena: seq<Link>)
  {
    forall id | id in links :: links[id] < |arena| && arena[links[id]].id == id
  }

  /** The node map and the link store agree. */
  predicate NodesAgree(nodes: map<int, Node>, arena: seq<Link>)
  {
    NodesKeyed(nodes) && LinksPlaced(nodes, arena) && OutgoingAgree(nodes, arena) && IncomingAgree(nodes, arena)
  }

  /** The maps and the link store agree. */
  predicate Valid(net: Network)
  {
    NodesAgree(net.nodes, net.arena) && LinkMapAgrees(net.links, net.arena)
  }

  /** In a valid network every node refers only to stored link objects. */
  lemma ValidRefsBelow(net: Network)
    requires Valid(net)
    ensures forall n | n in net.nodes :: RefsBelow(net.nodes[n], |net.arena|)
  {
  }

  /** The node lookup of `createNodesAndLinks`: an ID seen before keeps its node (and its
      coordinates); a new ID gets a new node at the given position. */
  function EnsureNode(nodes: map<int, Node>, id: int, lat: real, lon: real): (r: map<int, Node>)
    ensures r.Keys == nodes.Keys + {id}
    ensures forall k | k in nodes :: r[k] == nodes[k]
    ensures id !in nodes ==> r[id] == NewNode(id, lat, lon)
  {
    InsertIfAbsent(nodes, id, NewNode(id, lat, lon))
  }

  /** Both node lookups of one record: the start node first, so that a record whose
      two node IDs agree places the node at its start coordinates. */
  function RecordNodes(nodes: map<int, Node>, rec: LinkRecord): (r: map<int, Node>)
    ensures r.Keys == nodes.Keys + {rec.startId, rec.endId}
  {
    EnsureNode(EnsureNode(nodes, rec.startId, rec.startLat, rec.startLon), rec.endId, rec.endLat, rec.endLon)
  }

  /** Node IDs seen before keep their nodes; a new ID gets a node without links at the
      position of its first mention in the record. */
  lemma RecordNodesFacts(nodes: map<int, Node>, rec: LinkRecord)
    ensures var r := RecordNodes(nodes, rec);
      && (forall k | k in nodes :: r[k] == nodes[k])
      && (rec.startId !in nodes ==> r[rec.startId] == NewNode(rec.startId, rec.startLat, rec.startLon))
      && (rec.endId !in nodes && rec.endId != rec.startId ==> r[rec.endId] == NewNode(rec.endId, rec.endLat, rec.endLon))
  {
  }

  /** `startNode->addOutgoingLink(linkID, link)` then `endNode->addIncomingLink(linkID,
      link)`. */
  function Register(nodes: map<int, Node>, start: int, end: int, id: int, h: LinkRef): (r: map<int, Node>)
    requires start in nodes && end in nodes
    ensures r.Keys == nodes.Keys
  {
    var nodes' := nodes[start := AddOutgoingLink(nodes[start], id, h)];
    nodes'[end := AddIncomingLink(nodes'[end], id, h)]
  }

  /** Only the two link maps named change, and only by insert-if-absent. */
  lemma RegisterFacts(nodes: map<int, Node>, start: int, end: int, id: int, h: LinkRef)
    requires start in nodes && end in nodes
    ensures var r := Register(nodes, start, end, id, h);
      && id in r[start].outgoing && id in r[end].incoming
      && (forall n | n in nodes :: r[n].id == nodes[n].id && r[n].pos == nodes[n].pos)
      && (forall n | n in nodes ::
            && r[n].outgoing.Keys == nodes[n].outgoing.Keys + (if n == start then {id} else {})
            && r[n].incoming.Keys == nodes[n].incoming.Keys + (if n == end then {id} else {}))
      && (forall n, k | n in nodes && k in nodes[n].outgoing :: r[n].outgoing[k] == nodes[n].outgoing[k])
      && (forall n, k | n in nodes && k in nodes[n].incoming :: r[n].incoming[k] == nodes[n].incoming[k])
      && (id !in nodes[start].outgoing ==> r[start].outgoing[id] == h)
      && (id !in nodes[end].incoming ==> r[end].incoming[id] == h)
  {
  }

  /** The length `computeLength` gives a link between two positions: the planar distance,
      longitude as x and latitude as y. */
  function PlanarLength(root: real -> real, s: GeoPos, e: GeoPos): real
  {
    PointsDistance(root, s.lon, s.lat, e.lon, e.lat)
  }

  /** `PlanarLength` as a value, for the operations that take the length measure as a
      parameter. */
  function PlanarMeasure(root: real -> real): (measure: (GeoPos, GeoPos) -> real)
    ensures forall s, e :: measure(s, e) == PlanarLength(root, s, e)
  {
    (s: GeoPos, e: GeoPos) => PlanarLength(root, s, e)
  }

  /** `new Link(linkID, startNode, endNode)` followed by `computeLength()`, with the
      length measure as a parameter. */
  function RecordLink(measure: (GeoPos, GeoPos) -> real, nodes: map<int, Node>, rec: LinkRecord): Link
    requires rec.startId in nodes && rec.endId in nodes
  {
    NewLink(rec.linkId, rec.startId, rec.endId).(length := measure(nodes[rec.startId].pos, nodes[rec.endId].pos))
  }

  /** With the planar measure, `RecordLink` is `computeLength` applied to the new link and
      the coordinates of its two nodes. */
  lemma RecordLinkComputesLength(root: real -> real, nodes: map<int, Node>, rec: LinkRecord)
    requires rec.startId in nodes && rec.endId in nodes
    ensures var s, e := nodes[rec.startId].pos, nodes[rec.endId].pos;
      RecordLink(PlanarMeasure(root), nodes, rec)
        == Links.ComputeLength(root, NewLink(rec.linkId, rec.startId, rec.endId), s.lon, s.lat, e.lon, e.lat)
  {
  }

  /** One iteration of `createNodesAndLinks`: find or create both nodes, create the link
      object with its length, keep it in the link map unless its ID is already there, and
      register it with its start node (outgoing) and its end node (incoming). */
  function AddRecord(measure: (GeoPos, GeoPos) -> real, net: Network, rec: LinkRecord): (r: Network)
    ensures r.nodes.Keys == net.nodes.Keys + {rec.startId, rec.endId}
    ensures r.links.Keys == net.links.Keys + {rec.linkId}
    ensures |r.arena| == |net.arena| + 1
    ensures r.roads == net.roads && r.vds == net.vds && r.minPos == net.minPos && r.maxPos == net.maxPos
  {
    var nodes := RecordNodes(net.nodes, rec);
    var h := |net.arena|;
    var arena := net.arena + [RecordLink(measure, nodes, rec)];
    net.(nodes := Register(nodes, rec.startId, rec.endId, rec.linkId, h),
         links := InsertIfAbsent(net.links, rec.linkId, h),
         arena := arena)
  }

  /** A node ID seen before keeps its node's position; a new one gets the position the
      data line gives it, the start position when both IDs of the line agree. */
  lemma AddRecordPositions(measure: (GeoPos, GeoPos) -> real, net: Network, rec: LinkRecord)
    ensures var r := AddRecord(measure, net, rec);
      && (forall k | k in net.nodes :: r.nodes[k].id == net.nodes[k].id && r.nodes[k].pos == net.nodes[k].pos)
      && (rec.startId !in net.nodes ==> r.nodes[rec.startId].pos == GeoPos(rec.startLat, rec.startLon))
      && (rec.endId !in net.nodes && rec.endId != rec.startId ==> r.nodes[rec.endId].pos == GeoPos(rec.endLat, rec.endLon))
  {
    var nodes := RecordNodes(net.nodes, rec);
    RecordNodesFacts(net.nodes, rec);
    RegisterFacts(nodes, rec.startId, rec.endId, rec.linkId, |net.arena|);
  }

  /** The link object of the data line is appended to the store; earlier ones stay. */
  lemma AddRecordArena(measure: (GeoPos, GeoPos) -> real, net: Network, rec: LinkRecord)
    ensures var r := AddRecord(measure, net, rec);
      && |r.arena| == |net.arena| + 1
      && (forall i | 0 <= i < |net.arena| :: r.arena[i] == net.arena[i])
      && r.arena[|net.arena|] == NewLink(rec.linkId, rec.startId, rec.endId).(length := r.arena[|net.arena|].length)
  {
  }

  /** The link map keeps its entries, and gets the new link object only for a new ID. */
  lemma AddRecordLinks(measure: (GeoPos, GeoPos) -> real, net: Network, rec: LinkRecord)
    ensures var r := AddRecord(measure, net, rec);
      && (forall k | k in net.links :: r.links[k] == net.links[k])
      && (rec.linkId !in net.links ==> r.links[rec.linkId] == |net.arena|)
  {
  }

  /** The line's link ID is registered with both its nodes, and no node loses a link. */
  lemma AddRecordRegisters(measure: (GeoPos, GeoPos) -> real, net: Network, rec: LinkRecord)
    ensures var r := AddRecord(measure, net, rec);
      && rec.linkId in r.nodes[rec.startId].outgoing && rec.linkId in r.nodes[rec.endId].incoming
      && forall k | k in net.nodes ::
           net.nodes[k].outgoing.Keys <= r.nodes[k].outgoing.Keys && net.nodes[k].incoming.Keys <= r.nodes[k].incoming.Keys
  {
    var nodes := RecordNodes(net.nodes, rec);
    RecordNodesFacts(net.nodes, rec);
    RegisterFacts(nodes, rec.startId, rec.endId, rec.linkId, |net.arena|);
  }

  /** `createNodesAndLinks` keeps the maps and the link store in agreement. */
  lemma AddRecordValid(measure: (GeoPos, GeoPos) -> real, net: Network, rec: LinkRecord)
    requires Valid(net)
    ensures Valid(AddRecord(measure, net, rec))
  {
    var h := |net.arena|;
    var nodes := RecordNodes(net.nodes, rec);
    var l := RecordLink(measure, nodes, rec);
    RecordNodesAgree(net.nodes, net.arena, rec);
    ExtendAgree(nodes, net.arena, l);
    RegisterAgree(nodes, net.arena + [l], rec.startId, rec.endId, rec.linkId, h);
    LinkMapStep(net.links, net.arena, l, h);
  }

  /** New nodes come without links, so the agreement survives the node lookups. */
  lemma RecordNodesAgree(nodes: map<int, Node>, arena: seq<Link>, rec: LinkRecord)
    requires NodesAgree(nodes, arena)
    ensures NodesAgree(RecordNodes(nodes, rec), arena)
  {
    RecordNodesFacts(nodes, rec);
  }

  /** Appending a link object between two existing nodes keeps every stored reference
      meaning the same object. */
  lemma ExtendAgree(nodes: map<int, Node>, arena: seq<Link>, l: Link)
    requires NodesAgree(nodes, arena)
    requires l.start in nodes && l.end in nodes
    ensures NodesAgree(nodes, arena + [l])
  {
    var arena' := arena + [l];
    forall i | 0 <= i < |arena'|
      ensures arena'[i].start in nodes && arena'[i].end in nodes
    {
      if i < |arena| {
        assert arena'[i] == arena[i];
      }
    }
  }

  /** The link map stays in agreement when a link object is appended and inserted under
      its own ID. */
  lemma LinkMapStep(links: map<int, LinkRef>, arena: seq<Link>, l: Link, h: LinkRef)
    requires LinkMapAgrees(links, arena) && h == |arena|
    ensures LinkMapAgrees(InsertIfAbsent(links, l.id, h), arena + [l])
  {
    InsertIfAbsentCases(links, l.id, h);
  }

  /** Registering a link object as outgoing at its own start node, under its own ID, keeps
      the agreement. */
  lemma AddOutgoingAgree(nodes: map<int, Node>, arena: seq<Link>, n0: int, id: int, h: LinkRef)
    requires NodesAgree(nodes, arena)
    requires n0 in nodes && h < |arena| && arena[h].start == n0 && arena[h].id == id
    ensures NodesAgree(nodes[n0 := AddOutgoingLink(nodes[n0], id, h)], arena)
  {
    var r := nodes[n0 := AddOutgoingLink(nodes[n0], id, h)];
    forall n, k | n in r && k in r[n].outgoing
      ensures r[n].outgoing[k] < |arena| && arena[r[n].outgoing[k]].start == n && arena[r[n].outgoing[k]].id == k
    {
      if n == n0 && k !in nodes[n].outgoing {
        assert k == id;
      }
    }
  }

  /** Registering a link object as incoming at its own end node, under its own ID, keeps
      the agreement. */
  lemma AddIncomingAgree(nodes: map<int, Node>, arena: seq<Link>, n0: int, id: int, h: LinkRef)
    requires NodesAgree(nodes, arena)
    requires n0 in nodes && h < |arena| && arena[h].end == n0 && arena[h].id == id
    ensures NodesAgree(nodes[n0 := AddIncomingLink(nodes[n0], id, h)], arena)
  {
    var r := nodes[n0 := AddIncomingLink(nodes[n0], id, h)];
    forall n, k | n in r && k in r[n].incoming
      ensures r[n].incoming[k] < |arena| && arena[r[n].incoming[k]].end == n && arena[r[n].incoming[k]].id == k
    {
      if n == n0 && k !in nodes[n].incoming {
        assert k == id;
      }
    }
  }

  /** Registering a link object with its own start and end nodes, under its own ID, keeps
      the agreement. */
  lemma RegisterAgree(nodes: map<int, Node>, arena: seq<Link>, start: int, end: int, id: int, h: LinkRef)
    requires NodesAgree(nodes, arena)
    requires start in nodes && end in nodes && h < |arena|
    requires arena[h].start == start && arena[h].end == end && arena[h].id == id
    ensures NodesAgree(Register(nodes, start, end, id, h), arena)
  {
    AddOutgoingAgree(nodes, arena, start, id, h);
    AddIncomingAgree(nodes[start := AddOutgoingLink(nodes[start], id, h)], arena, end, id, h);
  }

  /** The position a data line gives for node `k`: its start position when `k` is its
      start node, else its end position when `k` is its end node. */
  function MentionAt(rec: LinkRecord, k: int): (p: Option<GeoPos>)
    ensures p.Some? <==> k == rec.startId || k == rec.endId
    ensures k == rec.startId ==> p == Some(GeoPos(rec.startLat, rec.startLon))
  {
    if k == rec.startId then Some(GeoPos(rec.startLat, rec.startLon))
    else if k == rec.endId then Some(GeoPos(rec.endLat, rec.endLon))
    else None
  }

  /** Link object `i` is the one created for data line `i`. */
  ghost predicate ArenaFromRecords(arena: seq<Link>, records: seq<LinkRecord>)
  {
    && |arena| == |records|
    && forall i | 0 <= i < |records| ::
         arena[i] == NewLink(records[i].linkId, records[i].startId, records[i].endId).(length := arena[i].length)
  }

  /** The position of node `k` in the first data line that mentions it, scanning the
      lines in file order; `None` when no line mentions it. */
  function FirstMention(records: seq<LinkRecord>, k: int): Option<GeoPos>
    decreases |records|
  {
    if |records| == 0 then None
    else
      var earlier := FirstMention(records[..|records| - 1], k);
      if earlier.Some? then earlier else MentionAt(records[|records| - 1], k)
  }

  /** `FirstMention` is what its name says: the position in the first line that mentions
      the node, and `None` exactly when no line does. */
  lemma {:induction false} FirstMentionMeaning(records: seq<LinkRecord>, k: int)
    ensures FirstMention(records, k).None? <==> forall i | 0 <= i < |records| :: MentionAt(records[i], k).None?
    ensures FirstMention(records, k).Some? ==> exists i | 0 <= i < |records| ::
      MentionAt(records[i], k) == FirstMention(records, k) && forall j | 0 <= j < i :: MentionAt(records[j], k).None?
    decreases |records|
  {
    if |records| > 0 {
      var n := |records| - 1;
      var prefix := records[..n];
      FirstMentionMeaning(prefix, k);
      assert forall i | 0 <= i < n :: prefix[i] == records[i];
      if FirstMention(prefix, k).Some? {
        var i :| 0 <= i < n && MentionAt(prefix[i], k) == FirstMention(prefix, k)
          && forall j | 0 <= j < i :: MentionAt(prefix[j], k).None?;
        assert MentionAt(records[i], k) == FirstMention(records, k);
      }
    }
  }

  /** The link ID of a data line. */
  function LinkIdOf(rec: LinkRecord): int
  {
    rec.linkId
  }

  /** The nodes are exactly the node IDs the data lines mention, each at the position
      given by the first line that mentions it. */
  ghost predicate NodesFromRecords(nodes: map<int, Node>, records: seq<LinkRecord>)
  {
    forall k :: (k in nodes <==> FirstMention(records, k).Some?) && (k in nodes ==> Some(nodes[k].pos) == FirstMention(records, k))
  }

  /** The link map holds exactly the link IDs of the data lines, each mapped to the link
      object of the first line with that ID. */
  ghost predicate LinksFromRecords(links: map<int, LinkRef>, records: seq<LinkRecord>)
  {
    forall id :: (id in links <==> FirstWithKey(records, LinkIdOf, id).Some?) && (id in links ==> Some(links[id]) == FirstWithKey(records, LinkIdOf, id))
  }

  /** Every data line's link ID is registered with its start node as outgoing and with its
      end node as incoming. */
  ghost predicate AllRegistered(nodes: map<int, Node>, records: seq<LinkRecord>)
  {
    forall i | 0 <= i < |records| ::
      && records[i].startId in nodes && records[i].linkId in nodes[records[i].startId].outgoing
      && records[i].endId in nodes && records[i].linkId in nodes[records[i].endId].incoming
  }

  /** Every link object's length is the measure between the positions of its two nodes. */
  ghost predicate LengthsMeasured(measure: (GeoPos, GeoPos) -> real, nodes: map<int, Node>, arena: seq<Link>)
  {
    forall i | 0 <= i < |arena| ::
      arena[i].start in nodes && arena[i].end in nodes
      && arena[i].length == measure(nodes[arena[i].start].pos, nodes[arena[i].end].pos)
  }

  /** What `createNodesAndLinks` has built after reading the data lines `prefix`. */
  ghost predicate Built(measure: (GeoPos, GeoPos) -> real, net: Network, prefix: seq<LinkRecord>)
  {
    && Valid(net)
    && ArenaFromRecords(net.arena, prefix)
    && LengthsMeasured(measure, net.nodes, net.arena)
    && NodesFromRecords(net.nodes, prefix)
    && LinksFromRecords(net.links, prefix)
    && AllRegistered(net.nodes, prefix)
    && net.roads == map[] && net.vds == map[] && net.minPos == None && net.maxPos == None
  }

  /** `createNodesAndLinks` over the parsed data lines, in file order, starting from an
      empty network. */
  method CreateNodesAndLinks(measure: (GeoPos, GeoPos) -> real, records: seq<LinkRecord>) returns (net: Network)
    ensures Valid(net)
    ensures ArenaFromRecords(net.arena, records)
    ensures LengthsMeasured(measure, net.nodes, net.arena)
    ensures NodesFromRecords(net.nodes, records)
    ensures LinksFromRecords(net.links, records)
    ensures AllRegistered(net.nodes, records)
    ensures net.roads == map[] && net.vds == map[] && net.minPos == None && net.maxPos == None
  {
    net := EmptyNetwork();
    var i := 0;
    while i < |records|
      invariant 0 <= i <= |records|
      invariant Built(measure, net, records[..i])
    {
      BuildStep(measure, net, records[..i], records[i]);
      TakeOneMore(records, i);
      net := AddRecord(measure, net, records[i]);
      i := i + 1;
    }
    assert records[..i] == records;
  }

  /** One data line takes what was built from `prefix` to what is built from one more
      line. */
  lemma BuildStep(measure: (GeoPos, GeoPos) -> real, net: Network, prefix: seq<LinkRecord>, rec: LinkRecord)
    requires Built(measure, net, prefix)
    ensures Built(measure, AddRecord(measure, net, rec), prefix + [rec])
  {
    AddRecordValid(measure, net, rec);
    ArenaStep(measure, net, prefix, rec);
    LengthsStepOf(measure, net, rec);
    NodesStepOf(measure, net, prefix, rec);
    LinksStepOf(measure, net, prefix, rec);
    RegisteredStepOf(measure, net, prefix, rec);
  }

  /** One data line extends the link store as `ArenaFromRecords` says. */
  lemma ArenaStep(measure: (GeoPos, GeoPos) -> real, net: Network, prefix: seq<LinkRecord>, rec: LinkRecord)
    requires ArenaFromRecords(net.arena, prefix)
    ensures ArenaFromRecords(AddRecord(measure, net, rec).arena, prefix + [rec])
  {
    var r := AddRecord(measure, net, rec);
    var records := prefix + [rec];
    AddRecordArena(measure, net, rec);
    forall i | 0 <= i < |records|
      ensures r.arena[i] == NewLink(records[i].linkId, records[i].startId, records[i].endId).(length := r.arena[i].length)
    {
      if i < |prefix| {
        assert records[i] == prefix[i];
      }
    }
  }

  lemma LengthsStepOf(measure: (GeoPos, GeoPos) -> real, net: Network, rec: LinkRecord)
    requires LengthsMeasured(measure, net.nodes, net.arena)
    ensures var r := AddRecord(measure, net, rec);
      LengthsMeasured(measure, r.nodes, r.arena)
  {
    var nodes := RecordNodes(net.nodes, rec);
    RecordNodesFacts(net.nodes, rec);
    RegisterFacts(nodes, rec.startId, rec.endId, rec.linkId, |net.arena|);
    var r := AddRecord(measure, net, rec);
    LengthsStep(measure, net.nodes, r.nodes, net.arena, r.arena[|net.arena|]);
  }

  /** Appending a link object measured between its nodes, in a node map that keeps the old
      positions, keeps every length measured. */
  lemma LengthsStep(measure: (GeoPos, GeoPos) -> real, nodes: map<int, Node>, nodes': map<int, Node>, arena: seq<Link>, l: Link)
    requires LengthsMeasured(measure, nodes, arena)
    requires nodes.Keys <= nodes'.Keys && forall k | k in nodes :: nodes'[k].pos == nodes[k].pos
    requires l.start in nodes' && l.end in nodes' && l.length == measure(nodes'[l.start].pos, nodes'[l.end].pos)
    ensures LengthsMeasured(measure, nodes', arena + [l])
  {
    var arena' := arena + [l];
    forall i | 0 <= i < |arena'|
      ensures arena'[i].start in nodes' && arena'[i].end in nodes'
      ensures arena'[i].length == measure(nodes'[arena'[i].start].pos, nodes'[arena'[i].end].pos)
    {
      if i < |arena| {
        assert arena'[i] == arena[i];
      }
    }
  }

  lemma NodesStepOf(measure: (GeoPos, GeoPos) -> real, net: Network, prefix: seq<LinkRecord>, rec: LinkRecord)
    requires NodesFromRecords(net.nodes, prefix)
    ensures NodesFromRecords(AddRecord(measure, net, rec).nodes, prefix + [rec])
  {
    AddRecordPositions(measure, net, rec);
    NodesStep(net.nodes, AddRecord(measure, net, rec).nodes, prefix, rec);
  }

  lemma LinksStepOf(measure: (GeoPos, GeoPos) -> real, net: Network, prefix: seq<LinkRecord>, rec: LinkRecord)
    requires LinksFromRecords(net.links, prefix) && |net.arena| == |prefix|
    ensures LinksFromRecords(AddRecord(measure, net, rec).links, prefix + [rec])
  {
    AddRecordLinks(measure, net, rec);
    LinksStep(net.links, AddRecord(measure, net, rec).links, prefix, rec);
  }

  lemma RegisteredStepOf(measure: (GeoPos, GeoPos) -> real, net: Network, prefix: seq<LinkRecord>, rec: LinkRecord)
    requires AllRegistered(net.nodes, prefix)
    ensures AllRegistered(AddRecord(measure, net, rec).nodes, prefix + [rec])
  {
    AddRecordRegisters(measure, net, rec);
    RegisteredStep(net.nodes, AddRecord(measure, net, rec).nodes, prefix, rec);
  }

  /** One data line extends the node map as `NodesFromRecords` says, given how
      `AddRecord` changes the node map. */
  lemma NodesStep(nodes: map<int, Node>, nodes': map<int, Node>, prefix: seq<LinkRecord>, rec: LinkRecord)
    requires NodesFromRecords(nodes, prefix)
    requires nodes'.Keys == nodes.Keys + {rec.startId, rec.endId}
    requires forall k | k in nodes :: nodes'[k].pos == nodes[k].pos
    requires rec.startId !in nodes ==> nodes'[rec.startId].pos == GeoPos(rec.startLat, rec.startLon)
    requires rec.endId !in nodes && rec.endId != rec.startId ==> nodes'[rec.endId].pos == GeoPos(rec.endLat, rec.endLon)
    ensures NodesFromRecords(nodes', prefix + [rec])
  {
    assert (prefix + [rec])[..|prefix|] == prefix;
  }

  /** One data line extends the link map as `LinksFromRecords` says, given how `AddRecord`
      changes the link map. */
  lemma LinksStep(links: map<int, LinkRef>, links': map<int, LinkRef>, prefix: seq<LinkRecord>, rec: LinkRecord)
    requires LinksFromRecords(links, prefix)
    requires links'.Keys == links.Keys + {rec.linkId}
    requires forall k | k in links :: links'[k] == links[k]
    requires rec.linkId !in links ==> links'[rec.linkId] == |prefix|
    ensures LinksFromRecords(links', prefix + [rec])
  {
    assert (prefix + [rec])[..|prefix|] == prefix;
  }

  /** One data line keeps every earlier line registered and registers its own, given
      that node link maps only grow. */
  lemma RegisteredStep(nodes: map<int, Node>, nodes': map<int, Node>, prefix: seq<LinkRecord>, rec: LinkRecord)
    requires AllRegistered(nodes, prefix)
    requires nodes.Keys <= nodes'.Keys
    requires forall k | k in nodes ::
      nodes[k].outgoing.Keys <= nodes'[k].outgoing.Keys && nodes[k].incoming.Keys <= nodes'[k].incoming.Keys
    requires rec.startId in nodes' && rec.linkId in nodes'[rec.startId].outgoing
    requires rec.endId in nodes' && rec.linkId in nodes'[rec.endId].incoming
    ensures AllRegistered(nodes', prefix + [rec])
  {
    var records := prefix + [rec];
    forall i | 0 <= i < |records|
      ensures records[i].startId in nodes' && records[i].linkId in nodes'[records[i].startId].outgoing
      ensures records[i].endId in nodes' && records[i].linkId in nodes'[records[i].endId].incoming
    {
      if i < |prefix| {
        assert records[i] == prefix[i];
      }
    }
  }
}

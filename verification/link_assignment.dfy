/**
 * `assignLinksToGrid` on the network: the jobs are the links of the link map in
 * ascending ID order, each with the positions of its start and end nodes; and the grid
 * `build` makes over the network's nodes finds a cell for every one of them.
 */
module LinkAssignment {
  import opened GeoPosition
  import opened Links
  import opened OrderedKeys
  import opened Roads
  import opened Networks
  import opened Grids
  import opened GridLinks
  import opened GridAssign

  /** The job of the link with ID `id`: its object and its nodes' positions. */
  function JobOf(net: Network, id: int): (job: Job)
    requires Placed(net.nodes, net.arena, net.links) && id in net.links
    ensures job.h == net.links[id]
    ensures job.s == net.nodes[net.arena[job.h].start].pos && job.e == net.nodes[net.arena[job.h].end].pos
  {
    var h := net.links[id];
    Job(h, net.nodes[net.arena[h].start].pos, net.nodes[net.arena[h].end].pos)
  }

  /** The lookup finds a cell for both nodes of every link of the link map. */
  predicate LinksReachable(g: Grid, net: Network)
    requires Placed(net.nodes, net.arena, net.links)
  {
    forall id | id in net.links :: Locates(g, JobOf(net, id).s) && Locates(g, JobOf(net, id).e)
  }

  /** One job per link of the link map, in the map's ascending ID order. */
  function Jobs(net: Network): (jobs: seq<Job>)
    requires Placed(net.nodes, net.arena, net.links)
    ensures |jobs| == |net.links|
    ensures forall k | 0 <= k < |jobs| :: Ascending(net.links.Keys)[k] in net.links
    ensures forall k | 0 <= k < |jobs| :: jobs[k] == JobOf(net, Ascending(net.links.Keys)[k])
  {
    var ids := Ascending(net.links.Keys);
    seq(|ids|, k requires 0 <= k < |ids| => JobOf(net, ids[k]))
  }

  /** The jobs are the jobs of the link map's IDs. */
  lemma JobsCover(net: Network)
    requires Placed(net.nodes, net.arena, net.links)
    ensures forall id | id in net.links :: JobOf(net, id) in Jobs(net)
    ensures forall job | job in Jobs(net) :: exists id | id in net.links :: job == JobOf(net, id)
  {
    var ids, jobs := Ascending(net.links.Keys), Jobs(net);
    forall id | id in net.links
      ensures JobOf(net, id) in jobs
    {
      var k :| 0 <= k < |ids| && ids[k] == id;
      assert jobs[k] == JobOf(net, id);
    }
  }

  /** When every link is reachable, so is every job. */
  lemma JobsReachable(g: Grid, net: Network)
    requires Placed(net.nodes, net.arena, net.links) && LinksReachable(g, net)
    ensures Reachable(g, Jobs(net))
  {
    JobsCover(net);
  }

  /** `assignLinksToGrid`. */
  function AssignLinksToGrid(net: Network, g: Grid): (r: Grid)
    requires Laid(g) && Placed(net.nodes, net.arena, net.links) && LinksReachable(g, net)
    ensures SameFrame(g, r)
  {
    JobsReachable(g, net);
    Assign(g, Jobs(net))
  }

  /** On a laid-out grid without links, `assignLinksToGrid` puts a link object in the
      cell at spot `t` exactly when it is the link of some ID of the link map whose
      targets hold `t`. */
  lemma AssignLinksToGridMembership(net: Network, g: Grid, t: (int, int), h: LinkRef)
    requires Laid(g) && Empty(g) && Placed(net.nodes, net.arena, net.links) && LinksReachable(g, net)
    requires OnGrid(g, t)
    ensures h in AssignLinksToGrid(net, g).cells[t.0][t.1].links <==>
      exists id | id in net.links :: net.links[id] == h && t in Targets(g, JobOf(net, id).s, JobOf(net, id).e)
  {
    var jobs := Jobs(net);
    JobsReachable(g, net);
    AssignMembership(g, jobs, t, h);
    JobsCover(net);
  }

  /** The grid `build` makes over the network's nodes is laid out, holds no links, and
      finds a cell for both nodes of every link. */
  lemma BuiltReachable(net: Network, dimension: real)
    requires |net.nodes| > 0 && dimension > 0.0 && Placed(net.nodes, net.arena, net.links)
    ensures var g := Grids.Built(net.nodes, dimension);
      Laid(g) && Empty(g) && LinksReachable(g, net)
  {
    BuiltFromBox(net.nodes, dimension);
    FramedLaid(NodeBox(net.nodes), dimension);
    forall id | id in net.links
      ensures var g := Grids.Built(net.nodes, dimension);
        Locates(g, JobOf(net, id).s) && Locates(g, JobOf(net, id).e)
    {
      var h := net.links[id];
      NodesFound(net.nodes, dimension, net.arena[h].start);
      NodesFound(net.nodes, dimension, net.arena[h].end);
    }
  }
}

/**
 * The loop of `assignLinksToGrid` over the link map: for each link, in ascending ID
 * order, `addLink` on each spot of its targets. Adding links changes no cell's ID,
 * indices or corners, so the targets of a link do not depend on the links assigned
 * before it; a cell ends up holding its old links followed by each link once per
 * occurrence of the cell among that link's targets.
 */
module GridAssign {
  import opened GeoPosition
  import opened Links
  import opened Nodes
  import opened Cells
  import opened Grids
  import opened GridLines
  import opened GridLinks

  /** Two grids that differ at most in the links their cells hold. */
  predicate SameFrame(g: Grid, g': Grid)
  {
    && g' == g.(cells := g'.cells)
    && |g'.cells| == |g.cells|
    && (forall i | 0 <= i < |g.cells| :: |g'.cells[i]| == |g.cells[i]|)
    && (forall i, j | 0 <= i < |g.cells| && 0 <= j < |g.cells[i]| ::
          g'.cells[i][j] == g.cells[i][j].(links := g'.cells[i][j].links))
  }

  /** `n` copies of link `h`. */
  function Copies(h: LinkRef, n: nat): (hs: seq<LinkRef>)
    ensures |hs| == n && forall k | 0 <= k < n :: hs[k] == h
    ensures forall x :: x in hs <==> n > 0 && x == h
  {
    var hs := seq(n, _ => h);
    assert n > 0 ==> hs[0] == h;
    hs
  }

  /** Copies add up. */
  lemma CopiesAdd(h: LinkRef, m: nat, n: nat)
    ensures Copies(h, m) + Copies(h, n) == Copies(h, m + n)
  {
  }

  /** Spot `t` indexes the cell vectors of `g`. */
  predicate OnGrid(g: Grid, t: (int, int))
  {
    0 <= t.0 < |g.cells| && 0 <= t.1 < |g.cells[t.0]|
  }

  /** `cells[i][j]->addLink(h)`: the cell at `t` gets `h` appended and no other cell
      changes. */
  function AddAt(g: Grid, t: (int, int), h: LinkRef): (r: Grid)
    requires OnGrid(g, t)
    ensures SameFrame(g, r)
    ensures forall t' :: OnGrid(r, t') <==> OnGrid(g, t')
    ensures r.cells[t.0][t.1].links == g.cells[t.0][t.1].links + [h]
    ensures forall i, j | 0 <= i < |g.cells| && 0 <= j < |g.cells[i]| && (i, j) != t :: r.cells[i][j] == g.cells[i][j]
  {
    g.(cells := g.cells[t.0 := g.cells[t.0][t.1 := AddLink(g.cells[t.0][t.1], h)]])
  }

  /** `addLink(h)` on each spot of `ts` in turn. */
  function Apply(g: Grid, ts: seq<(int, int)>, h: LinkRef): (r: Grid)
    requires forall t | t in ts :: OnGrid(g, t)
    ensures SameFrame(g, r)
    ensures forall t' :: OnGrid(r, t') <==> OnGrid(g, t')
    decreases |ts|
  {
    if ts == [] then g
    else
      var g' := AddAt(g, ts[0], h);
      var r := Apply(g', ts[1..], h);
      SameFrameTrans(g, g', r);
      r
  }

  /** Frames compose. */
  lemma SameFrameTrans(g: Grid, g': Grid, g'': Grid)
    requires SameFrame(g, g') && SameFrame(g', g'')
    ensures SameFrame(g, g'')
  {
  }

  /** After `Apply`, each cell holds its old links followed by one copy of `h` for each
      time its spot occurs in `ts`. */
  lemma {:induction false} ApplyLinks(g: Grid, ts: seq<(int, int)>, h: LinkRef)
    requires forall t | t in ts :: OnGrid(g, t)
    ensures forall i, j | 0 <= i < |g.cells| && 0 <= j < |g.cells[i]| ::
      Apply(g, ts, h).cells[i][j].links == g.cells[i][j].links + Copies(h, multiset(ts)[(i, j)])
    decreases |ts|
  {
    if ts != [] {
      var g' := AddAt(g, ts[0], h);
      ApplyLinks(g', ts[1..], h);
      assert ts == [ts[0]] + ts[1..];
      forall i, j | 0 <= i < |g.cells| && 0 <= j < |g.cells[i]|
        ensures Apply(g, ts, h).cells[i][j].links == g.cells[i][j].links + Copies(h, multiset(ts)[(i, j)])
      {
        var n := multiset(ts[1..])[(i, j)];
        if (i, j) == ts[0] {
          CopiesAdd(h, 1, n);
          assert multiset(ts)[(i, j)] == 1 + n;
        } else {
          assert multiset(ts)[(i, j)] == n;
        }
      }
    }
  }

  /** A frame keeps the layout. */
  lemma SameFrameLaid(g: Grid, g': Grid)
    requires SameFrame(g, g') && Laid(g)
    ensures Laid(g')
  {
    forall i, j | 0 <= i < g'.numY && 0 <= j < g'.numX
      ensures g'.cells[i][j].(links := []) == MakeCell(i, j, g'.numX, g'.minLat, g'.minLon, g'.dimension)
    {
      assert g'.cells[i][j].(links := []) == g.cells[i][j].(links := []);
    }
  }

  /** A frame keeps what the lookup finds, up to the cell's links. */
  lemma SameFrameLocates(g: Grid, g': Grid, p: GeoPos)
    requires SameFrame(g, g') && Laid(g') && Locates(g, p)
    ensures Locates(g', p) && SpotOf(g', p) == SpotOf(g, p)
  {
    assert g'.minLat == g.minLat && g'.minLon == g.minLon && g'.dimension == g.dimension;
    assert g'.numX == g.numX && g'.numY == g.numY;
  }

  /** A frame keeps the targets of every link. */
  lemma SameFrameTargets(g: Grid, g': Grid, s: GeoPos, e: GeoPos)
    requires SameFrame(g, g') && Locates(g, s) && Locates(g, e)
    ensures Locates(g', s) && Locates(g', e)
    ensures Targets(g', s, e) == Targets(g, s, e)
  {
    SameFrameLaid(g, g');
    SameFrameLocates(g, g', s);
    SameFrameLocates(g, g', e);
    var ps, pe := SpotOf(g, s), SpotOf(g, e);
    if ps.0 != pe.0 && ps.1 != pe.1 {
      SameFrameDiagonal(g, g', s, e);
    } else {
      SameFrameStraight(g, g', s, e);
    }
  }

  /** A frame keeps the targets of a link within one row or one column. */
  lemma SameFrameStraight(g: Grid, g': Grid, s: GeoPos, e: GeoPos)
    requires SameFrame(g, g') && Locates(g, s) && Locates(g, e) && Locates(g', s) && Locates(g', e)
    requires SpotOf(g', s) == SpotOf(g, s) && SpotOf(g', e) == SpotOf(g, e)
    requires SpotOf(g, s).0 == SpotOf(g, e).0 || SpotOf(g, s).1 == SpotOf(g, e).1
    ensures Targets(g', s, e) == Targets(g, s, e)
  {
    SameFrameCell(g, g', SpotOf(g, s));
    SameFrameCell(g, g', SpotOf(g, e));
  }

  /** A frame keeps the targets of a link between cells of different rows and
      columns. */
  lemma SameFrameDiagonal(g: Grid, g': Grid, s: GeoPos, e: GeoPos)
    requires SameFrame(g, g') && Locates(g, s) && Locates(g, e) && Locates(g', s) && Locates(g', e)
    requires SpotOf(g', s) == SpotOf(g, s) && SpotOf(g', e) == SpotOf(g, e)
    requires SpotOf(g, s).0 != SpotOf(g, e).0 && SpotOf(g, s).1 != SpotOf(g, e).1
    ensures Targets(g', s, e) == Targets(g, s, e)
  {
    var ps, pe := SpotOf(g, s), SpotOf(g, e);
    SameFrameCell(g, g', ps);
    SameFrameCell(g, g', pe);
    LineThrough(s, e);
    LaidCornered(g);
    LaidCornered(g');
    SameFrameSweep(g, g', Slope(s, e), Intercept(s, e), g.cells[ps.0][ps.1].id, g.cells[pe.0][pe.1].id,
                   IMin(ps.1, pe.1), IMax(ps.1, pe.1), IMin(ps.0, pe.0), IMax(ps.0, pe.0));
  }

  /** A frame keeps each cell's ID, indices and corners. */
  lemma SameFrameCell(g: Grid, g': Grid, t: (int, int))
    requires SameFrame(g, g') && OnGrid(g, t)
    ensures OnGrid(g', t)
    ensures var c, c' := g.cells[t.0][t.1], g'.cells[t.0][t.1];
      c'.id == c.id && c'.indexX == c.indexX && c'.indexY == c.indexY
      && c'.downLeft == c.downLeft && c'.upRight == c.upRight
  {
    assert g'.cells[t.0][t.1] == g.cells[t.0][t.1].(links := g'.cells[t.0][t.1].links);
  }

  /** A frame keeps the sweep of the diagonal case. */
  lemma {:induction false} SameFrameSweep(g: Grid, g': Grid, la: real, lb: real, sid: int, eid: int,
                                          j: int, maxX: int, minY: int, maxY: int)
    requires SameFrame(g, g') && Cornered(g) && Cornered(g') && la != 0.0
    requires 0 <= j && maxX < g.numX && 0 <= minY && maxY < g.numY
    ensures Sweep(g', la, lb, sid, eid, j, maxX, minY, maxY) == Sweep(g, la, lb, sid, eid, j, maxX, minY, maxY)
    decreases maxX - j
  {
    if j <= maxX {
      SameFrameColumn(g, g', la, lb, sid, eid, j, minY, maxY);
      SameFrameSweep(g, g', la, lb, sid, eid, j + 1, maxX, minY, maxY);
    }
  }

  /** A frame keeps the sweep of one column. */
  lemma {:induction false} SameFrameColumn(g: Grid, g': Grid, la: real, lb: real, sid: int, eid: int,
                                           j: int, i: int, maxY: int)
    requires SameFrame(g, g') && Cornered(g) && Cornered(g') && la != 0.0
    requires 0 <= j < g.numX && 0 <= i && maxY < g.numY
    ensures SweepColumn(g', la, lb, sid, eid, j, i, maxY) == SweepColumn(g, la, lb, sid, eid, j, i, maxY)
    decreases maxY - i
  {
    if i <= maxY {
      assert g'.cells[i][j] == g.cells[i][j].(links := g'.cells[i][j].links);
      assert Picked(g', la, lb, sid, eid, (i, j)) == Picked(g, la, lb, sid, eid, (i, j));
      SameFrameColumn(g, g', la, lb, sid, eid, j, i + 1, maxY);
    }
  }

  /** `Apply` for each link of `hs` in turn, with the targets of the `k`-th link given
      as `tss[k]`. */
  function ApplyAll(g: Grid, hs: seq<LinkRef>, tss: seq<seq<(int, int)>>): (r: Grid)
    requires |hs| == |tss| && forall k, t | 0 <= k < |tss| && t in tss[k] :: OnGrid(g, t)
    ensures SameFrame(g, r)
    ensures forall t' :: OnGrid(r, t') <==> OnGrid(g, t')
    decreases |hs|
  {
    if hs == [] then g
    else
      var g' := Apply(g, tss[0], hs[0]);
      assert forall k, t | 0 <= k < |tss[1..]| && t in tss[1..][k] :: t in tss[k + 1];
      var r := ApplyAll(g', hs[1..], tss[1..]);
      SameFrameTrans(g, g', r);
      r
  }

  /** The links the loop adds to the cell at spot `t`, link by link: `n` copies of the
      `k`-th link when `t` occurs `n` times in `tss[k]`. */
  function Spread(hs: seq<LinkRef>, tss: seq<seq<(int, int)>>, t: (int, int)): (r: seq<LinkRef>)
    requires |hs| == |tss|
    ensures forall h | h in r :: h in hs
    decreases |hs|
  {
    if hs == [] then []
    else Copies(hs[0], multiset(tss[0])[t]) + Spread(hs[1..], tss[1..], t)
  }

  /** After the loop, each cell holds its old links followed by what the loop adds to
      it. */
  lemma {:induction false} ApplyAllLinks(g: Grid, hs: seq<LinkRef>, tss: seq<seq<(int, int)>>)
    requires |hs| == |tss| && forall k, t | 0 <= k < |tss| && t in tss[k] :: OnGrid(g, t)
    ensures forall i, j | 0 <= i < |g.cells| && 0 <= j < |g.cells[i]| ::
      ApplyAll(g, hs, tss).cells[i][j].links == g.cells[i][j].links + Spread(hs, tss, (i, j))
    decreases |hs|
  {
    if hs != [] {
      var g' := Apply(g, tss[0], hs[0]);
      ApplyLinks(g, tss[0], hs[0]);
      assert forall k, t | 0 <= k < |tss[1..]| && t in tss[1..][k] :: t in tss[k + 1];
      ApplyAllLinks(g', hs[1..], tss[1..]);
    }
  }

  /** A link is among what the loop adds to spot `t` exactly when it is the `k`-th link
      for some `k` whose targets hold `t`. */
  lemma {:induction false} SpreadHas(hs: seq<LinkRef>, tss: seq<seq<(int, int)>>, t: (int, int), h: LinkRef)
    requires |hs| == |tss|
    ensures h in Spread(hs, tss, t) <==> exists k | 0 <= k < |hs| :: hs[k] == h && t in tss[k]
    decreases |hs|
  {
    if hs != [] {
      SpreadHas(hs[1..], tss[1..], t, h);
      assert h in Copies(hs[0], multiset(tss[0])[t]) <==> hs[0] == h && t in tss[0];
      if exists k | 0 <= k < |hs| :: hs[k] == h && t in tss[k] {
        var k :| 0 <= k < |hs| && hs[k] == h && t in tss[k];
        if k > 0 {
          assert hs[1..][k - 1] == h && tss[1..][k - 1] == tss[k];
        }
      }
      if exists k | 0 <= k < |hs| - 1 :: hs[1..][k] == h && t in tss[1..][k] {
        var k :| 0 <= k < |hs| - 1 && hs[1..][k] == h && t in tss[1..][k];
        assert hs[k + 1] == h && tss[k + 1] == tss[1..][k];
      }
    }
  }

  /** One link to assign: its object and the positions of its start and end nodes. */
  datatype Job = Job(h: LinkRef, s: GeoPos, e: GeoPos)

  /** The lookup finds a cell for both end points of every job. */
  predicate Reachable(g: Grid, jobs: seq<Job>)
  {
    forall job | job in jobs :: Locates(g, job.s) && Locates(g, job.e)
  }

  /** A frame keeps every job reachable. */
  lemma SameFrameReachable(g: Grid, g': Grid, jobs: seq<Job>)
    requires SameFrame(g, g') && Laid(g) && Reachable(g, jobs)
    ensures Laid(g') && Reachable(g', jobs)
  {
    SameFrameLaid(g, g');
    forall job | job in jobs
      ensures Locates(g', job.s) && Locates(g', job.e)
    {
      SameFrameLocates(g, g', job.s);
      SameFrameLocates(g, g', job.e);
    }
  }

  /** The body of the loop of `assignLinksToGrid` for each job in turn, each reading the
      targets of its link on the grid the previous jobs left. */
  function Assign(g: Grid, jobs: seq<Job>): (r: Grid)
    requires Laid(g) && Reachable(g, jobs)
    ensures SameFrame(g, r)
    decreases |jobs|
  {
    if jobs == [] then g
    else
      var job := jobs[0];
      var g' := Apply(g, Targets(g, job.s, job.e), job.h);
      SameFrameReachable(g, g', jobs);
      var r := Assign(g', jobs[1..]);
      SameFrameTrans(g, g', r);
      r
  }

  /** The links of the jobs. */
  function LinksOf(jobs: seq<Job>): (hs: seq<LinkRef>)
    ensures |hs| == |jobs| && forall k | 0 <= k < |jobs| :: hs[k] == jobs[k].h
  {
    seq(|jobs|, k requires 0 <= k < |jobs| => jobs[k].h)
  }

  /** The targets of the jobs' links, all read on grid `g`. */
  function Plan(g: Grid, jobs: seq<Job>): (tss: seq<seq<(int, int)>>)
    requires Laid(g) && Reachable(g, jobs)
    ensures |tss| == |jobs|
    ensures forall k | 0 <= k < |jobs| :: tss[k] == Targets(g, jobs[k].s, jobs[k].e)
    ensures forall k, t | 0 <= k < |tss| && t in tss[k] :: OnGrid(g, t)
  {
    seq(|jobs|, k requires 0 <= k < |jobs| => Targets(g, jobs[k].s, jobs[k].e))
  }

  /** Reading each link's targets on the grid the earlier links left gives what reading
      them all on the starting grid gives: assigning is `ApplyAll` of the plan. */
  lemma {:induction false} AssignIsApplyAll(g: Grid, jobs: seq<Job>)
    requires Laid(g) && Reachable(g, jobs)
    ensures Assign(g, jobs) == ApplyAll(g, LinksOf(jobs), Plan(g, jobs))
    decreases |jobs|
  {
    if jobs != [] {
      var job := jobs[0];
      var g' := Apply(g, Targets(g, job.s, job.e), job.h);
      SameFrameReachable(g, g', jobs);
      AssignIsApplyAll(g', jobs[1..]);
      PlanTail(g, jobs);
      PlanFrame(g, g', jobs[1..]);
      LinksOfTail(jobs);
    }
  }

  /** The links of the later jobs are the rest of the links. */
  lemma LinksOfTail(jobs: seq<Job>)
    requires jobs != []
    ensures LinksOf(jobs)[0] == jobs[0].h && LinksOf(jobs)[1..] == LinksOf(jobs[1..])
  {
    assert forall k | 0 <= k < |jobs| - 1 :: LinksOf(jobs)[1..][k] == jobs[k + 1].h;
  }

  /** The plan of the later jobs is the rest of the plan. */
  lemma PlanTail(g: Grid, jobs: seq<Job>)
    requires Laid(g) && Reachable(g, jobs) && jobs != []
    ensures Reachable(g, jobs[1..])
    ensures Plan(g, jobs)[0] == Targets(g, jobs[0].s, jobs[0].e)
    ensures Plan(g, jobs)[1..] == Plan(g, jobs[1..])
  {
    assert forall k | 0 <= k < |jobs| - 1 :: jobs[1..][k] == jobs[k + 1];
  }

  /** A frame keeps the plan. */
  lemma PlanFrame(g: Grid, g': Grid, jobs: seq<Job>)
    requires SameFrame(g, g') && Laid(g) && Reachable(g, jobs)
    ensures Laid(g') && Reachable(g', jobs)
    ensures Plan(g', jobs) == Plan(g, jobs)
  {
    SameFrameReachable(g, g', jobs);
    forall k | 0 <= k < |jobs|
      ensures Plan(g', jobs)[k] == Plan(g, jobs)[k]
    {
      SameFrameTargets(g, g', jobs[k].s, jobs[k].e);
    }
  }

  /** Assigning the jobs to a laid-out grid without links: a cell holds a link exactly
      when some job of that link has the cell's spot among its targets. */
  lemma AssignMembership(g: Grid, jobs: seq<Job>, t: (int, int), h: LinkRef)
    requires Laid(g) && Empty(g) && Reachable(g, jobs) && OnGrid(g, t)
    ensures h in Assign(g, jobs).cells[t.0][t.1].links <==>
      exists job | job in jobs :: job.h == h && t in Targets(g, job.s, job.e)
  {
    AssignSpread(g, jobs, t);
    PlanHas(g, jobs, t, h);
  }

  /** Assigning the jobs to a grid whose cell at `t` holds no links leaves there what
      the plan spreads to `t`. */
  lemma AssignSpread(g: Grid, jobs: seq<Job>, t: (int, int))
    requires Laid(g) && Reachable(g, jobs) && OnGrid(g, t) && g.cells[t.0][t.1].links == []
    ensures Assign(g, jobs).cells[t.0][t.1].links == Spread(LinksOf(jobs), Plan(g, jobs), t)
  {
    AssignIsApplyAll(g, jobs);
    ApplyAllEmptyAt(g, LinksOf(jobs), Plan(g, jobs), t);
  }

  /** `ApplyAllLinks` at one spot that holds no links. */
  lemma ApplyAllEmptyAt(g: Grid, hs: seq<LinkRef>, tss: seq<seq<(int, int)>>, t: (int, int))
    requires |hs| == |tss| && forall k, t' | 0 <= k < |tss| && t' in tss[k] :: OnGrid(g, t')
    requires OnGrid(g, t) && g.cells[t.0][t.1].links == []
    ensures OnGrid(ApplyAll(g, hs, tss), t)
    ensures ApplyAll(g, hs, tss).cells[t.0][t.1].links == Spread(hs, tss, t)
  {
    ApplyAllLinks(g, hs, tss);
    assert g.cells[t.0][t.1].links + Spread(hs, tss, t) == Spread(hs, tss, t);
  }

  /** The plan spreads a link to `t` exactly when some job of that link has `t` among
      its targets. */
  lemma PlanHas(g: Grid, jobs: seq<Job>, t: (int, int), h: LinkRef)
    requires Laid(g) && Reachable(g, jobs)
    ensures h in Spread(LinksOf(jobs), Plan(g, jobs), t) <==>
      exists job | job in jobs :: job.h == h && t in Targets(g, job.s, job.e)
  {
    SpreadHas(LinksOf(jobs), Plan(g, jobs), t, h);
    if exists job | job in jobs :: job.h == h && t in Targets(g, job.s, job.e) {
      var job :| job in jobs && job.h == h && t in Targets(g, job.s, job.e);
      PlanJob(g, jobs, job);
    }
  }

  /** Each job has its targets in the plan, at one of its positions. */
  lemma PlanJob(g: Grid, jobs: seq<Job>, job: Job)
    requires Laid(g) && Reachable(g, jobs) && job in jobs
    ensures Locates(g, job.s) && Locates(g, job.e)
    ensures exists k | 0 <= k < |jobs| :: LinksOf(jobs)[k] == job.h && Plan(g, jobs)[k] == Targets(g, job.s, job.e)
  {
    var k :| 0 <= k < |jobs| && jobs[k] == job;
    assert LinksOf(jobs)[k] == job.h;
  }
}

/**
 * `assignLinksToGrid`: each link is added to the cells it may pass through. The cells
 * of its start and end nodes always get it; a link between two cells of one column or
 * one row also goes to every cell of that column or row in between, both end cells
 * included again; and a link between cells of different rows and columns also goes to
 * each other cell of the rectangle the two cells span whose sides the link's line
 * crosses. A spot is a pair (row, column) of the cell vectors.
 */
module GridLinks {
  import opened Wrappers
  import opened GeoPosition
  import opened Links
  import opened Cells
  import opened GridArith
  import opened Grids
  import opened GridLines

  /** `std::min` and `std::max` on cell indices. */
  function IMin(a: int, b: int): int { if b < a then b else a }
  function IMax(a: int, b: int): int { if a < b then b else a }

  /** The original lookup finds a cell for `p` on a laid-out grid. */
  predicate Locates(g: Grid, p: GeoPos)
  {
    Laid(g) && ContainingAsWritten(g, p.lat, p.lon).Found?
  }

  /** The spot of the cell the original lookup finds for `p`. */
  function SpotOf(g: Grid, p: GeoPos): (t: (int, int))
    requires Locates(g, p)
    ensures 0 <= t.0 < g.numY && 0 <= t.1 < g.numX
    ensures ContainingAsWritten(g, p.lat, p.lon).cell == g.cells[t.0][t.1]
    ensures g.cells[t.0][t.1].indexY == t.0 && g.cells[t.0][t.1].indexX == t.1
  {
    var t := (RowOf(g, p.lat), ColumnOf(g, p.lon));
    CellLayout(t.0, t.1, g.numX, g.minLat, g.minLon, g.dimension);
    t
  }

  /** The side tests of one cell against the line `y = la * x + lb`. */
  predicate CellCrossed(c: Cell, la: real, lb: real)
    requires c.downLeft.Some? && c.upRight.Some? && la != 0.0
  {
    Crosses(c.downLeft.value.lon, c.upRight.value.lon, c.downLeft.value.lat, c.upRight.value.lat, la, lb)
  }

  /** Every cell of the grid has both corners set. */
  predicate Cornered(g: Grid)
  {
    && Shaped(g)
    && forall i, j | 0 <= i < g.numY && 0 <= j < g.numX ::
         g.cells[i][j].downLeft.Some? && g.cells[i][j].upRight.Some?
  }

  /** `build` sets both corners of every cell. */
  lemma LaidCornered(g: Grid)
    requires Laid(g)
    ensures Cornered(g)
  {
    forall i, j | 0 <= i < g.numY && 0 <= j < g.numX
      ensures g.cells[i][j].downLeft.Some? && g.cells[i][j].upRight.Some?
    {
      var c := g.cells[i][j];
      CellLayout(i, j, g.numX, g.minLat, g.minLon, g.dimension);
      assert c.downLeft == c.(links := []).downLeft && c.upRight == c.(links := []).upRight;
    }
  }

  /** The cell at spot `t` is neither end cell and the line crosses its sides. */
  predicate Picked(g: Grid, la: real, lb: real, sid: int, eid: int, t: (int, int))
    requires Cornered(g) && la != 0.0 && 0 <= t.0 < g.numY && 0 <= t.1 < g.numX
  {
    var c := g.cells[t.0][t.1];
    c.id != sid && c.id != eid && CellCrossed(c, la, lb)
  }

  /** The inner loop of the diagonal case: rows `i` to `maxY` of column `j`. */
  function SweepColumn(g: Grid, la: real, lb: real, sid: int, eid: int, j: int, i: int, maxY: int): (ts: seq<(int, int)>)
    requires Cornered(g) && la != 0.0 && 0 <= j < g.numX && 0 <= i && maxY < g.numY
    ensures forall t | t in ts :: 0 <= t.0 < g.numY && 0 <= t.1 < g.numX
    ensures forall t :: t in ts <==>
      (t.1 == j && i <= t.0 <= maxY && 0 <= t.0 < g.numY && 0 <= t.1 < g.numX && Picked(g, la, lb, sid, eid, t))
    ensures forall a, b | 0 <= a < b < |ts| :: ts[a].0 < ts[b].0
    decreases maxY - i
  {
    if i > maxY then []
    else
      var rest := SweepColumn(g, la, lb, sid, eid, j, i + 1, maxY);
      if Picked(g, la, lb, sid, eid, (i, j)) then [(i, j)] + rest else rest
  }

  /** The outer loop of the diagonal case: columns `j` to `maxX`, each from row `minY`
      to `maxY`. */
  function Sweep(g: Grid, la: real, lb: real, sid: int, eid: int, j: int, maxX: int, minY: int, maxY: int): (ts: seq<(int, int)>)
    requires Cornered(g) && la != 0.0 && 0 <= j && maxX < g.numX && 0 <= minY && maxY < g.numY
    ensures forall t | t in ts :: 0 <= t.0 < g.numY && 0 <= t.1 < g.numX
    ensures forall t :: t in ts <==>
      (j <= t.1 <= maxX && minY <= t.0 <= maxY && 0 <= t.0 < g.numY && 0 <= t.1 < g.numX && Picked(g, la, lb, sid, eid, t))
    ensures forall a, b | 0 <= a < b < |ts| :: ts[a].1 < ts[b].1 || (ts[a].1 == ts[b].1 && ts[a].0 < ts[b].0)
    decreases maxX - j
  {
    if j > maxX then []
    else SweepColumn(g, la, lb, sid, eid, j, minY, maxY) + Sweep(g, la, lb, sid, eid, j + 1, maxX, minY, maxY)
  }

  /** The spots one link is added to, in the order of its `addLink` calls, given the
      positions of its start and end nodes. */
  function Targets(g: Grid, s: GeoPos, e: GeoPos): (ts: seq<(int, int)>)
    requires Locates(g, s) && Locates(g, e)
    ensures |ts| >= 1 && ts[0] == SpotOf(g, s)
    ensures forall t | t in ts :: 0 <= t.0 < g.numY && 0 <= t.1 < g.numX
  {
    var ps, pe := SpotOf(g, s), SpotOf(g, e);
    var sc, ec := g.cells[ps.0][ps.1], g.cells[pe.0][pe.1];
    if sc.id == ec.id then [ps]
    else
      var minX, maxX := IMin(sc.indexX, ec.indexX), IMax(sc.indexX, ec.indexX);
      var minY, maxY := IMin(sc.indexY, ec.indexY), IMax(sc.indexY, ec.indexY);
      [ps, pe] +
      if sc.indexX == ec.indexX then ColumnRun(minY, maxY, minX)
      else if sc.indexY == ec.indexY then RowRun(minY, minX, maxX)
      else
        LineThrough(s, e);
        LaidCornered(g);
        Sweep(g, Slope(s, e), Intercept(s, e), sc.id, ec.id, minX, maxX, minY, maxY)
  }

  /** `for (int i = lo; i <= hi; i++)` over the rows of column `x`. */
  function ColumnRun(lo: int, hi: int, x: int): (ts: seq<(int, int)>)
    ensures forall t :: t in ts <==> t.1 == x && lo <= t.0 <= hi
    ensures forall a, b | 0 <= a < b < |ts| :: ts[a].0 < ts[b].0
  {
    var ts := seq(Rounds(hi - lo + 1), k => (lo + k, x));
    assert forall t: (int, int) | t.1 == x && lo <= t.0 <= hi :: ts[t.0 - lo] == t;
    ts
  }

  /** `for (int j = lo; j <= hi; j++)` over the columns of row `y`. */
  function RowRun(y: int, lo: int, hi: int): (ts: seq<(int, int)>)
    ensures forall t :: t in ts <==> t.0 == y && lo <= t.1 <= hi
    ensures forall a, b | 0 <= a < b < |ts| :: ts[a].1 < ts[b].1
  {
    var ts := seq(Rounds(hi - lo + 1), k => (y, lo + k));
    assert forall t: (int, int) | t.0 == y && lo <= t.1 <= hi :: ts[t.1 - lo] == t;
    ts
  }

  /** Two spots found by the lookup are the same exactly when their cells have the same
      ID. */
  lemma SpotsById(g: Grid, s: GeoPos, e: GeoPos)
    requires Locates(g, s) && Locates(g, e)
    ensures var ps, pe := SpotOf(g, s), SpotOf(g, e);
      ps == pe <==> g.cells[ps.0][ps.1].id == g.cells[pe.0][pe.1].id
  {
    LaidCornered(g);
    LaidIdsDistinct(g);
  }

  /** A sequence without repeats holds each of its elements once. */
  lemma {:induction false} DistinctCount<T>(s: seq<T>, x: T)
    requires forall a, b | 0 <= a < b < |s| :: s[a] != s[b]
    ensures multiset(s)[x] == if x in s then 1 else 0
    decreases |s|
  {
    if |s| > 0 {
      assert s == [s[0]] + s[1..];
      assert forall a, b | 0 <= a < b < |s[1..]| :: s[1..][a] == s[a + 1] && s[1..][b] == s[b + 1];
      DistinctCount(s[1..], x);
      if x == s[0] {
        assert x !in s[1..];
      }
    }
  }

  /** A link that starts and ends in one cell is added to that cell once. */
  lemma TargetsSameCell(g: Grid, s: GeoPos, e: GeoPos)
    requires Locates(g, s) && Locates(g, e) && SpotOf(g, s) == SpotOf(g, e)
    ensures Targets(g, s, e) == [SpotOf(g, s)]
  {
  }

  /** A link between two cells of one column goes to every cell of the column from the
      one to the other, and twice to the two end cells. */
  lemma TargetsColumn(g: Grid, s: GeoPos, e: GeoPos)
    requires Locates(g, s) && Locates(g, e)
    requires SpotOf(g, s) != SpotOf(g, e) && SpotOf(g, s).1 == SpotOf(g, e).1
    ensures var ps, pe, ts := SpotOf(g, s), SpotOf(g, e), Targets(g, s, e);
      && (forall t :: t in ts <==> t.1 == ps.1 && IMin(ps.0, pe.0) <= t.0 <= IMax(ps.0, pe.0))
      && multiset(ts)[ps] == 2 && multiset(ts)[pe] == 2
      && (forall t | t in ts && t != ps && t != pe :: multiset(ts)[t] == 1)
  {
    var ps, pe := SpotOf(g, s), SpotOf(g, e);
    var run := ColumnRun(IMin(ps.0, pe.0), IMax(ps.0, pe.0), ps.1);
    assert Targets(g, s, e) == [ps, pe] + run by {
      SpotsById(g, s, e);
    }
    StraightCounts(ps, pe, run, Targets(g, s, e));
  }

  /** A link between two cells of one row goes to every cell of the row from the one to
      the other, and twice to the two end cells. */
  lemma TargetsRow(g: Grid, s: GeoPos, e: GeoPos)
    requires Locates(g, s) && Locates(g, e)
    requires SpotOf(g, s).0 == SpotOf(g, e).0 && SpotOf(g, s).1 != SpotOf(g, e).1
    ensures var ps, pe, ts := SpotOf(g, s), SpotOf(g, e), Targets(g, s, e);
      && (forall t :: t in ts <==> t.0 == ps.0 && IMin(ps.1, pe.1) <= t.1 <= IMax(ps.1, pe.1))
      && multiset(ts)[ps] == 2 && multiset(ts)[pe] == 2
      && (forall t | t in ts && t != ps && t != pe :: multiset(ts)[t] == 1)
  {
    var ps, pe := SpotOf(g, s), SpotOf(g, e);
    var run := RowRun(ps.0, IMin(ps.1, pe.1), IMax(ps.1, pe.1));
    assert Targets(g, s, e) == [ps, pe] + run by {
      SpotsById(g, s, e);
    }
    StraightCounts(ps, pe, run, Targets(g, s, e));
  }

  /** The two end spots followed by a run without repeats that holds them: the run's
      spots are all there is, the end spots occur twice and the others once. */
  lemma StraightCounts(ps: (int, int), pe: (int, int), run: seq<(int, int)>, ts: seq<(int, int)>)
    requires ps != pe && ps in run && pe in run
    requires forall a, b | 0 <= a < b < |run| :: run[a] != run[b]
    requires ts == [ps, pe] + run
    ensures forall t :: t in ts <==> t in run
    ensures multiset(ts)[ps] == 2 && multiset(ts)[pe] == 2
    ensures forall t | t in ts && t != ps && t != pe :: multiset(ts)[t] == 1
  {
    forall t
      ensures multiset(ts)[t] == multiset([ps, pe])[t] + (if t in run then 1 else 0)
    {
      DistinctCount(run, t);
    }
  }

  /** The line `y = la * x + lb` meets the closed rectangle of the cell at spot `t` of a
      laid-out grid. */
  ghost predicate LineMeets(g: Grid, la: real, lb: real, t: (int, int))
  {
    CellMeets(t.0, t.1, g.minLat, g.minLon, g.dimension, la, lb)
  }

  /** The line meets the closed square of side `d` whose down-left corner is that of
      row `i` and column `j` of a grid with origin `(minLat, minLon)` and cell size
      `d`. */
  ghost predicate CellMeets(i: int, j: int, minLat: real, minLon: real, d: real, la: real, lb: real)
  {
    var y, x := minLat + i as real * d, minLon + j as real * d;
    Meets(x, x + d, y, y + d, la, lb)
  }

  /** The side tests of a cell decide whether the line meets the cell. */
  lemma CellCrossedMeaning(g: Grid, la: real, lb: real, t: (int, int))
    requires Laid(g) && la != 0.0 && 0 <= t.0 < g.numY && 0 <= t.1 < g.numX
    ensures var c := g.cells[t.0][t.1];
      c.downLeft.Some? && c.upRight.Some? && (CellCrossed(c, la, lb) <==> LineMeets(g, la, lb, t))
  {
    LaidCellCrossed(g.cells[t.0][t.1], t.0, t.1, g.numX, g.minLat, g.minLon, g.dimension, la, lb);
  }

  /** The same, for a cell as `build` makes it. */
  lemma LaidCellCrossed(c: Cell, i: int, j: int, numX: int, minLat: real, minLon: real, d: real, la: real, lb: real)
    requires c.(links := []) == MakeCell(i, j, numX, minLat, minLon, d)
    requires d > 0.0 && la != 0.0
    ensures c.downLeft.Some? && c.upRight.Some?
    ensures CellCrossed(c, la, lb) <==> CellMeets(i, j, minLat, minLon, d, la, lb)
  {
    var y, x := minLat + i as real * d, minLon + j as real * d;
    assert c.downLeft == c.(links := []).downLeft == Some(GeoPos(y, x));
    assert c.upRight == c.(links := []).upRight == Some(GeoPos(y + d, x + d));
    CornersCrossed(c, x, x + d, y, y + d, la, lb);
  }

  /** The same, for a cell with the given corners. */
  lemma CornersCrossed(c: Cell, x0: real, x1: real, y0: real, y1: real, la: real, lb: real)
    requires c.downLeft == Some(GeoPos(y0, x0)) && c.upRight == Some(GeoPos(y1, x1))
    requires x0 <= x1 && y0 <= y1 && la != 0.0
    ensures CellCrossed(c, la, lb) <==> Meets(x0, x1, y0, y1, la, lb)
  {
    CrossesMeaning(x0, x1, y0, y1, la, lb);
  }

  /** A link between cells of different rows and different columns: its end points
      differ in both coordinates, so the slope of its line is defined and not zero; it
      goes once to each end cell and once to each other cell of the rectangle the two
      span that its line meets, and to no other cell. */
  lemma TargetsDiagonal(g: Grid, s: GeoPos, e: GeoPos)
    requires Locates(g, s) && Locates(g, e)
    requires SpotOf(g, s).0 != SpotOf(g, e).0 && SpotOf(g, s).1 != SpotOf(g, e).1
    ensures s.lon != e.lon && s.lat != e.lat && Slope(s, e) != 0.0
    ensures var ps, pe, ts := SpotOf(g, s), SpotOf(g, e), Targets(g, s, e);
      && (forall t :: t in ts <==>
            || t == ps || t == pe
            || (&& IMin(ps.0, pe.0) <= t.0 <= IMax(ps.0, pe.0) && IMin(ps.1, pe.1) <= t.1 <= IMax(ps.1, pe.1)
                && LineMeets(g, Slope(s, e), Intercept(s, e), t)))
      && (forall t | t in ts :: multiset(ts)[t] == 1)
  {
    var ps, pe := SpotOf(g, s), SpotOf(g, e);
    LineThrough(s, e);
    LaidCornered(g);
    var la, lb := Slope(s, e), Intercept(s, e);
    var sid, eid := g.cells[ps.0][ps.1].id, g.cells[pe.0][pe.1].id;
    var sweep := Sweep(g, la, lb, sid, eid, IMin(ps.1, pe.1), IMax(ps.1, pe.1), IMin(ps.0, pe.0), IMax(ps.0, pe.0));
    assert Targets(g, s, e) == [ps, pe] + sweep by {
      SpotsById(g, s, e);
    }
    SweepMeets(g, la, lb, ps, pe);
    DiagonalCounts(ps, pe, sweep, Targets(g, s, e));
  }

  /** The sweep over the rectangle spanned by spots `ps` and `pe` holds exactly the other
      spots of the rectangle whose cells the line meets. */
  lemma SweepMeets(g: Grid, la: real, lb: real, ps: (int, int), pe: (int, int))
    requires Laid(g) && la != 0.0
    requires 0 <= ps.0 < g.numY && 0 <= ps.1 < g.numX && 0 <= pe.0 < g.numY && 0 <= pe.1 < g.numX
    ensures Cornered(g)
    ensures var sweep := Sweep(g, la, lb, g.cells[ps.0][ps.1].id, g.cells[pe.0][pe.1].id,
                               IMin(ps.1, pe.1), IMax(ps.1, pe.1), IMin(ps.0, pe.0), IMax(ps.0, pe.0));
      && ps !in sweep && pe !in sweep
      && forall t: (int, int) :: t in sweep <==>
           (&& IMin(ps.0, pe.0) <= t.0 <= IMax(ps.0, pe.0) && IMin(ps.1, pe.1) <= t.1 <= IMax(ps.1, pe.1)
            && t != ps && t != pe && LineMeets(g, la, lb, t))
  {
    LaidIdsDistinct(g);
    forall t: (int, int) | IMin(ps.0, pe.0) <= t.0 <= IMax(ps.0, pe.0) && IMin(ps.1, pe.1) <= t.1 <= IMax(ps.1, pe.1)
      ensures 0 <= t.0 < g.numY && 0 <= t.1 < g.numX
      ensures var c := g.cells[t.0][t.1];
        c.downLeft.Some? && c.upRight.Some? && (CellCrossed(c, la, lb) <==> LineMeets(g, la, lb, t))
    {
      CellCrossedMeaning(g, la, lb, t);
    }
  }

  /** The two end spots followed by a sweep without repeats that misses them: every spot
      occurs once. */
  lemma DiagonalCounts(ps: (int, int), pe: (int, int), sweep: seq<(int, int)>, ts: seq<(int, int)>)
    requires ps != pe && ps !in sweep && pe !in sweep
    requires forall a, b | 0 <= a < b < |sweep| :: sweep[a] != sweep[b]
    requires ts == [ps, pe] + sweep
    ensures forall t | t in ts :: multiset(ts)[t] == 1
  {
    forall a, b | 0 <= a < b < |ts|
      ensures ts[a] != ts[b]
    {
      if a >= 2 {
        assert ts[a] == sweep[a - 2] && ts[b] == sweep[b - 2];
      } else if b >= 2 {
        assert ts[b] == sweep[b - 2];
      }
    }
    forall t | t in ts
      ensures multiset(ts)[t] == 1
    {
      DistinctCount(ts, t);
    }
  }
}

/**
 * The grid (`Grid`) of the point-in-cell matching: the nodes' bounding box, padded by
 * 0.001 on every side, cut into square cells of side `dimension`, numbered row by row
 * from the down-left corner; and the lookups of a cell by indices and by position.
 */
module Grids {
  import opened Wrappers
  import opened OrderedKeys
  import opened Folds
  import opened GeoPosition
  import opened Nodes
  import opened Cells
  import opened GridArith
  import NetworkQueries

  datatype Grid = Grid(dimension: real, minLat: real, maxLat: real, minLon: real, maxLon: real,
                       numX: int, numY: int, cells: seq<seq<Cell>>)

  /** The margin `build` adds around the nodes' bounding box. */
  const Padding: real := 0.001

  /** `Grid(dimension, network)`: limits and cell counts -1, no cells. */
  function NewGrid(dimension: real): (g: Grid)
    ensures g.dimension == dimension && g.cells == []
    ensures g.minLat == -1.0 && g.maxLat == -1.0 && g.minLon == -1.0 && g.maxLon == -1.0
    ensures g.numX == -1 && g.numY == -1
  {
    Grid(dimension, -1.0, -1.0, -1.0, -1.0, -1, -1, [])
  }

  /** The cell vectors hold `numY` rows of `numX` cells (none when a count is not
      positive). */
  predicate Shaped(g: Grid)
  {
    |g.cells| == Rounds(g.numY) && forall i | 0 <= i < |g.cells| :: |g.cells[i]| == Rounds(g.numX)
  }

  datatype Box = Box(minLat: real, maxLat: real, minLon: real, maxLon: real)

  /** The limits `build` scans: seeded with the first node (the smallest ID), then
      lowered and raised by each further node. */
  function NodeBox(nodes: map<int, Node>): (b: Box)
    requires |nodes| > 0
  {
    var lats := NetworkQueries.Coordinates(nodes, NetworkQueries.Lat);
    var lons := NetworkQueries.Coordinates(nodes, NetworkQueries.Lon);
    Box(MinFrom(lats[0], lats[1..]), MaxFrom(lats[0], lats[1..]), MinFrom(lons[0], lons[1..]), MaxFrom(lons[0], lons[1..]))
  }

  /** The scanned limits bound every node, and each of them is a coordinate of some node. */
  lemma NodeBoxBounds(nodes: map<int, Node>)
    requires |nodes| > 0
    ensures var b := NodeBox(nodes);
      && (forall k | k in nodes :: b.minLat <= nodes[k].pos.lat <= b.maxLat && b.minLon <= nodes[k].pos.lon <= b.maxLon)
      && (exists k | k in nodes :: b.minLat == nodes[k].pos.lat)
      && (exists k | k in nodes :: b.maxLat == nodes[k].pos.lat)
      && (exists k | k in nodes :: b.minLon == nodes[k].pos.lon)
      && (exists k | k in nodes :: b.maxLon == nodes[k].pos.lon)
  {
    ScanBounds(nodes, NetworkQueries.Lat);
    ScanBounds(nodes, NetworkQueries.Lon);
  }

  /** One coordinate scanned from the first node: the running minimum and maximum bound
      that coordinate of every node, and each is the coordinate of some node. */
  lemma ScanBounds(nodes: map<int, Node>, coord: GeoPos -> real)
    requires |nodes| > 0
    ensures var xs := NetworkQueries.Coordinates(nodes, coord);
      var lo, hi := MinFrom(xs[0], xs[1..]), MaxFrom(xs[0], xs[1..]);
      && (forall k | k in nodes :: lo <= coord(nodes[k].pos) <= hi)
      && (exists k | k in nodes :: lo == coord(nodes[k].pos))
      && (exists k | k in nodes :: hi == coord(nodes[k].pos))
  {
    var ks := Ascending(nodes.Keys);
    var xs := NetworkQueries.Coordinates(nodes, coord);
    var rest := xs[1..];
    var lo, hi := MinFrom(xs[0], rest), MaxFrom(xs[0], rest);
    forall k | k in nodes
      ensures lo <= coord(nodes[k].pos) <= hi
    {
      assert k in ks;
      var i :| 0 <= i < |ks| && ks[i] == k;
      if i > 0 {
        assert rest[i - 1] == xs[i];
      }
    }
    assert ks[0] in nodes;
    if lo != xs[0] {
      var i :| 0 <= i < |rest| && lo == rest[i];
      assert ks[i + 1] in nodes && rest[i] == xs[i + 1];
    }
    if hi != xs[0] {
      var i :| 0 <= i < |rest| && hi == rest[i];
      assert ks[i + 1] in nodes && rest[i] == xs[i + 1];
    }
  }

  /** The number of cells along one axis: `ceil(fabs(hi - lo) / dimension)`. */
  function CellCount(lo: real, hi: real, dimension: real): int
    requires dimension > 0.0
  {
    Ceil(Abs(hi - lo) / dimension)
  }

  /** Along an axis of positive extent there is at least one cell, and the cells reach
      past its end by less than one cell. */
  lemma CellCountBounds(lo: real, hi: real, dimension: real)
    requires dimension > 0.0 && lo < hi
    ensures var n := CellCount(lo, hi, dimension);
      && n >= 1
      && (n - 1) as real < (hi - lo) / dimension <= n as real
      && hi - lo <= n as real * dimension
  {
    var n := CellCount(lo, hi, dimension);
    DivLess(0.0, hi - lo, dimension);
    TimesBack(hi - lo, dimension, n as real);
  }

  /** The cell in row `i`, column `j`: ID `i * numX + j`, indices `(j, i)`, and corners
      `dimension` apart starting from `(minLat + i * dimension, minLon + j * dimension)`. */
  function MakeCell(i: int, j: int, numX: int, minLat: real, minLon: real, dimension: real): Cell
  {
    var lat := minLat + i as real * dimension;
    var lon := minLon + j as real * dimension;
    var c := SetIndexY(SetIndexX(NewCell(i * numX + j), j), i);
    SetUpRight(SetDownLeft(c, GeoPos(lat, lon)), GeoPos(lat + dimension, lon + dimension))
  }

  /** The rows `build` appends: `numY` rows of `numX` cells. */
  function MakeCells(numX: int, numY: int, minLat: real, minLon: real, dimension: real): (cells: seq<seq<Cell>>)
    ensures |cells| == Rounds(numY)
    ensures forall i | 0 <= i < |cells| :: |cells[i]| == Rounds(numX)
  {
    seq(Rounds(numY), i => seq(Rounds(numX), j => MakeCell(i, j, numX, minLat, minLon, dimension)))
  }

  /** `build`: the nodes' limits padded by 0.001, the cell counts, and the new rows
      appended to the cell vectors (a grid is built once, so they are the only rows). */
  function Build(g: Grid, nodes: map<int, Node>): (r: Grid)
    requires |nodes| > 0 && g.dimension > 0.0
    ensures r.dimension == g.dimension
    ensures |r.cells| >= |g.cells| && r.cells[..|g.cells|] == g.cells
  {
    Framed(g, NodeBox(nodes))
  }

  /** The part of `build` after the scan: pad the box, count the cells along each axis,
      and append the rows. */
  function Framed(g: Grid, b: Box): (r: Grid)
    requires g.dimension > 0.0
    ensures r.dimension == g.dimension
    ensures |r.cells| >= |g.cells| && r.cells[..|g.cells|] == g.cells
  {
    var d := g.dimension;
    var minLat, maxLat := b.minLat - Padding, b.maxLat + Padding;
    var minLon, maxLon := b.minLon - Padding, b.maxLon + Padding;
    var numX := CellCount(minLon, maxLon, d);
    var numY := CellCount(minLat, maxLat, d);
    Grid(d, minLat, maxLat, minLon, maxLon, numX, numY, g.cells + MakeCells(numX, numY, minLat, minLon, d))
  }

  /** The grid `build` makes of a new grid. */
  function Built(nodes: map<int, Node>, dimension: real): (g: Grid)
    requires |nodes| > 0 && dimension > 0.0
    ensures g.dimension == dimension
  {
    Build(NewGrid(dimension), nodes)
  }

  /** The grid framed on a box of non-negative extent, starting from a new grid. */
  function BoxGrid(b: Box, dimension: real): (g: Grid)
    requires dimension > 0.0
    ensures g.dimension == dimension
  {
    Framed(NewGrid(dimension), b)
  }

  /** A box whose sides are in order. */
  predicate Ordered(b: Box)
  {
    b.minLat <= b.maxLat && b.minLon <= b.maxLon
  }

  /** The padded box holds every node at least 0.001 from each side, and on each side
      some node is exactly 0.001 away. */
  lemma BuiltPadding(nodes: map<int, Node>, dimension: real)
    requires |nodes| > 0 && dimension > 0.0
    ensures var g := Built(nodes, dimension);
      && (forall k | k in nodes ::
            && g.minLat + Padding <= nodes[k].pos.lat <= g.maxLat - Padding
            && g.minLon + Padding <= nodes[k].pos.lon <= g.maxLon - Padding)
      && (exists k | k in nodes :: nodes[k].pos.lat == g.minLat + Padding)
      && (exists k | k in nodes :: nodes[k].pos.lat == g.maxLat - Padding)
      && (exists k | k in nodes :: nodes[k].pos.lon == g.minLon + Padding)
      && (exists k | k in nodes :: nodes[k].pos.lon == g.maxLon - Padding)
  {
    NodeBoxBounds(nodes);
  }

  /** The nodes' box is ordered, and a built grid is the grid framed on it. */
  lemma BuiltFromBox(nodes: map<int, Node>, dimension: real)
    requires |nodes| > 0 && dimension > 0.0
    ensures Ordered(NodeBox(nodes)) && Built(nodes, dimension) == BoxGrid(NodeBox(nodes), dimension)
  {
    NodeBoxBounds(nodes);
  }

  /** Each axis has at least one cell, and the cells cover the padded box with less than
      one cell to spare: `numX - 1 < (maxLon - minLon) / dimension <= numX`, and the
      same for `numY` and latitudes. */
  lemma FramedCounts(b: Box, dimension: real)
    requires Ordered(b) && dimension > 0.0
    ensures var g := BoxGrid(b, dimension);
      && g.minLat == b.minLat - Padding && g.maxLat == b.maxLat + Padding
      && g.minLon == b.minLon - Padding && g.maxLon == b.maxLon + Padding
      && g.numX >= 1 && g.numY >= 1
      && (g.numX - 1) as real < (g.maxLon - g.minLon) / dimension <= g.numX as real
      && (g.numY - 1) as real < (g.maxLat - g.minLat) / dimension <= g.numY as real
      && g.maxLon - g.minLon <= g.numX as real * dimension
      && g.maxLat - g.minLat <= g.numY as real * dimension
  {
    CellCountBounds(b.minLon - Padding, b.maxLon + Padding, dimension);
    CellCountBounds(b.minLat - Padding, b.maxLat + Padding, dimension);
  }

  /** A grid laid out as `build` lays it out: at least one cell along each axis, cells
      reaching to the top and right sides of the box, and in row `i`, column `j` the
      cell `MakeCell` describes, apart from the links assigned to it since. */
  predicate Laid(g: Grid)
  {
    && Spans(g)
    && forall i, j | 0 <= i < g.numY && 0 <= j < g.numX ::
         g.cells[i][j].(links := []) == MakeCell(i, j, g.numX, g.minLat, g.minLon, g.dimension)
  }

  /** At least one cell along each axis, and cells reaching to the top and right sides
      of the box. */
  predicate Spans(g: Grid)
  {
    && g.dimension > 0.0 && g.numX >= 1 && g.numY >= 1 && Shaped(g)
    && g.maxLat - g.minLat <= g.numY as real * g.dimension
    && g.maxLon - g.minLon <= g.numX as real * g.dimension
  }

  /** No cell holds a link. */
  predicate Empty(g: Grid)
  {
    forall i, j | 0 <= i < |g.cells| && 0 <= j < |g.cells[i]| :: g.cells[i][j].links == []
  }

  /** Framing a new grid on an ordered box lays it out, with no links in its cells. */
  lemma FramedLaid(b: Box, dimension: real)
    requires Ordered(b) && dimension > 0.0
    ensures Laid(BoxGrid(b, dimension)) && Empty(BoxGrid(b, dimension))
  {
    var g := BoxGrid(b, dimension);
    FramedCounts(b, dimension);
    assert g.cells == MakeCells(g.numX, g.numY, g.minLat, g.minLon, dimension);
  }

  /** The cell in row `i`, column `j`: ID `i * numX + j`, `indexX == j`, `indexY == i`,
      no links, down-left corner `(minLat + i * dimension, minLon + j * dimension)` and
      up-right corner the down-left corner of the cell diagonally after it. */
  lemma CellLayout(i: int, j: int, numX: int, minLat: real, minLon: real, dimension: real)
    ensures var c := MakeCell(i, j, numX, minLat, minLon, dimension);
      && c.id == i * numX + j && c.indexX == j && c.indexY == i && c.links == []
      && c.downLeft == Some(GeoPos(minLat + i as real * dimension, minLon + j as real * dimension))
      && c.upRight == Some(GeoPos(minLat + (i + 1) as real * dimension, minLon + (j + 1) as real * dimension))
  {
    var c := MakeCell(i, j, numX, minLat, minLon, dimension);
    NextMultiple(i, dimension);
    NextMultiple(j, dimension);
    assert c.upRight.value.lat == minLat + (i + 1) as real * dimension;
    assert c.upRight.value.lon == minLon + (j + 1) as real * dimension;
    assert c.upRight == Some(GeoPos(minLat + (i + 1) as real * dimension, minLon + (j + 1) as real * dimension));
  }

  /** The cells of a laid-out grid have distinct IDs, which run from 0 to
      `numX * numY - 1`. */
  lemma LaidIdsDistinct(g: Grid)
    requires Laid(g)
    ensures forall i, j | 0 <= i < g.numY && 0 <= j < g.numX :: 0 <= g.cells[i][j].id < g.numX * g.numY
    ensures forall i, j, i', j' | 0 <= i < g.numY && 0 <= j < g.numX && 0 <= i' < g.numY && 0 <= j' < g.numX
      && g.cells[i][j].id == g.cells[i'][j'].id :: i == i' && j == j'
  {
    forall i, j | 0 <= i < g.numY && 0 <= j < g.numX
      ensures 0 <= g.cells[i][j].id < g.numX * g.numY
    {
      RowMajorRange(i, j, g.numY, g.numX);
    }
    forall i, j, i', j' | 0 <= i < g.numY && 0 <= j < g.numX && 0 <= i' < g.numY && 0 <= j' < g.numX
      && g.cells[i][j].id == g.cells[i'][j'].id
      ensures i == i' && j == j'
    {
      RowMajorInjective(i, j, i', j', g.numX);
    }
  }

  /** `getCell(indexX, indexY)`: the cell in column `x` and row `y`, null outside the
      index range. */
  function GetCell(g: Grid, x: int, y: int): (r: Option<Cell>)
    requires Shaped(g)
    ensures r.Some? <==> 0 <= x < g.numX && 0 <= y < g.numY
    ensures r.Some? ==> r.value == g.cells[y][x]
  {
    if 0 <= x < g.numX && 0 <= y < g.numY then Some(g.cells[y][x]) else None
  }

  /** The closed padded box. */
  predicate InBox(g: Grid, lat: real, lon: real)
  {
    g.minLat <= lat <= g.maxLat && g.minLon <= lon <= g.maxLon
  }

  /** The row and column a position falls in: its distance from the down-left corner of
      the box in cells, truncated. */
  function RowOf(g: Grid, lat: real): (i: int)
    requires g.dimension > 0.0 && g.minLat <= lat
    ensures i >= 0 && i as real <= (lat - g.minLat) / g.dimension < i as real + 1.0
  {
    DivAtMost(0.0, lat - g.minLat, g.dimension);
    Trunc((lat - g.minLat) / g.dimension)
  }

  function ColumnOf(g: Grid, lon: real): (j: int)
    requires g.dimension > 0.0 && g.minLon <= lon
    ensures j >= 0 && j as real <= (lon - g.minLon) / g.dimension < j as real + 1.0
  {
    DivAtMost(0.0, lon - g.minLon, g.dimension);
    Trunc((lon - g.minLon) / g.dimension)
  }

  /** What the position lookup yields: no cell (null) for a position outside the box, a
      cell, or, where the original would index past the end of its cell vectors, the
      indices it would use. */
  datatype Probe = Outside | Found(cell: Cell) | Past(i: int, j: int)

  /** `getCellContainingPos`, and `getCellContainingVDS`, which is the same code, as
      written: inside the closed box the truncated row and column index the cell
      vectors directly. */
  function ContainingAsWritten(g: Grid, lat: real, lon: real): (r: Probe)
    requires Shaped(g) && g.dimension > 0.0
    ensures r.Outside? <==> !InBox(g, lat, lon)
    ensures r.Found? ==> exists i, j | 0 <= i < g.numY && 0 <= j < g.numX :: r.cell == g.cells[i][j]
  {
    if InBox(g, lat, lon) then
      var i, j := RowOf(g, lat), ColumnOf(g, lon);
      if i < g.numY && j < g.numX then Found(g.cells[i][j]) else Past(i, j)
    else Outside
  }

  /** The lookup as intended: a position on the top or right side of the box belongs to
      the last row or column. */
  function Containing(g: Grid, lat: real, lon: real): (r: Option<Cell>)
    requires Shaped(g) && g.dimension > 0.0 && g.numX >= 1 && g.numY >= 1
    ensures r.Some? <==> InBox(g, lat, lon)
  {
    if InBox(g, lat, lon) then
      Some(g.cells[Band(g.minLat, lat, g.dimension, g.numY)][Band(g.minLon, lon, g.dimension, g.numX)])
    else None
  }

  /** The band of `n` bands of width `d` from `lo` that holds `x`: the truncated
      distance in bands, kept below `n`. */
  function Band(lo: real, x: real, d: real, n: int): (b: int)
    requires d > 0.0 && lo <= x && n >= 1
    ensures 0 <= b < n
  {
    DivAtMost(0.0, x - lo, d);
    var i := Trunc((x - lo) / d);
    if i < n then i else n - 1
  }

  /** The intended lookup differs from the original only where the original runs past
      its cell vectors. */
  lemma ContainingAgrees(g: Grid, lat: real, lon: real)
    requires Shaped(g) && g.dimension > 0.0 && g.numX >= 1 && g.numY >= 1
    ensures ContainingAsWritten(g, lat, lon).Outside? ==> Containing(g, lat, lon) == None
    ensures ContainingAsWritten(g, lat, lon).Found? ==> Containing(g, lat, lon) == Some(ContainingAsWritten(g, lat, lon).cell)
  {
  }

  /** On a laid-out grid the intended lookup finds, for every position of the box, a
      cell whose rectangle contains it: the cells tile the box. */
  lemma ContainingContains(g: Grid, lat: real, lon: real)
    requires Laid(g) && InBox(g, lat, lon)
    ensures Containing(g, lat, lon).Some? && Holds(Containing(g, lat, lon).value, lat, lon)
  {
    BandsHold(g.minLat, g.maxLat, g.minLon, g.maxLon, g.dimension, g.numX, g.numY, lat, lon);
    ContainingIs(g, lat, lon);
  }

  /** The cell of a position's bands holds the position, when the bands reach the
      top and right sides of the box. */
  lemma BandsHold(minLat: real, maxLat: real, minLon: real, maxLon: real, d: real, numX: int, numY: int,
                  lat: real, lon: real)
    requires d > 0.0 && numX >= 1 && numY >= 1
    requires maxLat - minLat <= numY as real * d && maxLon - minLon <= numX as real * d
    requires minLat <= lat <= maxLat && minLon <= lon <= maxLon
    ensures Holds(MakeCell(Band(minLat, lat, d, numY), Band(minLon, lon, d, numX), numX, minLat, minLon, d), lat, lon)
  {
    var i, j := Band(minLat, lat, d, numY), Band(minLon, lon, d, numX);
    assert minLat + i as real * d <= lat <= minLat + i as real * d + d by {
      BandContains(minLat, maxLat, lat, d, numY);
    }
    assert minLon + j as real * d <= lon <= minLon + j as real * d + d by {
      BandContains(minLon, maxLon, lon, d, numX);
    }
    CellHolds(i, j, numX, minLat, minLon, d, lat, lon);
  }

  /** The corners of a cell are set and the position lies between them. */
  predicate Holds(c: Cell, lat: real, lon: real)
  {
    && c.downLeft.Some? && c.upRight.Some?
    && c.downLeft.value.lat <= lat <= c.upRight.value.lat
    && c.downLeft.value.lon <= lon <= c.upRight.value.lon
  }

  /** On a laid-out grid the intended lookup yields the cell of the position's bands. */
  lemma ContainingIs(g: Grid, lat: real, lon: real)
    requires Laid(g) && InBox(g, lat, lon)
    ensures var i, j := Band(g.minLat, lat, g.dimension, g.numY), Band(g.minLon, lon, g.dimension, g.numX);
      Containing(g, lat, lon).Some? && Containing(g, lat, lon).value.(links := []) == MakeCell(i, j, g.numX, g.minLat, g.minLon, g.dimension)
  {
  }

  /** A cell holds the positions between its corners. */
  lemma CellHolds(i: int, j: int, numX: int, minLat: real, minLon: real, d: real, lat: real, lon: real)
    requires minLat + i as real * d <= lat <= minLat + i as real * d + d
    requires minLon + j as real * d <= lon <= minLon + j as real * d + d
    ensures Holds(MakeCell(i, j, numX, minLat, minLon, d), lat, lon)
  {
  }

  /** When `n` bands of width `d` reach past `hi`, the band of an `x` in `[lo, hi]`
      holds it: `[lo + b * d, lo + b * d + d]` contains `x`. */
  lemma BandContains(lo: real, hi: real, x: real, d: real, n: int)
    requires d > 0.0 && lo <= x <= hi && n >= 1 && hi - lo <= n as real * d
    ensures var b := Band(lo, x, d, n);
      lo + b as real * d <= x <= lo + b as real * d + d
  {
    DivAtMost(0.0, x - lo, d);
    var i := Trunc((x - lo) / d);
    var b := Band(lo, x, d, n);
    TimesBack(x - lo, d, i as real);
    TimesBack(x - lo, d, i as real + 1.0);
    NextMultiple(b, d);
    if i >= n {
      MulLeq(b as real, i as real, d);
      assert (b + 1) as real == n as real;
    } else {
      assert (b + 1) as real == i as real + 1.0;
    }
  }

  /** Multiplying by a positive number keeps a weak order. */
  lemma MulLeq(a: real, b: real, d: real)
    requires a <= b && d > 0.0
    ensures a * d <= b * d
  {
  }

  /** Away from the top and right sides of the box the original lookup never falls past
      the cell vectors. */
  lemma InnerFound(g: Grid, lat: real, lon: real)
    requires Spans(g) && InBox(g, lat, lon) && lat < g.maxLat && lon < g.maxLon
    ensures ContainingAsWritten(g, lat, lon).Found?
  {
    BandBelow(g.minLat, lat, g.maxLat, g.dimension, g.numY, RowOf(g, lat));
    BandBelow(g.minLon, lon, g.maxLon, g.dimension, g.numX, ColumnOf(g, lon));
  }

  /** Every node of a built grid lies in some cell by the original lookup. */
  lemma NodesFound(nodes: map<int, Node>, dimension: real, k: int)
    requires |nodes| > 0 && dimension > 0.0 && k in nodes
    ensures var g := Built(nodes, dimension);
      Laid(g) && ContainingAsWritten(g, nodes[k].pos.lat, nodes[k].pos.lon).Found?
  {
    BuiltPadding(nodes, dimension);
    BuiltFromBox(nodes, dimension);
    FramedLaid(NodeBox(nodes), dimension);
    InnerFound(Built(nodes, dimension), nodes[k].pos.lat, nodes[k].pos.lon);
  }

  /** The original lookup runs past its cell vectors on the top side of the box whenever
      the padded latitude range is a whole number of cells: the row index is then
      `numY`, one past the last row. */
  lemma TopSideEscapes(g: Grid, lon: real)
    requires Shaped(g) && g.dimension > 0.0 && g.numY >= 1 && g.minLat <= g.maxLat
    requires g.minLon <= lon <= g.maxLon
    requires (g.maxLat - g.minLat) / g.dimension == g.numY as real
    ensures ContainingAsWritten(g, g.maxLat, lon) == Past(g.numY, ColumnOf(g, lon))
  {
  }

  /** A concrete case: one node at (0, 0) and cells of side 0.001. The padded box is
      0.002 high, two rows, and a station on its top side, at latitude 0.001, gets row
      index 2. */
  lemma TopSideEscapesExample()
    ensures var g := Built(map[7 := NewNode(7, 0.0, 0.0)], 0.001);
      && Shaped(g) && g.numY == 2 && g.maxLat == 0.001
      && ContainingAsWritten(g, 0.001, 0.0) == Past(2, 1)
  {
    var nodes := map[7 := NewNode(7, 0.0, 0.0)];
    SingleKey(nodes.Keys);
    assert NetworkQueries.Coordinates(nodes, NetworkQueries.Lat) == [0.0];
    assert NetworkQueries.Coordinates(nodes, NetworkQueries.Lon) == [0.0];
    var g := Built(nodes, 0.001);
    assert g.minLat == -0.001 && g.maxLat == 0.001;
    assert g.numY == 2 && g.numX == 2;
  }
}

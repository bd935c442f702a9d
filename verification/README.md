# Map matching of detector stations to roads

This project models the C++ core of `createGraph`, which matches vehicle detection
stations (VDS) to the roads of a road network. The program works in four stages:

- It reads a network of links between nodes.
- It links every link to its neighbours through its two nodes.
- It chains links into roads: a road runs between two nodes that are not intermediate
  and passes straight through the intermediate nodes between them.
- It matches each station to a road. There are two matchers:
  - the greedy matcher measures the station against every link;
  - the point-in-cell (PIC) matcher lays a square grid over the network, hands every
    link to the cells it may cross, and measures the station only against the links of
    the cell that holds it.

  Either way, the first nearest link wins, and the station is recorded against that
  link's road when it has one.

How the model represents the program:

- Values and containers:
  - Every link object the program allocates lives at a fixed position of a sequence
    (`LinkRef`). Node, road and cell maps hold those positions, as the program's maps
    hold `Link*`. A `nullptr` is `None`.
  - A `std::map<int, ...>` is a Dafny `map`. It is visited in ascending key order
    (`OrderedKeys.Ascending`).
  - `insert` and the `find`-guarded adds never replace an entry
    (`StdMap.InsertIfAbsent`).
- Numbers:
  - Reals are exact.
  - Distances are squared planar distances. The square root is a parameter `root`, of
    which `MathFunc.IsSquareRoot` demands only that it be the non-negative square root.
  - Since the root is strictly increasing, comparing squared distances makes every
    choice the program makes (`MathFunc.RootPreservesArgMin`).
- Inputs and stages:
  - The input files arrive parsed, as sequences of records in file order.
  - Each stage of `Network::build` is a function or method from network to network.
  - Both matchers take the distance measure as a parameter `measure`. Their contracts
    hold for every measure, including the program's (`Greedy.Measure`).

## Model

| member | source | states |
|---|---|---|
| GeoPosition.DefaultPos | createGraph/GeoPos.cpp:3-5 | the default position is (-1, -1) |
| GeoPosition.Equal | createGraph/GeoPos.cpp:46-49 | `operator==` holds exactly for identical positions, with no tolerance |
| GeoPosition.NotEqual | createGraph/GeoPos.cpp:51-54 | `operator!=` is the negation of `operator==` |
| GeoPosition.Add | createGraph/GeoPos.cpp:56-62 | subtracting either summand's coordinates from the sum gives the other summand's |
| GeoPosition.AddIsCommutativeMonoid | createGraph/GeoPos.cpp:56-62 | `operator+` is commutative and associative with unit (0, 0) |
| GeoPosition.Copy | createGraph/GeoPos.cpp:15-24 | a copy compares equal to its source under `operator==` |
| GeoPosition.SetLat | createGraph/GeoPos.cpp:26-29 | the latitude takes the new value and the longitude is kept |
| GeoPosition.SetLon | createGraph/GeoPos.cpp:36-39 | the longitude takes the new value and the latitude is kept |
| GeoPosition.SettersRoundTrip | createGraph/GeoPos.cpp:26-44 | setting a coordinate back restores the position; the two setters commute |
| Cells.NewCell | createGraph/Cell.cpp:9-11 | a new cell has its ID, indices -1, null corners and no links |
| Cells.DefaultCell | createGraph/Cell.cpp:5-7 | the default cell is the cell with ID -1 |
| Cells.SetId | createGraph/Cell.cpp:29-32 | only the ID changes |
| Cells.SetIndexX | createGraph/Cell.cpp:44-47 | only the column index changes |
| Cells.SetIndexY | createGraph/Cell.cpp:54-57 | only the row index changes |
| Cells.SetDownLeft | createGraph/Cell.cpp:64-67 | only the down-left corner changes, and it is set |
| Cells.SetUpRight | createGraph/Cell.cpp:74-77 | only the up-right corner changes, and it is set |
| Cells.SettersRoundTrip | createGraph/Cell.cpp:29-82 | each getter returns what its setter stored last; setters of different fields commute |
| Cells.AddLink | createGraph/Cell.cpp:84-87 | the link is appended after the old links, which keep their places |
| Cells.AddLinkCounts | createGraph/Cell.cpp:84-87 | a link added twice is held twice; the other links' counts do not change |
| Links.NewLink | createGraph/Link.cpp:9-11 | a new link has zero length, is one-way and has no opposite, no road and no neighbours |
| Links.AddNeighbour | createGraph/Link.cpp:220-250 | the chosen neighbour map gains the ID, keeps its old entries, and maps a new ID to the given link; nothing else of the link changes |
| Links.AddNeighbourIdempotent | createGraph/Link.cpp:220-250 | adding an ID that is already present changes nothing |
| Links.ComputeLength | createGraph/Link.cpp:150-153 | only the length changes; with a genuine square root it is non-negative, its square is the sum of the squared coordinate differences, and it is zero exactly when the nodes coincide |
| Links.NewLinkHasNoOpposite | createGraph/Link.cpp:252-262 | a new link is the opposite of no link, only of null |
| Links.SetRoad | createGraph/Link.cpp:140-143 | only the road changes, and it is set |
| Nodes.NewNode | createGraph/Node.cpp:9-11 | a new node sits at the given position with no links |
| Nodes.AddIncomingLink | createGraph/Node.cpp:110-117 | the incoming map gains the ID and keeps its entries, and a new ID maps to the given link; nothing else changes |
| Nodes.AddOutgoingLink | createGraph/Node.cpp:119-126 | as for incoming links, on the outgoing map |
| Nodes.AddLinkIdempotent | createGraph/Node.cpp:110-126 | adding an ID a second time changes nothing, whatever link comes with it |
| Nodes.IncomingLink | createGraph/Node.cpp:74-85 | null exactly when the ID is absent, otherwise the stored link |
| Nodes.OutgoingLink | createGraph/Node.cpp:87-98 | null exactly when the ID is absent, otherwise the stored link |
| Nodes.PairKeysOf | createGraph/Node.cpp:145-148 | after `it2 = it1++`, `it1` is at the larger key and `it2` at the smaller; together they are the map's two keys |
| Nodes.IsIntermediateMeaning | createGraph/Node.cpp:128-156 | `isIntermediate` is order-free: one in and one out that are not opposites, or two in and two out that pair up as opposites |
| Nodes.IsIntermediateGetDepar | createGraph/Node.cpp:158-193 | a departure exists only at an intermediate node and is one of its outgoing links; in the 1-1 case it exists exactly when the node is intermediate; in the 2-2 case it is never the opposite of the arrival link, and at an intermediate node it exists whenever some outgoing link is not |
| Roads.NewRoad | createGraph/Road.cpp:10-12 | a new road has no nodes and no links |
| Roads.AddLink | createGraph/Road.cpp:105-111 | the road's link map gains the ID and keeps its entries, and a new ID maps to the given link; nothing else changes |
| Roads.AddLinkIdempotent | createGraph/Road.cpp:105-111 | adding an ID the road holds changes nothing |
| Roads.GetLink | createGraph/Road.cpp:62-72 | null exactly when the ID is absent, otherwise the stored link |
| Roads.ComputeLength | createGraph/Road.cpp:113-120 | only the length changes; with non-negative link lengths it is at least each link's length; a one-link road is as long as its link |
| Roads.AddLinkAddsLength | createGraph/Road.cpp:105-120 | the length is additive: zero for no links, plus the link's length for a new link, unchanged for a link already held |
| Roads.SumLengthsAdd | createGraph/Road.cpp:113-120 | the sum over one more link is the old sum plus that link's length, wherever its ID falls in the order |
| Roads.RoadDistance | createGraph/Road.cpp:79-103 | -1 for a road without links; otherwise the least of its links' distances, attained by one of them |
| Roads.RoadDistanceMeaning | createGraph/Road.cpp:79-103 | for a road with links, the distance to the nearest point of any of its links, attained at some point of some link |
| Roads.LinkPointDistanceMeaning | createGraph/Link.cpp:157-218 | a network link's distance from a point is the least distance to a point of the link, and some point attains it |
| Roads.DistanceTo | createGraph/Link.cpp:157-218 | each placed link's distance is `calcLinkDistanceFromPoint` with the coordinates of its two nodes |
| MathFunc.SqDistance | createGraph/MathFunc.cpp:13-16 | the squared distance is non-negative and zero exactly for equal points |
| MathFunc.PointsDistanceMeaning | createGraph/MathFunc.cpp:13-16 | with a genuine square root the distance is non-negative, squares to the sum of squared differences, and is zero exactly for equal points |
| MathFunc.PointsDistanceSymmetric | createGraph/MathFunc.cpp:13-16 | the distance is symmetric and invariant under translation |
| MathFunc.RootPreservesArgMin | createGraph/main.cpp:58-66 | ranking by squared distance picks the same first nearest link as ranking by distance |
| SegmentDistance.SegmentSqDistance | createGraph/Link.cpp:157-218 | the squared distance from a point to a link is never negative |
| SegmentDistance.SegmentSqDistanceIsMinimum | createGraph/Link.cpp:157-218 | the computed squared distance is the least over all points of the closed segment, and one of them attains it |
| LinkGeometry.LinkDistanceIsRootOfSquared | createGraph/Link.cpp:157-218 | computing with true distances equals the root of the squared computation |
| LinkGeometry.SegmentSqDistanceZeroIffOnSegment | createGraph/Link.cpp:157-218 | the distance is zero exactly for points of the link |
| LinkGeometry.SegmentSqDistanceAtMostEnds | createGraph/Link.cpp:157-218 | the distance never exceeds the distance to either node |
| LinkGeometry.VerticalInRange | createGraph/Link.cpp:184-191 | for a vertical link whose latitude range holds the point, the distance is the longitude difference |
| LinkGeometry.LinkDistanceMeaning | createGraph/Link.cpp:157-218 | the least distance to a point of the link, attained; zero exactly on the link; at most the node distances; the point distance for a one-point link; the longitude difference for a vertical link in range |
| StdMap.InsertIfAbsent | createGraph/main.cpp:72 | `insert` adds the key, never replaces an entry, and stores the value only for a new key |
| StdMap.InsertIfAbsentIdempotent | createGraph/main.cpp:72 | a second insert with the same key changes nothing |
| OrderedKeys.Ascending | createGraph/main.cpp:49 | a map's keys, each once, smallest first |
| OrderedKeys.AscendingSorted | createGraph/main.cpp:49 | a map is visited in strictly increasing key order |
| Folds.ArgMinFirst | createGraph/main.cpp:54-66 | the position a strict-`<` scan ends on: no value is smaller than the one there, and every earlier value is larger |
| Folds.FirstMinimumUnique | createGraph/main.cpp:54-66 | only one position has that property |
| Networks.EmptyNetwork | createGraph/Network.cpp:12-14 | a new network has no nodes, links, roads or stations and no position limits |
| Networks.EnsureNode | createGraph/Network.cpp:73-83 | a known node ID keeps its node; a new one gets a node without links at the given position |
| Networks.RecordNodes | createGraph/Network.cpp:68-100 | after a line, the node map holds exactly the nodes it held plus the line's start and end nodes |
| Networks.RecordNodesFacts | createGraph/Network.cpp:68-100 | known nodes are kept; a new start or end node is placed at its first mention in the line, the start when both IDs agree |
| Networks.Register | createGraph/Network.cpp:108-109 | registering a link adds no node and removes none |
| Networks.RegisterFacts | createGraph/Network.cpp:108-109 | the link ID joins the start node's outgoing and the end node's incoming links; only those maps change, and only by insert-if-absent |
| Networks.RecordLinkComputesLength | createGraph/Network.cpp:105-106 | the new link's length is `computeLength` on its nodes' coordinates |
| Networks.AddRecord | createGraph/Network.cpp:54-110 | one data line adds its two nodes and its link ID, appends one link object, and changes nothing else |
| Networks.AddRecordPositions | createGraph/Network.cpp:73-100 | nodes seen before keep their positions; new nodes get the line's positions |
| Networks.AddRecordArena | createGraph/Network.cpp:105-106 | the line's link object is appended and the earlier ones stay |
| Networks.AddRecordLinks | createGraph/Network.cpp:107 | the link map keeps its entries and takes the new object only for a new ID |
| Networks.AddRecordRegisters | createGraph/Network.cpp:108-109 | the line's link ID is registered with both nodes, and no node loses a link |
| Networks.AddRecordValid | createGraph/Network.cpp:54-110 | each line keeps every node, link-map and link-object reference consistent |
| Networks.FirstMentionMeaning | createGraph/Network.cpp:73-100 | a node's position comes from the first line that mentions it |
| Networks.CreateNodesAndLinks | createGraph/Network.cpp:38-113 | the nodes are exactly the mentioned IDs, at their first positions; the link map keeps the first object of each link ID; each link object is the line's link, measured between its nodes; every line is registered with its nodes; the maps stay consistent |
| Networks.BuildStep | createGraph/Network.cpp:54-110 | one more line takes the state built from a prefix of the file to the state built from the longer prefix |
| NetworkQueries.CreateVds | createGraph/Network.cpp:201-239 | every station is stored under its own ID |
| NetworkQueries.CreateVdsFromRecords | createGraph/Network.cpp:226-235 | the stations are exactly the IDs of the lines, each at the position of the first line with its ID |
| Wrappers.Find | createGraph/Network.cpp:259-269 | the lookup finds a value exactly when the key is present, and then the stored one |
| NetworkQueries.GetNode | createGraph/Network.cpp:259-269 | null exactly when no node has the ID, otherwise that node |
| NetworkQueries.GetLink | createGraph/Network.cpp:281-291 | null exactly when the link map has no such ID, otherwise its link |
| NetworkQueries.GetLinkCarriesId | createGraph/Network.cpp:281-291 | in a consistent network the link found under an ID carries that ID |
| NetworkQueries.GetVds | createGraph/Network.cpp:303-313 | null exactly when no station has the ID, otherwise that station |
| NetworkQueries.GetRoad | createGraph/Network.cpp:325-335 | null exactly when no road has the ID, otherwise that road |
| NetworkQueries.AddRoad | createGraph/Network.cpp:453-458 | a new road goes under the ID and replaces any entry there; nothing else changes |
| NetworkQueries.Coordinates | createGraph/Network.cpp:341-345 | one coordinate of each node, in key order |
| NetworkQueries.CoordinateScans | createGraph/Network.cpp:339-364 | a running minimum or maximum from its seed bounds every node and is a node's coordinate unless still the seed |
| NetworkQueries.SetPosLimits | createGraph/Network.cpp:337-370 | only the two limits change; both are set, each no further out than its seed |
| NetworkQueries.SetPosLimitsBounds | createGraph/Network.cpp:337-370 | every node lies in the box, and each limit is a node's coordinate, or its seed when there are no nodes |
| BeforeAfter.AddAllBut | createGraph/Network.cpp:126-132 | one inner loop changes only the chosen neighbour map |
| BeforeAfter.AddAllButContents | createGraph/Network.cpp:126-132 | after one inner loop the neighbour map holds its old entries plus every visited ID other than the link's own, with the node's link |
| BeforeAfter.AddAllButMerges | createGraph/Network.cpp:126-161 | the loop over a node's map merges that map, less the link itself, into one neighbour map and leaves the other three alone |
| BeforeAfter.FillLink | createGraph/Network.cpp:117-162 | one round of the outer loop changes only neighbour maps |
| BeforeAfter.FillLinkFills | createGraph/Network.cpp:121-161 | the four neighbour maps are merged with the start node's in and out links and the end node's in and out links |
| BeforeAfter.MergedFromEmpty | createGraph/Network.cpp:126-161 | an empty neighbour map ends up exactly the node's links less the link itself |
| BeforeAfter.CreateBeforeAfterLinks | createGraph/Network.cpp:115-163 | only link objects change; each is what the loop makes of it |
| BeforeAfter.RefillStep | createGraph/Network.cpp:117-162 | visiting one more ID refills exactly the object the link map keeps under it |
| BeforeAfter.RefilledMeaning | createGraph/Network.cpp:115-163 | objects of the link map are filled from their nodes, others are untouched, and only neighbour maps change |
| BeforeAfter.BeforeAfterOfFreshLinks | createGraph/Network.cpp:115-163 | on fresh links, each link's before and after maps are exactly its nodes' in and out links less itself; no link is its own neighbour |
| RoadBuilding.IntermediateIgnoresRoads | createGraph/Node.cpp:128-193 | whether a node is intermediate, and where a road leaves it, do not depend on the links' road fields |
| RoadBuilding.Departure | createGraph/Network.cpp:184-191 | the departure link starts where the arrival link ends |
| RoadBuilding.Walk | createGraph/Network.cpp:184-192 | the walk starts at the start link, each later link departs from its predecessor, and it stops where there is no departure (or at the step bound) |
| RoadBuilding.MarkRoad | createGraph/Network.cpp:182-189 | the links of the walk get the road and the others are unchanged |
| RoadBuilding.AddChain | createGraph/Network.cpp:181-188 | the road keeps its links, gains every link of the walk, and each new entry is a link of the walk under its own ID |
| RoadBuilding.BuildRoadMarks | createGraph/Network.cpp:176-195 | building a road changes only road fields, on exactly the walk, to the new road |
| RoadBuilding.BuildRoadMakes | createGraph/Network.cpp:176-195 | the road starts at the node, ends where the walk ends, holds exactly the walk's links under their IDs, and is as long as they are together |
| RoadBuilding.BuildRoad | createGraph/Network.cpp:176-195 | building a road keeps the number of link objects and gives the road only links of the store |
| RoadBuilding.BuildRoadWellBuilt | createGraph/Network.cpp:176-195 | a road built from a non-intermediate node along the walk from one of its outgoing links is well built: it follows that walk, ends where it ends, and holds exactly its links under their IDs |
| RoadBuilding.NextRoadNumber | createGraph/Network.cpp:178 | numbering a new road by the road count keeps the roads numbered 0, 1, ... |
| RoadBuilding.ChangedStep | createGraph/Network.cpp:182-189 | a link whose road changed belongs to a road that holds its ID |
| RoadBuilding.RoadStep | createGraph/Network.cpp:176-195 | starting the next road keeps the roads-so-far invariant |
| RoadBuilding.StartRoad | createGraph/Network.cpp:176-195 | a start link gets road number `roads.size()`, which starts at its node; the other roads and the rest of the network are unchanged |
| RoadBuilding.RoadAlong | createGraph/Network.cpp:176-195 | the first link of the walk gets the new road number, the road map gains exactly that number, and earlier roads are kept |
| RoadBuilding.StartRoadKeeps | createGraph/Network.cpp:176-195 | starting a road keeps the invariant, changes only link objects and roads, clears no road field, and gives the start link a road |
| RoadBuilding.RoadsFrom | createGraph/Network.cpp:172-196 | after a non-intermediate node's loop every outgoing link has a road, every road follows the walk from a link leaving its start node, and no road field was cleared |
| RoadBuilding.FromNodeStart | createGraph/Network.cpp:176-195 | a round that starts a road keeps the inner loop's state |
| RoadBuilding.CreateRoads | createGraph/Network.cpp:165-199 | roads numbered 0, 1, ...; each starts at a non-intermediate node, follows the `isIntermediateGetDepar` walk from a link leaving it, ends at the end node of the walk's last link, and holds exactly the walk's links under their IDs; only road fields and the road map change; every link leaving a non-intermediate node gets a road |
| RoadBuilding.RoadsAreWalks | createGraph/Network.cpp:176-192 | every road of the invariant is the road of the walk from a link leaving its start node: the walk's links are exactly its links and its end is the walk's end |
| RoadBuilding.CoveredGrows | createGraph/Network.cpp:167-198 | covering one more node keeps the earlier nodes covered |
| Grids.NewGrid | createGraph/Grid.cpp:9-11 | a new grid has its cell size, limits and counts -1, and no cells |
| Grids.NodeBoxBounds | createGraph/Grid.cpp:33-58 | the scanned limits bound every node and each is some node's coordinate |
| Grids.ScanBounds | createGraph/Grid.cpp:35-58 | a scan seeded with the first node bounds every node's coordinate and ends on one of them |
| Grids.CellCountBounds | createGraph/Grid.cpp:64-73 | an axis of positive extent has at least one cell, and the cells reach past its end by less than one cell |
| Grids.MakeCells | createGraph/Grid.cpp:77-98 | the rows are `numY` rows of `numX` cells, none when a count is not positive |
| Grids.Build | createGraph/Grid.cpp:30-99 | `build` keeps the cell size and only appends rows |
| Grids.BuiltPadding | createGraph/Grid.cpp:59-62 | every node lies at least 0.001 inside each side of the box, and some node is exactly 0.001 from each side |
| Grids.BuiltFromBox | createGraph/Grid.cpp:30-99 | a built grid is the grid framed on the nodes' box |
| Grids.Framed | createGraph/Grid.cpp:59-98 | framing keeps the cell size and the cell rows already present |
| Grids.FramedCounts | createGraph/Grid.cpp:59-73 | the box is padded by 0.001, and the cells cover it with less than one cell to spare on each axis |
| Grids.FramedLaid | createGraph/Grid.cpp:77-98 | framing lays out every cell and puts no links in them |
| Grids.CellLayout | createGraph/Grid.cpp:84-93 | the cell in row i, column j has ID `i * numX + j`, indices (j, i), no links, and corners one cell size apart from `(minLat + i * d, minLon + j * d)` |
| Grids.LaidIdsDistinct | createGraph/Grid.cpp:84 | cell IDs are distinct and run from 0 to `numX * numY - 1` |
| Grids.GetCell | createGraph/Grid.cpp:191-199 | the cell at column x, row y, null exactly outside the index range |
| Grids.RowOf | createGraph/Grid.cpp:208-209 | the row index is the truncated distance from the bottom in cells |
| Grids.ColumnOf | createGraph/Grid.cpp:210-211 | the column index is the truncated distance from the left in cells |
| Grids.ContainingAsWritten | createGraph/Grid.cpp:201-243 | null exactly outside the closed box; a cell found is a cell of the grid |
| Grids.Containing | createGraph/Grid.cpp:201-243 | the corrected lookup finds a cell exactly inside the closed box |
| Grids.ContainingAgrees | createGraph/Grid.cpp:201-243 | the corrected lookup differs from the code only where the code indexes past its vectors |
| Grids.ContainingContains | createGraph/Grid.cpp:201-243 | on a laid-out grid, every position of the box is found in a cell whose rectangle holds it |
| Grids.ContainingIs | createGraph/Grid.cpp:206-213 | the corrected lookup yields the cell of the position's row and column bands |
| Grids.BandsHold | createGraph/Grid.cpp:206-213 | the cell of a position's bands holds the position |
| Grids.InnerFound | createGraph/Grid.cpp:230-237 | below the top side and left of the right side the code's lookup always finds a cell |
| Grids.NodesFound | createGraph/Grid.cpp:221-243 | every node of a built grid is found in a cell by the code's lookup |
| Grids.TopSideEscapes | createGraph/Grid.cpp:206-213 | on the top side, with a whole number of rows, the code's row index is `numY`, one past the last row |
| Grids.TopSideEscapesExample | createGraph/Grid.cpp:206-213 | one node at (0, 0) with cell size 0.001: a station at latitude 0.001 gets row index 2 of a two-row grid |
| GridLines.LineThrough | createGraph/Grid.cpp:143-144 | the line of `LA` and `LB` passes through both nodes and is not horizontal when their latitudes differ |
| GridLines.CrossesMeaning | createGraph/Grid.cpp:160-179 | the four side tests hold exactly when the line meets the closed cell rectangle |
| GridLinks.SpotOf | createGraph/Grid.cpp:109-110 | the spot of a found cell indexes the cell vectors, and its cell's indices are that spot |
| GridLinks.LaidCornered | createGraph/Grid.cpp:91-93 | `build` sets both corners of every cell |
| GridLinks.SweepColumn | createGraph/Grid.cpp:149-183 | the inner loop picks exactly the cells of the column's row range that are not end cells and that the line crosses, bottom to top |
| GridLinks.Sweep | createGraph/Grid.cpp:147-184 | the outer loop picks exactly the cells of the rectangle that are not end cells and that the line crosses, column by column |
| GridLinks.Targets | createGraph/Grid.cpp:104-188 | a link's first target is its start cell, and all targets lie on the grid |
| GridLinks.ColumnRun | createGraph/Grid.cpp:128-129 | the run holds exactly the column's cells from the low row to the high row, in order |
| GridLinks.RowRun | createGraph/Grid.cpp:136-137 | the run holds exactly the row's cells from the low column to the high column, in order |
| GridLinks.SpotsById | createGraph/Grid.cpp:111 | comparing the found cells' IDs compares their spots |
| GridLinks.TargetsSameCell | createGraph/Grid.cpp:111-115 | a link within one cell goes to that cell once |
| GridLinks.TargetsColumn | createGraph/Grid.cpp:118-130 | a link within one column goes to every cell of the column between its ends, and twice to the two end cells |
| GridLinks.TargetsRow | createGraph/Grid.cpp:133-138 | a link within one row goes to every cell of the row between its ends, and twice to the two end cells |
| GridLinks.CellCrossedMeaning | createGraph/Grid.cpp:154-179 | on a laid-out grid, a cell's side tests hold exactly when the link's line meets the cell |
| GridLinks.LaidCellCrossed | createGraph/Grid.cpp:154-179 | the same, for a cell as `build` makes it |
| GridLinks.CornersCrossed | createGraph/Grid.cpp:154-179 | the same, for a cell with the given corners |
| GridLinks.TargetsDiagonal | createGraph/Grid.cpp:139-185 | a diagonal link has a defined non-zero slope, and goes once to each end cell and once to each other cell of the spanned rectangle that its line meets, and nowhere else |
| GridLinks.SweepMeets | createGraph/Grid.cpp:147-184 | the sweep holds exactly the other cells of the rectangle that the line meets |
| GridAssign.AddAt | createGraph/Grid.cpp:114-178 | `addLink` on one cell appends the link there and changes no other cell |
| GridAssign.ApplyLinks | createGraph/Grid.cpp:111-186 | after one link, each cell holds its old links plus one copy per time its spot is a target |
| GridAssign.SameFrameTargets | createGraph/Grid.cpp:104-188 | adding links to cells does not change any link's targets |
| GridAssign.SameFrameCell | createGraph/Cell.cpp:84-87 | adding links keeps every cell's ID, indices and corners |
| GridAssign.ApplyAllLinks | createGraph/Grid.cpp:104-188 | after the loop, each cell holds its old links followed by what the loop adds there, link by link |
| GridAssign.SpreadHas | createGraph/Grid.cpp:104-188 | the loop adds a link to a spot exactly when the spot is among that link's targets |
| GridAssign.AssignIsApplyAll | createGraph/Grid.cpp:104-188 | reading each link's targets on the grid earlier links left equals reading them all on the starting grid |
| GridAssign.AssignMembership | createGraph/Grid.cpp:104-188 | on an empty laid-out grid, a cell holds a link exactly when the cell is among that link's targets |
| GridAssign.AssignSpread | createGraph/Grid.cpp:104-188 | an empty cell ends up holding exactly what the plan spreads to it, in order |
| GridAssign.PlanHas | createGraph/Grid.cpp:104-188 | the plan spreads a link to a spot exactly when some job of that link targets it |
| LinkAssignment.Jobs | createGraph/Grid.cpp:103-110 | one job per link of the link map, in ID order, with its nodes' positions |
| LinkAssignment.JobsCover | createGraph/Grid.cpp:103-110 | the jobs are exactly the jobs of the link map's IDs |
| LinkAssignment.AssignLinksToGrid | createGraph/Grid.cpp:101-189 | only the cells' link vectors change |
| LinkAssignment.AssignLinksToGridMembership | createGraph/Grid.cpp:101-189 | on a freshly built grid, a cell holds a link object exactly when that object is some link ID's link whose targets include the cell |
| LinkAssignment.BuiltReachable | createGraph/Grid.cpp:221-243 | the built grid is laid out, empty, and finds a cell for both nodes of every link |
| Nearest.ScanNearest | createGraph/main.cpp:54-66 | the scan ends on a link no other is nearer than, strictly nearer than every earlier one: the first nearest |
| Nearest.ScanIsArgMinFirst | createGraph/main.cpp:54-66 | the scan's choice is the first minimum |
| Nearest.RecordedStep | createGraph/main.cpp:67-73 | each round keeps the map's meaning: a key is present iff some station with it has a road, and holds the road of the first such station |
| Nearest.RecordAllRecorded | createGraph/main.cpp:49-74 | the outer loop's map has that meaning |
| Nearest.RecordAllKeys | createGraph/main.cpp:49-74 | only the stations' keys are recorded |
| Nearest.RecordedDistinct | createGraph/main.cpp:49-74 | with distinct keys, a key is present exactly when its station has a road, and holds that road |
| Greedy.Measure | createGraph/main.cpp:55-60 | the measure is `calcLinkDistanceFromPoint(lon, lat)` of each placed link |
| Greedy.LinkOrder | createGraph/main.cpp:54-58 | the link objects of the link map, in ID order |
| Greedy.GreedyId | createGraph/main.cpp:54-66 | the chosen ID's link is nearest, and strictly nearer than every link of smaller ID |
| Greedy.GreedyIdUnique | createGraph/main.cpp:54-66 | only one ID has those two properties |
| Greedy.GreedyScan | createGraph/main.cpp:54-68 | the scan's link is the greedy ID's link, and its road is the greedy road |
| Greedy.NearestLink | createGraph/main.cpp:54-66 | the inner loop returns the greedy ID's link object |
| Greedy.GreedyRound | createGraph/main.cpp:67-73 | one round extends the recorded map by one station |
| Greedy.GreedyStation | createGraph/main.cpp:50-73 | one round takes the loop state from i stations to i + 1 |
| Greedy.MatchGreedy | createGraph/main.cpp:41-92 | the result is the fold of recording each station's greedy road, in station ID order |
| Greedy.GreedyKeys | createGraph/main.cpp:49-74 | result keys are station IDs; a station is present exactly when its greedy link has a road, and maps to that road |
| Greedy.GreedyKey | createGraph/main.cpp:49-74 | the same for one station |
| Pic.PicGrid | createGraph/main.cpp:98-101 | the grid is laid out with the given cell size and its cells hold only links of the link map |
| Pic.PicGridFromMap | createGraph/Grid.cpp:101-189 | assigning the link map's links puts nothing else in the cells |
| Pic.ContainingPlaced | createGraph/main.cpp:115-128 | every link of the station's cell has both nodes in the network |
| Pic.ContainingFromMap | createGraph/main.cpp:115-128 | every link of the station's cell is a link of the link map |
| Pic.PicLink | createGraph/main.cpp:115-140 | no link without a cell or with an empty cell; otherwise a link of the cell, nearest, and strictly nearer than every entry before its first occurrence |
| Pic.PicScan | createGraph/main.cpp:120-142 | the scan over the cell ends on the PIC link, whose road is the PIC road |
| Pic.StationKeys | createGraph/main.cpp:146 | the keys recorded are the stations' own IDs, in station-map order |
| Pic.PicRoads | createGraph/main.cpp:110-151 | each station's PIC road, in station-map order |
| Pic.CellRoad | createGraph/main.cpp:112-147 | one station's round yields its PIC road |
| Pic.PicRound | createGraph/main.cpp:141-147 | one round extends the recorded map by one station |
| Pic.MatchPic | createGraph/main.cpp:94-164 | the result is the fold of recording each station's PIC road under its own ID, in station ID order, on the built and assigned grid |
| Pic.PicKeys | createGraph/main.cpp:110-151 | every result key is some station's ID, with the recorded meaning |
| Pic.PicKeysKeyed | createGraph/main.cpp:110-151 | with stations keyed by their IDs, keys are station IDs; a station is present exactly when its PIC link has a road, and maps to that road |
| Pic.PicKeyKeyed | createGraph/main.cpp:110-151 | the same for one station |
| Pic.PicNeverNearer | createGraph/main.cpp:123-140 | the PIC link is never nearer than the greedy link |
| Pic.PicAgreesWithGreedy | createGraph/main.cpp:120-140 | when the station's cell holds the greedy link, PIC finds a link exactly as near |
| Pic.Dimension | createGraph/main.cpp:200 | the cell size times the divisor is the longest link length; it is positive for positive inputs and no larger than the longest link for a divisor of at least 1 |

## Left out

- Reading the network and detector files is not modelled: no file handling, header skipping, `stoi`/`stod` or `readlink`. The stages take the data lines as parsed records in file order.
- The menu, console output, CSV output and timing of `main` and of both matchers are not modelled.
- The PIC loop runs on one thread, in station ID order. OpenMP's `parallel for` and its `critical` section are not modelled.
- Floating point rounding is not modelled: reals are exact. `sqrt` and `pow` are a square-root parameter, and comparisons are made on squared distances. `deg2rad` and `rad2deg` are not modelled because the core never calls them.
- Greedy.MatchGreedy: requires a non-empty link map. The code dereferences `links->begin()` without a check, so an empty map is undefined behaviour.
- Grids.Build: requires at least one node and a positive cell size, for the same reason (`nodeMap->begin()` and division by `dimension`).
- Pic.MatchPic: requires at least one node and a positive cell size (`Grid::build`).
- Pic.MatchPic uses the corrected lookup `Grids.Containing` in place of `getCellContainingVDS`, which can index past its cell vectors (see Findings).
- Pic.Dimension: requires a non-zero divisor. The longest link length is a parameter, because `findMinMaxMeanLengthOfLinks` is not modelled.
- `findMinMaxMeanLengthOfLinks`, `findMinMaxMeanLengthOfRoads`, `getMeanNumOfLinksPerRoad`, `getPosLimits`, `getMinMaxPosCoords` and `Link::getNodes` are not modelled. They are statistics and accessors outside the matching.
- Destructors, `delete*` and copy semantics of heap objects are not modelled: the model has no memory.
- `VDS.cpp`, `NetworkElement.cpp` and the headers are not modelled beyond the fields the model's datatypes carry. The Python files are not part of this model.
- `Grid::assignVDSToGrid` and the default `Grid()` constructor are not modelled: nothing in the core calls them.
- RoadBuilding.Walk: each walk takes at most one step per link object. The code's loop test is commented out, so its walk would not end on a cycle of departure links. With distinct link IDs, each link is the departure after at most one arriving link and a start link is never a departure, so such a cycle looks impossible. This model does not prove it. Walks longer than the bound are not modelled.
- RoadBuilding.CreateRoads: states which walk each road follows. It does not state that the walk's start link had no road when the road began, since the road map keeps no history of that; the inner loop only starts roads on such links.
- RoadBuilding.CreateRoads: requires an empty road map, as `build` leaves it after `createNodesAndLinks`. With roads present, numbering by the road count could replace an entry.
- LinkAssignment.AssignLinksToGrid: requires that the lookup finds a cell for both nodes of every link. `LinkAssignment.BuiltReachable` shows this holds on the grid `build` makes, which is the only grid the code assigns to.
- Links.IsOppositeOf: `setOppositeLink` is never called in the repository, so opposite links stay null. The model keeps a general optional field.
- Roads.NewRoad: the code leaves a new road's length unset until `computeLength`; the model starts it at zero.

## Findings

| source | as written | input that shows it | evidently intended | confidence | as-written member | corrected member |
|---|---|---|---|---|---|---|
| createGraph/Grid.cpp:206-213 | a position on the top side of the padded box gets row `(maxLat - minLat) / dimension` truncated, which is `numY` when the padded range is a whole number of cells; `cells[numY]` is read past the end of the vector (the right side and `numX` likewise, and `getCellContainingPos` at lines 230-237 is the same code) | one node at (0, 0), cell size 0.001, a station at latitude 0.001 and longitude 0: the grid has two rows and the station gets row index 2 | positions on the top or right side belong to the last row or column | not executed | Grids.ContainingAsWritten, Grids.TopSideEscapesExample | Grids.Containing, Grids.ContainingContains |

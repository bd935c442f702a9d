/**
 * A directed road-network link (`Link`). The original keeps links as heap objects that
 * point at each other; here every link object created lives at a fixed position of a
 * store (`seq<Link>`), and a `LinkRef` is that position. Node, road and cell maps hold
 * `LinkRef`s, as the original's maps hold `Link*`.
 *
 * A link refers to its start and end nodes by node ID, and to its road by road ID: the
 * original network never holds two node or road objects with the same ID.
 */
module Links {
  import opened Wrappers
  import opened StdMap
  import opened MathFunc

  /** Position of a link object in the store of all link objects. */
  type LinkRef = nat

  datatype Direction = OneWay | Bidirectional

  /** The four neighbour maps of a link: links into and out of its start node ("before")
      and into and out of its end node ("after"). */
  datatype NeighbourKind = BeforeIn | BeforeOut | AfterIn | AfterOut

  datatype Link = Link(
    id: int,
    start: int,
    end: int,
    length: real,
    direction: Direction,
    opposite: Option<LinkRef>,
    road: Option<int>,
    beforeIn: map<int, LinkRef>,
    beforeOut: map<int, LinkRef>,
    afterIn: map<int, LinkRef>,
    afterOut: map<int, LinkRef>)
  {
    /** The neighbour map of the given kind. */
    function Neighbours(kind: NeighbourKind): map<int, LinkRef>
    {
      match kind
      case BeforeIn => beforeIn
      case BeforeOut => beforeOut
      case AfterIn => afterIn
      case AfterOut => afterOut
    }
  }

  /** `Link(ID, startNode, endNode)`: zero length, one-way, no opposite link, no road and
      no neighbours. */
  function NewLink(id: int, start: int, end: int): (l: Link)
    ensures l.id == id && l.start == start && l.end == end
    ensures l.length == 0.0 && l.direction == OneWay
    ensures l.opposite == None && l.road == None
    ensures forall kind :: l.Neighbours(kind) == map[]
  {
    Link(id, start, end, 0.0, OneWay, None, None, map[], map[], map[], map[])
  }

  /** `addBeforeInLink`, `addBeforeOutLink`, `addAfterInLink` and `addAfterOutLink`:
      insert into the neighbour map of the given kind when the ID is absent. */
  function AddNeighbour(l: Link, kind: NeighbourKind, id: int, h: LinkRef): (r: Link)
    ensures r.Neighbours(kind).Keys == l.Neighbours(kind).Keys + {id}
    ensures forall k | k in l.Neighbours(kind) :: r.Neighbours(kind)[k] == l.Neighbours(kind)[k]
    ensures id !in l.Neighbours(kind) ==> r.Neighbours(kind)[id] == h
    ensures forall other | other != kind :: r.Neighbours(other) == l.Neighbours(other)
    ensures r.id == l.id && r.start == l.start && r.end == l.end && r.length == l.length
    ensures r.opposite == l.opposite && r.road == l.road && r.direction == l.direction
  {
    match kind
    case BeforeIn => l.(beforeIn := InsertIfAbsent(l.beforeIn, id, h))
    case BeforeOut => l.(beforeOut := InsertIfAbsent(l.beforeOut, id, h))
    case AfterIn => l.(afterIn := InsertIfAbsent(l.afterIn, id, h))
    case AfterOut => l.(afterOut := InsertIfAbsent(l.afterOut, id, h))
  }

  /** A repeated `add...Link` with an ID already present is a no-op. */
  lemma AddNeighbourIdempotent(l: Link, kind: NeighbourKind, id: int, h: LinkRef, h': LinkRef)
    ensures AddNeighbour(AddNeighbour(l, kind, id, h), kind, id, h') == AddNeighbour(l, kind, id, h)
    ensures id in l.Neighbours(kind) ==> AddNeighbour(l, kind, id, h') == l
  {
    InsertIfAbsentIdempotent(l.Neighbours(kind), id, h, h');
    InsertIfAbsentCases(l.Neighbours(kind), id, h');
  }

  /** `computeLength`, given the coordinates of the start and end nodes: only the length
      changes. */
  function ComputeLength(root: real -> real, l: Link, sLon: real, sLat: real, eLon: real, eLat: real): (r: Link)
    ensures r == l.(length := r.length)
    ensures IsSquareRoot(root) ==>
      && r.length >= 0.0
      && Sq(r.length) == Sq(Delta(sLon, eLon)) + Sq(Delta(sLat, eLat))
      && (r.length == 0.0 <==> sLon == eLon && sLat == eLat)
  {
    var d := PointsDistance(root, sLon, sLat, eLon, eLat);
    assert IsSquareRoot(root) ==>
      && d >= 0.0
      && Sq(d) == Sq(Delta(sLon, eLon)) + Sq(Delta(sLat, eLat))
      && (d == 0.0 <==> sLon == eLon && sLat == eLat) by {
      if IsSquareRoot(root) {
        PointsDistanceMeaning(root, sLon, sLat, eLon, eLat);
      }
    }
    l.(length := d)
  }

  /** `isOppositeOf(pLink)`: the link's opposite link equals `pLink`; `None` stands for
      `nullptr` on either side. */
  predicate IsOppositeOf(l: Link, p: Option<LinkRef>)
  {
    l.opposite == p
  }

  /** A freshly created link is the opposite of no link: the constructor leaves the
      opposite link null, and the original never sets it. */
  lemma NewLinkHasNoOpposite(id: int, start: int, end: int, h: LinkRef)
    ensures !IsOppositeOf(NewLink(id, start, end), Some(h))
    ensures IsOppositeOf(NewLink(id, start, end), None)
  {
  }

  /** `setRoadOfLink`: only the road changes. */
  function SetRoad(l: Link, road: int): (r: Link)
    ensures r.road == Some(road)
    ensures r == l.(road := r.road)
  {
    l.(road := Some(road))
  }
}

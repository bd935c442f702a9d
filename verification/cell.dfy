/**
 * A cell (`Cell`): one rectangle of the grid, with its ID, its column `indexX` and row
 * `indexY`, its down-left and up-right corners, and the links assigned to it in the
 * order they were added (a vector, so a link can occur more than once).
 */
module Cells {
  import opened Wrappers
  import opened GeoPosition
  import opened Links

  datatype Cell = Cell(id: int, downLeft: Option<GeoPos>, upRight: Option<GeoPos>, links: seq<LinkRef>,
                       indexX: int, indexY: int)

  /** `Cell(ID)`: no corners (null), no links, and both indices -1. */
  function NewCell(id: int): (c: Cell)
    ensures c.id == id && c.indexX == -1 && c.indexY == -1
    ensures c.downLeft == None && c.upRight == None && c.links == []
  {
    Cell(id, None, None, [], -1, -1)
  }

  /** `Cell()`: the default constructor, a cell with ID -1. */
  function DefaultCell(): (c: Cell)
    ensures c == NewCell(-1)
  {
    Cell(-1, None, None, [], -1, -1)
  }

  function SetId(c: Cell, id: int): (r: Cell)
    ensures r.id == id && r == c.(id := r.id)
  {
    c.(id := id)
  }

  function SetIndexX(c: Cell, x: int): (r: Cell)
    ensures r.indexX == x && r == c.(indexX := r.indexX)
  {
    c.(indexX := x)
  }

  function SetIndexY(c: Cell, y: int): (r: Cell)
    ensures r.indexY == y && r == c.(indexY := r.indexY)
  {
    c.(indexY := y)
  }

  function SetDownLeft(c: Cell, p: GeoPos): (r: Cell)
    ensures r.downLeft == Some(p) && r == c.(downLeft := r.downLeft)
  {
    c.(downLeft := Some(p))
  }

  function SetUpRight(c: Cell, p: GeoPos): (r: Cell)
    ensures r.upRight == Some(p) && r == c.(upRight := r.upRight)
  {
    c.(upRight := Some(p))
  }

  /** `addLink`: append, with no test for a link already present. */
  function AddLink(c: Cell, h: LinkRef): (r: Cell)
    ensures r == c.(links := r.links)
    ensures |r.links| == |c.links| + 1 && r.links[|c.links|] == h
    ensures forall i | 0 <= i < |c.links| :: r.links[i] == c.links[i]
  {
    c.(links := c.links + [h])
  }

  /** Each getter returns what its setter stored last, and setters of different fields
      commute: the five setters are independent. */
  lemma SettersRoundTrip(c: Cell, id: int, x: int, y: int, p: GeoPos, q: GeoPos)
    ensures var r := SetUpRight(SetDownLeft(SetIndexY(SetIndexX(SetId(c, id), x), y), p), q);
      && r.id == id && r.indexX == x && r.indexY == y && r.downLeft == Some(p) && r.upRight == Some(q)
      && r.links == c.links
    ensures SetIndexX(SetIndexY(c, y), x) == SetIndexY(SetIndexX(c, x), y)
    ensures SetIndexX(SetIndexX(c, y), x) == SetIndexX(c, x)
    ensures SetDownLeft(SetUpRight(c, q), p) == SetUpRight(SetDownLeft(c, p), q)
  {
  }

  /** `addLink` keeps duplicates: adding a link already present adds one more copy. */
  lemma AddLinkCounts(c: Cell, h: LinkRef, g: LinkRef)
    ensures multiset(AddLink(c, h).links)[h] == multiset(c.links)[h] + 1
    ensures g != h ==> multiset(AddLink(c, h).links)[g] == multiset(c.links)[g]
  {
    assert AddLink(c, h).links == c.links + [h];
  }
}

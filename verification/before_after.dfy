/**
 * `Network::createBeforeAfterLinks`: for every link of the link map, in ID order, the
 * links into and out of its start node become its "before in" and "before out"
 * neighbours, and the links into and out of its end node its "after in" and "after out"
 * neighbours, the link itself excepted. Only neighbour maps change.
 */
module BeforeAfter {
  import opened OrderedKeys
  import opened Folds
  import opened Links
  import opened Nodes
  import opened Networks

  /** Everything of a link but its four neighbour maps. */
  predicate SameButNeighbours(a: Link, b: Link)
  {
    a.id == b.id && a.start == b.start && a.end == b.end && a.length == b.length
    && a.direction == b.direction && a.opposite == b.opposite && a.road == b.road
  }

  /** One of the four inner loops: `add...Link(it->first, it->second)` for the keys `ks`
      of `m` in order, skipping the key `self`. */
  function AddAllBut(l: Link, kind: NeighbourKind, m: map<int, LinkRef>, ks: seq<int>, self: int): (r: Link)
    requires forall i | 0 <= i < |ks| :: ks[i] in m
    ensures SameButNeighbours(r, l)
    ensures kind != BeforeIn ==> r.beforeIn == l.beforeIn
    ensures kind != BeforeOut ==> r.beforeOut == l.beforeOut
    ensures kind != AfterIn ==> r.afterIn == l.afterIn
    ensures kind != AfterOut ==> r.afterOut == l.afterOut
    decreases |ks|
  {
    if |ks| == 0 then l
    else
      var r := AddAllBut(l, kind, m, ks[..|ks| - 1], self);
      var k := ks[|ks| - 1];
      if k != self then AddNeighbour(r, kind, k, m[k]) else r
  }

  /** `n'` is `n` merged, insert-if-absent, with `src` less the entry `self`: the old
      entries stay as they were, and every other key of `src` comes with its entry. */
  ghost predicate MergedFrom(n: map<int, LinkRef>, n': map<int, LinkRef>, src: map<int, LinkRef>, self: int)
  {
    forall k ::
      && (k in n' <==> k in n || (k in src && k != self))
      && (k in n' ==> n'[k] == if k in n then n[k] else src[k])
  }

  /** After the inner loop the neighbour map holds its old entries unchanged, plus every
      visited key other than `self` with its entry from `m`. */
  lemma {:induction false} AddAllButContents(l: Link, kind: NeighbourKind, m: map<int, LinkRef>, ks: seq<int>, self: int)
    requires forall i | 0 <= i < |ks| :: ks[i] in m
    ensures var n, n' := l.Neighbours(kind), AddAllBut(l, kind, m, ks, self).Neighbours(kind);
      && (forall k :: k in n' <==> k in n || (k in ks && k != self))
      && (forall k | k in n' :: n'[k] == if k in n then n[k] else m[k])
    decreases |ks|
  {
    if |ks| > 0 {
      var prefix := ks[..|ks| - 1];
      AddAllButContents(l, kind, m, prefix, self);
      assert forall k :: k in ks <==> k in prefix || k == ks[|ks| - 1];
    }
  }

  /** The inner loop over all keys of `m`, in order, merges `m` less `self` into the
      neighbour map of that kind and leaves the others alone. */
  lemma AddAllButMerges(l: Link, kind: NeighbourKind, m: map<int, LinkRef>, self: int)
    ensures var r := AddAllBut(l, kind, m, Ascending(m.Keys), self);
      && MergedFrom(l.Neighbours(kind), r.Neighbours(kind), m, self)
      && SameButNeighbours(r, l)
      && (kind != BeforeIn ==> r.beforeIn == l.beforeIn)
      && (kind != BeforeOut ==> r.beforeOut == l.beforeOut)
      && (kind != AfterIn ==> r.afterIn == l.afterIn)
      && (kind != AfterOut ==> r.afterOut == l.afterOut)
  {
    AddAllButContents(l, kind, m, Ascending(m.Keys), self);
  }

  /** The body of the outer loop for the link object `l` stored under `id`. */
  function FillLink(nodes: map<int, Node>, l: Link, id: int): (r: Link)
    requires l.start in nodes && l.end in nodes
    ensures SameButNeighbours(r, l)
  {
    var bi, bo := nodes[l.start].incoming, nodes[l.start].outgoing;
    var ai, ao := nodes[l.end].incoming, nodes[l.end].outgoing;
    var l1 := AddAllBut(l, BeforeIn, bi, Ascending(bi.Keys), id);
    var l2 := AddAllBut(l1, BeforeOut, bo, Ascending(bo.Keys), id);
    var l3 := AddAllBut(l2, AfterIn, ai, Ascending(ai.Keys), id);
    AddAllBut(l3, AfterOut, ao, Ascending(ao.Keys), id)
  }

  /** `filled` is `l` with before-in and before-out merged with the incoming and outgoing
      links of its start node, and after-in and after-out with those of its end node, the
      link's own ID `id` excepted. */
  ghost predicate Filled(nodes: map<int, Node>, l: Link, filled: Link, id: int)
    requires l.start in nodes && l.end in nodes
  {
    && MergedFrom(l.beforeIn, filled.beforeIn, nodes[l.start].incoming, id)
    && MergedFrom(l.beforeOut, filled.beforeOut, nodes[l.start].outgoing, id)
    && MergedFrom(l.afterIn, filled.afterIn, nodes[l.end].incoming, id)
    && MergedFrom(l.afterOut, filled.afterOut, nodes[l.end].outgoing, id)
  }

  /** The four inner loops fill the four neighbour maps as `Filled` says. */
  lemma FillLinkFills(nodes: map<int, Node>, l: Link, id: int)
    requires l.start in nodes && l.end in nodes
    ensures Filled(nodes, l, FillLink(nodes, l, id), id)
  {
    var bi, bo := nodes[l.start].incoming, nodes[l.start].outgoing;
    var ai, ao := nodes[l.end].incoming, nodes[l.end].outgoing;
    var l1 := AddAllBut(l, BeforeIn, bi, Ascending(bi.Keys), id);
    var l2 := AddAllBut(l1, BeforeOut, bo, Ascending(bo.Keys), id);
    var l3 := AddAllBut(l2, AfterIn, ai, Ascending(ai.Keys), id);
    AddAllButMerges(l, BeforeIn, bi, id);
    AddAllButMerges(l1, BeforeOut, bo, id);
    AddAllButMerges(l2, AfterIn, ai, id);
    AddAllButMerges(l3, AfterOut, ao, id);
  }

  /** A neighbour map that was empty ends up with exactly the node's links, the link's own
      ID excepted; in particular a link is never its own neighbour. */
  lemma MergedFromEmpty(n': map<int, LinkRef>, src: map<int, LinkRef>, self: int)
    requires MergedFrom(map[], n', src, self)
    ensures n' == map k | k in src && k != self :: src[k]
    ensures self !in n'
  {
    var want := map k | k in src && k != self :: src[k];
    var empty: map<int, LinkRef> := map[];
    forall k
      ensures k in n' <==> k in want
    {
      assert k in n' <==> k in empty || (k in src && k != self);
    }
    assert n'.Keys == want.Keys;
  }

  /** The link object at `h` is the one the link map keeps under its ID: the outer loop
      visits exactly these. */
  predicate Owned(net: Network, h: LinkRef)
    requires h < |net.arena|
  {
    net.arena[h].id in net.links && net.links[net.arena[h].id] == h
  }

  /** The link object at `h` once the outer loop has visited every ID but those in
      `todo`. */
  function Refilled(net: Network, todo: set<int>, h: LinkRef): Link
    requires Valid(net) && h < |net.arena|
  {
    if Owned(net, h) && net.arena[h].id !in todo then FillLink(net.nodes, net.arena[h], net.arena[h].id)
    else net.arena[h]
  }

  /** `createBeforeAfterLinks`, visiting the link map in ID order: each link object the
      link map keeps is refilled from its nodes, every other one stays as it was. */
  method CreateBeforeAfterLinks(net: Network) returns (r: Network)
    requires Valid(net)
    ensures r == net.(arena := r.arena)
    ensures |r.arena| == |net.arena|
    ensures forall h | 0 <= h < |net.arena| :: r.arena[h] == Refilled(net, {}, h)
  {
    var todo := net.links.Keys;
    var arena := net.arena;
    while todo != {}
      invariant todo <= net.links.Keys
      invariant |arena| == |net.arena|
      invariant forall h | 0 <= h < |arena| :: arena[h] == Refilled(net, todo, h)
      decreases |todo|
    {
      var id := Least(todo);
      var h := net.links[id];
      RefillStep(net, todo, arena, id);
      arena := arena[h := FillLink(net.nodes, arena[h], id)];
      todo := todo - {id};
    }
    r := net.(arena := arena);
  }

  /** Visiting one more ID refills exactly the link object the link map keeps under it. */
  lemma RefillStep(net: Network, todo: set<int>, arena: seq<Link>, id: int)
    requires Valid(net) && todo <= net.links.Keys && id in todo
    requires |arena| == |net.arena|
    requires forall h | 0 <= h < |arena| :: arena[h] == Refilled(net, todo, h)
    ensures net.links[id] < |arena| && arena[net.links[id]] == net.arena[net.links[id]]
    ensures var h := net.links[id];
      var arena' := arena[h := FillLink(net.nodes, arena[h], id)];
      forall g | 0 <= g < |arena'| :: arena'[g] == Refilled(net, todo - {id}, g)
  {
    var h := net.links[id];
    assert arena[h] == net.arena[h];
  }

  /** What the refilled link objects are: the ones the link map keeps have their
      neighbour maps filled from their nodes (`Filled`), the others are untouched, and
      nothing but neighbour maps changes. */
  lemma RefilledMeaning(net: Network, arena: seq<Link>)
    requires Valid(net) && |arena| == |net.arena|
    requires forall h | 0 <= h < |net.arena| :: arena[h] == Refilled(net, {}, h)
    ensures forall h | 0 <= h < |net.arena| :: SameButNeighbours(arena[h], net.arena[h])
    ensures forall id | id in net.links :: Filled(net.nodes, net.arena[net.links[id]], arena[net.links[id]], id)
    ensures forall h | 0 <= h < |net.arena| && !Owned(net, h) :: arena[h] == net.arena[h]
  {
    forall id | id in net.links
      ensures Filled(net.nodes, net.arena[net.links[id]], arena[net.links[id]], id)
    {
      FillLinkFills(net.nodes, net.arena[net.links[id]], id);
    }
  }

  /** On link objects fresh from `createNodesAndLinks` (all neighbour maps empty), each
      link the link map keeps under `id` ends up with exactly the links into and out of
      its start node as "before" neighbours and those of its end node as "after"
      neighbours, less itself; no link is its own neighbour. */
  lemma BeforeAfterOfFreshLinks(net: Network, arena: seq<Link>)
    requires Valid(net) && |arena| == |net.arena|
    requires forall h | 0 <= h < |net.arena| ::
      && net.arena[h].beforeIn == map[] && net.arena[h].beforeOut == map[]
      && net.arena[h].afterIn == map[] && net.arena[h].afterOut == map[]
    requires forall h | 0 <= h < |net.arena| :: arena[h] == Refilled(net, {}, h)
    ensures forall id | id in net.links ::
      var h := net.links[id];
      var s, e := net.nodes[net.arena[h].start], net.nodes[net.arena[h].end];
      && arena[h].beforeIn == (map k | k in s.incoming && k != id :: s.incoming[k])
      && arena[h].beforeOut == (map k | k in s.outgoing && k != id :: s.outgoing[k])
      && arena[h].afterIn == (map k | k in e.incoming && k != id :: e.incoming[k])
      && arena[h].afterOut == (map k | k in e.outgoing && k != id :: e.outgoing[k])
      && id !in arena[h].beforeIn && id !in arena[h].beforeOut
      && id !in arena[h].afterIn && id !in arena[h].afterOut
  {
    RefilledMeaning(net, arena);
    forall id | id in net.links
      ensures var h := net.links[id];
        var s, e := net.nodes[net.arena[h].start], net.nodes[net.arena[h].end];
        && arena[h].beforeIn == (map k | k in s.incoming && k != id :: s.incoming[k])
        && arena[h].beforeOut == (map k | k in s.outgoing && k != id :: s.outgoing[k])
        && arena[h].afterIn == (map k | k in e.incoming && k != id :: e.incoming[k])
        && arena[h].afterOut == (map k | k in e.outgoing && k != id :: e.outgoing[k])
        && id !in arena[h].beforeIn && id !in arena[h].beforeOut
        && id !in arena[h].afterIn && id !in arena[h].afterOut
    {
      var h := net.links[id];
      var l := net.arena[h];
      var s, e := net.nodes[l.start], net.nodes[l.end];
      assert Filled(net.nodes, l, arena[h], id);
      MergedFromEmpty(arena[h].beforeIn, s.incoming, id);
      MergedFromEmpty(arena[h].beforeOut, s.outgoing, id);
      MergedFromEmpty(arena[h].afterIn, e.incoming, id);
      MergedFromEmpty(arena[h].afterOut, e.outgoing, id);
    }
  }
}

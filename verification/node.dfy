/**
 * A network node (`Node`): its position, and the links that arrive at it and leave it,
 * keyed by link ID. A node is "intermediate" when a road passes straight through it, so
 * that the road-building walk continues across it instead of ending there.
 */
module Nodes {
  import opened Wrappers
  import opened StdMap
  import opened OrderedKeys
  import opened GeoPosition
  import opened Links

  datatype Node = Node(id: int, pos: GeoPos, incoming: map<int, LinkRef>, outgoing: map<int, LinkRef>)

  /** `Node(ID, lat, lon)`: the node at that position, with no links. */
  function NewNode(id: int, lat: real, lon: real): (n: Node)
    ensures n.id == id && n.pos.lat == lat && n.pos.lon == lon
    ensures n.incoming == map[] && n.outgoing == map[]
  {
    Node(id, GeoPos(lat, lon), map[], map[])
  }

  /** `addIncomingLink`: insert when the link ID is absent; nothing else changes. */
  function AddIncomingLink(n: Node, id: int, h: LinkRef): (r: Node)
    ensures r.incoming.Keys == n.incoming.Keys + {id}
    ensures forall k | k in n.incoming :: r.incoming[k] == n.incoming[k]
    ensures id !in n.incoming ==> r.incoming[id] == h
    ensures r == n.(incoming := r.incoming)
  {
    n.(incoming := InsertIfAbsent(n.incoming, id, h))
  }

  /** `addOutgoingLink`: insert when the link ID is absent; nothing else changes. */
  function AddOutgoingLink(n: Node, id: int, h: LinkRef): (r: Node)
    ensures r.outgoing.Keys == n.outgoing.Keys + {id}
    ensures forall k | k in n.outgoing :: r.outgoing[k] == n.outgoing[k]
    ensures id !in n.outgoing ==> r.outgoing[id] == h
    ensures r == n.(outgoing := r.outgoing)
  {
    n.(outgoing := InsertIfAbsent(n.outgoing, id, h))
  }

  /** Adding a link ID a second time is a no-op, whichever link object comes with it. */
  lemma AddLinkIdempotent(n: Node, id: int, h: LinkRef, h': LinkRef)
    ensures AddIncomingLink(AddIncomingLink(n, id, h), id, h') == AddIncomingLink(n, id, h)
    ensures AddOutgoingLink(AddOutgoingLink(n, id, h), id, h') == AddOutgoingLink(n, id, h)
  {
    InsertIfAbsentIdempotent(n.incoming, id, h, h');
    InsertIfAbsentIdempotent(n.outgoing, id, h, h');
  }

  /** `getIncomingLink`: null exactly when the ID is absent. */
  function IncomingLink(n: Node, id: int): (r: Option<LinkRef>)
    ensures r.Some? <==> id in n.incoming
    ensures r.Some? ==> r.value == n.incoming[id]
  {
    Find(n.incoming, id)
  }

  /** `getOutgoingLink`: null exactly when the ID is absent. */
  function OutgoingLink(n: Node, id: int): (r: Option<LinkRef>)
    ensures r.Some? <==> id in n.outgoing
    ensures r.Some? ==> r.value == n.outgoing[id]
  {
    Find(n.outgoing, id)
  }

  /** Every link the node refers to lies in a store of `count` link objects. */
  predicate RefsBelow(n: Node, count: nat)
  {
    && (forall k | k in n.incoming :: n.incoming[k] < count)
    && (forall k | k in n.outgoing :: n.outgoing[k] < count)
  }

  /** The link of a one-entry map (`begin()`). */
  function Only(m: map<int, LinkRef>): (h: LinkRef)
    requires |m| == 1
    ensures forall k | k in m :: m[k] == h
  {
    SingleKey(m.Keys);
    m[Least(m.Keys)]
  }

  /** The two keys of a two-entry map in the order the original names them: after
      `it2 = it1++`, the iterator `it1` has moved on to the entry with the LARGER key,
      and `it2` stays at `begin()`, the smaller key. */
  function PairKeysOf(m: map<int, LinkRef>): (ks: (int, int))
    requires |m| == 2
    ensures ks.0 in m && ks.1 in m && ks.1 < ks.0
    ensures m.Keys == {ks.0, ks.1}
  {
    TwoKeys(m.Keys);
    var smaller := Least(m.Keys);
    (Least(m.Keys - {smaller}), smaller)
  }

  /** Of a two-entry map, the link the original reaches through `it...1`. */
  function First(m: map<int, LinkRef>): LinkRef
    requires |m| == 2
  {
    m[PairKeysOf(m).0]
  }

  /** Of a two-entry map, the link the original reaches through `it...2`. */
  function Second(m: map<int, LinkRef>): LinkRef
    requires |m| == 2
  {
    m[PairKeysOf(m).1]
  }

  /** The pairing test of the two-in, two-out case: the two outgoing links are the
      opposites of the two incoming links, under one of the two ways to pair them. */
  predicate PairedAsOpposites(arena: seq<Link>, n: Node)
    requires RefsBelow(n, |arena|)
    requires |n.outgoing| == 2 && |n.incoming| == 2
  {
    var o1, o2 := First(n.outgoing), Second(n.outgoing);
    var i1, i2 := First(n.incoming), Second(n.incoming);
    || (IsOppositeOf(arena[o1], Some(i1)) && IsOppositeOf(arena[o2], Some(i2)))
    || (IsOppositeOf(arena[o1], Some(i2)) && IsOppositeOf(arena[o2], Some(i1)))
  }

  /** `isIntermediate`. A node with one link in and one link out is intermediate unless
      the outgoing link is the opposite of the incoming one (a dead end that turns back).
      A node with two in and two out is intermediate when they pair up as opposites (a
      two-way road passing through). Any other node is not. */
  predicate IsIntermediate(arena: seq<Link>, n: Node)
    requires RefsBelow(n, |arena|)
  {
    if |n.outgoing| == 1 && |n.incoming| == 1 then
      !IsOppositeOf(arena[Only(n.outgoing)], Some(Only(n.incoming)))
    else if |n.outgoing| == 2 && |n.incoming| == 2 then
      PairedAsOpposites(arena, n)
    else
      false
  }

  /** An order-free statement of the two-in, two-out rule: some bijection between the
      outgoing and the incoming links makes each outgoing link the opposite of its
      partner. */
  ghost predicate HasOppositePairing(arena: seq<Link>, n: Node)
    requires RefsBelow(n, |arena|)
  {
    exists a, b, c, d :: a != b && c != d && OutOppositeOfIn(arena, n, a, c) && OutOppositeOfIn(arena, n, b, d)
  }

  /** The outgoing link with ID `a` is the opposite of the incoming link with ID `c`. */
  predicate OutOppositeOfIn(arena: seq<Link>, n: Node, a: int, c: int)
    requires RefsBelow(n, |arena|)
  {
    a in n.outgoing && c in n.incoming && IsOppositeOf(arena[n.outgoing[a]], Some(n.incoming[c]))
  }

  /** `isIntermediate` does not depend on the iteration order of the link maps: it holds
      exactly for a one-in, one-out node whose outgoing link is not the opposite of its
      incoming link, and for a two-in, two-out node whose links pair up as opposites. */
  lemma IsIntermediateMeaning(arena: seq<Link>, n: Node)
    requires RefsBelow(n, |arena|)
    ensures IsIntermediate(arena, n) <==>
      || (&& |n.outgoing| == 1 && |n.incoming| == 1
          && forall a, c :: !OutOppositeOfIn(arena, n, a, c))
      || (|n.outgoing| == 2 && |n.incoming| == 2 && HasOppositePairing(arena, n))
  {
    if |n.outgoing| == 1 && |n.incoming| == 1 {
      SingleKey(n.outgoing.Keys);
      SingleKey(n.incoming.Keys);
      if !IsIntermediate(arena, n) {
        assert OutOppositeOfIn(arena, n, Least(n.outgoing.Keys), Least(n.incoming.Keys));
      }
    } else if |n.outgoing| == 2 && |n.incoming| == 2 {
      if PairedAsOpposites(arena, n) {
        PairedGivesPairing(arena, n);
      }
      if HasOppositePairing(arena, n) {
        PairingGivesPaired(arena, n);
      }
    }
  }

  lemma PairedGivesPairing(arena: seq<Link>, n: Node)
    requires RefsBelow(n, |arena|)
    requires |n.outgoing| == 2 && |n.incoming| == 2
    requires PairedAsOpposites(arena, n)
    ensures HasOppositePairing(arena, n)
  {
    var (o1, o2) := PairKeysOf(n.outgoing);
    var (i1, i2) := PairKeysOf(n.incoming);
    if OutOppositeOfIn(arena, n, o1, i1) && OutOppositeOfIn(arena, n, o2, i2) {
      assert o1 != o2 && i1 != i2;
    } else {
      assert OutOppositeOfIn(arena, n, o1, i2) && OutOppositeOfIn(arena, n, o2, i1);
      assert o1 != o2 && i2 != i1;
    }
  }

  lemma PairingGivesPaired(arena: seq<Link>, n: Node)
    requires RefsBelow(n, |arena|)
    requires |n.outgoing| == 2 && |n.incoming| == 2
    requires HasOppositePairing(arena, n)
    ensures PairedAsOpposites(arena, n)
  {
    var (o1, o2) := PairKeysOf(n.outgoing);
    var (i1, i2) := PairKeysOf(n.incoming);
    var a, b, c, d :| a != b && c != d && OutOppositeOfIn(arena, n, a, c) && OutOppositeOfIn(arena, n, b, d);
    assert a in n.outgoing.Keys && b in n.outgoing.Keys && c in n.incoming.Keys && d in n.incoming.Keys;
    if a == o1 {
      assert b == o2;
    } else {
      assert a == o2 && b == o1;
    }
  }

  /** `isIntermediateGetDepar(arrLink)`: the link a road continues on after arriving at
      the node by `arr`, or `None` when the road ends here. In the two-in, two-out case the
      original tries `itOutgoing1` (the larger link ID) first, then `itOutgoing2`, and takes
      the first one that is not the opposite of the arrival link. */
  function IsIntermediateGetDepar(arena: seq<Link>, n: Node, arr: LinkRef): (r: Option<LinkRef>)
    requires RefsBelow(n, |arena|)
    ensures r.Some? ==> IsIntermediate(arena, n)
    ensures r.Some? ==> exists k | k in n.outgoing :: n.outgoing[k] == r.value
    ensures |n.outgoing| == 1 && |n.incoming| == 1 ==> (r.Some? <==> IsIntermediate(arena, n))
    ensures |n.outgoing| == 2 && |n.incoming| == 2 && r.Some? ==> !IsOppositeOf(arena[r.value], Some(arr))
    ensures |n.outgoing| == 2 && |n.incoming| == 2 && IsIntermediate(arena, n)
      && (exists k | k in n.outgoing :: !IsOppositeOf(arena[n.outgoing[k]], Some(arr)))
      ==> r.Some?
  {
    if |n.outgoing| == 1 && |n.incoming| == 1 then
      var o := Only(n.outgoing);
      if !IsOppositeOf(arena[o], Some(Only(n.incoming))) then
        Some(o)
      else
        None
    else if |n.outgoing| == 2 && |n.incoming| == 2 then
      if PairedAsOpposites(arena, n) then
        if !IsOppositeOf(arena[First(n.outgoing)], Some(arr)) then
          Some(First(n.outgoing))
        else if !IsOppositeOf(arena[Second(n.outgoing)], Some(arr)) then
          Some(Second(n.outgoing))
        else
          None
      else
        None
    else
      None
  }
}

/** Which slots hold which subtree: the ghost structure that ties an arena to a tree. */
module Ownership {
  import opened Base
  import opened Trees
  import opened Locations

  type NodeId = nat

  /** One slot. `releases` counts how often it has been freed; the source keeps that count modulo 2^32
      in `generation`. While dead, `parent` is the next slot of the free list. */
  datatype Node = Node(
    kind: NodeType,
    scalar: Scalar,
    members: seq<(Text, NodeId)>,
    elements: seq<NodeId>,
    parent: Option<NodeId>,
    releases: nat,
    alive: bool)
  {
    function Generation(): UInt32 {
      releases % TWO_32
    }
  }

  /** What a slot says about itself, apart from its links. */
  datatype Head = Plain(scalar: Scalar) | Object(keys: seq<Text>) | Array

  /** A subtree together with the slots that hold it. */
  datatype Owned = Owned(id: NodeId, head: Head, kids: seq<Owned>)

  ghost function Erase(o: Owned): Tree {
    match o.head
    case Plain(s) => Leaf(s)
    case Object(keys) =>
      Obj(seq(|o.kids|, i requires 0 <= i < |o.kids| => (if i < |keys| then keys[i] else [], Erase(o.kids[i]))))
    case Array =>
      Arr(seq(|o.kids|, i requires 0 <= i < |o.kids| => Erase(o.kids[i])))
  }

  ghost predicate Shaped(o: Owned) {
    match o.head
    case Plain(_) => o.kids == []
    case Object(keys) => |keys| == |o.kids|
    case Array => true
  }

  /** The slot contents that represent the root of `o`. */
  ghost function RecordOf(o: Owned, parent: Option<NodeId>, releases: nat): Node
    requires Shaped(o)
  {
    match o.head
    case Plain(s) => Node(ScalarType(s), s, [], [], parent, releases, true)
    case Object(keys) =>
      Node(TObject, Null, seq(|keys|, i requires 0 <= i < |keys| => (keys[i], o.kids[i].id)), [], parent, releases,
           true)
    case Array =>
      Node(TArray, Null, [], seq(|o.kids|, i requires 0 <= i < |o.kids| => o.kids[i].id), parent, releases, true)
  }

  /** Every slot of `o` is live, holds its part of the tree and names its container as parent. */
  ghost predicate Holds(nodes: seq<Node>, o: Owned, parent: Option<NodeId>) {
    && o.id < |nodes|
    && Shaped(o)
    && nodes[o.id] == RecordOf(o, parent, nodes[o.id].releases)
    && forall i :: 0 <= i < |o.kids| ==> Holds(nodes, o.kids[i], Some(o.id))
  }

  ghost function Ids(o: Owned): multiset<NodeId> {
    multiset{o.id} + IdsOf(o.kids)
  }

  ghost function IdsOf(kids: seq<Owned>): multiset<NodeId> {
    if kids == [] then multiset{} else IdsOf(kids[..|kids| - 1]) + Ids(kids[|kids| - 1])
  }

  /** No slot is reached twice. */
  ghost predicate Once(ids: multiset<NodeId>) {
    forall x :: x in ids ==> ids[x] == 1
  }

  predicate Live(nodes: seq<Node>, x: NodeId) {
    x < |nodes| && nodes[x].alive
  }

  // ------------------------------------------------------------------ arithmetic of slot sets

  lemma {:induction false} IdsOfConcat(a: seq<Owned>, b: seq<Owned>)
    ensures IdsOf(a + b) == IdsOf(a) + IdsOf(b)
  {
    if b == [] {
      assert a + b == a;
    } else {
      assert (a + b)[..|a + b| - 1] == a + b[..|b| - 1];
      IdsOfConcat(a, b[..|b| - 1]);
    }
  }

  lemma {:induction false} IdsOfOne(o: Owned)
    ensures IdsOf([o]) == Ids(o)
  {
    assert [o][..0] == [];
  }

  /** The slots of one child, split off from those of its siblings. */
  lemma {:induction false} IdsSplitAt(kids: seq<Owned>, i: nat)
    requires i < |kids|
    ensures IdsOf(kids) == IdsOf(kids[..i]) + Ids(kids[i]) + IdsOf(kids[i + 1..])
  {
    var upTo := kids[..i + 1];
    assert kids == upTo + kids[i + 1..];
    IdsOfConcat(upTo, kids[i + 1..]);
    assert upTo[..i] == kids[..i];
  }

  lemma {:induction false} IdsWith(kids: seq<Owned>, i: nat, o: Owned)
    requires i < |kids|
    ensures IdsOf(kids[i := o]) + Ids(kids[i]) == IdsOf(kids) + Ids(o)
  {
    IdsSplitAt(kids, i);
    IdsSplitAt(kids[i := o], i);
    assert kids[i := o][..i] == kids[..i] && kids[i := o][i + 1..] == kids[i + 1..];
  }

  lemma {:induction false} KidWithin(kids: seq<Owned>, i: nat)
    requires i < |kids|
    ensures Ids(kids[i]) <= IdsOf(kids)
    ensures forall x :: x in Ids(kids[i]) ==> x in IdsOf(kids)
  {
    IdsSplitAt(kids, i);
  }

  lemma {:induction false} KidsApart(kids: seq<Owned>, i: nat, j: nat, x: NodeId)
    requires Once(IdsOf(kids)) && i < |kids| && j < |kids| && i != j
    requires x in Ids(kids[i])
    ensures x !in Ids(kids[j])
  {
    var a, b := if i < j then i else j, if i < j then j else i;
    IdsSplitAt(kids, b);
    KidWithin(kids[..b], a);
    assert Ids(kids[a])[x] + Ids(kids[b])[x] <= IdsOf(kids)[x];
  }

  lemma {:induction false} KidSlot(o: Owned, i: nat, x: NodeId)
    requires i < |o.kids| && x in Ids(o.kids[i])
    ensures x in IdsOf(o.kids) && x in Ids(o)
  {
    KidWithin(o.kids, i);
  }

  lemma SubOnce(small: multiset<NodeId>, big: multiset<NodeId>)
    requires small <= big && Once(big)
    ensures Once(small)
  {
    forall x | x in small
      ensures small[x] == 1
    {
      assert x in big;
    }
  }

  // ------------------------------------------------------------------ frames

  lemma RootApart(o: Owned)
    requires Once(Ids(o))
    ensures Once(IdsOf(o.kids)) && o.id !in IdsOf(o.kids)
    ensures forall x: NodeId :: x in Ids(o) <==> x == o.id || x in IdsOf(o.kids)
  {
    assert Ids(o)[o.id] == 1 + IdsOf(o.kids)[o.id];
    SubOnce(IdsOf(o.kids), Ids(o));
  }

  lemma {:induction false} HoldsFrame(before: seq<Node>, after: seq<Node>, o: Owned, parent: Option<NodeId>)
    requires Holds(before, o, parent)
    requires forall x :: x in Ids(o) && x < |before| ==> x < |after| && after[x] == before[x]
    ensures Holds(after, o, parent)
    decreases o
  {
    assert o.id in Ids(o);
    forall i | 0 <= i < |o.kids|
      ensures Holds(after, o.kids[i], Some(o.id))
    {
      forall x | x in Ids(o.kids[i]) && x < |before|
        ensures x < |after| && after[x] == before[x]
      {
        KidSlot(o, i, x);
      }
      HoldsFrame(before, after, o.kids[i], Some(o.id));
    }
  }

  lemma {:induction false} HoldsLive(nodes: seq<Node>, o: Owned, parent: Option<NodeId>)
    requires Holds(nodes, o, parent)
    ensures forall x :: x in Ids(o) ==> Live(nodes, x)
    decreases o, 0
  {
    HoldsLiveKids(nodes, o.kids, o.id);
  }

  lemma {:induction false} HoldsLiveKids(nodes: seq<Node>, kids: seq<Owned>, parent: NodeId)
    requires forall i :: 0 <= i < |kids| ==> Holds(nodes, kids[i], Some(parent))
    ensures forall x :: x in IdsOf(kids) ==> Live(nodes, x)
    decreases kids, 1
  {
    if kids != [] {
      var n := |kids| - 1;
      HoldsLiveKids(nodes, kids[..n], parent);
      HoldsLive(nodes, kids[n], Some(parent));
    }
  }

  // ------------------------------------------------------------------ positions

  ghost predicate SpotIn(o: Owned, spot: Spot)
    decreases |spot|
  {
    spot == [] || (spot[0] < |o.kids| && SpotIn(o.kids[spot[0]], spot[1..]))
  }

  ghost function PartAt(o: Owned, spot: Spot): Owned
    requires SpotIn(o, spot)
    decreases |spot|
  {
    if spot == [] then o else PartAt(o.kids[spot[0]], spot[1..])
  }

  ghost function PutPart(o: Owned, spot: Spot, p: Owned): Owned
    requires SpotIn(o, spot)
    decreases |spot|
  {
    if spot == [] then p else o.(kids := o.kids[spot[0] := PutPart(o.kids[spot[0]], spot[1..], p)])
  }

  /** The slot that contains the one at `spot`. */
  ghost function ParentAt(o: Owned, spot: Spot, parent: Option<NodeId>): Option<NodeId>
    requires SpotIn(o, spot)
    decreases |spot|
  {
    if spot == [] then parent else ParentAt(o.kids[spot[0]], spot[1..], Some(o.id))
  }

  lemma {:induction false} EraseKids(o: Owned)
    requires Shaped(o)
    ensures KidCount(Erase(o)) == |o.kids|
    ensures forall i :: 0 <= i < |o.kids| ==> Kid(Erase(o), i) == Erase(o.kids[i])
  {
  }

  lemma {:induction false} EraseAt(nodes: seq<Node>, o: Owned, parent: Option<NodeId>, spot: Spot)
    requires Holds(nodes, o, parent)
    ensures SpotIn(o, spot) <==> ValidAt(Erase(o), spot)
    ensures SpotIn(o, spot) ==> Erase(PartAt(o, spot)) == At(Erase(o), spot)
    ensures SpotIn(o, spot) ==> Holds(nodes, PartAt(o, spot), ParentAt(o, spot, parent))
    ensures SpotIn(o, spot) ==> Ids(PartAt(o, spot)) <= Ids(o)
    decreases |spot|
  {
    EraseKids(o);
    if spot != [] && spot[0] < |o.kids| {
      EraseAt(nodes, o.kids[spot[0]], Some(o.id), spot[1..]);
      KidWithin(o.kids, spot[0]);
    }
  }

  lemma {:induction false} ErasePut(o: Owned, spot: Spot, p: Owned, nodes: seq<Node>, parent: Option<NodeId>)
    requires Holds(nodes, o, parent) && SpotIn(o, spot)
    ensures ValidAt(Erase(o), spot)
    ensures Erase(PutPart(o, spot, p)) == Put(Erase(o), spot, Erase(p))
    decreases |spot|
  {
    EraseKids(o);
    if spot != [] {
      var i := spot[0];
      ErasePut(o.kids[i], spot[1..], p, nodes, Some(o.id));
      var kid := PutPart(o.kids[i], spot[1..], p);
      var q := o.(kids := o.kids[i := kid]);
      EraseKids(q);
      if o.head.Object? {
        assert Erase(q).members == WithKid(Erase(o), i, Erase(kid)).members;
      } else {
        assert Erase(q).elements == WithKid(Erase(o), i, Erase(kid)).elements;
      }
    }
  }

  lemma Exchange(a: multiset<NodeId>, b: multiset<NodeId>, c: multiset<NodeId>, d: multiset<NodeId>,
                 e: multiset<NodeId>, f: multiset<NodeId>)
    requires a + b == c + d && d + e == b + f
    ensures a + e == c + f
  {
    forall x
      ensures (a + e)[x] == (c + f)[x]
    {
      assert (a + b)[x] == (c + d)[x];
      assert (d + e)[x] == (b + f)[x];
    }
  }

  lemma {:induction false} IdsPut(o: Owned, spot: Spot, p: Owned)
    requires SpotIn(o, spot)
    ensures Ids(PutPart(o, spot, p)) + Ids(PartAt(o, spot)) == Ids(o) + Ids(p)
    decreases |spot|
  {
    if spot != [] {
      var kid := PutPart(o.kids[spot[0]], spot[1..], p);
      IdsPut(o.kids[spot[0]], spot[1..], p);
      IdsWith(o.kids, spot[0], kid);
      Exchange(IdsOf(o.kids[spot[0] := kid]), Ids(o.kids[spot[0]]), IdsOf(o.kids), Ids(kid),
               Ids(PartAt(o, spot)), Ids(p));
      assert Ids(PutPart(o, spot, p)) + Ids(PartAt(o, spot)) ==
             multiset{o.id} + (IdsOf(o.kids[spot[0] := kid]) + Ids(PartAt(o, spot)));
      assert Ids(o) + Ids(p) == multiset{o.id} + (IdsOf(o.kids) + Ids(p));
    }
  }

  /** Replacing a part in place: only its own slots may change, and its root keeps its slot. */
  lemma {:induction false} HoldsPut(before: seq<Node>, after: seq<Node>, o: Owned, parent: Option<NodeId>,
                                    spot: Spot, p: Owned)
    requires Holds(before, o, parent) && Once(Ids(o)) && SpotIn(o, spot)
    requires p.id == PartAt(o, spot).id
    requires Holds(after, p, ParentAt(o, spot, parent))
    requires forall x :: x in Ids(o) && x !in Ids(PartAt(o, spot)) && x < |before| ==>
               x < |after| && after[x] == before[x]
    ensures Holds(after, PutPart(o, spot, p), parent)
    decreases |spot|
  {
    if spot != [] {
      var i := spot[0];
      var kid := o.kids[i];
      KidWithin(o.kids, i);
      SubOnce(IdsOf(o.kids), Ids(o));
      SubOnce(Ids(kid), IdsOf(o.kids));
      HoldsPut(before, after, kid, Some(o.id), spot[1..], p);
      EraseAt(before, kid, Some(o.id), spot[1..]);
      forall j | 0 <= j < |o.kids| && j != i
        ensures Holds(after, o.kids[j], Some(o.id))
      {
        forall x | x in Ids(o.kids[j]) && x < |before|
          ensures x < |after| && after[x] == before[x]
        {
          KidSlot(o, j, x);
          KidsApart(o.kids, j, i, x);
        }
        HoldsFrame(before, after, o.kids[j], Some(o.id));
      }
      RootStays(before, after, o, parent, i, PutPart(kid, spot[1..], p));
    }
  }

  lemma {:induction false} RootStays(before: seq<Node>, after: seq<Node>, o: Owned, parent: Option<NodeId>, i: nat,
                                     kid: Owned)
    requires Holds(before, o, parent) && i < |o.kids| && kid.id == o.kids[i].id
    requires o.id < |after| && after[o.id] == before[o.id]
    requires Holds(after, kid, Some(o.id))
    requires forall j :: 0 <= j < |o.kids| && j != i ==> Holds(after, o.kids[j], Some(o.id))
    ensures Holds(after, o.(kids := o.kids[i := kid]), parent)
  {
    var q := o.(kids := o.kids[i := kid]);
    assert RecordOf(q, parent, 0).members == RecordOf(o, parent, 0).members;
    assert RecordOf(q, parent, 0).elements == RecordOf(o, parent, 0).elements;
  }
}

/** Building, freeing and replacing subtrees in an arena: the free functions of the model. */
module Subtrees {
  import opened Base
  import opened ConfigPath
  import opened Trees
  import opened Ownership
  import opened NodeArena

  // ------------------------------------------------------------------ how an arena may change

  /** Release counts only go up. */
  ghost predicate Aged(before: seq<Node>, after: seq<Node>) {
    |before| <= |after| && forall x :: 0 <= x < |before| ==> after[x].releases >= before[x].releases
  }

  /** Exactly the slots in `came` turned live; whatever was live is as it was. */
  ghost predicate Grew(before: seq<Node>, after: seq<Node>, came: multiset<NodeId>) {
    && Aged(before, after)
    && (forall x: NodeId :: Live(before, x) ==> after[x] == before[x])
    && (forall x: NodeId :: Live(after, x) <==> Live(before, x) || x in came)
    && (forall x: NodeId :: x in came ==> came[x] == 1 && !Live(before, x))
  }

  /** Exactly the slots in `gone` were freed, once each; every other slot is as it was. */
  ghost predicate Shrank(before: seq<Node>, after: seq<Node>, gone: multiset<NodeId>) {
    && |after| == |before|
    && (forall x :: 0 <= x < |before| && x !in gone ==> after[x] == before[x])
    && (forall x: NodeId :: x in gone && x < |before| ==>
          Cleared(after[x]) && after[x].releases == before[x].releases + 1)
  }

  /** A detached subtree that represents `value`, in slots that were not live before. */
  ghost predicate Built(before: seq<Node>, after: seq<Node>, o: Owned, value: Tree, parent: Option<NodeId>) {
    Holds(after, o, parent) && Erase(o) == value && Grew(before, after, Ids(o))
  }

  lemma GrewThenShrank(before: seq<Node>, middle: seq<Node>, after: seq<Node>, ids: multiset<NodeId>)
    requires Grew(before, middle, ids) && Shrank(middle, after, ids)
    ensures Grew(before, after, multiset{})
  {
    assert forall x: NodeId :: Live(after, x) <==> Live(middle, x) && x !in ids;
  }

  lemma GrewTwice(before: seq<Node>, middle: seq<Node>, after: seq<Node>, a: multiset<NodeId>, b: multiset<NodeId>)
    requires Grew(before, middle, a) && Grew(middle, after, b)
    ensures Grew(before, after, a + b)
  {
    forall x | x in a + b
      ensures (a + b)[x] == 1 && !Live(before, x)
    {
      assert (a + b)[x] == a[x] + b[x];
      assert x in a ==> Live(middle, x);
    }
    assert forall x :: x in a + b <==> x in a || x in b;
  }

  lemma GrewHolds(before: seq<Node>, after: seq<Node>, came: multiset<NodeId>, o: Owned, parent: Option<NodeId>)
    requires Grew(before, after, came) && Holds(before, o, parent)
    ensures Holds(after, o, parent)
  {
    HoldsLive(before, o, parent);
    HoldsFrame(before, after, o, parent);
  }

  lemma ShrankHolds(before: seq<Node>, after: seq<Node>, gone: multiset<NodeId>, o: Owned, parent: Option<NodeId>)
    requires Shrank(before, after, gone) && Holds(before, o, parent)
    requires forall x :: x in Ids(o) ==> x !in gone
    ensures Holds(after, o, parent)
  {
    HoldsFrame(before, after, o, parent);
  }

  // ------------------------------------------------------------------ linking a child

  /** A container that accepts a child under `segment`. */
  ghost predicate Accepts(o: Owned, segment: Segment) {
    Shaped(o) && if segment.Key? then o.head.Object? else o.head.Array?
  }

  ghost function AppendPart(o: Owned, segment: Segment, kid: Owned): Owned
    requires Accepts(o, segment)
  {
    Owned(o.id, if segment.Key? then Object(o.head.keys + [segment.key]) else Array, o.kids + [kid])
  }

  /** `members.emplace_back(key, id)` or `elements.push_back(id)`. */
  function LinkRecord(node: Node, segment: Segment, id: NodeId): Node {
    match segment
    case Key(key) => node.(members := node.members + [(key, id)])
    case Index(_) => node.(elements := node.elements + [id])
  }

  lemma AppendPartErase(o: Owned, segment: Segment, kid: Owned)
    requires Accepts(o, segment)
    ensures Erase(AppendPart(o, segment, kid)) == AppendKid(Erase(o), segment, Erase(kid))
  {
    var p := AppendPart(o, segment, kid);
    if segment.Key? {
      assert Erase(p).members == Erase(o).members + [(segment.key, Erase(kid))];
    } else {
      assert Erase(p).elements == Erase(o).elements + [Erase(kid)];
    }
  }

  lemma AppendPartIds(o: Owned, segment: Segment, kid: Owned)
    requires Accepts(o, segment)
    ensures Ids(AppendPart(o, segment, kid)) == Ids(o) + Ids(kid)
  {
    IdsOfConcat(o.kids, [kid]);
    IdsOfOne(kid);
  }

  lemma AppendPartRecord(o: Owned, segment: Segment, kid: Owned, parent: Option<NodeId>, releases: nat)
    requires Accepts(o, segment)
    ensures Shaped(AppendPart(o, segment, kid))
    ensures RecordOf(AppendPart(o, segment, kid), parent, releases) ==
            LinkRecord(RecordOf(o, parent, releases), segment, kid.id)
  {
    var p, q := RecordOf(AppendPart(o, segment, kid), parent, releases), RecordOf(o, parent, releases);
    if segment.Key? {
      assert p.members == q.members + [(segment.key, kid.id)];
    } else {
      assert p.elements == q.elements + [kid.id];
    }
  }

  lemma {:induction false} LinkHolds(nodes: seq<Node>, o: Owned, parent: Option<NodeId>, segment: Segment, kid: Owned)
    requires Holds(nodes, o, parent) && Holds(nodes, kid, Some(o.id)) && Accepts(o, segment)
    requires o.id !in Ids(kid) && o.id !in IdsOf(o.kids)
    ensures Holds(nodes[o.id := LinkRecord(nodes[o.id], segment, kid.id)], AppendPart(o, segment, kid), parent)
  {
    var after := nodes[o.id := LinkRecord(nodes[o.id], segment, kid.id)];
    var p := AppendPart(o, segment, kid);
    AppendPartRecord(o, segment, kid, parent, nodes[o.id].releases);
    HoldsFrame(nodes, after, kid, Some(o.id));
    forall i | 0 <= i < |p.kids|
      ensures Holds(after, p.kids[i], Some(o.id))
    {
      if i < |o.kids| {
        forall x | x in Ids(o.kids[i]) && x < |nodes|
          ensures after[x] == nodes[x]
        {
          KidSlot(o, i, x);
        }
        HoldsFrame(nodes, after, o.kids[i], Some(o.id));
      }
    }
  }

  // ------------------------------------------------------------------ freeing

  function IdList(members: seq<(Text, NodeId)>): (ids: seq<NodeId>)
    ensures |ids| == |members| && forall i :: 0 <= i < |members| ==> ids[i] == members[i].1
  {
    seq(|members|, i requires 0 <= i < |members| => members[i].1)
  }

  /** Frees a node and everything below it. */
  method FreeSubtree(arena: NodeArena, id: NodeId, ghost o: Owned, ghost parent: Option<NodeId>)
    requires arena.Valid() && Holds(arena.nodes, o, parent) && Once(Ids(o)) && o.id == id
    modifies arena
    ensures arena.Valid() && Shrank(old(arena.nodes), arena.nodes, Ids(o))
    decreases o, 2
  {
    hide FreeList;
    assert Live(arena.nodes, id);
    assert Ids(o)[id] == 1 + IdsOf(o.kids)[id];
    hide Holds, IdsOf;
    FreeChildren(arena, id, o, parent);
    arena.Release(id);
  }

  /** Frees all descendants; the node itself stays, with no children. */
  method FreeChildren(arena: NodeArena, id: NodeId, ghost o: Owned, ghost parent: Option<NodeId>)
    requires arena.Valid() && Holds(arena.nodes, o, parent) && Once(Ids(o)) && o.id == id
    modifies arena
    ensures arena.Valid()
    ensures Shrank(old(arena.nodes)[id := old(arena.nodes)[id].(members := [], elements := [])],
                   arena.nodes, IdsOf(o.kids))
    decreases o, 1
  {
    hide FreeList;
    ghost var before := arena.nodes;
    var node := arena.nodes[id];
    var members, elements := node.members, node.elements;
    assert Ids(o)[id] == 1 + IdsOf(o.kids)[id];
    arena.Store(id, node.(members := [], elements := []));
    KidsUnlinked(before, arena.nodes, o, parent);
    ghost var middle := arena.nodes;
    hide Holds, Ids, IdsOf;
    FreeEach(arena, IdList(members), o, id);
    ghost var late := arena.nodes;
    FreeEach(arena, elements, o, id);
    assert elements == [] || members == [];
  }

  lemma KidsUnlinked(before: seq<Node>, after: seq<Node>, o: Owned, parent: Option<NodeId>)
    requires Holds(before, o, parent) && Once(Ids(o))
    requires |after| == |before| && forall x :: 0 <= x < |before| && x != o.id ==> after[x] == before[x]
    ensures Once(IdsOf(o.kids)) && o.id !in IdsOf(o.kids)
    ensures forall i :: 0 <= i < |o.kids| ==> Holds(after, o.kids[i], Some(o.id))
    ensures |before[o.id].members| == (if o.head.Object? then |o.kids| else 0)
    ensures |before[o.id].elements| == (if o.head.Array? then |o.kids| else 0)
    ensures forall i :: 0 <= i < |before[o.id].members| ==> before[o.id].members[i].1 == o.kids[i].id
    ensures forall i :: 0 <= i < |before[o.id].elements| ==> before[o.id].elements[i] == o.kids[i].id
    ensures o.head.Plain? ==> o.kids == []
  {
    RootApart(o);
    forall i | 0 <= i < |o.kids|
      ensures Holds(after, o.kids[i], Some(o.id))
    {
      assert Holds(before, o.kids[i], Some(o.id));
      KidStays(before, after, o, i);
    }
    hide Holds, Ids, IdsOf, Once;
  }

  /** What only touches the root's own slot leaves its children's subtrees alone. */
  lemma KidStays(before: seq<Node>, after: seq<Node>, o: Owned, i: nat)
    requires o.id !in IdsOf(o.kids) && i < |o.kids| && Holds(before, o.kids[i], Some(o.id))
    requires |after| == |before| && forall x :: 0 <= x < |before| && x != o.id ==> after[x] == before[x]
    ensures Holds(after, o.kids[i], Some(o.id))
  {
    hide Holds, Ids, IdsOf;
    forall x | x in Ids(o.kids[i]) && x < |before|
      ensures x < |after| && after[x] == before[x]
    {
      KidSlot(o, i, x);
    }
    HoldsFrame(before, after, o.kids[i], Some(o.id));
  }

  /** Frees the children listed in `ids`: either all of `o`'s, or none because they are listed elsewhere. */
  method FreeEach(arena: NodeArena, ids: seq<NodeId>, ghost o: Owned, ghost parent: NodeId)
    requires arena.Valid() && Once(IdsOf(o.kids))
    requires ids != [] ==> |ids| == |o.kids| && forall i :: 0 <= i < |o.kids| ==> ids[i] == o.kids[i].id
    requires ids != [] ==> forall i :: 0 <= i < |o.kids| ==> Holds(arena.nodes, o.kids[i], Some(parent))
    modifies arena
    ensures arena.Valid()
    ensures ids != [] ==> Shrank(old(arena.nodes), arena.nodes, IdsOf(o.kids))
    ensures ids == [] ==> arena.nodes == old(arena.nodes)
    decreases o, 0
  {
    hide FreeList, Holds, Ids, IdsOf, Shrank;
    if ids == [] {
      return;
    }
    ghost var before := arena.nodes;
    ShrankNothing(before, o.kids);
    for k := 0 to |ids|
      invariant arena.Valid() && Shrank(before, arena.nodes, IdsOf(o.kids[..k]))
    {
      PrefixApart(o.kids, k);
      ShrankHolds(before, arena.nodes, IdsOf(o.kids[..k]), o.kids[k], Some(parent));
      ghost var middle := arena.nodes;
      FreeSubtree(arena, ids[k], o.kids[k], Some(parent));
      ShrankTwice(before, middle, arena.nodes, IdsOf(o.kids[..k]), Ids(o.kids[k]));
    }
    assert o.kids[..|ids|] == o.kids;
  }

  lemma ShrankNothing(nodes: seq<Node>, kids: seq<Owned>)
    ensures Shrank(nodes, nodes, IdsOf(kids[..0]))
  {
  }

  lemma PrefixApart(kids: seq<Owned>, k: nat)
    requires Once(IdsOf(kids)) && k < |kids|
    ensures Once(Ids(kids[k]))
    ensures forall x :: x in Ids(kids[k]) ==> x !in IdsOf(kids[..k])
    ensures IdsOf(kids[..k + 1]) == IdsOf(kids[..k]) + Ids(kids[k])
  {
    IdsSplitAt(kids, k);
    assert kids[..k + 1][..k] == kids[..k];
    SubOnce(Ids(kids[k]), IdsOf(kids));
    forall x | x in Ids(kids[k])
      ensures x !in IdsOf(kids[..k])
    {
      assert IdsOf(kids[..k])[x] + Ids(kids[k])[x] <= IdsOf(kids)[x];
    }
  }

  lemma ShrankTwice(before: seq<Node>, middle: seq<Node>, after: seq<Node>, a: multiset<NodeId>, b: multiset<NodeId>)
    requires Shrank(before, middle, a) && Shrank(middle, after, b)
    requires forall x :: x in b ==> x !in a
    ensures Shrank(before, after, a + b)
  {
    assert forall x :: x in a + b <==> x in a || x in b;
  }

  // ------------------------------------------------------------------ building

  /** Builds `value` as a detached subtree; if memory runs out anywhere, every slot it took is freed again. */
  method BuildFromValue(arena: NodeArena, value: Tree, parent: Option<NodeId>)
    returns (r: Option<NodeId>, ghost o: Owned)
    requires arena.Valid()
    modifies arena, arena.heap
    ensures arena.Valid()
    ensures r.Some? ==> r.value == o.id && Built(old(arena.nodes), arena.nodes, o, value, parent)
    ensures r.None? ==> Grew(old(arena.nodes), arena.nodes, multiset{}) && arena.heap.budget == 0
    decreases value, 1
  {
    hide FreeList, Erase;
    ghost var before := arena.nodes;
    o := Owned(0, Plain(Null), []);
    var slot := arena.Allocate(TypeOf(value));
    if slot.None? {
      return None, o;
    }
    var id := slot.value;
    arena.Store(id, arena.nodes[id].(parent := parent));
    var ok;
    match value {
      case Leaf(scalar) =>
        ok, o := FillScalar(arena, id, scalar, before, parent);
      case Obj(members) =>
        EmptyBuilt(before, arena.nodes, Owned(id, Object([]), []), parent);
        ok, o := BuildMembers(arena, id, value, before, parent);
      case Arr(elements) =>
        EmptyBuilt(before, arena.nodes, Owned(id, Array, []), parent);
        ok, o := BuildElements(arena, id, value, before, parent);
    }
    r := if ok then Some(id) else None;
  }

  method FillScalar(arena: NodeArena, id: NodeId, scalar: Scalar, ghost before: seq<Node>, ghost parent: Option<NodeId>)
    returns (ok: bool, ghost o: Owned)
    requires arena.Valid() && !Live(before, id) && Live(arena.nodes, id)
    requires Aged(before, arena.nodes)
    requires arena.nodes[id] == Node(ScalarType(scalar), Null, [], [], parent, arena.nodes[id].releases, true)
    requires forall x: NodeId :: x != id ==>
               (Live(before, x) <==> Live(arena.nodes, x)) && (Live(before, x) ==> arena.nodes[x] == before[x])
    modifies arena, arena.heap
    ensures arena.Valid()
    ensures ok ==> o.id == id && Built(before, arena.nodes, o, Leaf(scalar), parent)
    ensures !ok ==> Grew(before, arena.nodes, multiset{}) && arena.heap.budget == 0
  {
    hide FreeList;
    o := Owned(id, Plain(scalar), []);
    ok := arena.heap.Request();
    if ok {
      arena.Store(id, arena.nodes[id].(scalar := scalar));
      assert Ids(o) == multiset{id};
    } else {
      arena.Release(id);
    }
  }

  /** A slot fresh from the arena represents an empty container. */
  lemma EmptyBuilt(before: seq<Node>, after: seq<Node>, o: Owned, parent: Option<NodeId>)
    requires o.kids == [] && (o.head == Object([]) || o.head == Array)
    requires Aged(before, after) && o.id < |after| && !Live(before, o.id)
    requires after[o.id] == RecordOf(o, parent, after[o.id].releases)
    requires forall x: NodeId :: x != o.id ==>
               (Live(before, x) <==> Live(after, x)) && (Live(before, x) ==> after[x] == before[x])
    ensures Built(before, after, o, if o.head.Array? then Arr([]) else Obj([]), parent)
  {
    assert Ids(o) == multiset{o.id};
  }

  method BuildMembers(arena: NodeArena, id: NodeId, value: Tree,
                      ghost before: seq<Node>, ghost parent: Option<NodeId>)
    returns (ok: bool, ghost o: Owned)
    requires arena.Valid() && value.Obj?
    requires Built(before, arena.nodes, Owned(id, Object([]), []), Obj([]), parent)
    modifies arena, arena.heap
    ensures arena.Valid()
    ensures ok ==> o.id == id && Built(before, arena.nodes, o, value, parent)
    ensures !ok ==> Grew(before, arena.nodes, multiset{}) && arena.heap.budget == 0
    decreases value, 0
  {
    hide FreeList, Holds, Erase, Ids, Grew;
    var members := value.members;
    o := Owned(id, Object([]), []);
    assert members[..0] == [];
    for k := 0 to |members|
      invariant arena.Valid() && o.id == id && Accepts(o, Key([]))
      invariant Built(before, arena.nodes, o, Obj(members[..k]), parent)
    {
      ok, o := BuildAndLink(arena, id, Key(members[k].0), members[k].1, before, o, parent);
      if !ok {
        FreeBuilt(arena, id, o, parent, before);
        return false, o;
      }
      assert members[..k + 1] == members[..k] + [members[k]];
    }
    assert members[..|members|] == members;
    ok := true;
  }

  method BuildElements(arena: NodeArena, id: NodeId, value: Tree,
                       ghost before: seq<Node>, ghost parent: Option<NodeId>)
    returns (ok: bool, ghost o: Owned)
    requires arena.Valid() && value.Arr?
    requires Built(before, arena.nodes, Owned(id, Array, []), Arr([]), parent)
    modifies arena, arena.heap
    ensures arena.Valid()
    ensures ok ==> o.id == id && Built(before, arena.nodes, o, value, parent)
    ensures !ok ==> Grew(before, arena.nodes, multiset{}) && arena.heap.budget == 0
    decreases value, 0
  {
    hide FreeList, Holds, Erase, Ids, Grew;
    var elements := value.elements;
    o := Owned(id, Array, []);
    assert elements[..0] == [];
    for k := 0 to |elements|
      invariant arena.Valid() && o.id == id && Accepts(o, Index(0))
      invariant Built(before, arena.nodes, o, Arr(elements[..k]), parent)
    {
      ok, o := BuildAndLink(arena, id, Index(k), elements[k], before, o, parent);
      if !ok {
        FreeBuilt(arena, id, o, parent, before);
        return false, o;
      }
      assert elements[..k + 1] == elements[..k] + [elements[k]];
    }
    assert elements[..|elements|] == elements;
    ok := true;
  }

  /** `SubtreeGuard`'s destructor: frees a subtree nobody linked, leaving no trace of it. */
  method FreeBuilt(arena: NodeArena, id: NodeId, ghost o: Owned, ghost parent: Option<NodeId>, ghost before: seq<Node>)
    requires arena.Valid() && o.id == id && Built(before, arena.nodes, o, Erase(o), parent)
    modifies arena
    ensures arena.Valid() && Grew(before, arena.nodes, multiset{})
  {
    ghost var middle := arena.nodes;
    FreeSubtree(arena, id, o, parent);
    GrewThenShrank(before, middle, arena.nodes, Ids(o));
  }

  /** One child: built, guarded until it is linked, then linked as the last child of `id`. */
  method BuildAndLink(arena: NodeArena, id: NodeId, segment: Segment, value: Tree,
                      ghost before: seq<Node>, ghost o: Owned, ghost parent: Option<NodeId>)
    returns (ok: bool, ghost grown: Owned)
    requires arena.Valid() && o.id == id && Accepts(o, segment)
    requires Built(before, arena.nodes, o, Erase(o), parent)
    modifies arena, arena.heap
    ensures arena.Valid() && grown.id == id && Accepts(grown, segment)
    ensures ok ==> Built(before, arena.nodes, grown, AppendKid(Erase(o), segment, value), parent)
    ensures !ok ==> Built(before, arena.nodes, grown, Erase(o), parent) && arena.heap.budget == 0
    decreases value, 2
  {
    hide FreeList, Erase, Holds, Ids, Grew;
    grown := o;
    ghost var start := arena.nodes;
    ghost var kid;
    var child;
    child, kid := BuildFromValue(arena, value, Some(id));
    ghost var middle := arena.nodes;
    if child.None? {
      GrewHolds(start, middle, multiset{}, o, parent);
      GrewTwice(before, start, middle, Ids(o), multiset{});
      assert Ids(o) + multiset{} == Ids(o);
      return false, o;
    }
    GrewHolds(start, middle, Ids(kid), o, parent);
    GrewTwice(before, start, middle, Ids(o), Ids(kid));
    var linked := arena.heap.Request();
    if !linked {
      FreeBuilt(arena, child.value, kid, Some(id), start);
      GrewHolds(start, arena.nodes, multiset{}, o, parent);
      GrewTwice(before, start, arena.nodes, Ids(o), multiset{});
      assert Ids(o) + multiset{} == Ids(o);
      return false, o;
    }
    LinkBuilt(before, middle, o, parent, segment, kid);
    arena.Store(id, LinkRecord(arena.nodes[id], segment, child.value));
    grown := AppendPart(o, segment, kid);
    ok := true;
  }

  lemma LinkBuilt(before: seq<Node>, middle: seq<Node>, o: Owned, parent: Option<NodeId>, segment: Segment, kid: Owned)
    requires Holds(middle, o, parent) && Holds(middle, kid, Some(o.id)) && Accepts(o, segment)
    requires Grew(before, middle, Ids(o) + Ids(kid))
    ensures LinkRecord(middle[o.id], segment, kid.id).alive
    ensures LinkRecord(middle[o.id], segment, kid.id).releases == middle[o.id].releases
    ensures Accepts(AppendPart(o, segment, kid), segment)
    ensures Built(before, middle[o.id := LinkRecord(middle[o.id], segment, kid.id)], AppendPart(o, segment, kid),
                  AppendKid(Erase(o), segment, Erase(kid)), parent)
  {
    var ids := Ids(o) + Ids(kid);
    assert o.id in ids;
    assert ids[o.id] == 1 + IdsOf(o.kids)[o.id] + Ids(kid)[o.id];
    AppendPartIds(o, segment, kid);
    AppendPartErase(o, segment, kid);
    LinkHolds(middle, o, parent, segment, kid);
    hide Holds, Ids, Erase;
    GrewStore(before, middle, ids, o.id, LinkRecord(middle[o.id], segment, kid.id));
  }

  lemma GrewStore(before: seq<Node>, after: seq<Node>, came: multiset<NodeId>, id: NodeId, node: Node)
    requires Grew(before, after, came) && id in came && Live(after, id)
    requires node.alive && node.releases == after[id].releases
    ensures Grew(before, after[id := node], came)
  {
    assert forall x: NodeId :: Live(after[id := node], x) <==> Live(after, x);
  }
}

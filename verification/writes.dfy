/** The mutating half of `set`: same-type replacement in place, and detached creation joined at the end. */
module Writes {
  import opened Base
  import opened ConfigPath
  import opened Trees
  import opened Ownership
  import opened NodeArena
  import opened Subtrees

  /** What any successful mutation does to the slots: `gone` are freed once, `came` turn live, the slot
      `touched` lives on under the same release count, and every other live slot is untouched. */
  ghost predicate Rewrote(before: seq<Node>, after: seq<Node>, touched: NodeId,
                          gone: multiset<NodeId>, came: multiset<NodeId>) {
    && Aged(before, after)
    && Live(before, touched) && Live(after, touched)
    && after[touched].releases == before[touched].releases && after[touched].kind == before[touched].kind
    && (forall x: NodeId :: Live(before, x) && x != touched && x !in gone ==> Live(after, x) && after[x] == before[x])
    && (forall x: NodeId :: x in gone ==>
          x != touched && Live(before, x) && !Live(after, x) && after[x].releases == before[x].releases + 1)
    && (forall x: NodeId :: x in came ==> !Live(before, x) && Live(after, x))
    && (forall x: NodeId :: Live(after, x) ==> Live(before, x) || x in came)
    && Once(gone) && Once(came)
  }

  // ------------------------------------------------------------------ adopting children

  /** The slots in `ids` name `parent` as their container; nothing else changed. */
  ghost predicate Adopted(before: seq<Node>, after: seq<Node>, ids: seq<NodeId>, parent: NodeId) {
    && |after| == |before|
    && forall x :: 0 <= x < |before| ==> after[x] == if x in ids then before[x].(parent := Some(parent)) else before[x]
  }

  method Adopt(arena: NodeArena, ids: seq<NodeId>, parent: NodeId)
    requires arena.Valid() && forall i :: 0 <= i < |ids| ==> Live(arena.nodes, ids[i])
    modifies arena
    ensures arena.Valid() && Adopted(old(arena.nodes), arena.nodes, ids, parent)
  {
    hide FreeList;
    ghost var before := arena.nodes;
    for k := 0 to |ids|
      invariant arena.Valid() && Adopted(before, arena.nodes, ids[..k], parent)
    {
      assert ids[..k + 1] == ids[..k] + [ids[k]];
      assert forall x :: x in ids[..k + 1] <==> x in ids[..k] || x == ids[k];
      arena.Store(ids[k], arena.nodes[ids[k]].(parent := Some(parent)));
    }
    assert ids[..|ids|] == ids;
  }

  /** A subtree whose root slot alone changed, and only in its parent link. */
  lemma {:induction false} AdoptHolds(before: seq<Node>, after: seq<Node>, o: Owned, was: Option<NodeId>,
                                      parent: Option<NodeId>)
    requires Holds(before, o, was) && Once(Ids(o))
    requires o.id < |after| && after[o.id] == before[o.id].(parent := parent)
    requires forall x :: x in Ids(o) && x != o.id && x < |before| ==> x < |after| && after[x] == before[x]
    ensures Holds(after, o, parent)
  {
    assert Ids(o)[o.id] == 1 + IdsOf(o.kids)[o.id];
    forall i | 0 <= i < |o.kids|
      ensures Holds(after, o.kids[i], Some(o.id))
    {
      forall x | x in Ids(o.kids[i]) && x < |before|
        ensures x < |after| && after[x] == before[x]
      {
        KidSlot(o, i, x);
      }
      HoldsFrame(before, after, o.kids[i], Some(o.id));
    }
  }

  function KidIds(node: Node): seq<NodeId> {
    IdList(node.members) + node.elements
  }

  lemma KidIdsOf(nodes: seq<Node>, o: Owned, parent: Option<NodeId>)
    requires Holds(nodes, o, parent)
    ensures |KidIds(nodes[o.id])| == |o.kids|
    ensures forall i :: 0 <= i < |o.kids| ==> KidIds(nodes[o.id])[i] == o.kids[i].id
  {
  }

  /** All children of a detached root handed over to the slot `target`. */
  lemma {:induction false} AdoptKids(before: seq<Node>, after: seq<Node>, o: Owned, ids: seq<NodeId>, target: NodeId)
    requires forall i :: 0 <= i < |o.kids| ==> Holds(before, o.kids[i], Some(o.id))
    requires Once(IdsOf(o.kids))
    requires |ids| == |o.kids| && forall i :: 0 <= i < |o.kids| ==> ids[i] == o.kids[i].id
    requires forall x :: x in IdsOf(o.kids) && x < |before| ==>
               x < |after| && after[x] == if x in ids then before[x].(parent := Some(target)) else before[x]
    ensures forall i :: 0 <= i < |o.kids| ==> Holds(after, o.kids[i], Some(target))
  {
    forall i | 0 <= i < |o.kids|
      ensures Holds(after, o.kids[i], Some(target))
    {
      var kid := o.kids[i];
      KidWithin(o.kids, i);
      SubOnce(Ids(kid), IdsOf(o.kids));
      assert kid.id in Ids(kid) && ids[i] in ids;
      forall x | x in Ids(kid) && x != kid.id && x < |before|
        ensures x < |after| && after[x] == before[x]
      {
        if x in ids {
          var j :| 0 <= j < |ids| && ids[j] == x;
          assert o.kids[j].id in Ids(o.kids[j]);
          KidsApart(o.kids, i, j, x);
        }
        assert x in IdsOf(o.kids);
      }
      AdoptHolds(before, after, kid, Some(o.id), Some(target));
    }
  }

  // ------------------------------------------------------------------ replacement in place

  /** The splice, end to end: `target` takes over the contents of `built`, whose slot is released; the
      children in `ids` change parents; the slots in `gone` are freed. */
  ghost predicate Spliced(before: seq<Node>, after: seq<Node>, target: NodeId, built: NodeId,
                          ids: seq<NodeId>, gone: multiset<NodeId>)
    requires target < |before| && built < |before|
  {
    && |after| == |before|
    && after[target] == before[target].(scalar := before[built].scalar, members := before[built].members,
                                        elements := before[built].elements)
    && Cleared(after[built]) && after[built].releases == before[built].releases + 1
    && (forall x :: 0 <= x < |before| && x in gone ==> Cleared(after[x]) && after[x].releases == before[x].releases + 1)
    && (forall x :: 0 <= x < |before| && x in ids ==> after[x] == before[x].(parent := Some(target)))
    && (forall x :: 0 <= x < |before| && x != target && x != built && x !in gone && x !in ids ==> after[x] == before[x])
  }

  /** Replaces the contents of `target` by `value`, of the same type. The replacement is built detached first;
      after that nothing can fail. */
  method AssignContents(arena: NodeArena, target: NodeId, value: Tree, ghost part: Owned, ghost parent: Option<NodeId>)
    returns (ok: bool, ghost result: Owned)
    requires arena.Valid() && Holds(arena.nodes, part, parent) && Once(Ids(part)) && part.id == target
    requires TypeOf(value) == arena.nodes[target].kind
    modifies arena, arena.heap
    ensures arena.Valid()
    ensures ok ==> result.id == target && Holds(arena.nodes, result, parent) && Erase(result) == value
    ensures ok ==> Rewrote(old(arena.nodes), arena.nodes, target, IdsOf(part.kids), IdsOf(result.kids))
    ensures !ok ==> Grew(old(arena.nodes), arena.nodes, multiset{}) && arena.heap.budget == 0
  {
    hide FreeList, Holds, Ids, IdsOf, Grew, Erase, Once;
    ghost var before := arena.nodes;
    result := part;
    var built;
    ghost var b;
    built, b := BuildFromValue(arena, value, None);
    if built.None? {
      return false, result;
    }
    ghost var middle := arena.nodes;
    BesideBuilt(before, middle, part, parent, b);
    FreeChildren(arena, target, part, parent);
    var builtNode := arena.nodes[built.value];
    var targetNode := arena.nodes[target];
    arena.Store(target,
                targetNode.(scalar := builtNode.scalar, members := builtNode.members, elements := builtNode.elements));
    ghost var ids := KidIds(middle[b.id]);
    assert KidIds(arena.nodes[target]) == ids;
    forall i | 0 <= i < |ids|
      ensures Live(arena.nodes, ids[i])
    {
      assert ids[i] in ids;
    }
    Adopt(arena, KidIds(arena.nodes[target]), target);
    arena.Release(built.value);
    result := Owned(target, b.head, b.kids);
    assert Spliced(middle, arena.nodes, target, b.id, ids, IdsOf(part.kids));
    SpliceHolds(before, middle, arena.nodes, part, parent, b);
    SpliceRewrote(before, middle, arena.nodes, target, b.id, ids, IdsOf(part.kids), IdsOf(b.kids));
    ok := true;
  }

  /** Where the pieces stand once the replacement is built: the old part `part`, live before, and the new
      part `b`, live only now, share no slot. */
  ghost predicate Beside(before: seq<Node>, middle: seq<Node>, target: NodeId, built: NodeId,
                         ids: seq<NodeId>, gone: multiset<NodeId>, came: multiset<NodeId>) {
    && Aged(before, middle)
    && Live(before, target) && !Live(before, built) && Live(middle, built)
    && (forall x: NodeId :: Live(before, x) ==> middle[x] == before[x])
    && (forall x: NodeId :: Live(middle, x) ==> Live(before, x) || x == built || x in came)
    && (forall x: NodeId :: x in gone ==> Live(before, x) && x != target)
    && (forall x: NodeId :: x in came ==> !Live(before, x) && Live(middle, x) && x != built)
    && (forall x: NodeId :: x in ids ==> x in came)
    && Once(gone) && Once(came)
  }

  lemma BesideBuilt(before: seq<Node>, middle: seq<Node>, part: Owned, parent: Option<NodeId>, b: Owned)
    requires Holds(before, part, parent) && Once(Ids(part))
    requires Holds(middle, b, None) && Grew(before, middle, Ids(b))
    ensures Holds(middle, part, parent)
    ensures b.id < |middle| && Once(IdsOf(b.kids)) && Live(middle, part.id) && middle[part.id] == before[part.id]
    ensures Beside(before, middle, part.id, b.id, KidIds(middle[b.id]), IdsOf(part.kids), IdsOf(b.kids))
  {
    HoldsLive(before, part, parent);
    HoldsLive(middle, b, None);
    GrewHolds(before, middle, Ids(b), part, parent);
    KidIdsWithin(middle, b, None);
    RootApart(part);
    RootApart(b);
    assert Once(Ids(b));
    hide Holds, Ids, IdsOf, KidIds, Grew, Once, RecordOf;
    BesideFacts(before, middle, part.id, b.id, KidIds(middle[b.id]), IdsOf(part.kids), IdsOf(b.kids), Ids(part),
                Ids(b));
  }

  lemma BesideFacts(before: seq<Node>, middle: seq<Node>, target: NodeId, built: NodeId, ids: seq<NodeId>,
                    gone: multiset<NodeId>, came: multiset<NodeId>, mine: multiset<NodeId>, theirs: multiset<NodeId>)
    requires Grew(before, middle, theirs) && Once(gone) && Once(came)
    requires forall x: NodeId :: x in mine ==> Live(before, x)
    requires forall x: NodeId :: x in mine <==> x == target || x in gone
    requires forall x: NodeId :: x in theirs <==> x == built || x in came
    requires target !in gone && built !in came
    requires forall x: NodeId :: x in ids ==> x in came
    ensures Beside(before, middle, target, built, ids, gone, came)
  {
    assert target in mine && built in theirs;
  }

  lemma KidIdsWithin(nodes: seq<Node>, o: Owned, parent: Option<NodeId>)
    requires Holds(nodes, o, parent)
    ensures forall x :: x in KidIds(nodes[o.id]) ==> x in IdsOf(o.kids)
  {
    KidIdsOf(nodes, o, parent);
    forall x | x in KidIds(nodes[o.id])
      ensures x in IdsOf(o.kids)
    {
      var i :| 0 <= i < |o.kids| && o.kids[i].id == x;
      hide KidIds;
      assert x in Ids(o.kids[i]);
      KidSlot(o, i, x);
    }
  }

  lemma SpliceHolds(before: seq<Node>, middle: seq<Node>, after: seq<Node>, part: Owned, parent: Option<NodeId>,
                    b: Owned)
    requires Holds(middle, part, parent) && Holds(middle, b, None) && Once(IdsOf(b.kids))
    requires Beside(before, middle, part.id, b.id, KidIds(middle[b.id]), IdsOf(part.kids), IdsOf(b.kids))
    requires Spliced(middle, after, part.id, b.id, KidIds(middle[b.id]), IdsOf(part.kids))
    requires TypeOf(Erase(b)) == middle[part.id].kind
    ensures Holds(after, Owned(part.id, b.head, b.kids), parent)
    ensures Erase(Owned(part.id, b.head, b.kids)) == Erase(b)
  {
    var result := Owned(part.id, b.head, b.kids);
    var ids := KidIds(middle[b.id]);
    KidIdsOf(middle, b, None);
    SpliceRoot(middle, after, part, parent, b, ids);
    hide KidIds, Ids, IdsOf, RecordOf, Once;
    SpliceKids(before, middle, after, part.id, b, ids, IdsOf(part.kids));
  }

  lemma SpliceKids(before: seq<Node>, middle: seq<Node>, after: seq<Node>, target: NodeId, b: Owned, ids: seq<NodeId>,
                   gone: multiset<NodeId>)
    requires Holds(middle, b, None) && Once(IdsOf(b.kids))
    requires |ids| == |b.kids| && forall i :: 0 <= i < |b.kids| ==> ids[i] == b.kids[i].id
    requires Beside(before, middle, target, b.id, ids, gone, IdsOf(b.kids))
    requires Spliced(middle, after, target, b.id, ids, gone)
    ensures forall i :: 0 <= i < |b.kids| ==> Holds(after, b.kids[i], Some(target))
  {
    assert forall x :: x in IdsOf(b.kids) && x < |middle| ==> x != target && x != b.id && x !in gone;
    AdoptKids(middle, after, b, ids, target);
  }

  lemma SpliceRoot(middle: seq<Node>, after: seq<Node>, part: Owned, parent: Option<NodeId>, b: Owned, ids: seq<NodeId>)
    requires Holds(middle, part, parent) && Holds(middle, b, None)
    requires part.id < |after|
    requires after[part.id] == middle[part.id].(scalar := middle[b.id].scalar, members := middle[b.id].members,
                                                elements := middle[b.id].elements)
    requires TypeOf(Erase(b)) == middle[part.id].kind
    ensures var result := Owned(part.id, b.head, b.kids);
            && Shaped(result) && Erase(result) == Erase(b)
            && after[part.id] == RecordOf(result, parent, after[part.id].releases)
  {
    var result := Owned(part.id, b.head, b.kids);
    assert RecordOf(result, parent, 0) == RecordOf(b, parent, 0);
  }

  lemma SpliceRewrote(before: seq<Node>, middle: seq<Node>, after: seq<Node>, target: NodeId, built: NodeId,
                      ids: seq<NodeId>, gone: multiset<NodeId>, came: multiset<NodeId>)
    requires Beside(before, middle, target, built, ids, gone, came)
    requires Spliced(middle, after, target, built, ids, gone)
    ensures Rewrote(before, after, target, gone, came)
  {
  }

  // ------------------------------------------------------------------ creation

  /** An empty container of the kind `segment` needs, in the slot `id`. */
  ghost function EmptyPart(id: NodeId, segment: Segment): Owned {
    Owned(id, if segment.Key? then Object([]) else Array, [])
  }

  /** Wraps a detached subtree in a new container: allocate, re-parent, link; on failure both are freed. */
  method Wrap(arena: NodeArena, chain: NodeId, segment: Segment, ghost before: seq<Node>, ghost o: Owned)
    returns (r: Option<NodeId>, ghost wrapped: Owned)
    requires arena.Valid() && o.id == chain && Built(before, arena.nodes, o, Erase(o), None)
    modifies arena, arena.heap
    ensures arena.Valid()
    ensures r.Some? ==> r.value == wrapped.id
                        && Built(before, arena.nodes, wrapped,
                                 if segment.Key? then Obj([(segment.key, Erase(o))]) else Arr([Erase(o)]), None)
    ensures r.None? ==> Grew(before, arena.nodes, multiset{}) && arena.heap.budget == 0
  {
    hide FreeList, Holds, Ids, IdsOf, Erase, Once, Grew, RecordOf;
    wrapped := o;
    ghost var start := arena.nodes;
    var container := arena.Allocate(if segment.Key? then TObject else TArray);
    if container.None? {
      FreeBuilt(arena, chain, o, None, before);
      return None, wrapped;
    }
    ghost var middle := arena.nodes;
    ghost var empty := EmptyPart(container.value, segment);
    ContainerBeside(before, start, middle, o, empty, segment);
    var node := arena.nodes[chain];
    arena.Store(chain, node.(parent := Some(container.value)));
    Reparented(before, middle, o, empty);
    ghost var parented := arena.nodes;
    var linked := arena.heap.Request();
    if !linked {
      arena.Release(container.value);
      FreeOrphan(arena, chain, o, empty, before, parented);
      return None, wrapped;
    }
    LinkBuilt(before, parented, empty, None, segment, o);
    arena.Store(container.value, LinkRecord(arena.nodes[container.value], segment, chain));
    wrapped := AppendPart(empty, segment, o);
    EmptyErase(empty, segment, Erase(o));
    r := Some(container.value);
  }

  lemma EmptyErase(empty: Owned, segment: Segment, kid: Tree)
    requires empty == EmptyPart(empty.id, segment)
    ensures Accepts(empty, segment)
    ensures AppendKid(Erase(empty), segment, kid) == if segment.Key? then Obj([(segment.key, kid)]) else Arr([kid])
  {
  }

  /** A fresh container next to the chain it is about to hold. */
  ghost predicate Ready(before: seq<Node>, nodes: seq<Node>, o: Owned, empty: Owned, parent: Option<NodeId>) {
    && Holds(nodes, o, parent) && Holds(nodes, empty, None) && o.id != empty.id
    && Once(Ids(o)) && empty.id !in Ids(o) && Ids(empty) == multiset{empty.id}
    && Live(nodes, o.id) && Live(nodes, empty.id)
    && Grew(before, nodes, Ids(empty) + Ids(o))
  }

  lemma ContainerBeside(before: seq<Node>, start: seq<Node>, middle: seq<Node>, o: Owned, empty: Owned,
                        segment: Segment)
    requires Built(before, start, o, Erase(o), None) && empty == EmptyPart(empty.id, segment)
    requires Allocated(start, middle, empty.id, if segment.Key? then TObject else TArray)
    ensures Ready(before, middle, o, empty, None) && Accepts(empty, segment)
  {
    EmptyBuilt(start, middle, empty, None);
    assert Ids(empty) == multiset{empty.id};
    HoldsLive(start, o, None);
    GrewHolds(start, middle, Ids(empty), o, None);
    GrewTwice(before, start, middle, Ids(o), Ids(empty));
    assert Ids(o) + Ids(empty) == Ids(empty) + Ids(o);
    assert o.id in Ids(o) && empty.id in Ids(empty);
  }

  lemma Reparented(before: seq<Node>, nodes: seq<Node>, o: Owned, empty: Owned)
    requires Ready(before, nodes, o, empty, None)
    ensures Ready(before, nodes[o.id := nodes[o.id].(parent := Some(empty.id))], o, empty, Some(empty.id))
  {
    var after := nodes[o.id := nodes[o.id].(parent := Some(empty.id))];
    assert o.id in Ids(o);
    assert o.id in Ids(empty) + Ids(o);
    HoldsFrame(nodes, after, empty, None);
    AdoptHolds(nodes, after, o, None, Some(empty.id));
    hide Holds, Ids;
    GrewStore(before, nodes, Ids(empty) + Ids(o), o.id, after[o.id]);
  }

  /** The two guards of one chain step: the childless container is already released, the chain is freed next. */
  method FreeOrphan(arena: NodeArena, chain: NodeId, ghost o: Owned, ghost empty: Owned,
                    ghost before: seq<Node>, ghost parented: seq<Node>)
    requires arena.Valid() && o.id == chain && Ready(before, parented, o, empty, Some(empty.id))
    requires Shrank(parented, arena.nodes, multiset{empty.id})
    modifies arena
    ensures arena.Valid() && Grew(before, arena.nodes, multiset{})
  {
    hide FreeList, Holds, Ids, Grew, Shrank;
    ghost var released := arena.nodes;
    ShrankHolds(parented, released, multiset{empty.id}, o, Some(empty.id));
    FreeSubtree(arena, chain, o, Some(empty.id));
    ShrankTwice(parented, released, arena.nodes, multiset{empty.id}, Ids(o));
    GrewThenShrank(before, parented, arena.nodes, Ids(empty) + Ids(o));
  }

  /** The chain of new containers below segment `from`, assembled detached and bottom-up around `value`. */
  method BuildChain(arena: NodeArena, segments: seq<Segment>, from: nat, value: Tree)
    returns (r: Option<NodeId>, ghost o: Owned)
    requires arena.Valid() && from < |segments| && Creatable(segments[from + 1..])
    modifies arena, arena.heap
    ensures arena.Valid()
    ensures r.Some? ==>
              r.value == o.id && Built(old(arena.nodes), arena.nodes, o, Chain(segments[from + 1..], value), None)
    ensures r.None? ==> Grew(old(arena.nodes), arena.nodes, multiset{}) && arena.heap.budget == 0
  {
    hide FreeList, Holds, Ids, IdsOf, Erase, Once, Grew, RecordOf;
    ghost var before := arena.nodes;
    r, o := BuildFromValue(arena, value, None);
    var j := |segments| - 1;
    assert segments[j + 1..] == [];
    while r.Some? && j > from
      invariant from <= j < |segments| && arena.Valid()
      invariant r.Some? ==> r.value == o.id && Built(before, arena.nodes, o, Chain(segments[j + 1..], value), None)
      invariant r.None? ==> Grew(before, arena.nodes, multiset{}) && arena.heap.budget == 0
    {
      assert segments[j..][1..] == segments[j + 1..] && segments[j..][0] == segments[j];
      r, o := Wrap(arena, r.value, segments[j], before, o);
      j := j - 1;
    }
  }

  /** Joins a detached subtree to the existing tree, as the last child of the slot `anchor`. */
  method Join(arena: NodeArena, anchor: NodeId, segment: Segment, chain: NodeId,
              ghost before: seq<Node>, ghost part: Owned, ghost parent: Option<NodeId>, ghost o: Owned)
    returns (ok: bool)
    requires arena.Valid() && part.id == anchor && o.id == chain
    requires Holds(before, part, parent) && Once(Ids(part)) && Accepts(part, segment)
    requires Built(before, arena.nodes, o, Erase(o), None)
    modifies arena, arena.heap
    ensures arena.Valid()
    ensures ok ==> Holds(arena.nodes, AppendPart(part, segment, o), parent)
    ensures ok ==> Rewrote(before, arena.nodes, anchor, multiset{}, Ids(o))
    ensures !ok ==> Grew(before, arena.nodes, multiset{}) && arena.heap.budget == 0
  {
    hide FreeList, Holds, Ids, IdsOf, Erase, Once, Grew, RecordOf;
    ghost var middle := arena.nodes;
    BesideAnchor(before, middle, part, parent, o);
    var node := arena.nodes[chain];
    arena.Store(chain, node.(parent := Some(anchor)));
    ghost var parented := arena.nodes;
    ok := arena.heap.Request();
    if !ok {
      AnchorParented(before, middle, parented, part, parent, o);
      FreeParented(arena, chain, o, anchor, before, parented);
      return false;
    }
    AnchorParented(before, middle, parented, part, parent, o);
    LinkHolds(parented, part, parent, segment, o);
    arena.Store(anchor, LinkRecord(arena.nodes[anchor], segment, chain));
    JoinRewrote(before, parented, arena.nodes, part, parent, o);
  }

  lemma BesideAnchor(before: seq<Node>, middle: seq<Node>, part: Owned, parent: Option<NodeId>, o: Owned)
    requires Holds(before, part, parent) && Once(Ids(part))
    requires Built(before, middle, o, Erase(o), None)
    ensures Holds(middle, part, parent) && Live(middle, part.id) && Live(middle, o.id)
    ensures part.id !in Ids(o) && part.id !in IdsOf(part.kids) && Once(Ids(o))
    ensures o.id in Ids(o) && forall x: NodeId :: x in Ids(part) ==> Live(before, x) && x !in Ids(o)
  {
    HoldsLive(before, part, parent);
    HoldsLive(middle, o, None);
    GrewHolds(before, middle, Ids(o), part, parent);
    RootApart(part);
    assert part.id in Ids(part) && o.id in Ids(o);
  }

  lemma AnchorParented(before: seq<Node>, middle: seq<Node>, parented: seq<Node>, part: Owned, parent: Option<NodeId>,
                       o: Owned)
    requires Holds(before, part, parent) && Once(Ids(part))
    requires Built(before, middle, o, Erase(o), None) && o.id < |middle|
    requires parented == middle[o.id := middle[o.id].(parent := Some(part.id))]
    ensures Holds(parented, part, parent) && Holds(parented, o, Some(part.id)) && Grew(before, parented, Ids(o))
    ensures part.id !in Ids(o) && part.id !in IdsOf(part.kids) && Once(Ids(o)) && Live(parented, part.id)
  {
    hide Holds, Ids, IdsOf, Once, Erase, Grew;
    BesideAnchor(before, middle, part, parent, o);
    HoldsFrame(middle, parented, part, parent);
    AdoptHolds(middle, parented, o, None, Some(part.id));
    GrewStore(before, middle, Ids(o), o.id, parented[o.id]);
  }

  method FreeParented(arena: NodeArena, chain: NodeId, ghost o: Owned, ghost parent: NodeId,
                      ghost before: seq<Node>, ghost parented: seq<Node>)
    requires arena.Valid() && arena.nodes == parented && o.id == chain
    requires Holds(parented, o, Some(parent)) && Once(Ids(o)) && Grew(before, parented, Ids(o))
    modifies arena
    ensures arena.Valid() && Grew(before, arena.nodes, multiset{})
  {
    FreeSubtree(arena, chain, o, Some(parent));
    GrewThenShrank(before, parented, arena.nodes, Ids(o));
  }

  lemma JoinRewrote(before: seq<Node>, parented: seq<Node>, after: seq<Node>, part: Owned, parent: Option<NodeId>,
                    o: Owned)
    requires Holds(before, part, parent) && Grew(before, parented, Ids(o)) && Once(Ids(o))
    requires part.id < |parented| && part.id !in Ids(o)
    requires |after| == |parented| && forall x :: 0 <= x < |after| && x != part.id ==> after[x] == parented[x]
    requires after[part.id].alive && after[part.id].kind == parented[part.id].kind
    requires after[part.id].releases == parented[part.id].releases
    ensures Rewrote(before, after, part.id, multiset{}, Ids(o))
  {
    hide Ids;
    assert Live(before, part.id);
  }
}

/** The states of a model: arenas that represent exactly one tree, and the mutations that lead between them. */
module ModelState {
  import opened Base
  import opened ConfigPath
  import opened Trees
  import opened TreeLaws
  import opened Locations
  import opened Ownership
  import opened Subtrees
  import opened Writes

  /** The live slots are exactly those reached from the root, each once. */
  ghost predicate Represents(nodes: seq<Node>, root: Owned) {
    && Holds(nodes, root, None)
    && forall x: NodeId :: Ids(root)[x] == if Live(nodes, x) then 1 else 0
  }

  /** One mutation: the part at `spot` keeps its slot and gets new contents; `gone` are the slots it gave up,
      `came` those it took. */
  ghost predicate Mutation(before: seq<Node>, root: Owned, after: seq<Node>, root': Owned,
                           spot: Spot, gone: multiset<NodeId>, came: multiset<NodeId>) {
    && SpotIn(root, spot) && SpotIn(root', spot)
    && root' == PutPart(root, spot, PartAt(root', spot))
    && PartAt(root', spot).id == PartAt(root, spot).id
    && Rewrote(before, after, PartAt(root, spot).id, gone, came)
    && Ids(PartAt(root', spot)) + gone == Ids(PartAt(root, spot)) + came
  }

  /** Same-type overwrite: every former descendant of the target is freed, the target is not. */
  ghost predicate Overwrote(before: seq<Node>, root: Owned, after: seq<Node>, root': Owned, spot: Spot) {
    SpotIn(root, spot)
    && exists came :: Mutation(before, root, after, root', spot, IdsOf(PartAt(root, spot).kids), came)
  }

  /** Creation: one new last child, nothing freed. */
  ghost predicate Extended(before: seq<Node>, root: Owned, after: seq<Node>, root': Owned, spot: Spot) {
    exists came ::
      && Mutation(before, root, after, root', spot, multiset{}, came)
      && |PartAt(root', spot).kids| == |PartAt(root, spot).kids| + 1
      && PartAt(root', spot).kids[..|PartAt(root, spot).kids|] == PartAt(root, spot).kids
  }

  /** Removal of child `k` of the container at `spot`: its whole subtree is freed, later siblings move down. */
  ghost predicate CutAt(before: seq<Node>, root: Owned, after: seq<Node>, root': Owned, spot: Spot, k: nat) {
    && SpotIn(root, spot) && k < |PartAt(root, spot).kids|
    && Mutation(before, root, after, root', spot, Ids(PartAt(root, spot).kids[k]), multiset{})
    && PartAt(root', spot).kids == PartAt(root, spot).kids[..k] + PartAt(root, spot).kids[k + 1..]
  }

  lemma PutThenAt(o: Owned, spot: Spot, p: Owned)
    requires SpotIn(o, spot)
    ensures SpotIn(PutPart(o, spot, p), spot) && PartAt(PutPart(o, spot, p), spot) == p
    decreases |spot|
  {
    if spot != [] {
      PutThenAt(o.kids[spot[0]], spot[1..], p);
    }
  }

  /** A local rewrite of one part makes the whole arena represent the rewritten tree. */
  lemma MutationRepresents(before: seq<Node>, root: Owned, after: seq<Node>, spot: Spot, part: Owned,
                           gone: multiset<NodeId>, came: multiset<NodeId>)
    requires Represents(before, root) && SpotIn(root, spot)
    requires part.id == PartAt(root, spot).id
    requires Holds(after, part, ParentAt(root, spot, None))
    requires Rewrote(before, after, part.id, gone, came)
    requires Ids(part) + gone == Ids(PartAt(root, spot)) + came
    requires gone <= Ids(PartAt(root, spot))
    ensures Represents(after, PutPart(root, spot, part))
    ensures Mutation(before, root, after, PutPart(root, spot, part), spot, gone, came)
    ensures ValidAt(Erase(root), spot)
    ensures Erase(PutPart(root, spot, part)) == Put(Erase(root), spot, Erase(part))
  {
    var was := PartAt(root, spot);
    assert Once(Ids(root));
    EraseAt(before, root, None, spot);
    PutThenAt(root, spot, part);
    ErasePut(root, spot, part, before, None);
    IdsPut(root, spot, part);
    assert part.id in Ids(was);
    forall x | x in Ids(root) && x !in Ids(was) && x < |before|
      ensures x < |after| && after[x] == before[x]
    {
      assert x in gone ==> x in Ids(was);
    }
    HoldsPut(before, after, root, None, spot, part);
    hide Holds, Erase;
    CountAfter(before, after, Ids(root), Ids(PutPart(root, spot, part)), Ids(part), Ids(was), part.id, gone, came);
  }

  lemma CountAfter(before: seq<Node>, after: seq<Node>, whole: multiset<NodeId>, whole': multiset<NodeId>,
                   part: multiset<NodeId>, was: multiset<NodeId>, touched: NodeId,
                   gone: multiset<NodeId>, came: multiset<NodeId>)
    requires forall x: NodeId :: whole[x] == if Live(before, x) then 1 else 0
    requires Rewrote(before, after, touched, gone, came)
    requires whole' + was == whole + part && part + gone == was + came
    ensures forall x: NodeId :: whole'[x] == if Live(after, x) then 1 else 0
  {
    forall x: NodeId
      ensures whole'[x] == if Live(after, x) then 1 else 0
    {
      assert (whole' + was)[x] == (whole + part)[x];
      assert (part + gone)[x] == (was + came)[x];
      assert whole'[x] + gone[x] == whole[x] + came[x];
      assert x in gone <==> gone[x] == 1;
      assert x in came <==> came[x] == 1;
    }
  }

  /** A failed write leaves the represented tree, the live slots and their contents as they were. */
  lemma UnwoundRepresents(before: seq<Node>, after: seq<Node>, root: Owned)
    requires Represents(before, root) && Grew(before, after, multiset{})
    ensures Represents(after, root)
  {
    GrewHolds(before, after, multiset{}, root, None);
  }

  // ------------------------------------------------------------------ one segment, on slots

  /** The slot a segment selects below `node`, or why there is none. */
  function StepSlot(node: Node, segment: Segment): Result<NodeId> {
    match segment
    case Key(key) =>
      if node.kind != TObject then Err(InvalidType)
      else if Find(node.members, key) == |node.members| then Err(NodeNotFound)
      else Ok(node.members[Find(node.members, key)].1)
    case Index(index) =>
      if node.kind != TArray then Err(InvalidType)
      else if index >= |node.elements| then Err(NodeNotFound)
      else Ok(node.elements[index])
  }

  lemma StepSlotIsStep(nodes: seq<Node>, o: Owned, parent: Option<NodeId>, segment: Segment)
    requires Holds(nodes, o, parent)
    ensures KidCount(Erase(o)) == |o.kids|
    ensures StepSlot(nodes[o.id], segment) ==
            match Step(Erase(o), segment) case Err(e) => Err(e) case Ok(i) => Ok(o.kids[i].id)
    ensures nodes[o.id].kind == TypeOf(Erase(o))
  {
    EraseKids(o);
    var node := nodes[o.id];
    if o.head.Object? && segment.Key? {
      FindSame(node.members, Erase(o).members, segment.key);
    }
  }

  lemma {:induction false} PartAtAppend(o: Owned, spot: Spot, i: nat)
    requires SpotIn(o, spot)
    ensures SpotIn(o, spot + [i]) <==> i < |PartAt(o, spot).kids|
    ensures i < |PartAt(o, spot).kids| ==> PartAt(o, spot + [i]) == PartAt(o, spot).kids[i]
    decreases |spot|
  {
    if spot == [] {
      assert spot + [i] == [i];
    } else {
      assert (spot + [i])[1..] == spot[1..] + [i];
      PartAtAppend(o.kids[spot[0]], spot[1..], i);
    }
  }

  /** A plan made below `spot`, seen from the root. */
  function Lift(spot: Spot, plan: Result<WritePlan>): Result<WritePlan> {
    match plan
    case Err(e) => Err(e)
    case Ok(p) => Ok(WritePlan(spot + p.at, |spot| + p.createFrom))
  }

  lemma LiftTwice(a: Spot, b: Spot, plan: Result<WritePlan>)
    ensures Lift(a, Lift(b, plan)) == Lift(a + b, plan)
  {
    if plan.Ok? {
      assert a + (b + plan.value.at) == a + b + plan.value.at;
    }
  }

  lemma PlanStep(t: Tree, segments: seq<Segment>, finalType: NodeType, i: nat)
    requires |segments| > 1 && Step(t, segments[0]) == Ok(i)
    ensures Plan(t, segments, finalType) == Lift([i], Plan(Kid(t, i), segments[1..], finalType))
  {
  }

  /** Planning from a position already reached. */
  lemma {:induction false} PlanFrom(t: Tree, segments: seq<Segment>, i: nat, finalType: NodeType)
    requires i < |segments| && Locate(t, segments[..i]).Ok?
    ensures var spot := Locate(t, segments[..i]).value;
            Plan(t, segments, finalType) == Lift(spot, Plan(At(t, spot), segments[i..], finalType))
    decreases i
  {
    hide Plan, Step, Extends, Creatable, TypeOf;
    if i == 0 {
      assert segments[0..] == segments;
      var plan := Plan(t, segments, finalType);
      if plan.Ok? {
        assert [] + plan.value.at == plan.value.at;
      }
    } else {
      assert segments[..i][1..] == segments[1..][..i - 1] && segments[..i][0] == segments[0];
      var k := Step(t, segments[0]).value;
      PlanFrom(Kid(t, k), segments[1..], i - 1, finalType);
      assert segments[1..][i - 1..] == segments[i..];
      var inner := Locate(Kid(t, k), segments[1..][..i - 1]).value;
      PlanStep(t, segments, finalType, k);
      LiftTwice([k], inner, Plan(At(Kid(t, k), inner), segments[i..], finalType));
      assert ([k] + inner)[1..] == inner;
    }
  }

  /** One step of the planning loop, at a position already reached. */
  lemma PlanAtSpot(t: Tree, segments: seq<Segment>, i: nat, finalType: NodeType, spot: Spot)
    requires i < |segments| && Locate(t, segments[..i]) == Ok(spot)
    ensures var step := Step(At(t, spot), segments[i]);
            step.Err? ==>
              Plan(t, segments, finalType) ==
              if step.error == NodeNotFound && Extends(At(t, spot), segments[i]) && Creatable(segments[i + 1..]) then
                Ok(WritePlan(spot, i))
              else Err(step.error)
    ensures var step := Step(At(t, spot), segments[i]);
            step.Ok? && i + 1 == |segments| ==>
              Plan(t, segments, finalType) ==
              if TypeOf(Kid(At(t, spot), step.value)) == finalType then Ok(WritePlan(spot + [step.value], i + 1))
              else Err(InvalidType)
  {
    PlanFrom(t, segments, i, finalType);
    assert segments[i..][0] == segments[i] && segments[i..][1..] == segments[i + 1..];
    assert spot + [] == spot;
  }

  // ------------------------------------------------------------------ what each call does to the slots

  /** A successful `set`: an overwrite at the target, or a creation at the deepest existing container. */
  ghost predicate SetEffect(before: seq<Node>, root: Owned, after: seq<Node>, root': Owned, path: Text, value: Tree) {
    && Parse(path).Ok?
    && Plan(Erase(root), Parse(path).value, TypeOf(value)).Ok?
    && var plan := Plan(Erase(root), Parse(path).value, TypeOf(value)).value;
       if plan.createFrom == |Parse(path).value| then Overwrote(before, root, after, root', plan.at)
       else Extended(before, root, after, root', plan.at)
  }

  /** A successful `remove`: the named child is cut out of its container. */
  ghost predicate RemoveEffect(before: seq<Node>, root: Owned, after: seq<Node>, root': Owned, path: Text) {
    && Parse(path).Ok?
    && Locate(Erase(root), Parse(path).value).Ok?
    && var spot := Locate(Erase(root), Parse(path).value).value;
       CutAt(before, root, after, root', spot[..|spot| - 1], spot[|spot| - 1])
  }

  /** Cutting child `k` out of a part: its head loses the key, its children close the gap. */
  ghost function CutPart(o: Owned, k: nat): (p: Owned)
    requires Shaped(o) && k < |o.kids|
    ensures p.id == o.id
  {
    Owned(o.id, if o.head.Object? then Object(o.head.keys[..k] + o.head.keys[k + 1..]) else Array,
          o.kids[..k] + o.kids[k + 1..])
  }

  /** `members.erase(it)` or `elements.erase(...)`. */
  function UnlinkRecord(node: Node, k: nat): Node {
    if node.kind == TObject && k < |node.members| then node.(members := node.members[..k] + node.members[k + 1..])
    else if k < |node.elements| then node.(elements := node.elements[..k] + node.elements[k + 1..])
    else node
  }

  lemma CutPartIds(o: Owned, k: nat)
    requires Shaped(o) && k < |o.kids|
    ensures Ids(CutPart(o, k)) + Ids(o.kids[k]) == Ids(o)
  {
    IdsSplitAt(o.kids, k);
    IdsOfConcat(o.kids[..k], o.kids[k + 1..]);
  }

  lemma CutPartErase(o: Owned, k: nat)
    requires Shaped(o) && k < |o.kids|
    ensures KidCount(Erase(o)) == |o.kids| && Erase(CutPart(o, k)) == WithoutKid(Erase(o), k)
  {
    hide Erase;
    var p := CutPart(o, k);
    assert forall i :: 0 <= i < |p.kids| ==> p.kids[i] == o.kids[if i < k then i else i + 1];
    if o.head.Object? {
      EraseObject(o);
      EraseObject(p);
      assert forall i :: 0 <= i < |p.kids| ==> p.head.keys[i] == o.head.keys[if i < k then i else i + 1];
      assert Erase(p).members == Erase(o).members[..k] + Erase(o).members[k + 1..];
    } else {
      EraseArray(o);
      EraseArray(p);
      assert Erase(p).elements == Erase(o).elements[..k] + Erase(o).elements[k + 1..];
    }
  }

  lemma EraseObject(o: Owned)
    requires Shaped(o) && o.head.Object?
    ensures Erase(o).Obj? && |Erase(o).members| == |o.kids|
    ensures forall i :: 0 <= i < |o.kids| ==> Erase(o).members[i] == (o.head.keys[i], Erase(o.kids[i]))
  {
  }

  lemma EraseArray(o: Owned)
    requires Shaped(o) && o.head.Array?
    ensures Erase(o).Arr? && |Erase(o).elements| == |o.kids|
    ensures forall i :: 0 <= i < |o.kids| ==> Erase(o).elements[i] == Erase(o.kids[i])
  {
  }

  lemma CutPartRecord(o: Owned, k: nat, parent: Option<NodeId>, releases: nat)
    requires Shaped(o) && k < |o.kids|
    ensures Shaped(CutPart(o, k))
    ensures RecordOf(CutPart(o, k), parent, releases) == UnlinkRecord(RecordOf(o, parent, releases), k)
  {
    var p, q := RecordOf(CutPart(o, k), parent, releases), UnlinkRecord(RecordOf(o, parent, releases), k);
    if o.head.Object? {
      assert p.members == q.members;
    } else {
      assert p.elements == q.elements;
    }
  }

  /** Unlinking child `k` and then freeing it, seen from its container. */
  lemma CutHolds(before: seq<Node>, unlinked: seq<Node>, after: seq<Node>, o: Owned, parent: Option<NodeId>, k: nat)
    requires Holds(before, o, parent) && Once(Ids(o)) && k < |o.kids|
    requires unlinked == before[o.id := UnlinkRecord(before[o.id], k)]
    requires Shrank(unlinked, after, Ids(o.kids[k]))
    ensures Holds(unlinked, o.kids[k], Some(o.id)) && Once(Ids(o.kids[k]))
    ensures Holds(after, CutPart(o, k), parent)
    ensures Rewrote(before, after, o.id, Ids(o.kids[k]), multiset{})
  {
    UnlinkedKid(before, unlinked, o, parent, k);
    HoldsLive(before, o, parent);
    KidSlots(o, k);
    CutPartRecord(o, k, parent, before[o.id].releases);
    CutRewrote(before, unlinked, after, o.id, Ids(o.kids[k]), k);
    CutKids(before, unlinked, after, o, parent, k);
  }

  lemma CutKids(before: seq<Node>, unlinked: seq<Node>, after: seq<Node>, o: Owned, parent: Option<NodeId>, k: nat)
    requires Holds(before, o, parent) && Once(Ids(o)) && k < |o.kids|
    requires unlinked == before[o.id := UnlinkRecord(before[o.id], k)]
    requires Shrank(unlinked, after, Ids(o.kids[k]))
    ensures forall i :: 0 <= i < |CutPart(o, k).kids| ==> Holds(after, CutPart(o, k).kids[i], Some(o.id))
  {
    var p := CutPart(o, k);
    forall i | 0 <= i < |p.kids|
      ensures Holds(after, p.kids[i], Some(o.id))
    {
      var j := if i < k then i else i + 1;
      assert p.kids[i] == o.kids[j] && Holds(before, o.kids[j], Some(o.id));
      hide Holds, Once, Ids, Shrank, UnlinkRecord, CutPart;
      OtherKid(before, unlinked, after, o, k, j);
      HoldsFrame(before, after, o.kids[j], Some(o.id));
    }
  }

  /** Unlinking one child and freeing its subtree leaves the slots of another as they were. */
  lemma OtherKid(before: seq<Node>, unlinked: seq<Node>, after: seq<Node>, o: Owned, k: nat, j: nat)
    requires Once(Ids(o)) && o.id < |before| && k < |o.kids| && j < |o.kids| && j != k
    requires unlinked == before[o.id := UnlinkRecord(before[o.id], k)]
    requires Shrank(unlinked, after, Ids(o.kids[k]))
    ensures forall x :: x in Ids(o.kids[j]) && x < |before| ==> x < |after| && after[x] == before[x]
  {
    KidSlots(o, k);
    hide Ids, IdsOf, Once, UnlinkRecord;
    forall x | x in Ids(o.kids[j]) && x < |before|
      ensures x < |after| && after[x] == before[x]
    {
      KidSlot(o, j, x);
      KidsApart(o.kids, j, k, x);
    }
  }

  lemma KidSlots(o: Owned, k: nat)
    requires Once(Ids(o)) && k < |o.kids|
    ensures Once(IdsOf(o.kids)) && Once(Ids(o.kids[k])) && o.id !in IdsOf(o.kids) && o.id !in Ids(o.kids[k])
    ensures forall x :: x in Ids(o.kids[k]) ==> x in Ids(o)
  {
    RootApart(o);
    KidWithin(o.kids, k);
    SubOnce(Ids(o.kids[k]), IdsOf(o.kids));
    forall x | x in Ids(o.kids[k])
      ensures x in Ids(o)
    {
      KidSlot(o, k, x);
    }
  }

  lemma UnlinkedKid(before: seq<Node>, unlinked: seq<Node>, o: Owned, parent: Option<NodeId>, k: nat)
    requires Holds(before, o, parent) && Once(Ids(o)) && k < |o.kids|
    requires unlinked == before[o.id := UnlinkRecord(before[o.id], k)]
    ensures Holds(unlinked, o.kids[k], Some(o.id)) && Once(Ids(o.kids[k]))
  {
    KidSlots(o, k);
    HoldsFrame(before, unlinked, o.kids[k], Some(o.id));
  }

  lemma CutRewrote(before: seq<Node>, unlinked: seq<Node>, after: seq<Node>, id: NodeId, gone: multiset<NodeId>, k: nat)
    requires Live(before, id) && id !in gone && Once(gone)
    requires forall x: NodeId :: x in gone ==> Live(before, x)
    requires unlinked == before[id := UnlinkRecord(before[id], k)]
    requires Shrank(unlinked, after, gone)
    ensures Rewrote(before, after, id, gone, multiset{})
  {
  }

  /** One step down from a position, read off the slots. */
  lemma SlotAtSpot(nodes: seq<Node>, root: Owned, spot: Spot, segment: Segment)
    requires Holds(nodes, root, None) && SpotIn(root, spot)
    ensures ValidAt(Erase(root), spot) && PartAt(root, spot).id < |nodes|
    ensures var node, s := nodes[PartAt(root, spot).id], At(Erase(root), spot);
            && (StepSlot(node, segment).Err? ==> Step(s, segment) == Err(StepSlot(node, segment).error))
            && (StepSlot(node, segment).Ok? ==> Step(s, segment).Ok?)
            && (StepSlot(node, segment) == Err(NodeNotFound) ==>
                  (Extends(s, segment) <==> segment.Key? || segment.index == |node.elements|))
    ensures var node, s := nodes[PartAt(root, spot).id], At(Erase(root), spot);
            StepSlot(node, segment).Ok? ==>
              var k := Step(s, segment).value;
              && SpotIn(root, spot + [k])
              && StepSlot(node, segment).value == PartAt(root, spot + [k]).id
              && PartAt(root, spot + [k]).id < |nodes|
              && nodes[PartAt(root, spot + [k]).id].kind == TypeOf(Kid(s, k))
  {
    EraseAt(nodes, root, None, spot);
    var part := PartAt(root, spot);
    StepSlotIsStep(nodes, part, ParentAt(root, spot, None), segment);
    if Step(Erase(part), segment).Ok? {
      var k := Step(Erase(part), segment).value;
      PartAtAppend(root, spot, k);
      EraseKids(part);
      StepSlotIsStep(nodes, part.kids[k], Some(part.id), segment);
    }
  }

  lemma AtRoot(nodes: seq<Node>, root: Owned)
    requires Represents(nodes, root)
    ensures Locate(Erase(root), []) == Ok([]) && SpotIn(root, []) && PartAt(root, []) == root
    ensures Holds(nodes, root, None)
  {
  }

  /** What a mutator knows about the part it is about to change. */
  lemma PartFacts(nodes: seq<Node>, root: Owned, spot: Spot)
    requires Represents(nodes, root) && SpotIn(root, spot)
    ensures Holds(nodes, PartAt(root, spot), ParentAt(root, spot, None)) && Once(Ids(PartAt(root, spot)))
    ensures ValidAt(Erase(root), spot) && Erase(PartAt(root, spot)) == At(Erase(root), spot)
    ensures PartAt(root, spot).id < |nodes| && nodes[PartAt(root, spot).id].kind == TypeOf(At(Erase(root), spot))
    ensures Shaped(PartAt(root, spot))
  {
    EraseAt(nodes, root, None, spot);
    assert Once(Ids(root));
    SubOnce(Ids(PartAt(root, spot)), Ids(root));
    StepSlotIsStep(nodes, PartAt(root, spot), ParentAt(root, spot, None), Index(0));
  }

  lemma OverwroteRepresents(before: seq<Node>, root: Owned, after: seq<Node>, spot: Spot, part: Owned)
    requires Represents(before, root) && SpotIn(root, spot) && part.id == PartAt(root, spot).id
    requires Holds(after, part, ParentAt(root, spot, None))
    requires Rewrote(before, after, part.id, IdsOf(PartAt(root, spot).kids), IdsOf(part.kids))
    ensures Represents(after, PutPart(root, spot, part))
    ensures Overwrote(before, root, after, PutPart(root, spot, part), spot)
    ensures ValidAt(Erase(root), spot) && Erase(PutPart(root, spot, part)) == Put(Erase(root), spot, Erase(part))
  {
    MutationRepresents(before, root, after, spot, part, IdsOf(PartAt(root, spot).kids), IdsOf(part.kids));
  }

  lemma ExtendedRepresents(before: seq<Node>, root: Owned, after: seq<Node>, spot: Spot, segment: Segment, kid: Owned)
    requires Represents(before, root) && SpotIn(root, spot) && Accepts(PartAt(root, spot), segment)
    requires Holds(after, AppendPart(PartAt(root, spot), segment, kid), ParentAt(root, spot, None))
    requires Rewrote(before, after, PartAt(root, spot).id, multiset{}, Ids(kid))
    ensures var part := AppendPart(PartAt(root, spot), segment, kid);
            && Represents(after, PutPart(root, spot, part))
            && Extended(before, root, after, PutPart(root, spot, part), spot)
            && ValidAt(Erase(root), spot)
            && Erase(PutPart(root, spot, part)) ==
               Put(Erase(root), spot, AppendKid(Erase(PartAt(root, spot)), segment, Erase(kid)))
  {
    var part := AppendPart(PartAt(root, spot), segment, kid);
    AppendPartIds(PartAt(root, spot), segment, kid);
    AppendPartErase(PartAt(root, spot), segment, kid);
    MutationRepresents(before, root, after, spot, part, multiset{}, Ids(kid));
    PutThenAt(root, spot, part);
  }

  lemma CutRepresents(before: seq<Node>, root: Owned, after: seq<Node>, spot: Spot, k: nat)
    requires Represents(before, root) && SpotIn(root, spot) && Shaped(PartAt(root, spot))
               && k < |PartAt(root, spot).kids|
    requires Holds(after, CutPart(PartAt(root, spot), k), ParentAt(root, spot, None))
    requires Rewrote(before, after, PartAt(root, spot).id, Ids(PartAt(root, spot).kids[k]), multiset{})
    ensures var part := CutPart(PartAt(root, spot), k);
            && Represents(after, PutPart(root, spot, part))
            && CutAt(before, root, after, PutPart(root, spot, part), spot, k)
            && ValidAt(Erase(root), spot)
            && k < KidCount(Erase(PartAt(root, spot)))
            && Erase(PutPart(root, spot, part)) == Put(Erase(root), spot, WithoutKid(Erase(PartAt(root, spot)), k))
  {
    var was := PartAt(root, spot);
    CutPartIds(was, k);
    CutPartErase(was, k);
    assert Ids(was.kids[k]) <= Ids(was);
    MutationRepresents(before, root, after, spot, CutPart(was, k), Ids(was.kids[k]), multiset{});
    PutThenAt(root, spot, CutPart(was, k));
  }
}

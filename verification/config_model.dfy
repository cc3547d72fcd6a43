/** `ConfigModel`: the path API over an arena, refined against the operations on trees. */
module ConfigModels {
  import opened Base
  import opened ConfigPath
  import opened Trees
  import opened TreeLaws
  import opened Locations
  import opened Ownership
  import opened NodeArena
  import opened Subtrees
  import opened Writes
  import opened ModelState
  import opened ConfigValues

  /** A handle names one life of one slot: its id, and its generation when the handle was made. */
  datatype Handle = Handle(id: NodeId, generation: UInt32)

  /** Extracts a subtree as a value, through the builder. */
  method BuildValue(arena: NodeArena, id: NodeId, ghost o: Owned, ghost parent: Option<NodeId>)
    returns (r: Option<Value>)
    requires Holds(arena.nodes, o, parent) && o.id == id && Distinct(Erase(o))
    modifies arena.heap
    ensures r.Some? ==> r.value == Erase(o)
    ensures r.None? ==> arena.heap.budget == 0
    decreases o, 1
  {
    var node := arena.nodes[id];
    if node.kind == TObject {
      r := BuildObject(arena, id, o, parent);
    } else if node.kind == TArray {
      r := BuildArray(arena, id, o, parent);
    } else {
      var value := new ConfigValue.Of(node.scalar);
      r := Some(value.Snapshot());
    }
  }

  method BuildObject(arena: NodeArena, id: NodeId, ghost o: Owned, ghost parent: Option<NodeId>)
    returns (r: Option<Value>)
    requires Holds(arena.nodes, o, parent) && o.id == id && Distinct(Erase(o)) && o.head.Object?
    modifies arena.heap
    ensures r.Some? ==> r.value == Erase(o)
    ensures r.None? ==> arena.heap.budget == 0
    decreases o, 0
  {
    EraseKids(o);
    var members := arena.nodes[id].members;
    var value := new ConfigValue.Object();
    for k := 0 to |members|
      invariant fresh(value) && value.Valid() && value.kind == TObject
      invariant value.object_ == Erase(o).members[..k]
    {
      assert Kid(Erase(o), k) == Erase(o.kids[k]);
      var child := BuildValue(arena, members[k].1, o.kids[k], Some(id));
      if child.None? {
        return None;
      }
      PrefixFresh(Erase(o).members, k);
      var ok := value.Set(members[k].0, child.value, arena.heap);
      if !ok {
        return None;
      }
    }
    r := Some(value.Snapshot());
  }

  method BuildArray(arena: NodeArena, id: NodeId, ghost o: Owned, ghost parent: Option<NodeId>)
    returns (r: Option<Value>)
    requires Holds(arena.nodes, o, parent) && o.id == id && Distinct(Erase(o)) && o.head.Array?
    modifies arena.heap
    ensures r.Some? ==> r.value == Erase(o)
    ensures r.None? ==> arena.heap.budget == 0
    decreases o, 0
  {
    EraseKids(o);
    var elements := arena.nodes[id].elements;
    var value := new ConfigValue.Array();
    for k := 0 to |elements|
      invariant fresh(value) && value.Valid() && value.kind == TArray
      invariant value.array_ == Erase(o).elements[..k]
    {
      assert Kid(Erase(o), k) == Erase(o.kids[k]);
      var child := BuildValue(arena, elements[k], o.kids[k], Some(id));
      if child.None? {
        return None;
      }
      var ok := value.Push(child.value, arena.heap);
      if !ok {
        return None;
      }
    }
    r := Some(value.Snapshot());
  }

  lemma PrefixFresh(members: seq<(Text, Tree)>, k: nat)
    requires UniqueKeys(members) && k < |members|
    ensures SetMember(members[..k], members[k].0, members[k].1) == members[..k + 1]
  {
    assert Find(members[..k], members[k].0) == k;
    assert members[..k + 1] == members[..k] + [members[k]];
  }

  class ConfigModel {
    const arena: NodeArena
    const rootId: NodeId
    ghost var root: Owned

    ghost predicate Valid()
      reads this, arena
    {
      && arena.Valid()
      && Represents(arena.nodes, root)
      && root.id == rootId
      && ModelTree(Erase(root))
    }

    /** The tree this model holds. */
    ghost function Contents(): Tree
      reads this
    {
      Erase(root)
    }

    constructor Over(arena: NodeArena, rootId: NodeId, ghost root: Owned)
      requires arena.Valid() && Represents(arena.nodes, root) && root.id == rootId && ModelTree(Erase(root))
      ensures Valid() && this.arena == arena && this.root == root && this.rootId == rootId
    {
      this.arena, this.rootId, this.root := arena, rootId, root;
    }

    /** A second model of the same slots: a default one whose arena is replaced by a slot-by-slot copy of this one, so
        equal slots carry
        equal generations. Running out of memory touches nothing. */
    method Clone() returns (copy: Option<ConfigModel>)
      requires Valid()
      modifies arena.heap
      ensures Valid()
      ensures copy.Some? ==> fresh(copy.value) && fresh(copy.value.arena) && copy.value.Valid()
      ensures copy.Some? ==> copy.value.arena.heap == arena.heap && copy.value.arena.nodes == arena.nodes
      ensures copy.Some? ==> copy.value.root == root && copy.value.Contents() == Contents()
      ensures copy.None? ==> arena.heap.budget == 0
    {
      var blank := New(arena.heap);
      if blank.None? {
        return None;
      }
      var ok := arena.heap.Request();
      if !ok {
        return None;
      }
      var storage := new NodeArena.Copy(arena);
      var model := new ConfigModel.Over(storage, rootId, root);
      copy := Some(model);
    }

    /** Follows a parsed path from the root. */
    method Resolve(segments: seq<Segment>) returns (r: Result<NodeId>)
      requires Valid()
      ensures match Locate(Contents(), segments)
              case Err(e) => r == Err(e)
              case Ok(spot) => SpotIn(root, spot) && r == Ok(PartAt(root, spot).id)
    {
      hide FreeList, Represents, Holds, Erase, Locate, PartAt, SpotIn, ValidAt, At, Step, StepSlot, Extends, ModelTree;
      var current := rootId;
      ghost var spot: Spot := [];
      assert segments[..0] == [];
      AtRoot(arena.nodes, root);
      for i := 0 to |segments|
        invariant SpotIn(root, spot) && current == PartAt(root, spot).id
        invariant Locate(Contents(), segments[..i]) == Ok(spot)
      {
        SlotAtSpot(arena.nodes, root, spot, segments[i]);
        assert segments[..i + 1] == segments[..i] + [segments[i]];
        LocateAppend(Contents(), segments[..i], segments[i]);
        var next := StepSlot(arena.nodes[current], segments[i]);
        if next.Err? {
          assert segments == segments[..i + 1] + segments[i + 1..];
          LocateFails(Contents(), segments[..i + 1], segments[i + 1..]);
          return Err(next.error);
        }
        spot := spot + [Step(At(Contents(), spot), segments[i]).value];
        current := next.value;
      }
      assert segments[..|segments|] == segments;
      r := Ok(current);
    }

    /** What `GetValue` says of the tree, read out of the slots, or no memory for it. */
    method ReadValue(path: Text) returns (r: Outcome<Value>)
      requires Valid()
      modifies arena.heap
      ensures match r
              case Done(value) => GetValue(Contents(), path) == Ok(value)
              case Refused(e) => GetValue(Contents(), path) == Err(e)
              case OutOfMemory => arena.heap.budget == 0
    {
      var parsed := ParsePath(path);
      if parsed.Err? {
        return Refused(parsed.error);
      }
      LookupByLocate(Contents(), parsed.value);
      var id := Resolve(parsed.value);
      if id.Err? {
        return Refused(id.error);
      }
      ghost var spot := Locate(Contents(), parsed.value).value;
      EraseAt(arena.nodes, root, None, spot);
      DistinctAt(Contents(), spot);
      var value := BuildValue(arena, id.value, PartAt(root, spot), ParentAt(root, spot, None));
      r := if value.Some? then Done(value.value) else OutOfMemory;
    }

    /** Whether `GetValue` succeeds: the answer for a text that is no path is no. */
    method Contains(path: Text) returns (found: bool)
      requires Valid()
      ensures found <==> GetValue(Contents(), path).Ok?
    {
      var parsed := ParsePath(path);
      if parsed.Err? {
        return false;
      }
      LookupByLocate(Contents(), parsed.value);
      var id := Resolve(parsed.value);
      found := id.Ok?;
    }

    /** A handle for the node at `path`. */
    method NodeAt(path: Text) returns (r: Result<Handle>)
      requires Valid()
      ensures match Parse(path)
              case Err(e) => r == Err(e)
              case Ok(segments) =>
                match Locate(Contents(), segments)
                case Err(e) => r == Err(e)
                case Ok(spot) => SpotIn(root, spot) && r.Ok? && Names(arena.nodes, r.value, PartAt(root, spot).id)
    {
      var parsed := ParsePath(path);
      if parsed.Err? {
        return Err(parsed.error);
      }
      var id := Resolve(parsed.value);
      if id.Err? {
        return Err(id.error);
      }
      EraseAt(arena.nodes, root, None, Locate(Contents(), parsed.value).value);
      r := Ok(Handle(id.value, arena.nodes[id.value].Generation()));
    }

    /** The plan of the write, or its error. Nothing is written yet. */
    method PlanWrite(segments: seq<Segment>, finalType: NodeType) returns (r: Result<(NodeId, nat)>)
      requires Valid() && segments != []
      ensures match Plan(Contents(), segments, finalType)
              case Err(e) => r == Err(e)
              case Ok(plan) => SpotIn(root, plan.at) && r == Ok((PartAt(root, plan.at).id, plan.createFrom))
    {
      hide FreeList, Represents, Holds, Erase, Plan, Locate, PartAt, SpotIn, ValidAt, At, Step, StepSlot, Extends;
      hide ModelTree;
      var current := rootId;
      ghost var spot: Spot := [];
      var i := 0;
      assert segments[..0] == [];
      AtRoot(arena.nodes, root);
      while true
        invariant i < |segments|
        invariant SpotIn(root, spot) && current == PartAt(root, spot).id
        invariant Locate(Contents(), segments[..i]) == Ok(spot)
        decreases |segments| - i
      {
        SlotAtSpot(arena.nodes, root, spot, segments[i]);
        PlanAtSpot(Contents(), segments, i, finalType, spot);
        var node := arena.nodes[current];
        var next := StepSlot(node, segments[i]);
        if next.Err? {
          var appends := segments[i].Key? || segments[i].index == |node.elements|;
          if next.error == NodeNotFound && appends && Creatable(segments[i + 1..]) {
            return Ok((current, i));
          }
          return Err(next.error);
        }
        ghost var k := Step(At(Contents(), spot), segments[i]).value;
        if i + 1 == |segments| {
          if arena.nodes[next.value].kind != finalType {
            return Err(InvalidType);
          }
          return Ok((next.value, |segments|));
        }
        assert segments[..i + 1] == segments[..i] + [segments[i]];
        LocateAppend(Contents(), segments[..i], segments[i]);
        spot := spot + [k];
        current := next.value;
        i := i + 1;
      }
    }

    /** Same-type replacement at `spot`: the target keeps its slot and generation. */
    method Overwrite(target: NodeId, value: Value, ghost spot: Spot) returns (ok: bool)
      requires Valid() && SpotIn(root, spot) && PartAt(root, spot).id == target
      requires ValidAt(Contents(), spot) && TypeOf(At(Contents(), spot)) == TypeOf(value)
      requires ModelTree(Put(Contents(), spot, value))
      modifies this, arena, arena.heap
      ensures Valid()
      ensures ok ==> ValidAt(old(Contents()), spot) && Contents() == Put(old(Contents()), spot, value)
      ensures ok ==> Overwrote(old(arena.nodes), old(root), arena.nodes, root, spot)
      ensures !ok ==> root == old(root) && Grew(old(arena.nodes), arena.nodes, multiset{}) && arena.heap.budget == 0
    {
      hide FreeList, Represents, Holds, Erase, PartAt, PutPart, SpotIn, ValidAt, At, Put, ModelTree, Grew, Overwrote;
      hide Rewrote;
      hide Once, Ids, IdsOf, ParentAt;
      ghost var before := arena.nodes;
      PartFacts(before, root, spot);
      ghost var part;
      ok, part := AssignContents(arena, target, value, PartAt(root, spot), ParentAt(root, spot, None));
      if ok {
        OverwroteRepresents(before, root, arena.nodes, spot, part);
        RootId(root, spot, part);
        root := PutPart(root, spot, part);
      } else {
        UnwoundRepresents(before, arena.nodes, root);
      }
    }

    /** Creation below the container `anchor`, the part at `spot`. */
    method Create(anchor: NodeId, segments: seq<Segment>, from: nat, value: Value, ghost spot: Spot) returns (ok: bool)
      requires Valid() && SpotIn(root, spot) && PartAt(root, spot).id == anchor
      requires from < |segments| && Creatable(segments[from + 1..])
      requires ValidAt(Contents(), spot) && Extends(At(Contents(), spot), segments[from])
      requires ModelTree(Put(Contents(), spot,
                             AppendKid(At(Contents(), spot), segments[from], Chain(segments[from + 1..], value))))
      modifies this, arena, arena.heap
      ensures Valid()
      ensures ok ==>
                && ValidAt(old(Contents()), spot) && Extends(At(old(Contents()), spot), segments[from])
                && Contents() == Put(old(Contents()), spot, AppendKid(At(old(Contents()), spot), segments[from],
                                                                      Chain(segments[from + 1..], value)))
      ensures ok ==> Extended(old(arena.nodes), old(root), arena.nodes, root, spot)
      ensures !ok ==> root == old(root) && Grew(old(arena.nodes), arena.nodes, multiset{}) && arena.heap.budget == 0
    {
      hide FreeList, Represents, Holds, PartAt, PutPart, SpotIn, ValidAt, At, Put, ModelTree, Grew, Extended, Rewrote;
      hide Chain, Creatable, Once, Ids, IdsOf, ParentAt;
      ghost var before := arena.nodes;
      PartFacts(before, root, spot);
      ghost var part := PartAt(root, spot);
      assert Accepts(part, segments[from]);
      hide Erase, Extends;
      var chain;
      ghost var o;
      chain, o := BuildChain(arena, segments, from, value);
      if chain.None? {
        UnwoundRepresents(before, arena.nodes, root);
        return false;
      }
      ok := Join(arena, anchor, segments[from], chain.value, before, part, ParentAt(root, spot, None), o);
      if ok {
        ExtendedRepresents(before, root, arena.nodes, spot, segments[from], o);
        RootId(root, spot, AppendPart(part, segments[from], o));
        root := PutPart(root, spot, AppendPart(part, segments[from], o));
      } else {
        UnwoundRepresents(before, arena.nodes, root);
      }
    }

    /** `SetValue` on the slots. A refusal changes nothing at all; running out of memory changes nothing a caller can
        see. */
    method Set(path: Text, value: Value) returns (r: Outcome<()>)
      requires Valid()
      modifies this, arena, arena.heap
      ensures Valid()
      ensures r.Done? ==> SetValue(old(Contents()), path, value) == Ok(Contents())
      ensures r.Done? ==> SetEffect(old(arena.nodes), old(root), arena.nodes, root, path, value)
      ensures r.Refused? ==> SetValue(old(Contents()), path, value) == Err(r.error)
      ensures r.Refused? ==>
                root == old(root) && arena.nodes == old(arena.nodes) && arena.heap.budget == old(arena.heap.budget)
      ensures r.OutOfMemory? ==> SetValue(old(Contents()), path, value).Ok? && arena.heap.budget == 0
      ensures r.OutOfMemory? ==> root == old(root) && Grew(old(arena.nodes), arena.nodes, multiset{})
    {
      var parsed := ParsePath(path);
      if parsed.Err? {
        return Refused(parsed.error);
      }
      var segments := parsed.value;
      if !Fits(value, |segments|) {
        return Refused(InvalidPath);
      }
      var plan := PlanWrite(segments, TypeOf(value));
      UpsertByPlan(Contents(), segments, value);
      if plan.Err? {
        return Refused(plan.error);
      }
      WritesKeepModels(Contents(), path, value);
      ghost var p := Plan(Contents(), segments, TypeOf(value)).value;
      var ok;
      if plan.value.1 == |segments| {
        ok := Overwrite(plan.value.0, value, p.at);
      } else {
        ok := Create(plan.value.0, segments, plan.value.1, value, p.at);
      }
      r := if ok then Done(()) else OutOfMemory;
    }

    /** The tree without the node at `path`; the slots of its subtree go back to the free list. */
    method Remove(path: Text) returns (r: Result<()>)
      requires Valid()
      modifies this, arena
      ensures Valid()
      ensures r.Ok? ==> RemoveValue(old(Contents()), path) == Ok(Contents())
      ensures r.Ok? ==> RemoveEffect(old(arena.nodes), old(root), arena.nodes, root, path)
      ensures r.Err? ==> RemoveValue(old(Contents()), path) == Err(r.error)
      ensures r.Err? ==> root == old(root) && arena.nodes == old(arena.nodes)
    {
      var parsed := ParsePath(path);
      if parsed.Err? {
        return Err(parsed.error);
      }
      var segments := parsed.value;
      RemoveByLocate(Contents(), segments);
      var target := Resolve(segments);
      if target.Err? {
        return Err(target.error);
      }
      WritesKeepModels(Contents(), path, Leaf(Null));
      ghost var spot := Locate(Contents(), segments).value;
      Cut(target.value, segments[|segments| - 1], segments, spot);
      r := Ok(());
    }

    /** Erases the target from its container, found through the parent link, then frees it. */
    method Cut(target: NodeId, last: Segment, ghost segments: seq<Segment>, ghost spot: Spot)
      requires Valid() && segments != [] && last == segments[|segments| - 1]
      requires Locate(Contents(), segments) == Ok(spot)
      requires SpotIn(root, spot) && PartAt(root, spot).id == target
      requires ModelTree(Detached(Contents(), spot))
      modifies this, arena
      ensures Valid()
      ensures ValidAt(old(Contents()), spot) && Contents() == Detached(old(Contents()), spot)
      ensures CutAt(old(arena.nodes), old(root), arena.nodes, root, spot[..|spot| - 1], spot[|spot| - 1])
    {
      hide FreeList, Represents, Holds, PartAt, PutPart, SpotIn, ValidAt, At, Put, ModelTree, CutAt, Rewrote;
      hide Once, Ids, IdsOf, ParentAt, Locate, Erase, UnlinkRecord, CutPart, Shrank;
      ghost var before := arena.nodes;
      ghost var up, k := spot[..|spot| - 1], spot[|spot| - 1];
      CutTarget(before, root, segments, spot);
      PartFacts(before, root, up);
      var parent := arena.nodes[target].parent.value;
      var node := arena.nodes[parent];
      var i := if last.Key? then FindId(node.members, target) else last.index;
      ghost var part := PartAt(root, up);
      UnlinkStays(node, i);
      arena.Store(parent, UnlinkRecord(node, i));
      ghost var unlinked := arena.nodes;
      UnlinkedKid(before, unlinked, part, ParentAt(root, up, None), k);
      FreeSubtree(arena, target, part.kids[k], Some(parent));
      CutHolds(before, unlinked, arena.nodes, part, ParentAt(root, up, None), k);
      CutRepresents(before, root, arena.nodes, up, k);
      RootId(root, up, CutPart(part, k));
      DetachedIs(Contents(), spot);
      root := PutPart(root, up, CutPart(part, k));
    }

    /** The default constructor: a fresh arena whose one slot is an empty root object. */
    static method New(heap: Heap) returns (m: Option<ConfigModel>)
      modifies heap
      ensures m.Some? ==> fresh(m.value) && fresh(m.value.arena) && m.value.arena.heap == heap
      ensures m.Some? ==> m.value.Valid() && m.value.Contents() == Obj([])
      ensures m.None? ==> heap.budget == 0
    {
      var storage := new NodeArena(heap);
      var slot := storage.Allocate(TObject);
      if slot.None? {
        return None;
      }
      EmptyRoot(storage.nodes, slot.value);
      var model := new ConfigModel.Over(storage, slot.value, EmptyPart(slot.value, Key([])));
      m := Some(model);
    }

    /** Adopts a value tree: exactly the trees a model may hold, with nothing added, lost or reordered. */
    static method FromValue(heap: Heap, value: Value) returns (r: Outcome<ConfigModel>)
      modifies heap
      ensures r.Done? ==> fresh(r.value) && fresh(r.value.arena) && r.value.arena.heap == heap
      ensures r.Done? ==> r.value.Valid() && r.value.Contents() == value
      ensures r.Refused? ==> !ModelTree(value) && r.error == if value.Obj? then InvalidPath else InvalidType
      ensures r.OutOfMemory? ==> ModelTree(value) && heap.budget == 0
    {
      if !value.Obj? {
        return Refused(InvalidType);
      }
      if !Fits(value, 0) {
        return Refused(InvalidPath);
      }
      var model := New(heap);
      if model.None? {
        return OutOfMemory;
      }
      AtRoot(model.value.arena.nodes, model.value.root);
      var ok := model.value.Overwrite(model.value.rootId, value, []);
      r := if ok then Done(model.value) else OutOfMemory;
    }
  }

  lemma EmptyRoot(nodes: seq<Node>, id: NodeId)
    requires Allocated([], nodes, id, TObject)
    ensures Represents(nodes, EmptyPart(id, Key([]))) && EmptyPart(id, Key([])).id == id
    ensures Erase(EmptyPart(id, Key([]))) == Obj([])
  {
    assert Ids(EmptyPart(id, Key([]))) == multiset{id};
  }

  /** `it->second == target`: the member that holds the slot. */
  function FindId(members: seq<(Text, NodeId)>, id: NodeId): (i: nat)
    ensures i <= |members|
    ensures forall j :: 0 <= j < i ==> members[j].1 != id
    ensures i < |members| ==> members[i].1 == id
  {
    if members == [] || members[0].1 == id then 0 else 1 + FindId(members[1..], id)
  }

  lemma DetachedIs(t: Tree, spot: Spot)
    requires ValidAt(t, spot) && spot != []
    ensures var up := spot[..|spot| - 1];
            ValidAt(t, up) && spot[|spot| - 1] < KidCount(At(t, up))
            && Detached(t, spot) == Put(t, up, WithoutKid(At(t, up), spot[|spot| - 1]))
  {
    AtParent(t, spot);
  }

  lemma UnlinkStays(node: Node, i: nat)
    ensures UnlinkRecord(node, i).alive == node.alive && UnlinkRecord(node, i).releases == node.releases
  {
  }

  lemma RootId(root: Owned, spot: Spot, part: Owned)
    requires SpotIn(root, spot) && part.id == PartAt(root, spot).id
    ensures PutPart(root, spot, part).id == root.id
  {
  }

  /** The target of a removal, seen from its container: the parent link leads there, and the last segment
      selects the target among the container's children. */
  lemma CutTarget(nodes: seq<Node>, root: Owned, segments: seq<Segment>, spot: Spot)
    requires Represents(nodes, root) && segments != [] && Locate(Erase(root), segments) == Ok(spot)
    requires SpotIn(root, spot)
    ensures ValidAt(Erase(root), spot)
    ensures Targets(nodes, root, segments[|segments| - 1], spot[..|spot| - 1], spot[|spot| - 1], PartAt(root, spot))
  {
    hide Locate, ValidAt, At, Step, Holds, Represents, Targets, SpotIn, PartAt, Erase;
    var n, m := |segments| - 1, |spot| - 1;
    assert segments == segments[..n] + [segments[n]];
    assert spot == spot[..m] + [spot[m]];
    CutTargetAt(nodes, root, segments[..n], segments[n], spot[..m], spot[m]);
  }

  lemma CutTargetAt(nodes: seq<Node>, root: Owned, front: seq<Segment>, last: Segment, up: Spot, k: nat)
    requires Represents(nodes, root) && Locate(Erase(root), front + [last]) == Ok(up + [k])
    requires SpotIn(root, up + [k])
    ensures ValidAt(Erase(root), up + [k])
    ensures Targets(nodes, root, last, up, k, PartAt(root, up + [k]))
  {
    hide Locate, ValidAt, At, Step, Holds, Represents, Targets, SpotIn, PartAt, Erase;
    LastStep(Erase(root), front, last, up, k);
    TargetOf(nodes, root, front, last, up, k);
    PartAtAppend(root, up, k);
  }

  ghost predicate Targets(nodes: seq<Node>, root: Owned, last: Segment, up: Spot, k: nat, target: Owned) {
    && SpotIn(root, up) && k < |PartAt(root, up).kids| && PartAt(root, up).kids[k] == target
    && var id, container := target.id, PartAt(root, up).id;
       && Live(nodes, id) && nodes[id].parent == Some(container) && Live(nodes, container)
       && (if last.Key? then FindId(nodes[container].members, id) == k else last.index == k)
  }

  lemma TargetOf(nodes: seq<Node>, root: Owned, front: seq<Segment>, last: Segment, up: Spot, k: nat)
    requires Represents(nodes, root) && ValidAt(Erase(root), up)
    requires Step(At(Erase(root), up), last) == Ok(k)
    ensures SpotIn(root, up) && k < |PartAt(root, up).kids|
    ensures Targets(nodes, root, last, up, k, PartAt(root, up).kids[k])
  {
    AtRoot(nodes, root);
    EraseAt(nodes, root, None, up);
    hide Holds, ValidAt, At, Represents, Erase, Ids, Once, RecordOf, FindId, ParentAt;
    PartFacts(nodes, root, up);
    EraseKids(PartAt(root, up));
    SiblingIds(nodes, PartAt(root, up), ParentAt(root, up, None), k);
    StepSlotIsStep(nodes, PartAt(root, up), ParentAt(root, up, None), last);
  }

  lemma LastStep(t: Tree, front: seq<Segment>, last: Segment, up: Spot, k: nat)
    requires Locate(t, front + [last]) == Ok(up + [k])
    ensures ValidAt(t, up) && Step(At(t, up), last) == Ok(k)
  {
    hide Locate, At, Step;
    if Locate(t, front).Err? {
      LocateFails(t, front, [last]);
    }
    LocateAppend(t, front, last);
    var found := Locate(t, front).value;
    assert (up + [k])[..|up|] == up && (up + [k])[|up|] == k;
    assert |found| == |up|;
  }

  lemma SiblingIds(nodes: seq<Node>, o: Owned, parent: Option<NodeId>, k: nat)
    requires Holds(nodes, o, parent) && Once(Ids(o)) && k < |o.kids|
    ensures o.head.Object? ==> FindId(nodes[o.id].members, o.kids[k].id) == k
    ensures Holds(nodes, o.kids[k], Some(o.id)) && Live(nodes, o.kids[k].id) && nodes[o.kids[k].id].parent == Some(o.id)
    ensures Live(nodes, o.id) && (o.head.Object? <==> nodes[o.id].kind == TObject)
  {
    if o.head.Object? {
      var members := nodes[o.id].members;
      var i := FindId(members, o.kids[k].id);
      assert members[k].1 == o.kids[k].id;
      assert i <= k && members[i].1 == o.kids[i].id;
      if i != k {
        assert o.kids[i].id in Ids(o.kids[i]) && o.kids[k].id in Ids(o.kids[k]);
        KidSlots(o, i);
        KidsApart(o.kids, i, k, o.kids[k].id);
      }
    }
  }

  /** The handle was made from the life the slot `id` is in now. */
  ghost predicate Names(nodes: seq<Node>, h: Handle, id: NodeId) {
    Live(nodes, id) && h == Handle(id, nodes[id].Generation())
  }

  lemma {:induction false} DistinctAt(t: Tree, spot: Spot)
    requires Distinct(t) && ValidAt(t, spot)
    ensures Distinct(At(t, spot))
    decreases |spot|
  {
    if spot != [] {
      DistinctAt(Kid(t, spot[0]), spot[1..]);
    }
  }
}

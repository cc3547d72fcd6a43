/** `ConfigNode`: what a handle reads, and how long it keeps naming the same node. */
module Handles {
  import opened Base
  import opened ConfigPath
  import opened Trees
  import opened Locations
  import opened Ownership
  import opened NodeArena
  import opened ModelState
  import opened ConfigModels

  /** A state of a model: its slots, and the tree they hold. */
  datatype State = State(nodes: seq<Node>, root: Owned)

  /** The handle names the node at `spot`. */
  ghost predicate Points(s: State, h: Handle, spot: Spot) {
    SpotIn(s.root, spot) && Names(s.nodes, h, PartAt(s.root, spot).id)
  }

  /** `valid()`, on a state. */
  predicate Valid(nodes: seq<Node>, h: Handle) {
    SameGeneration(nodes, h.id, h.generation)
  }

  // ------------------------------------------------------------------ every valid handle names one node

  lemma {:induction false} SpotOf(o: Owned, x: NodeId) returns (spot: Spot)
    requires x in Ids(o)
    ensures SpotIn(o, spot) && PartAt(o, spot).id == x
    decreases o
  {
    if x == o.id {
      spot := [];
    } else {
      assert x in IdsOf(o.kids);
      var i := KidOf(o.kids, x);
      var rest := SpotOf(o.kids[i], x);
      spot := [i] + rest;
      assert spot[1..] == rest;
    }
  }

  lemma {:induction false} KidOf(kids: seq<Owned>, x: NodeId) returns (i: nat)
    requires x in IdsOf(kids)
    ensures i < |kids| && x in Ids(kids[i])
  {
    var n := |kids| - 1;
    if x in Ids(kids[n]) {
      i := n;
    } else {
      i := KidOf(kids[..n], x);
    }
  }

  lemma {:induction false} SpotIds(o: Owned, spot: Spot)
    requires SpotIn(o, spot)
    ensures PartAt(o, spot).id in Ids(o)
    decreases |spot|
  {
    if spot != [] {
      SpotIds(o.kids[spot[0]], spot[1..]);
      KidSlot(o, spot[0], PartAt(o, spot).id);
    }
  }

  lemma {:induction false} SpotUnique(o: Owned, p: Spot, q: Spot)
    requires Once(Ids(o)) && SpotIn(o, p) && SpotIn(o, q) && PartAt(o, p).id == PartAt(o, q).id
    ensures p == q
    decreases |p|
  {
    RootApart(o);
    if p != [] {
      SpotIds(o.kids[p[0]], p[1..]);
      KidSlot(o, p[0], PartAt(o, p).id);
    }
    if q != [] {
      SpotIds(o.kids[q[0]], q[1..]);
      KidSlot(o, q[0], PartAt(o, q).id);
    }
    if p != [] && q != [] {
      if p[0] != q[0] {
        KidsApart(o.kids, p[0], q[0], PartAt(o, p).id);
      }
      KidSlots(o, p[0]);
      SpotUnique(o.kids[p[0]], p[1..], q[1..]);
      assert p == [p[0]] + p[1..] && q == [q[0]] + q[1..];
    }
  }

  /** A valid handle names exactly one node of the tree. */
  lemma ValidNamesOne(s: State, h: Handle)
    requires Represents(s.nodes, s.root)
    ensures Valid(s.nodes, h) <==> exists spot :: Points(s, h, spot)
    ensures forall p, q :: Points(s, h, p) && Points(s, h, q) ==> p == q
  {
    if Valid(s.nodes, h) {
      assert h.id in Ids(s.root);
      var spot := SpotOf(s.root, h.id);
      assert Points(s, h, spot);
    }
    forall p, q | Points(s, h, p) && Points(s, h, q)
      ensures p == q
    {
      assert Once(Ids(s.root));
      SpotUnique(s.root, p, q);
    }
  }

  // ------------------------------------------------------------------ reads

  /** `child(key)` and `at(index)`: one step of a path, taken from a handle. */
  method Descend(arena: NodeArena, h: Handle, segment: Segment, ghost root: Owned, ghost spot: Spot)
    returns (r: Result<Handle>)
    requires Represents(arena.nodes, root)
    requires Valid(arena.nodes, h) ==> Points(State(arena.nodes, root), h, spot)
    ensures !Valid(arena.nodes, h) ==> r == Err(NodeNotFound)
    ensures Valid(arena.nodes, h) ==>
              && ValidAt(Erase(root), spot)
              && var step := Step(At(Erase(root), spot), segment);
                 && (step.Err? ==> r == Err(step.error))
                 && (step.Ok? ==> r.Ok? && Points(State(arena.nodes, root), r.value, spot + [step.value]))
  {
    if !arena.Matches(h.id, h.generation) {
      return Err(NodeNotFound);
    }
    AtRoot(arena.nodes, root);
    SlotAtSpot(arena.nodes, root, spot, segment);
    var next := StepSlot(arena.nodes[h.id], segment);
    if next.Err? {
      return Err(next.error);
    }
    EraseAt(arena.nodes, root, None, spot + [Step(At(Erase(root), spot), segment).value]);
    r := Ok(Handle(next.value, arena.nodes[next.value].Generation()));
  }

  /** `keys()`: the member names in order. The list and each copied name need memory. */
  method Keys(arena: NodeArena, h: Handle, ghost root: Owned, ghost spot: Spot) returns (r: Outcome<seq<Text>>)
    requires Represents(arena.nodes, root)
    requires Valid(arena.nodes, h) ==> Points(State(arena.nodes, root), h, spot)
    modifies arena.heap
    ensures !Valid(arena.nodes, h) ==> r == Refused(NodeNotFound)
    ensures Valid(arena.nodes, h) ==>
              && ValidAt(Erase(root), spot)
              && var t := At(Erase(root), spot);
                 && (!t.Obj? ==> r == Refused(InvalidType))
                 && (t.Obj? ==> !r.Refused?)
                 && (t.Obj? && r.Done? ==>
                       && |r.value| == |t.members|
                       && forall i :: 0 <= i < |t.members| ==> r.value[i] == t.members[i].0)
    ensures r.OutOfMemory? ==> arena.heap.budget == 0
  {
    if !arena.Matches(h.id, h.generation) {
      return Refused(NodeNotFound);
    }
    PartFacts(arena.nodes, root, spot);
    if arena.nodes[h.id].kind != TObject {
      return Refused(InvalidType);
    }
    var members := arena.nodes[h.id].members;
    var reserved := arena.heap.Request();
    if !reserved {
      return OutOfMemory;
    }
    var names: seq<Text> := [];
    for k := 0 to |members|
      invariant |names| == k && forall i :: 0 <= i < k ==> names[i] == members[i].0
    {
      var copied := arena.heap.Request();
      if !copied {
        return OutOfMemory;
      }
      names := names + [members[k].0];
    }
    r := Done(names);
  }

  /** `members()`: each key with a handle for its child, in order. The list and each copied key need memory. */
  method Members(arena: NodeArena, h: Handle, ghost root: Owned, ghost spot: Spot)
    returns (r: Outcome<seq<(Text, Handle)>>)
    requires Represents(arena.nodes, root)
    requires Valid(arena.nodes, h) ==> Points(State(arena.nodes, root), h, spot)
    modifies arena.heap
    ensures !Valid(arena.nodes, h) ==> r == Refused(NodeNotFound)
    ensures Valid(arena.nodes, h) ==>
              && ValidAt(Erase(root), spot)
              && var t := At(Erase(root), spot);
                 && (!t.Obj? ==> r == Refused(InvalidType))
                 && (t.Obj? ==> !r.Refused?)
                 && (t.Obj? && r.Done? ==>
                       && |r.value| == |t.members|
                       && forall i :: 0 <= i < |t.members| ==>
                            r.value[i].0 == t.members[i].0
                            && Points(State(arena.nodes, root), r.value[i].1, spot + [i]))
    ensures r.OutOfMemory? ==> arena.heap.budget == 0
  {
    if !arena.Matches(h.id, h.generation) {
      return Refused(NodeNotFound);
    }
    PartFacts(arena.nodes, root, spot);
    if arena.nodes[h.id].kind != TObject {
      return Refused(InvalidType);
    }
    var members := arena.nodes[h.id].members;
    var reserved := arena.heap.Request();
    if !reserved {
      return OutOfMemory;
    }
    var found: seq<(Text, Handle)> := [];
    for k := 0 to |members|
      invariant |found| == k
      invariant forall i :: 0 <= i < k ==>
                  found[i].0 == members[i].0 && Points(State(arena.nodes, root), found[i].1, spot + [i])
    {
      var copied := arena.heap.Request();
      if !copied {
        return OutOfMemory;
      }
      PartAtAppend(root, spot, k);
      KidNamed(arena.nodes, root, spot, k);
      var child := members[k].1;
      found := found + [(members[k].0, Handle(child, arena.nodes[child].Generation()))];
    }
    r := Done(found);
  }

  lemma KidNamed(nodes: seq<Node>, root: Owned, spot: Spot, k: nat)
    requires Represents(nodes, root) && SpotIn(root, spot) && k < |PartAt(root, spot).kids|
    ensures Live(nodes, PartAt(root, spot).kids[k].id)
  {
    EraseAt(nodes, root, None, spot);
    assert Holds(nodes, PartAt(root, spot).kids[k], Some(PartAt(root, spot).id));
  }

  /** `scalarValue()`: scalars only. */
  method ScalarValue(arena: NodeArena, h: Handle, ghost root: Owned, ghost spot: Spot) returns (r: Result<Scalar>)
    requires Represents(arena.nodes, root)
    requires Valid(arena.nodes, h) ==> Points(State(arena.nodes, root), h, spot)
    ensures !Valid(arena.nodes, h) ==> r == Err(NodeNotFound)
    ensures Valid(arena.nodes, h) ==>
              && ValidAt(Erase(root), spot)
              && r == (if At(Erase(root), spot).Leaf? then Ok(At(Erase(root), spot).scalar) else Err(InvalidType))
  {
    if !arena.Matches(h.id, h.generation) {
      return Err(NodeNotFound);
    }
    PartFacts(arena.nodes, root, spot);
    var node := arena.nodes[h.id];
    r := if node.kind == TObject || node.kind == TArray then Err(InvalidType) else Ok(node.scalar);
  }
}

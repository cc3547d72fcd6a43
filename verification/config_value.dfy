/** `ConfigValue`: the builder whose hash index must agree with its ordered member vector. */
module ConfigValues {
  import opened Base
  import opened Trees
  import opened TreeLaws
  import opened NodeArena

  /** Replace in place, or append: what `set` does to the ordered members (ADR-022). */
  function SetMember(members: seq<(Text, Tree)>, key: Text, child: Tree): seq<(Text, Tree)> {
    var i := Find(members, key);
    if i < |members| then members[i := (key, child)] else members + [(key, child)]
  }

  /** The index knows exactly the members' keys, each at the position a linear search finds. */
  ghost predicate Agrees(index: map<Text, nat>, members: seq<(Text, Tree)>) {
    forall key ::
      (key in index <==> Find(members, key) < |members|) && (key in index ==> index[key] == Find(members, key))
  }

  /** The representation invariant of an object under construction. */
  ghost predicate Indexed(index: map<Text, nat>, members: seq<(Text, Tree)>) {
    && Agrees(index, members)
    && UniqueKeys(members)
  }

  lemma {:induction false} SetMemberFacts(members: seq<(Text, Tree)>, key: Text, child: Tree)
    requires UniqueKeys(members)
    ensures UniqueKeys(SetMember(members, key, child))
    ensures forall k :: Find(SetMember(members, key, child), k) ==
              if Find(members, k) < |members| then Find(members, k)
              else if k == key then |members| else |SetMember(members, key, child)|
  {
    var after := SetMember(members, key, child);
    forall k
      ensures Find(after, k) ==
              if Find(members, k) < |members| then Find(members, k) else if k == key then |members| else |after|
    {
      if Find(members, key) < |members| {
        FindSame(members, after, k);
      } else {
        FindAppend(members, (key, child), k);
      }
    }
  }

  lemma {:induction false} SetMemberDistinct(members: seq<(Text, Tree)>, key: Text, child: Tree)
    requires Distinct(Obj(members)) && Distinct(child)
    ensures Distinct(Obj(SetMember(members, key, child)))
  {
    SetMemberFacts(members, key, child);
    var t, t' := Obj(members), Obj(SetMember(members, key, child));
    assert forall i :: 0 <= i < KidCount(t') ==> Kid(t', i) == child || (i < KidCount(t) && Kid(t', i) == Kid(t, i));
  }

  lemma {:induction false} PushDistinct(elements: seq<Tree>, child: Tree)
    requires Distinct(Arr(elements)) && Distinct(child)
    ensures Distinct(Arr(elements + [child]))
  {
    var t, t' := Arr(elements), Arr(elements + [child]);
    assert forall i :: 0 <= i < KidCount(t') ==> Kid(t', i) == child || (i < KidCount(t) && Kid(t', i) == Kid(t, i));
  }

  lemma IndexReplaced(index: map<Text, nat>, members: seq<(Text, Tree)>, key: Text, child: Tree)
    requires Indexed(index, members) && key in index
    ensures index[key] < |members| && SetMember(members, key, child) == members[index[key] := (key, child)]
    ensures Indexed(index, SetMember(members, key, child))
  {
    SetMemberFacts(members, key, child);
  }

  lemma IndexAppended(index: map<Text, nat>, members: seq<(Text, Tree)>, key: Text, child: Tree)
    requires Indexed(index, members) && key !in index
    ensures SetMember(members, key, child) == members + [(key, child)]
    ensures Indexed(index[key := |members|], SetMember(members, key, child))
    ensures index[key := |members|] - {key} == index
  {
    SetMemberFacts(members, key, child);
    assert (index[key := |members|] - {key}).Keys == index.Keys;
  }

  /** A value under construction. Children are values of their own: once inside they are never shared. */
  class ConfigValue {
    var kind: NodeType
    var scalar: Scalar
    var object_: seq<(Text, Tree)>
    var objectIndex: map<Text, nat>
    var array_: seq<Tree>

    ghost predicate Valid()
      reads this
    {
      && Indexed(objectIndex, object_)
      && Distinct(Snapshot())
      && (kind != TObject ==> object_ == [])
      && (kind != TArray ==> array_ == [])
      && (kind != TObject && kind != TArray ==> ScalarType(scalar) == kind)
    }

    /** The value held so far. */
    function Snapshot(): Tree
      reads this
    {
      if kind == TObject then Obj(object_) else if kind == TArray then Arr(array_) else Leaf(scalar)
    }

    constructor Object()
      ensures Valid() && kind == TObject && Snapshot() == Obj([])
    {
      kind, scalar, object_, objectIndex, array_ := TObject, Null, [], map[], [];
    }

    constructor Array()
      ensures Valid() && kind == TArray && Snapshot() == Arr([])
    {
      kind, scalar, object_, objectIndex, array_ := TArray, Null, [], map[], [];
    }

    constructor Of(scalar: Scalar)
      ensures Valid() && Snapshot() == Leaf(scalar)
    {
      kind, this.scalar, object_, objectIndex, array_ := ScalarType(scalar), scalar, [], map[], [];
    }

    /** Replaces an existing member in place, or appends. If the append runs out of memory the index entry
        made for it is withdrawn again, and nothing has changed. */
    method Set(key: Text, child: Value, heap: Heap) returns (ok: bool)
      requires Valid() && kind == TObject
      modifies this, heap
      ensures Valid() && kind == old(kind) && scalar == old(scalar) && array_ == old(array_)
      ensures ok ==> object_ == SetMember(old(object_), key, child)
      ensures !ok ==> object_ == old(object_) && objectIndex == old(objectIndex) && heap.budget == 0
    {
      hide Find, SetMember, Indexed, Distinct;
      SetMemberDistinct(object_, key, child);
      if key in objectIndex {
        IndexReplaced(objectIndex, object_, key, child);
        object_ := object_[objectIndex[key] := (key, child)];
        return true;
      }
      ok := heap.Request();
      if !ok {
        return;
      }
      IndexAppended(objectIndex, object_, key, child);
      objectIndex := objectIndex[key := |object_|];
      ok := heap.Request();
      if !ok {
        objectIndex := objectIndex - {key};
        return;
      }
      object_ := object_ + [(key, child)];
    }

    /** The hash lookup says what a linear search of the ordered members would say. */
    method Contains(key: Text) returns (found: bool)
      requires Valid()
      ensures found <==> exists i :: 0 <= i < |object_| && object_[i].0 == key
    {
      found := key in objectIndex;
      if found {
        assert object_[Find(object_, key)].0 == key;
      }
    }

    method Push(child: Value, heap: Heap) returns (ok: bool)
      requires Valid() && kind == TArray
      modifies this, heap
      ensures Valid() && kind == old(kind) && scalar == old(scalar) && object_ == old(object_)
      ensures ok ==> array_ == old(array_) + [child]
      ensures !ok ==> array_ == old(array_) && heap.budget == 0
    {
      ok := heap.Request();
      if ok {
        PushDistinct(array_, child);
        array_ := array_ + [child];
      }
    }
  }
}

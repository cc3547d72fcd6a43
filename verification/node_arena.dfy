/** Slot storage: a flat vector of nodes whose dead slots form a free list threaded through `parent`. */
module NodeArena {
  import opened Base
  import opened Trees
  import opened Ownership

  /** The process heap, as far as it can refuse: a request succeeds while any budget is left. Between calls memory
      may be given back or taken, so the budget may change to anything. */
  class Heap {
    var budget: nat

    constructor (budget: nat)
      ensures this.budget == budget
    {
      this.budget := budget;
    }

    method Refill(budget: nat)
      modifies this
      ensures this.budget == budget
    {
      this.budget := budget;
    }

    method Request() returns (ok: bool)
      modifies this
      ensures ok == (old(budget) > 0)
      ensures budget == if ok then old(budget) - 1 else 0
    {
      ok := budget > 0;
      if ok {
        budget := budget - 1;
      }
    }
  }

  /** The slot is live and in the generation a handle was made from. */
  predicate SameGeneration(nodes: seq<Node>, id: NodeId, generation: UInt32) {
    Live(nodes, id) && nodes[id].Generation() == generation
  }

  /** What `release` leaves in a slot, whatever its place in the free list. */
  predicate Cleared(node: Node) {
    !node.alive && node.scalar == Null && node.members == [] && node.elements == []
  }

  ghost function NextFree(free: seq<NodeId>, k: nat): Option<NodeId> {
    if k < |free| then Some(free[k]) else None
  }

  /** The dead slots, each exactly once, are the list that starts at `head` and follows `parent`. */
  ghost predicate FreeList(nodes: seq<Node>, head: Option<NodeId>, free: seq<NodeId>) {
    && head == NextFree(free, 0)
    && (forall k :: 0 <= k < |free| ==>
          free[k] < |nodes| && Cleared(nodes[free[k]]) && nodes[free[k]].parent == NextFree(free, k + 1))
    && (forall j, k :: 0 <= j < k < |free| ==> free[j] != free[k])
    && (forall x :: 0 <= x < |nodes| && !nodes[x].alive ==> x in free)
  }

  lemma FreeListPush(before: seq<Node>, head: Option<NodeId>, free: seq<NodeId>, after: seq<Node>, id: NodeId)
    requires FreeList(before, head, free) && Live(before, id)
    requires |after| == |before| && Cleared(after[id]) && after[id].parent == head
    requires forall x :: 0 <= x < |before| && x != id ==> after[x] == before[x]
    ensures FreeList(after, Some(id), [id] + free)
  {
    hide NextFree, Cleared;
    var longer := [id] + free;
    LiveNotListed(before, head, free, id);
    NextFreePush(id, free);
    assert forall k :: 0 <= k < |longer| ==> longer[k] == if k == 0 then id else free[k - 1];
    forall k | 0 <= k < |longer|
      ensures longer[k] < |after| && Cleared(after[longer[k]]) && after[longer[k]].parent == NextFree(longer, k + 1)
    {
      assert k > 0 ==> NextFree(longer, k + 1) == NextFree(free, k);
    }
    forall x | 0 <= x < |after| && !after[x].alive
      ensures x in longer
    {
      assert x == id || x in free;
    }
  }

  lemma LiveNotListed(nodes: seq<Node>, head: Option<NodeId>, free: seq<NodeId>, id: NodeId)
    requires FreeList(nodes, head, free) && Live(nodes, id)
    ensures forall k :: 0 <= k < |free| ==> free[k] != id
  {
    hide NextFree;
  }

  lemma NextFreePush(id: NodeId, free: seq<NodeId>)
    ensures NextFree([id] + free, 0) == Some(id)
    ensures forall k: nat :: NextFree([id] + free, k + 1) == NextFree(free, k)
  {
  }

  /** The slot `allocate` hands out was not live, keeps its release count and starts empty. */
  ghost predicate Allocated(before: seq<Node>, after: seq<Node>, id: NodeId, kind: NodeType) {
    && !Live(before, id)
    && id <= |before|
    && |after| == (if id < |before| then |before| else |before| + 1)
    && after[id] == Node(kind, Null, [], [], None, if id < |before| then before[id].releases else 0, true)
    && forall x :: 0 <= x < |before| && x != id ==> after[x] == before[x]
  }

  class NodeArena {
    const heap: Heap
    var nodes: seq<Node>
    var freeHead: Option<NodeId>
    ghost var free: seq<NodeId>

    ghost predicate Valid()
      reads this
    {
      FreeList(nodes, freeHead, free)
    }

    constructor (heap: Heap)
      ensures Valid() && this.heap == heap && nodes == []
    {
      this.heap := heap;
      nodes, freeHead, free := [], None, [];
    }

    /** The defaulted copy constructor behind `clone`. */
    constructor Copy(other: NodeArena)
      requires other.Valid()
      ensures Valid() && heap == other.heap && nodes == other.nodes && freeHead == other.freeHead
    {
      heap := other.heap;
      nodes, freeHead, free := other.nodes, other.freeHead, other.free;
    }

    method Allocate(kind: NodeType) returns (r: Option<NodeId>)
      requires Valid()
      modifies this, heap
      ensures Valid()
      ensures r.Some? ==> Allocated(old(nodes), nodes, r.value, kind)
      ensures old(freeHead).Some? ==> r == old(freeHead)
      ensures old(freeHead).None? && r.Some? ==> r.value == |old(nodes)|
      ensures r.None? ==> nodes == old(nodes) && heap.budget == 0
      ensures heap.budget <= old(heap.budget)
    {
      if freeHead.Some? {
        var id := freeHead.value;
        var node := nodes[id];
        freeHead := node.parent;
        nodes := nodes[id := node.(kind := kind, scalar := Null, parent := None, alive := true)];
        free := free[1..];
        return Some(id);
      }
      var ok := heap.Request();
      if !ok {
        return None;
      }
      nodes := nodes + [Node(kind, Null, [], [], None, 0, true)];
      return Some(|nodes| - 1);
    }

    /** Frees a live slot: the count goes up, so every handle into this life of the slot turns stale. */
    method Release(id: NodeId)
      requires Valid() && Live(nodes, id)
      modifies this
      ensures Valid()
      ensures |nodes| == |old(nodes)|
      ensures Cleared(nodes[id]) && nodes[id].releases == old(nodes)[id].releases + 1
      ensures nodes[id].kind == old(nodes)[id].kind
      ensures freeHead == Some(id)
      ensures forall x :: 0 <= x < |nodes| && x != id ==> nodes[x] == old(nodes)[x]
    {
      var node := nodes[id];
      nodes := nodes[id := Node(node.kind, Null, [], [], freeHead, node.releases + 1, false)];
      FreeListPush(old(nodes), freeHead, free, nodes, id);
      freeHead := Some(id);
      free := [id] + free;
    }

    /** A write through the reference `get` returns: the slot stays live and keeps its release count. */
    method Store(id: NodeId, node: Node)
      requires Valid() && Live(nodes, id)
      requires node.alive && node.releases == nodes[id].releases
      modifies this
      ensures Valid()
      ensures nodes == old(nodes)[id := node]
    {
      nodes := nodes[id := node];
    }

    /** Whether a handle made from this slot's generation is still good. */
    predicate Matches(id: NodeId, generation: UInt32)
      reads this
    {
      SameGeneration(nodes, id, generation)
    }
  }
}

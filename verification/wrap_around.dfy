/** The one way a stale handle can seem valid again: a run in which its slot is freed 2^32 times. */
module WrapAround {
  import opened Base
  import opened ConfigPath
  import opened PathGrammar
  import opened Trees
  import opened Locations
  import opened Ownership
  import opened NodeArena
  import opened Writes
  import opened ModelState
  import opened ConfigModels
  import opened Handles
  import opened Lifetimes

  /** "a" */
  const KEY: Text := [0x61]

  function RootNode(members: seq<(Text, NodeId)>): Node {
    Node(TObject, Null, members, [], None, 0, true)
  }

  /** A model as the default constructor makes it. */
  function Bare(): State {
    State([RootNode([])], Owned(0, Object([]), []))
  }

  /** One null member, in a slot that was freed `r` times before. */
  function Held(r: nat): State {
    State([RootNode([(KEY, 1)]), Node(TNull, Null, [], [], Some(0), r, true)],
          Owned(0, Object([KEY]), [Owned(1, Plain(Null), [])]))
  }

  /** The member removed again: its slot is the free list. */
  function Gone(r: nat): State {
    State([RootNode([]), Node(TNull, Null, [], [], None, r, false)], Owned(0, Object([]), []))
  }

  lemma KeyParses()
    ensures Parse(KEY) == Ok([Key(KEY)])
  {
    ParsePrint([Key(KEY)]);
    assert Print([Key(KEY)]) == KEY;
  }

  lemma HeldRepresents(r: nat)
    ensures Represents(Held(r).nodes, Held(r).root) && Erase(Held(r).root) == Obj([(KEY, Leaf(Null))])
  {
    var root := Held(r).root;
    assert Ids(root) == multiset{0, 1};
    assert Holds(Held(r).nodes, root.kids[0], Some(0));
    assert Erase(root).members == [(KEY, Leaf(Null))];
  }

  lemma EmptyRepresents(r: nat)
    ensures Represents(Bare().nodes, Bare().root) && Represents(Gone(r).nodes, Gone(r).root)
    ensures Erase(Bare().root) == Erase(Gone(r).root) == Obj([])
  {
    assert Ids(Bare().root) == multiset{0};
    assert Erase(Bare().root).members == [];
  }

  lemma TreeSteps()
    ensures Plan(Obj([]), [Key(KEY)], TNull) == Ok(WritePlan([], 0))
    ensures SetValue(Obj([]), KEY, Leaf(Null)) == Ok(Obj([(KEY, Leaf(Null))]))
    ensures Locate(Obj([(KEY, Leaf(Null))]), [Key(KEY)]) == Ok([0])
    ensures RemoveValue(Obj([(KEY, Leaf(Null))]), KEY) == Ok(Obj([]))
  {
    KeyParses();
    hide Parse;
    var none: seq<(Text, Tree)>, one := [], [(KEY, Leaf(Null))];
    assert [Key(KEY)][1..] == [];
    assert Find(none, KEY) == 0 && Find(one, KEY) == 0;
    assert Step(Obj(none), Key(KEY)) == Err(NodeNotFound);
    assert Step(Obj(one), Key(KEY)) == Ok(0);
    assert Chain([], Leaf(Null)) == Leaf(Null);
    assert Upsert(Obj(none), [Key(KEY)], Leaf(Null)) == Ok(Obj(none + one));
    assert Remove(Obj(one), [Key(KEY)]) == Ok(Obj(one[..0] + one[1..]));
    assert Fits(Leaf(Null), 1);
    assert [] + one == one && one[..0] + one[1..] == [];
    assert Locate(Kid(Obj(one), 0), [Key(KEY)][1..]) == Ok([]);
    assert [0] + [] == [0];
  }

  lemma Slots(r: nat)
    ensures Ids(Held(r).root) == multiset{0, 1} && Ids(Held(r).root.kids[0]) == multiset{1}
    ensures Ids(Gone(r).root) == multiset{0} && Ids(Bare().root) == multiset{0}
  {
    assert IdsOf(Held(r).root.kids) == Ids(Held(r).root.kids[0]);
  }

  lemma SetHolds(s: State, r: nat)
    requires s == Gone(r) || (s == Bare() && r == 0)
    ensures SetTo(s, Held(r), KEY, Leaf(Null))
  {
    hide Parse, Plan, SetValue, Erase, Ids, IdsOf, Represents, Holds, Rewrote;
    KeyParses();
    TreeSteps();
    HeldRepresents(r);
    EmptyRepresents(r);
    SetRewrites(s, r);
    Slots(r);
    var s' := Held(r);
    assert multiset{0, 1} + multiset{} == multiset{0} + multiset{1};
    assert Mutation(s.nodes, s.root, s'.nodes, s'.root, [], multiset{}, multiset{1});
  }

  lemma SetRewrites(s: State, r: nat)
    requires s == Gone(r) || (s == Bare() && r == 0)
    ensures Rewrote(s.nodes, Held(r).nodes, 0, multiset{}, multiset{1})
  {
    hide Erase, Ids, IdsOf, Holds;
  }

  lemma RemoveFrees(r: nat)
    ensures RemoveTo(Held(r), Gone(r + 1), KEY)
  {
    hide Parse, Locate, RemoveValue, Erase, Ids, IdsOf, Represents, Holds, Rewrote;
    KeyParses();
    TreeSteps();
    HeldRepresents(r);
    EmptyRepresents(r + 1);
    RemoveRewrites(r);
    Slots(r);
    Slots(r + 1);
    var s, s' := Held(r), Gone(r + 1);
    assert multiset{0} + multiset{1} == multiset{0, 1} + multiset{};
    assert Mutation(s.nodes, s.root, s'.nodes, s'.root, [], multiset{1}, multiset{});
    assert [0][..0] == [];
    assert s.root.kids[..0] + s.root.kids[1..] == [];
    assert CutAt(s.nodes, s.root, s'.nodes, s'.root, [], 0);
  }

  lemma RemoveRewrites(r: nat)
    ensures Rewrote(Held(r).nodes, Gone(r + 1).nodes, 0, multiset{1}, multiset{})
  {
    hide Erase, Ids, IdsOf, Holds;
  }

  /** Set once, then `n` times removed and set again. */
  lemma {:induction false} Cycles(n: nat) returns (states: seq<State>)
    ensures Run(states) && |states| == 2 * n + 2
    ensures states[0] == Bare() && states[1] == Held(0) && states[|states| - 1] == Held(n)
    ensures n > 0 ==> states[2] == Gone(1)
  {
    hide Represents, Call, Held, Gone, Bare;
    hide Run, SetTo, RemoveTo, Erase;
    HeldRepresents(n);
    EmptyRepresents(n);
    if n == 0 {
      SetHolds(Bare(), 0);
      OneState(Bare());
      SetIsOneCall(Bare(), Held(0));
      RunGrows([Bare()], Held(0));
      states := [Bare()] + [Held(0)];
    } else {
      states := Cycles(n - 1);
      RemoveFrees(n - 1);
      RemoveIsOneCall(Held(n - 1), Gone(n));
      RunGrows(states, Gone(n));
      SetHolds(Gone(n), n);
      SetIsOneCall(Gone(n), Held(n));
      RunGrows(states + [Gone(n)], Held(n));
      states := states + [Gone(n)] + [Held(n)];
    }
  }

  lemma OneState(s: State)
    requires Represents(s.nodes, s.root)
    ensures Run([s])
  {
    hide Represents;
  }

  lemma SetIsOneCall(s: State, s': State)
    requires SetTo(s, s', KEY, Leaf(Null))
    ensures Call(s, s')
  {
    hide SetTo, RemoveTo;
  }

  lemma RemoveIsOneCall(s: State, s': State)
    requires RemoveTo(s, s', KEY)
    ensures Call(s, s')
  {
    hide SetTo, RemoveTo;
  }

  /** A handle to the member is stale after the first removal, and valid again when the slot has been freed
      2^32 times: the bound in `ValidUntilFreed` is sharp. */
  lemma StaleHandleRevives() returns (states: seq<State>, h: Handle)
    ensures Run(states) && |states| > 3 && states[0] == Bare()
    ensures Valid(states[1].nodes, h) && !Valid(states[2].nodes, h) && Valid(states[|states| - 1].nodes, h)
    ensures h.id < |states[1].nodes| && h.id < |states[|states| - 1].nodes|
    ensures Freed(states[1].nodes, states[|states| - 1].nodes, h.id) == TWO_32
  {
    hide Run;
    states := Cycles(TWO_32);
    h := Handle(1, 0);
  }

  // ------------------------------------------------------------------ the arena does it

  /** A dead slot is reused before the vector grows, and the last one released first. So releasing a slot and
      allocating again, 2^32 times, makes a handle into it stale and then good again, whatever memory there is. */
  method Revive(arena: NodeArena, id: NodeId) returns (stale: bool)
    requires arena.Valid() && Live(arena.nodes, id)
    modifies arena, arena.heap
    ensures arena.Valid() && |arena.nodes| == |old(arena.nodes)| && Live(arena.nodes, id)
    ensures forall x :: 0 <= x < |arena.nodes| && x != id ==> arena.nodes[x] == old(arena.nodes)[x]
    ensures arena.nodes[id].releases == old(arena.nodes[id]).releases + TWO_32
    ensures stale && arena.Matches(id, old(arena.nodes[id].Generation()))
  {
    hide FreeList;
    var generation, kind := arena.nodes[id].Generation(), arena.nodes[id].kind;
    stale := false;
    for n := 0 to 0x1_0000_0000
      invariant arena.Valid() && |arena.nodes| == |old(arena.nodes)| && Live(arena.nodes, id)
      invariant forall x :: 0 <= x < |arena.nodes| && x != id ==> arena.nodes[x] == old(arena.nodes)[x]
      invariant arena.nodes[id].releases == old(arena.nodes[id]).releases + n
      invariant n > 0 ==> stale
    {
      arena.Release(id);
      if n == 0 {
        stale := !arena.Matches(id, generation);
      }
      var again := arena.Allocate(kind);
    }
    SameRemainder(old(arena.nodes[id]).releases, arena.nodes[id].releases);
  }
}

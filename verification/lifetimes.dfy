/** How long a handle lives: through one call, and over every run of calls. */
module Lifetimes {
  import opened Base
  import opened ConfigPath
  import opened Trees
  import opened Locations
  import opened Ownership
  import opened NodeArena
  import opened Subtrees
  import opened Writes
  import opened ModelState
  import opened ConfigModels
  import opened Handles

  // ------------------------------------------------------------------ one call

  /** Everything a call on a model can do to it. A refused or read-only call leaves the state alone; a call
      that ran out of memory may only have aged dead slots. */
  ghost predicate Call(s: State, s': State) {
    || s' == s
    || (s'.root == s.root && Grew(s.nodes, s'.nodes, multiset{}))
    || (exists path, value :: SetTo(s, s', path, value))
    || (exists path :: RemoveTo(s, s', path))
  }

  /** A successful `set`, on the slots and on the tree they hold. */
  ghost predicate SetTo(s: State, s': State, path: Text, value: Tree) {
    && SetEffect(s.nodes, s.root, s'.nodes, s'.root, path, value)
    && SetValue(Erase(s.root), path, value) == Ok(Erase(s'.root))
  }

  ghost predicate RemoveTo(s: State, s': State, path: Text) {
    && RemoveEffect(s.nodes, s.root, s'.nodes, s'.root, path)
    && RemoveValue(Erase(s.root), path) == Ok(Erase(s'.root))
  }

  /** One path leads strictly below the other. */
  predicate Below(p: Spot, q: Spot) {
    p < q
  }

  lemma {:induction false} PutElsewhere(o: Owned, p: Spot, part: Owned, q: Spot)
    requires SpotIn(o, p) && SpotIn(o, q) && part.id == PartAt(o, p).id && !Below(p, q)
    ensures SpotIn(PutPart(o, p, part), q) && PartAt(PutPart(o, p, part), q).id == PartAt(o, q).id
    ensures !(q <= p) ==> PartAt(PutPart(o, p, part), q) == PartAt(o, q)
    decreases |p|
  {
    if p != [] && q != [] && p[0] == q[0] {
      assert p == [p[0]] + p[1..] && q == [q[0]] + q[1..];
      PutElsewhere(o.kids[p[0]], p[1..], part, q[1..]);
    }
  }

  lemma {:induction false} PutBelow(o: Owned, p: Spot, part: Owned, rest: Spot)
    requires SpotIn(o, p)
    ensures SpotIn(PutPart(o, p, part), p + rest) <==> SpotIn(part, rest)
    ensures SpotIn(part, rest) ==> PartAt(PutPart(o, p, part), p + rest) == PartAt(part, rest)
    ensures SpotIn(o, p + rest) <==> SpotIn(PartAt(o, p), rest)
    ensures SpotIn(o, p + rest) ==> PartAt(o, p + rest) == PartAt(PartAt(o, p), rest)
    decreases |p|
  {
    if p == [] {
      assert p + rest == rest;
    } else {
      assert (p + rest)[1..] == p[1..] + rest;
      PutBelow(o.kids[p[0]], p[1..], part, rest);
    }
  }

  /** The handle's slot is still in the same life, so a handle into it is as good as before. */
  lemma SameLife(before: seq<Node>, after: seq<Node>, touched: NodeId, gone: multiset<NodeId>, came: multiset<NodeId>,
                 h: Handle)
    requires Rewrote(before, after, touched, gone, came) && Valid(before, h)
    ensures h.id !in gone ==> Valid(after, h) && after[h.id].releases == before[h.id].releases
    ensures h.id in gone ==> !Live(after, h.id) && after[h.id].releases == before[h.id].releases + 1
  {
  }

  lemma DescendantsGone(o: Owned, p: Spot, q: Spot)
    requires Once(Ids(o)) && SpotIn(o, p) && SpotIn(o, q)
    ensures PartAt(o, q).id in IdsOf(PartAt(o, p).kids) <==> Below(p, q)
  {
    var x := PartAt(o, q).id;
    var part := PartAt(o, p);
    if Below(p, q) {
      var rest := q[|p|..];
      assert q == p + rest;
      PutBelow(o, p, part, rest);
      SpotIds(part.kids[rest[0]], rest[1..]);
      PartWithin(o, p);
      SubOnce(Ids(part), Ids(o));
      RootApart(part);
      KidSlot(part, rest[0], x);
    } else if x in IdsOf(part.kids) {
      BelowOnly(o, p, q);
    }
  }

  lemma BelowOnly(o: Owned, p: Spot, q: Spot)
    requires Once(Ids(o)) && SpotIn(o, p) && SpotIn(o, q) && PartAt(o, q).id in IdsOf(PartAt(o, p).kids)
    ensures Below(p, q)
  {
    var part := PartAt(o, p);
    var i := KidOf(part.kids, PartAt(o, q).id);
    var rest := SpotOf(part.kids[i], PartAt(o, q).id);
    hide Ids, IdsOf, Once;
    assert ([i] + rest)[1..] == rest;
    PutBelow(o, p, part, [i] + rest);
    SpotUnique(o, q, p + ([i] + rest));
  }

  lemma {:induction false} PartWithin(o: Owned, p: Spot)
    requires SpotIn(o, p)
    ensures Ids(PartAt(o, p)) <= Ids(o)
    decreases |p|
  {
    if p != [] {
      PartWithin(o.kids[p[0]], p[1..]);
      KidWithin(o.kids, p[0]);
    }
  }

  /** Same-type overwrite: the target's own handles and every unrelated handle stay valid where they are;
      exactly the handles strictly below the target turn stale. */
  lemma HandlesAfterOverwrite(s: State, s': State, spot: Spot, h: Handle, q: Spot)
    requires Represents(s.nodes, s.root) && Overwrote(s.nodes, s.root, s'.nodes, s'.root, spot)
    requires Points(s, h, q)
    ensures !Below(spot, q) ==> Points(s', h, q)
    ensures Below(spot, q) ==> !Live(s'.nodes, h.id)
  {
    var part := PartAt(s.root, spot);
    var came :| Mutation(s.nodes, s.root, s'.nodes, s'.root, spot, IdsOf(part.kids), came);
    assert Once(Ids(s.root));
    DescendantsGone(s.root, spot, q);
    SameLife(s.nodes, s'.nodes, part.id, IdsOf(part.kids), came, h);
    if !Below(spot, q) {
      PutElsewhere(s.root, spot, PartAt(s'.root, spot), q);
    }
  }

  /** Creation: every handle stays valid, and its node keeps its position. */
  lemma HandlesAfterCreate(s: State, s': State, spot: Spot, h: Handle, q: Spot)
    requires Represents(s.nodes, s.root) && Extended(s.nodes, s.root, s'.nodes, s'.root, spot)
    requires Points(s, h, q)
    ensures Points(s', h, q)
  {
    var part, part' := PartAt(s.root, spot), PartAt(s'.root, spot);
    var came :| Mutation(s.nodes, s.root, s'.nodes, s'.root, spot, multiset{}, came);
    SameLife(s.nodes, s'.nodes, part.id, multiset{}, came, h);
    if Below(spot, q) {
      var rest := q[|spot|..];
      assert q == spot + rest;
      PutBelow(s.root, spot, part', rest);
      assert part'.kids[rest[0]] == part.kids[rest[0]];
    } else {
      PutElsewhere(s.root, spot, part', q);
    }
  }

  /** Where a surviving node stands after child `k` of `up` is gone: later siblings moved down by one. */
  function MovedSpot(up: Spot, k: nat, q: Spot): Spot {
    if Below(up, q) && q[|up|] > k then q[|up| := q[|up|] - 1] else q
  }

  /** Removal: exactly the handles into the removed subtree turn stale; all others follow their node, across
      any shift of array indices. */
  lemma HandlesAfterRemove(s: State, s': State, up: Spot, k: nat, h: Handle, q: Spot)
    requires Represents(s.nodes, s.root) && CutAt(s.nodes, s.root, s'.nodes, s'.root, up, k)
    requires Points(s, h, q)
    ensures !(up + [k] <= q) ==> Points(s', h, MovedSpot(up, k, q))
    ensures up + [k] <= q ==> !Live(s'.nodes, h.id)
  {
    var part, part' := PartAt(s.root, up), PartAt(s'.root, up);
    var gone := Ids(part.kids[k]);
    assert Once(Ids(s.root));
    hide Ids, IdsOf, Once, Represents, Erase;
    RemovedSlots(s.root, up, k, q);
    SameLife(s.nodes, s'.nodes, part.id, gone, multiset{}, h);
    if !(up + [k] <= q) {
      hide Live, PartAt, SpotIn, PutPart, MovedSpot;
      MovedPart(s.root, up, part', k, q);
    }
  }

  /** A part that was not removed is found again at its moved position. */
  lemma MovedPart(o: Owned, up: Spot, part': Owned, k: nat, q: Spot)
    requires SpotIn(o, up) && SpotIn(o, q) && !(up + [k] <= q) && part'.id == PartAt(o, up).id
    requires k < |PartAt(o, up).kids| && part'.kids == PartAt(o, up).kids[..k] + PartAt(o, up).kids[k + 1..]
    ensures SpotIn(PutPart(o, up, part'), MovedSpot(up, k, q))
    ensures PartAt(PutPart(o, up, part'), MovedSpot(up, k, q)).id == PartAt(o, q).id
  {
    if Below(up, q) {
      hide SpotIn, PartAt, PutPart;
      assert q == up + ([q[|up|]] + q[|up| + 1..]);
      assert q[..|up| + 1] == up + [q[|up|]];
      MovedBelow(o, up, part', k, q[|up|], q[|up| + 1..]);
      var i := if q[|up|] < k then q[|up|] else q[|up|] - 1;
      assert MovedSpot(up, k, q) == up + ([i] + q[|up| + 1..]);
    } else {
      PutElsewhere(o, up, part', q);
    }
  }

  lemma MovedBelow(o: Owned, up: Spot, part': Owned, k: nat, j: nat, rest: Spot)
    requires SpotIn(o, up) && SpotIn(o, up + ([j] + rest)) && j != k
    requires k < |PartAt(o, up).kids| && part'.kids == PartAt(o, up).kids[..k] + PartAt(o, up).kids[k + 1..]
    ensures var moved := up + ([if j < k then j else j - 1] + rest);
            && SpotIn(PutPart(o, up, part'), moved)
            && PartAt(PutPart(o, up, part'), moved) == PartAt(o, up + ([j] + rest))
  {
    var i := if j < k then j else j - 1;
    PutBelow(o, up, part', [j] + rest);
    PutBelow(o, up, part', [i] + rest);
    assert part'.kids[i] == PartAt(o, up).kids[j];
    assert ([i] + rest)[1..] == rest && ([j] + rest)[1..] == rest;
  }

  lemma RemovedSlots(o: Owned, up: Spot, k: nat, q: Spot)
    requires Once(Ids(o)) && SpotIn(o, up) && k < |PartAt(o, up).kids| && SpotIn(o, q)
    ensures PartAt(o, q).id in Ids(PartAt(o, up).kids[k]) <==> up + [k] <= q
  {
    PartAtAppend(o, up, k);
    var kid := PartAt(o, up).kids[k];
    DescendantsGone(o, up + [k], q);
    if PartAt(o, q).id == kid.id {
      SpotUnique(o, q, up + [k]);
    }
    assert up + [k] <= q <==> q == up + [k] || Below(up + [k], q);
  }

  /** A write that failed for lack of memory leaves every handle as good or stale as it was, and every good one
      naming the node it named. */
  lemma HandlesAfterFailure(s: State, s': State, h: Handle, q: Spot)
    requires s'.root == s.root && Grew(s.nodes, s'.nodes, multiset{})
    ensures Points(s, h, q) <==> Points(s', h, q)
    ensures Valid(s.nodes, h) <==> Valid(s'.nodes, h)
  {
  }

  // ------------------------------------------------------------------ every run

  /** Release counts never go back, and a slot leaves its life only by being released. */
  ghost predicate Evolves(before: seq<Node>, after: seq<Node>) {
    && Aged(before, after)
    && forall x: NodeId :: Live(before, x) && after[x].releases == before[x].releases ==>
         Live(after, x) && after[x].kind == before[x].kind
  }

  lemma CallEvolves(s: State, s': State)
    requires Call(s, s')
    ensures Evolves(s.nodes, s'.nodes)
  {
    hide SetValue, RemoveValue;
    if path, value :| SetTo(s, s', path, value) {
      var plan := Plan(Erase(s.root), Parse(path).value, TypeOf(value)).value;
      if plan.createFrom == |Parse(path).value| {
        var came :| Mutation(s.nodes, s.root, s'.nodes, s'.root, plan.at, IdsOf(PartAt(s.root, plan.at).kids), came);
      } else {
        var came :| Mutation(s.nodes, s.root, s'.nodes, s'.root, plan.at, multiset{}, came);
      }
    }
  }

  lemma EvolvesTwice(a: seq<Node>, b: seq<Node>, c: seq<Node>)
    requires Evolves(a, b) && Evolves(b, c)
    ensures Evolves(a, c)
  {
    forall x: NodeId | Live(a, x) && c[x].releases == a[x].releases
      ensures Live(c, x) && c[x].kind == a[x].kind
    {
      assert b[x].releases == a[x].releases;
    }
  }

  lemma EvolvesSelf(nodes: seq<Node>)
    ensures Evolves(nodes, nodes)
  {
  }

  /** The states a model passes through, one call between each and the next. Each represents its tree. */
  ghost predicate Run(states: seq<State>) {
    && states != []
    && (forall i :: 0 <= i < |states| ==> Represents(states[i].nodes, states[i].root))
    && (forall i :: 0 <= i < |states| - 1 ==> Call(states[i], states[i + 1]))
  }

  lemma {:induction false} RunEvolves(states: seq<State>, i: nat, j: nat)
    requires Run(states) && i <= j < |states|
    ensures Evolves(states[i].nodes, states[j].nodes)
    decreases j - i
  {
    hide Call, Evolves;
    EvolvesSelf(states[i].nodes);
    if i < j {
      RunEvolves(states, i, j - 1);
      CallEvolves(states[j - 1], states[j]);
      EvolvesTwice(states[i].nodes, states[j - 1].nodes, states[j].nodes);
    }
  }

  /** How often the handle's slot has been freed between two states of a run. */
  function Freed(before: seq<Node>, after: seq<Node>, x: NodeId): int
    requires x < |before| && x < |after|
  {
    after[x].releases - before[x].releases
  }

  /** `valid()` over every run, exactly: the slot is live and the number of times it was freed since the handle
      was made is a multiple of 2^32, the period of the generation counter. */
  lemma ValidityOverRuns(states: seq<State>, i: nat, j: nat, h: Handle)
    requires Run(states) && i <= j < |states| && Valid(states[i].nodes, h)
    ensures h.id < |states[j].nodes| && Freed(states[i].nodes, states[j].nodes, h.id) >= 0
    ensures Valid(states[j].nodes, h) <==>
            Live(states[j].nodes, h.id) && Freed(states[i].nodes, states[j].nodes, h.id) % TWO_32 == 0
  {
    RunEvolves(states, i, j);
    var a, b := states[i].nodes[h.id].releases, states[j].nodes[h.id].releases;
    SameRemainder(a, b);
  }

  lemma SameRemainder(a: nat, b: nat)
    requires a <= b
    ensures a % TWO_32 == b % TWO_32 <==> (b - a) % TWO_32 == 0
  {
    assert a % 0x1_0000_0000 == b % 0x1_0000_0000 <==> (b - a) % 0x1_0000_0000 == 0;
  }

  /** While its slot has been freed fewer than 2^32 times, a handle is valid exactly until the first of them:
      it stays valid while the slot is not freed, and once stale it stays stale, reuse or not. */
  lemma ValidUntilFreed(states: seq<State>, i: nat, j: nat, k: nat, h: Handle)
    requires Run(states) && i <= j <= k < |states| && Valid(states[i].nodes, h)
    requires h.id < |states[k].nodes| && Freed(states[i].nodes, states[k].nodes, h.id) < TWO_32
    ensures h.id < |states[j].nodes|
    ensures Valid(states[j].nodes, h) <==> Freed(states[i].nodes, states[j].nodes, h.id) == 0
    ensures !Valid(states[j].nodes, h) ==> !Valid(states[k].nodes, h)
  {
    ValidityOverRuns(states, i, j, h);
    ValidityOverRuns(states, i, k, h);
    RunEvolves(states, j, k);
    RunEvolves(states, i, j);
    RunEvolves(states, i, k);
  }

  // ------------------------------------------------------------------ naming over every run

  /** Where the node at `q` stands after one call that does not free it: a removal may move it down, nothing
      else moves it. */
  ghost predicate Follows(s: State, s': State, q: Spot, q': Spot) {
    || (q' == q && (s'.root == s.root || exists path, value :: SetTo(s, s', path, value)))
    || (exists path :: RemoveTo(s, s', path) && MovedBy(s, path, q, q'))
  }

  /** The removal at `path` spares the node at `q` and leaves it at `q'`. */
  ghost predicate MovedBy(s: State, path: Text, q: Spot, q': Spot) {
    && Parse(path).Ok? && Locate(Erase(s.root), Parse(path).value).Ok?
    && var spot := Locate(Erase(s.root), Parse(path).value).value;
       && spot != [] && !(spot <= q)
       && q' == MovedSpot(spot[..|spot| - 1], spot[|spot| - 1], q)
  }

  lemma OneCallFollows(s: State, s': State, h: Handle, q: Spot) returns (q': Spot)
    requires Represents(s.nodes, s.root) && Call(s, s') && Points(s, h, q)
    requires h.id < |s'.nodes| && s'.nodes[h.id].releases == s.nodes[h.id].releases
    ensures Follows(s, s', q, q') && Points(s', h, q')
  {
    CallEvolves(s, s');
    assert Live(s'.nodes, h.id);
    hide Represents, SetEffect, RemoveEffect, SetValue, RemoveValue, Points, Evolves, Grew;
    q' := q;
    if path, value :| SetTo(s, s', path, value) {
      FollowsSet(s, s', path, value, h, q);
    } else if path :| RemoveTo(s, s', path) {
      q' := FollowsRemove(s, s', path, h, q);
    } else if s' != s {
      HandlesAfterFailure(s, s', h, q);
    }
  }

  lemma FollowsSet(s: State, s': State, path: Text, value: Tree, h: Handle, q: Spot)
    requires Represents(s.nodes, s.root) && SetTo(s, s', path, value) && Points(s, h, q) && Live(s'.nodes, h.id)
    ensures Points(s', h, q)
  {
    hide Represents, Overwrote, Extended, Points, Live, SetValue;
    var plan := Plan(Erase(s.root), Parse(path).value, TypeOf(value)).value;
    if plan.createFrom == |Parse(path).value| {
      HandlesAfterOverwrite(s, s', plan.at, h, q);
    } else {
      HandlesAfterCreate(s, s', plan.at, h, q);
    }
  }

  lemma FollowsRemove(s: State, s': State, path: Text, h: Handle, q: Spot) returns (q': Spot)
    requires Represents(s.nodes, s.root) && RemoveTo(s, s', path) && Points(s, h, q) && Live(s'.nodes, h.id)
    ensures MovedBy(s, path, q, q') && Points(s', h, q')
  {
    hide Represents, CutAt, Points, Live, RemoveValue, MovedSpot;
    var spot := Locate(Erase(s.root), Parse(path).value).value;
    var up, k := spot[..|spot| - 1], spot[|spot| - 1];
    assert spot == up + [k];
    HandlesAfterRemove(s, s', up, k, h, q);
    q' := MovedSpot(up, k, q);
  }

  lemma NotFreedBefore(states: seq<State>, i: nat, j: nat, h: Handle, q: Spot)
    requires Run(states) && i < j < |states| && Points(states[i], h, q)
    requires h.id < |states[j].nodes| && Freed(states[i].nodes, states[j].nodes, h.id) == 0
    ensures h.id < |states[i].nodes| && h.id < |states[j - 1].nodes|
    ensures Freed(states[i].nodes, states[j - 1].nodes, h.id) == 0
    ensures Freed(states[j - 1].nodes, states[j].nodes, h.id) == 0
    ensures Represents(states[j - 1].nodes, states[j - 1].root) && Call(states[j - 1], states[j])
  {
    hide Represents, Call, Points, Run, Evolves, Live;
    PointsIsLive(states[i], h, q);
    RunStep(states, j - 1);
    RunEvolves(states, i, j - 1);
    RunEvolves(states, j - 1, j);
    EvolvesAt(states[i].nodes, states[j - 1].nodes, h.id);
    EvolvesAt(states[j - 1].nodes, states[j].nodes, h.id);
  }

  lemma PointsIsLive(s: State, h: Handle, q: Spot)
    requires Points(s, h, q)
    ensures Live(s.nodes, h.id) && h.id < |s.nodes|
  {
  }

  lemma EvolvesAt(before: seq<Node>, after: seq<Node>, x: NodeId)
    requires Evolves(before, after) && x < |before|
    ensures x < |after| && Freed(before, after, x) >= 0
  {
  }

  lemma RunStep(states: seq<State>, k: nat)
    requires Run(states) && k + 1 < |states|
    ensures Represents(states[k].nodes, states[k].root) && Call(states[k], states[k + 1])
  {
    hide Represents, Call;
  }

  /** Over every run a handle names the same node for as long as the node is not freed: there is a trail of
      positions, each following from the one before across one call, and the handle points along all of it. */
  lemma {:induction false} NamesOverRuns(states: seq<State>, i: nat, j: nat, h: Handle, q: Spot)
    returns (trail: seq<Spot>)
    requires Run(states) && i <= j < |states| && Points(states[i], h, q)
    requires h.id < |states[j].nodes| && Freed(states[i].nodes, states[j].nodes, h.id) == 0
    ensures |trail| == j - i + 1 && trail[0] == q
    ensures forall k :: i <= k <= j ==> Points(states[k], h, trail[k - i])
    ensures forall k :: i <= k < j ==> Follows(states[k], states[k + 1], trail[k - i], trail[k + 1 - i])
    decreases j - i
  {
    hide Points, Follows, Represents, Call, Run, Live;
    trail := [q];
    if i < j {
      NotFreedBefore(states, i, j, h, q);
      var front := NamesOverRuns(states, i, j - 1, h, q);
      var last := OneCallFollows(states[j - 1], states[j], h, front[j - 1 - i]);
      trail := front + [last];
    }
  }

  // ------------------------------------------------------------------ the class runs through such states

  datatype Write = SetCall(path: Text, value: Value) | RemoveCall(path: Text)

  /** Any sequence of writes on a model is a run, whatever each of them returns and however much memory it finds. */
  method Replay(model: ConfigModel, writes: seq<Write>, budgets: seq<nat>) returns (ghost states: seq<State>)
    requires model.Valid() && |budgets| == |writes|
    modifies model, model.arena, model.arena.heap
    ensures model.Valid() && Run(states)
    ensures states[0] == State(old(model.arena.nodes), old(model.root))
    ensures states[|states| - 1] == State(model.arena.nodes, model.root)
  {
    hide Run, Call, Represents;
    states := [State(model.arena.nodes, model.root)];
    RunStarts(model);
    for i := 0 to |writes|
      invariant model.Valid() && Run(states) && states != []
      invariant states[0] == State(old(model.arena.nodes), old(model.root))
      invariant states[|states| - 1] == State(model.arena.nodes, model.root)
    {
      model.arena.heap.Refill(budgets[i]);
      Perform(model, writes[i]);
      RunGrows(states, State(model.arena.nodes, model.root));
      states := states + [State(model.arena.nodes, model.root)];
    }
  }

  lemma RunStarts(model: ConfigModel)
    requires model.Valid()
    ensures Run([State(model.arena.nodes, model.root)])
  {
    hide Represents;
  }

  /** One write, whatever it returns, is one call. */
  method Perform(model: ConfigModel, write: Write)
    requires model.Valid()
    modifies model, model.arena, model.arena.heap
    ensures model.Valid() && Represents(model.arena.nodes, model.root)
    ensures Call(State(old(model.arena.nodes), old(model.root)), State(model.arena.nodes, model.root))
  {
    hide Call, FreeList, Represents, Erase, ModelTree, SetEffect, RemoveEffect, Grew, SetValue, RemoveValue;
    ghost var s := State(model.arena.nodes, model.root);
    match write {
      case SetCall(path, value) =>
        var r := model.Set(path, value);
        ghost var s' := State(model.arena.nodes, model.root);
        SetIsCall(s, s', path, value, r);
      case RemoveCall(path) =>
        var r := model.Remove(path);
        ghost var s' := State(model.arena.nodes, model.root);
        RemoveIsCall(s, s', path, r);
    }
  }

  lemma SetIsCall(s: State, s': State, path: Text, value: Value, r: Outcome<()>)
    requires r.Done? ==> SetTo(s, s', path, value)
    requires r.Refused? ==> s' == s
    requires r.OutOfMemory? ==> s'.root == s.root && Grew(s.nodes, s'.nodes, multiset{})
    ensures Call(s, s')
  {
  }

  lemma RemoveIsCall(s: State, s': State, path: Text, r: Result<()>)
    requires r.Ok? ==> RemoveTo(s, s', path)
    requires r.Err? ==> s' == s
    ensures Call(s, s')
  {
  }

  lemma RunGrows(states: seq<State>, s: State)
    requires Run(states) && Call(states[|states| - 1], s) && Represents(s.nodes, s.root)
    ensures Run(states + [s])
  {
    hide Call, Represents;
    var longer := states + [s];
    forall i | 0 <= i < |longer| - 1
      ensures Call(longer[i], longer[i + 1])
    {
      assert longer[i] == states[i];
    }
  }
}

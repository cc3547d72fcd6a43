/** Positions inside a tree, counted by child index, and the paths that name them. */
module Locations {
  import opened Base
  import opened ConfigPath
  import opened PathGrammar
  import opened Trees
  import opened TreeLaws

  /** The way from the root down: which child to take at each level. */
  type Spot = seq<nat>

  predicate ValidAt(t: Tree, spot: Spot)
    decreases |spot|
  {
    spot == [] || (spot[0] < KidCount(t) && ValidAt(Kid(t, spot[0]), spot[1..]))
  }

  function At(t: Tree, spot: Spot): Tree
    requires ValidAt(t, spot)
    decreases |spot|
  {
    if spot == [] then t else At(Kid(t, spot[0]), spot[1..])
  }

  function Put(t: Tree, spot: Spot, s: Tree): Tree
    requires ValidAt(t, spot)
    decreases |spot|
  {
    if spot == [] then s else WithKid(t, spot[0], Put(Kid(t, spot[0]), spot[1..], s))
  }

  /** `resolve`: the position a path names. */
  function Locate(t: Tree, segments: seq<Segment>): (r: Result<Spot>)
    ensures r.Ok? ==> |r.value| == |segments| && ValidAt(t, r.value)
    decreases |segments|
  {
    if segments == [] then Ok([])
    else match Step(t, segments[0])
      case Err(e) => Err(e)
      case Ok(i) =>
        match Locate(Kid(t, i), segments[1..])
        case Err(e) => Err(e)
        case Ok(spot) => Ok([i] + spot)
  }

  lemma {:induction false} LookupByLocate(t: Tree, segments: seq<Segment>)
    ensures Lookup(t, segments) == match Locate(t, segments) case Err(e) => Err(e) case Ok(spot) => Ok(At(t, spot))
    decreases |segments|
  {
    if segments != [] && Step(t, segments[0]).Ok? {
      LookupByLocate(Kid(t, Step(t, segments[0]).value), segments[1..]);
    }
  }

  lemma {:induction false} LocateAppend(t: Tree, p: seq<Segment>, last: Segment)
    requires Locate(t, p).Ok?
    ensures Locate(t, p + [last]) ==
            match Step(At(t, Locate(t, p).value), last)
            case Err(e) => Err(e)
            case Ok(i) => Ok(Locate(t, p).value + [i])
    decreases |p|
  {
    if p == [] {
      assert p + [last] == [last];
      assert forall k: nat :: [k] + [] == [] + [k];
    } else {
      assert (p + [last])[1..] == p[1..] + [last];
      var i := Step(t, p[0]).value;
      LocateAppend(Kid(t, i), p[1..], last);
      var inner := Locate(Kid(t, i), p[1..]).value;
      assert ([i] + inner)[1..] == inner;
      assert forall k: nat :: [i] + (inner + [k]) == [i] + inner + [k];
    }
  }

  lemma {:induction false} LocateFails(t: Tree, p: seq<Segment>, q: seq<Segment>)
    requires Locate(t, p).Err?
    ensures Locate(t, p + q) == Locate(t, p)
    decreases |p|
  {
    assert (p + q)[1..] == p[1..] + q;
    if Step(t, p[0]).Ok? {
      LocateFails(Kid(t, Step(t, p[0]).value), p[1..], q);
    }
  }

  lemma {:induction false} AtParent(t: Tree, spot: Spot)
    requires spot != []
    ensures var up := spot[..|spot| - 1];
            ValidAt(t, spot) <==> ValidAt(t, up) && spot[|spot| - 1] < KidCount(At(t, up))
    ensures ValidAt(t, spot) ==> At(t, spot) == Kid(At(t, spot[..|spot| - 1]), spot[|spot| - 1])
    decreases |spot|
  {
    if |spot| > 1 && spot[0] < KidCount(t) {
      assert spot[..|spot| - 1][1..] == spot[1..][..|spot| - 2];
      AtParent(Kid(t, spot[0]), spot[1..]);
    }
  }

  // ------------------------------------------------------------------ plan-then-apply

  /** Where a validated write mutates: the target itself when `createFrom` is the segment count, otherwise
      the deepest existing node, with creation starting at that segment. */
  datatype WritePlan = WritePlan(at: Spot, createFrom: nat)

  function Plan(t: Tree, segments: seq<Segment>, finalType: NodeType): (r: Result<WritePlan>)
    requires segments != []
    ensures r.Ok? ==>
              var p := r.value;
              && ValidAt(t, p.at)
              && |p.at| == p.createFrom <= |segments|
              && (p.createFrom == |segments| ==> TypeOf(At(t, p.at)) == finalType)
              && (p.createFrom < |segments| ==>
                    && Step(At(t, p.at), segments[p.createFrom]).Err?
                    && Extends(At(t, p.at), segments[p.createFrom])
                    && Creatable(segments[p.createFrom + 1..]))
    decreases |segments|
  {
    match Step(t, segments[0])
    case Err(e) =>
      if e == NodeNotFound && Extends(t, segments[0]) && Creatable(segments[1..]) then
        Ok(WritePlan([], 0))
      else Err(e)
    case Ok(i) =>
      if |segments| == 1 then
        if TypeOf(Kid(t, i)) == finalType then
          assert At(t, [i]) == Kid(t, i);
          Ok(WritePlan([i], 1))
        else Err(InvalidType)
      else
        match Plan(Kid(t, i), segments[1..], finalType)
        case Err(e) => Err(e)
        case Ok(p) =>
          assert ([i] + p.at)[1..] == p.at;
          assert p.createFrom < |segments[1..]| ==>
              segments[1..][p.createFrom + 1..] == segments[p.createFrom + 2..];
          Ok(WritePlan([i] + p.at, p.createFrom + 1))
  }

  /** What applying a plan leaves at the planned position. */
  function Planned(t: Tree, plan: WritePlan, segments: seq<Segment>, value: Tree): Tree
    requires ValidAt(t, plan.at) && plan.createFrom <= |segments|
    requires plan.createFrom < |segments| ==> Extends(At(t, plan.at), segments[plan.createFrom])
  {
    var s :=
      if plan.createFrom == |segments| then value
      else AppendKid(At(t, plan.at), segments[plan.createFrom], Chain(segments[plan.createFrom + 1..], value));
    Put(t, plan.at, s)
  }

  lemma PlannedBelow(t: Tree, i: nat, plan: WritePlan, segments: seq<Segment>, value: Tree)
    requires i < KidCount(t) && segments != []
    requires ValidAt(Kid(t, i), plan.at) && plan.createFrom <= |segments| - 1
    requires plan.createFrom < |segments| - 1 ==> Extends(At(Kid(t, i), plan.at), segments[1..][plan.createFrom])
    ensures ValidAt(t, [i] + plan.at) && At(t, [i] + plan.at) == At(Kid(t, i), plan.at)
    ensures Planned(t, WritePlan([i] + plan.at, plan.createFrom + 1), segments, value) ==
            WithKid(t, i, Planned(Kid(t, i), plan, segments[1..], value))
  {
    assert ([i] + plan.at)[1..] == plan.at;
    if plan.createFrom < |segments| - 1 {
      assert segments[1..][plan.createFrom + 1..] == segments[plan.createFrom + 2..];
    }
  }

  /** Plan the whole write first, then apply it in one place. */
  function PlanAndApply(t: Tree, segments: seq<Segment>, value: Tree): Result<Tree>
    requires segments != []
  {
    match Plan(t, segments, TypeOf(value))
    case Err(e) => Err(e)
    case Ok(plan) => Ok(Planned(t, plan, segments, value))
  }

  lemma PlanBelow(t: Tree, i: nat, segments: seq<Segment>, value: Tree)
    requires |segments| > 1 && Step(t, segments[0]) == Ok(i)
    ensures PlanAndApply(t, segments, value) ==
            match PlanAndApply(Kid(t, i), segments[1..], value)
            case Err(e) => Err(e)
            case Ok(kid) => Ok(WithKid(t, i, kid))
  {
    var inner := Plan(Kid(t, i), segments[1..], TypeOf(value));
    if inner.Ok? {
      PlannedBelow(t, i, inner.value, segments, value);
    }
  }

  lemma PlanHere(t: Tree, segments: seq<Segment>, value: Tree)
    requires segments != [] && (Step(t, segments[0]).Err? || |segments| == 1)
    ensures PlanAndApply(t, segments, value) == Upsert(t, segments, value)
  {
    if |segments| == 1 && Step(t, segments[0]).Ok? {
      assert Put(t, [Step(t, segments[0]).value], value) == WithKid(t, Step(t, segments[0]).value, value);
    } else {
      assert [] + segments == segments;
    }
  }

  /** Planning and then applying in one place is the recursive upsert. */
  lemma {:induction false} UpsertByPlan(t: Tree, segments: seq<Segment>, value: Tree)
    requires segments != []
    ensures Upsert(t, segments, value) == PlanAndApply(t, segments, value)
    decreases |segments|
  {
    hide PlanAndApply;
    match Step(t, segments[0])
    case Err(_) => PlanHere(t, segments, value);
    case Ok(i) =>
      if |segments| == 1 {
        PlanHere(t, segments, value);
      } else {
        UpsertByPlan(Kid(t, i), segments[1..], value);
        PlanBelow(t, i, segments, value);
      }
  }

  /** The tree without the node at `spot`. */
  function Detached(t: Tree, spot: Spot): Tree
    requires ValidAt(t, spot) && spot != []
  {
    AtParent(t, spot);
    var up := spot[..|spot| - 1];
    Put(t, up, WithoutKid(At(t, up), spot[|spot| - 1]))
  }

  lemma {:induction false} RemoveByLocate(t: Tree, segments: seq<Segment>)
    requires segments != []
    ensures Remove(t, segments) ==
            match Locate(t, segments)
            case Err(e) => Err(e)
            case Ok(spot) => Ok(Detached(t, spot))
    decreases |segments|
  {
    if Step(t, segments[0]).Ok? && |segments| > 1 {
      var i := Step(t, segments[0]).value;
      var kid := Kid(t, i);
      RemoveByLocate(kid, segments[1..]);
      if Locate(kid, segments[1..]).Ok? {
        DetachedBelow(t, i, Locate(kid, segments[1..]).value);
      }
    }
    hide At, Put, Detached, ValidAt;
  }

  lemma DetachedBelow(t: Tree, i: nat, inner: Spot)
    requires i < KidCount(t) && ValidAt(Kid(t, i), inner) && inner != []
    ensures ValidAt(t, [i] + inner) && Detached(t, [i] + inner) == WithKid(t, i, Detached(Kid(t, i), inner))
  {
    var spot := [i] + inner;
    assert spot[1..] == inner;
    assert spot[..|spot| - 1] == [i] + inner[..|inner| - 1];
    assert spot[..|spot| - 1][1..] == inner[..|inner| - 1];
    AtParent(Kid(t, i), inner);
    AtParent(t, spot);
  }

  // ------------------------------------------------------------------ every node has a path

  /** The segments that lead to a position. */
  function PathTo(t: Tree, spot: Spot): (p: seq<Segment>)
    requires ValidAt(t, spot)
    ensures |p| == |spot|
    decreases |spot|
  {
    if spot == [] then []
    else
      [if t.Obj? then Key(t.members[spot[0]].0) else Index(spot[0])] + PathTo(Kid(t, spot[0]), spot[1..])
  }

  lemma {:induction false} LocatePathTo(t: Tree, spot: Spot)
    requires Distinct(t) && ValidAt(t, spot)
    ensures Locate(t, PathTo(t, spot)) == Ok(spot)
    decreases |spot|
  {
    if spot != [] {
      LocatePathTo(Kid(t, spot[0]), spot[1..]);
      var p := PathTo(t, spot);
      assert p[1..] == PathTo(Kid(t, spot[0]), spot[1..]);
      assert spot == [spot[0]] + spot[1..];
      if t.Obj? {
        FindAt(t.members, spot[0]);
      }
    }
  }

  lemma {:induction false} PathToPrintable(t: Tree, spot: Spot, depth: nat)
    requires Fits(t, depth) && ValidAt(t, spot)
    requires forall i :: 0 <= i < |spot| ==> spot[i] < TWO_64
    ensures forall i :: 0 <= i < |spot| ==> SegmentPrintable(PathTo(t, spot)[i])
    ensures depth + |spot| <= MAX_DEPTH
    decreases |spot|
  {
    if spot != [] {
      PathToPrintable(Kid(t, spot[0]), spot[1..], depth + 1);
    }
  }

  /** Every node of a model but its root has a printed path, of at most MAX_DEPTH segments, that leads back to it.
      Positions are vector indices, so they are below 2^64. */
  lemma EveryNodeHasAPath(t: Tree, spot: Spot)
    requires ModelTree(t) && ValidAt(t, spot) && spot != []
    requires forall i :: 0 <= i < |spot| ==> spot[i] < TWO_64
    ensures Printable(PathTo(t, spot)) && |spot| <= MAX_DEPTH
    ensures Parse(Print(PathTo(t, spot))) == Ok(PathTo(t, spot))
    ensures Locate(t, PathTo(t, spot)) == Ok(spot)
    ensures GetValue(t, Print(PathTo(t, spot))) == Ok(At(t, spot))
  {
    PathToPrintable(t, spot, 0);
    ParsePrint(PathTo(t, spot));
    LocatePathTo(t, spot);
    LookupByLocate(t, PathTo(t, spot));
  }
}

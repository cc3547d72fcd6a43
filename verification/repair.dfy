/** `fillMissing`: repair through path strings, proved to be the structural merge. */
module Repair {
  import opened Base
  import opened ConfigPath
  import opened PathGrammar
  import opened Trees
  import opened TreeLaws
  import opened Locations
  import opened Ownership
  import opened NodeArena
  import opened ModelState
  import opened ConfigModels
  import opened Handles
  import opened Merging

  // ------------------------------------------------------------------ replacement at a path

  /** The tree with the subtree at `p` exchanged. */
  function ReplaceAt(t: Tree, p: seq<Segment>, x: Tree): Tree
    requires Lookup(t, p).Ok?
    decreases |p|
  {
    if p == [] then x
    else
      var i := Step(t, p[0]).value;
      WithKid(t, i, ReplaceAt(Kid(t, i), p[1..], x))
  }

  lemma {:induction false} LookupReplaced(t: Tree, p: seq<Segment>, x: Tree, q: seq<Segment>)
    requires Lookup(t, p).Ok?
    ensures Lookup(ReplaceAt(t, p, x), p + q) == Lookup(x, q)
    decreases |p|
  {
    if p == [] {
      assert p + q == q;
    } else {
      assert (p + q)[1..] == p[1..] + q;
      var i := Step(t, p[0]).value;
      LookupReplaced(Kid(t, i), p[1..], x, q);
      StepWithKid(t, i, ReplaceAt(Kid(t, i), p[1..], x), p[0]);
    }
  }

  lemma {:induction false} ReplaceTwice(t: Tree, p: seq<Segment>, x: Tree, y: Tree)
    requires Lookup(t, p).Ok?
    ensures Lookup(ReplaceAt(t, p, x), p).Ok?
    ensures ReplaceAt(ReplaceAt(t, p, x), p, y) == ReplaceAt(t, p, y)
    decreases |p|
  {
    assert p + [] == p;
    LookupReplaced(t, p, x, []);
    if p != [] {
      var i := Step(t, p[0]).value;
      var a := ReplaceAt(Kid(t, i), p[1..], x);
      ReplaceTwice(Kid(t, i), p[1..], x, y);
      StepWithKid(t, i, a, p[0]);
      WithKidTwice(t, i, a, ReplaceAt(Kid(t, i), p[1..], y));
    }
  }

  lemma WithKidTwice(t: Tree, i: nat, a: Tree, b: Tree)
    requires i < KidCount(t)
    ensures KidCount(WithKid(t, i, a)) == KidCount(t) && WithKid(WithKid(t, i, a), i, b) == WithKid(t, i, b)
    ensures WithKid(t, i, Kid(t, i)) == t
  {
    if t.Obj? {
      assert t.members[i := (t.members[i].0, a)][i := (t.members[i].0, b)] == t.members[i := (t.members[i].0, b)];
      assert t.members[i := (t.members[i].0, Kid(t, i))] == t.members;
    } else {
      assert t.elements[i := a][i := b] == t.elements[i := b];
      assert t.elements[i := Kid(t, i)] == t.elements;
    }
  }

  lemma {:induction false} ReplaceSelf(t: Tree, p: seq<Segment>)
    requires Lookup(t, p).Ok?
    ensures ReplaceAt(t, p, Lookup(t, p).value) == t
    decreases |p|
  {
    if p != [] {
      var i := Step(t, p[0]).value;
      ReplaceSelf(Kid(t, i), p[1..]);
      WithKidTwice(t, i, Kid(t, i), Kid(t, i));
    }
  }

  /** Replacing a child of what `p` names. */
  lemma {:induction false} ReplaceChild(t: Tree, p: seq<Segment>, last: Segment, x: Tree)
    requires Lookup(t, p).Ok? && Step(Lookup(t, p).value, last).Ok?
    ensures Lookup(t, p + [last]) == Ok(Kid(Lookup(t, p).value, Step(Lookup(t, p).value, last).value))
    ensures ReplaceAt(t, p + [last], x) ==
            ReplaceAt(t, p, WithKid(Lookup(t, p).value, Step(Lookup(t, p).value, last).value, x))
    decreases |p|
  {
    LookupAppend(t, p, [last]);
    if p == [] {
      assert p + [last] == [last];
      assert ReplaceAt(t, [last], x) == WithKid(t, Step(t, last).value, x);
    } else {
      assert (p + [last])[1..] == p[1..] + [last];
      ReplaceChild(Kid(t, Step(t, p[0]).value), p[1..], last, x);
    }
  }

  /** Writing an absent child of an existing container appends it there and changes nothing else. */
  lemma {:induction false} UpsertChild(t: Tree, p: seq<Segment>, last: Segment, x: Tree)
    requires Lookup(t, p).Ok? && Step(Lookup(t, p).value, last).Err? && Extends(Lookup(t, p).value, last)
    ensures Upsert(t, p + [last], x) == Ok(ReplaceAt(t, p, AppendKid(Lookup(t, p).value, last, x)))
    decreases |p|
  {
    var path := p + [last];
    if p == [] {
      assert path == [last] && path[1..] == [];
    } else {
      assert path[1..] == p[1..] + [last] && path[0] == p[0] && |path| > 1;
      UpsertChild(Kid(t, Step(t, p[0]).value), p[1..], last, x);
    }
  }

  // ------------------------------------------------------------------ one default key at a time

  /** The model after the first `j` default keys have been looked at. */
  function Upto(model: Tree, defaults: Tree, j: nat): Tree
    requires model.Obj? && defaults.Obj? && j <= |defaults.members|
  {
    Merge(model, Obj(defaults.members[..j]))
  }

  lemma {:induction false} FindPrefix(members: seq<(Text, Tree)>, j: nat, key: Text)
    requires j <= |members|
    ensures Find(members[..j], key) == if Find(members, key) < j then Find(members, key) else j
  {
    var f, g := Find(members, key), Find(members[..j], key);
    if g < j {
      assert members[..j][g] == members[g];
    }
    if f < j {
      assert members[..j][f] == members[f];
    }
  }

  lemma PrefixDistinct(defaults: Tree, j: nat)
    requires defaults.Obj? && Distinct(defaults) && j <= |defaults.members|
    ensures Distinct(Obj(defaults.members[..j]))
  {
    var p := Obj(defaults.members[..j]);
    forall i | 0 <= i < KidCount(p)
      ensures Distinct(Kid(p, i))
    {
      assert Kid(p, i) == Kid(defaults, i);
    }
  }

  /** The next default key, seen in the partly repaired model: present exactly when the model had it, and then
      with the model's own value, still untouched. */
  lemma {:induction false} NextKey(model: Tree, defaults: Tree, j: nat)
    requires model.Obj? && defaults.Obj? && Distinct(model) && Distinct(defaults) && j < |defaults.members|
    ensures var key, i := defaults.members[j].0, Find(model.members, defaults.members[j].0);
            Step(Upto(model, defaults, j), Key(key)) == if i < |model.members| then Ok(i) else Err(NodeNotFound)
    ensures var i := Find(model.members, defaults.members[j].0);
            i < |model.members| ==> Kid(Upto(model, defaults, j), i) == Kid(model, i)
  {
    var key := defaults.members[j].0;
    var prefix := Obj(defaults.members[..j]);
    PrefixDistinct(defaults, j);
    MergeFind(model, prefix, key);
    MergeShape(model, prefix);
    FindPrefix(defaults.members, j, key);
    FindAt(defaults.members, j);
  }

  lemma {:induction false} KeptStep(model: Tree, defaults: Tree, j: nat, k: nat)
    requires model.Obj? && defaults.Obj? && Distinct(model) && Distinct(defaults)
    requires j < |defaults.members| && k < |model.members|
    ensures var a, b := Obj(defaults.members[..j]), Obj(defaults.members[..j + 1]);
            MergedValue(model.members[k], b) ==
            if k == Find(model.members, defaults.members[j].0) && Kid(model, k).Obj? && Kid(defaults, j).Obj?
            then Merge(Kid(model, k), Kid(defaults, j)) else MergedValue(model.members[k], a)
  {
    var ds, key := defaults.members, model.members[k].0;
    FindPrefix(ds, j, key);
    FindPrefix(ds, j + 1, key);
    FindAt(model.members, k);
    FindAt(ds, j);
    var f := Find(ds, key);
    if f < j {
      assert Kid(Obj(ds[..j]), f) == Kid(Obj(ds[..j + 1]), f) == ds[f].1;
    } else if f == j {
      assert Kid(Obj(ds[..j + 1]), j) == Kid(defaults, j);
    }
  }

  /** The merge grows by one step per default key. */
  lemma {:induction false} MergeStep(model: Tree, defaults: Tree, j: nat)
    requires model.Obj? && defaults.Obj? && Distinct(model) && Distinct(defaults) && j < |defaults.members|
    ensures var key, i := defaults.members[j].0, Find(model.members, defaults.members[j].0);
            var now := Upto(model, defaults, j);
            Upto(model, defaults, j + 1) ==
            if i == |model.members| then AppendKid(now, Key(key), Kid(defaults, j))
            else if i < KidCount(now) && Kid(model, i).Obj? && Kid(defaults, j).Obj? then
              WithKid(now, i, Merge(Kid(model, i), Kid(defaults, j)))
            else now
  {
    var ms, ds := model.members, defaults.members;
    var a, b := Obj(ds[..j]), Obj(ds[..j + 1]);
    assert ds[..j + 1][..j] == ds[..j];
    var now, next := Merge(model, a).members, Merge(model, b).members;
    var i := Find(ms, ds[j].0);
    forall k | 0 <= k < |ms|
      ensures next[k] == if k == i && Kid(model, i).Obj? && Kid(defaults, j).Obj?
                         then (ms[i].0, Merge(Kid(model, i), Kid(defaults, j))) else now[k]
    {
      KeptStep(model, defaults, j, k);
    }
    if i == |ms| {
      assert next == now + [ds[j]];
    } else {
      assert |next| == |now|;
    }
  }

  /** Whether anything has been added so far. */
  lemma {:induction false} ChangedStep(model: Tree, defaults: Tree, j: nat)
    requires model.Obj? && defaults.Obj? && Distinct(model) && Distinct(defaults) && j < |defaults.members|
    ensures var i := Find(model.members, defaults.members[j].0);
            Upto(model, defaults, j + 1) != model <==>
              || Upto(model, defaults, j) != model
              || i == |model.members|
              || (Kid(model, i).Obj? && Kid(defaults, j).Obj?
                  && Merge(Kid(model, i), Kid(defaults, j)) != Kid(model, i))
  {
    MergeStep(model, defaults, j);
    NextKey(model, defaults, j);
    PrefixDistinct(defaults, j);
    MergeShape(model, Obj(defaults.members[..j]));
    var i := Find(model.members, defaults.members[j].0);
    var now := Upto(model, defaults, j);
    if i < |model.members| && Kid(model, i).Obj? && Kid(defaults, j).Obj? {
      var merged := Merge(Kid(model, i), Kid(defaults, j));
      WithKidTwice(now, i, merged, Kid(model, i));
      assert Kid(WithKid(now, i, merged), i) == merged;
    }
  }

  lemma MergeNothing(model: Tree, defaults: Tree)
    requires model.Obj? && defaults.Obj?
    ensures Upto(model, defaults, 0) == model
    ensures Upto(model, defaults, |defaults.members|) == Merge(model, defaults)
  {
    assert defaults.members[..0] == [] && defaults.members[..|defaults.members|] == defaults.members;
    assert Obj(defaults.members) == defaults;
    var m := Merge(model, Obj([])).members;
    forall i | 0 <= i < |model.members|
      ensures m[i] == model.members[i]
    {
    }
    assert m == model.members;
  }

  // ------------------------------------------------------------------ the path strings

  predicate KeyPath(ks: seq<Segment>) {
    forall i :: 0 <= i < |ks| ==> ks[i].Key? && Addressable(ks[i].key)
  }

  /** How repair spells the place it is at; the root is the empty string, which is no path. */
  function PathText(ks: seq<Segment>): Text
    requires KeyPath(ks)
  {
    if ks == [] then [] else Print(ks)
  }

  lemma ChildPath(ks: seq<Segment>, key: Text)
    requires KeyPath(ks) && Addressable(key)
    ensures KeyPath(ks + [Key(key)])
    ensures PathText(ks + [Key(key)]) == if PathText(ks) == [] then key else PathText(ks) + [DOT] + key
    ensures Parse(PathText(ks + [Key(key)])) == Ok(ks + [Key(key)])
  {
    var longer := ks + [Key(key)];
    assert forall i :: 0 <= i < |longer| ==> SegmentPrintable(longer[i]);
    assert forall i :: 0 <= i < |ks| ==> SegmentPrintable(ks[i]);
    if ks == [] {
      assert longer == [Key(key)];
      assert TokensOf([]) == [];
      assert Print(longer) == key + Spell(TokensOf(longer[1..]));
    } else {
      PrintChild(ks, key);
    }
    ParsePrint(longer);
  }

  // ------------------------------------------------------------------ the algorithm

  /** Two models that may be used side by side: neither owns anything of the other's. */
  ghost predicate Separate(model: ConfigModel, defaults: ConfigModel) {
    model != defaults && model.arena != defaults.arena && model.arena.heap == defaults.arena.heap
  }

  /** A place both trees hold an object at: `m` and `d` there, with a handle on the default's. */
  ghost predicate Place(model: Tree, defaults: State, h: Handle, ks: seq<Segment>, spot: Spot, m: Tree, d: Tree) {
    && KeyPath(ks)
    && Lookup(model, ks) == Ok(m) && m.Obj? && Distinct(m)
    && Represents(defaults.nodes, defaults.root) && ModelTree(Erase(defaults.root))
    && Locate(Erase(defaults.root), ks) == Ok(spot) && ValidAt(Erase(defaults.root), spot)
    && At(Erase(defaults.root), spot) == d && d.Obj? && Distinct(d)
    && Points(defaults, h, spot)
  }

  /** Fills in what the model lacks at one place, in place; the defaults are only read. Nothing in it can be
      refused: the only way it ends early is running out of memory. */
  method FillMissing(model: ConfigModel, defaults: ConfigModel, h: Handle, path: Text,
                     ghost ks: seq<Segment>, ghost spot: Spot, ghost m: Tree, ghost d: Tree) returns (r: Outcome<bool>)
    requires model.Valid() && defaults.Valid() && Separate(model, defaults)
    requires Place(model.Contents(), State(defaults.arena.nodes, defaults.root), h, ks, spot, m, d)
               && path == PathText(ks)
    modifies model, model.arena, model.arena.heap
    ensures model.Valid() && !r.Refused?
    ensures r.Done? ==> Lookup(old(model.Contents()), ks).Ok?
                        && model.Contents() == ReplaceAt(old(model.Contents()), ks, Merge(m, d))
    ensures r.Done? ==> (r.value <==> Merge(m, d) != m)
    ensures r.OutOfMemory? ==> model.arena.heap.budget == 0
    decreases d, 1
  {
    hide FreeList, Represents, Holds, Erase, ModelTree, Merge, Distinct, Points, Locate, At, ValidAt, Lookup;
    ghost var start := model.Contents();
    PlaceValid(start, State(defaults.arena.nodes, defaults.root), h, ks, spot, m, d);
    var keys := Keys(defaults.arena, h, defaults.root, spot);
    if keys.OutOfMemory? {
      return OutOfMemory;
    }
    var added := false;
    MergeNothing(m, d);
    StartingPlace(start, ks, m);
    for j := 0 to |keys.value|
      invariant model.Valid()
      invariant model.Contents() == ReplaceAt(start, ks, Upto(m, d, j))
      invariant added <==> Upto(m, d, j) != m
    {
      ChangedStep(m, d, j);
      var step := FillKey(model, defaults, h, path, keys.value[j], ks, spot, m, d, j, start);
      if !step.Done? {
        return step;
      }
      added := added || step.value;
    }
    r := Done(added);
  }

  lemma PlaceValid(start: Tree, D: State, h: Handle, ks: seq<Segment>, spot: Spot, m: Tree, d: Tree)
    requires Place(start, D, h, ks, spot, m, d)
    ensures Valid(D.nodes, h)
  {
  }

  lemma PlaceFacts(start: Tree, D: State, h: Handle, ks: seq<Segment>, spot: Spot, m: Tree, d: Tree)
    requires Place(start, D, h, ks, spot, m, d)
    ensures Represents(D.nodes, D.root) && Points(D, h, spot) && Valid(D.nodes, h)
    ensures Lookup(start, ks) == Ok(m) && m.Obj? && d.Obj? && Distinct(m) && Distinct(d)
    ensures ValidAt(Erase(D.root), spot) && At(Erase(D.root), spot) == d
  {
  }

  lemma StartingPlace(start: Tree, ks: seq<Segment>, m: Tree)
    requires Lookup(start, ks) == Ok(m)
    ensures ReplaceAt(start, ks, m) == start
  {
    ReplaceSelf(start, ks);
  }

  lemma KeyText(start: Tree, D: State, h: Handle, ks: seq<Segment>, spot: Spot, m: Tree, d: Tree, j: nat)
    requires Place(start, D, h, ks, spot, m, d) && j < |d.members|
    ensures var key := d.members[j].0;
            && KeyPath(ks + [Key(key)])
            && PathText(ks + [Key(key)]) == (if PathText(ks) == [] then key else PathText(ks) + [DOT] + key)
            && Parse(PathText(ks + [Key(key)])) == Ok(ks + [Key(key)])
  {
    FitsAt(Erase(D.root), spot, 0);
    ChildPath(ks, d.members[j].0);
  }

  lemma {:induction false} FitsAt(t: Tree, spot: Spot, depth: nat)
    requires Fits(t, depth) && ValidAt(t, spot)
    ensures Fits(At(t, spot), depth + |spot|)
    decreases |spot|
  {
    if spot != [] {
      FitsAt(Kid(t, spot[0]), spot[1..], depth + 1);
    }
  }

  /** The default key leads to the default's own value, one step below the handle. */
  lemma KeyInDefaults(start: Tree, D: State, h: Handle, ks: seq<Segment>, spot: Spot, m: Tree, d: Tree, j: nat)
    requires Place(start, D, h, ks, spot, m, d) && j < |d.members|
    ensures Valid(D.nodes, h)
    ensures Step(d, Key(d.members[j].0)) == Ok(j)
    ensures Locate(Erase(D.root), ks + [Key(d.members[j].0)]) == Ok(spot + [j])
    ensures ValidAt(Erase(D.root), spot + [j]) && At(Erase(D.root), spot + [j]) == Kid(d, j)
    ensures Lookup(Erase(D.root), ks + [Key(d.members[j].0)]) == Ok(Kid(d, j))
    ensures Distinct(Kid(d, j))
  {
    var there := ks + [Key(d.members[j].0)];
    FindAt(d.members, j);
    LocateAppend(Erase(D.root), ks, Key(d.members[j].0));
    LookupByLocate(Erase(D.root), there);
    assert (spot + [j])[..|spot|] == spot;
    AtParent(Erase(D.root), spot + [j]);
  }

  /** What the same key finds in the partly repaired model, and what each outcome makes of it. */
  lemma KeyInModel(start: Tree, ks: seq<Segment>, m: Tree, d: Tree, j: nat, now: Tree)
    requires Lookup(start, ks) == Ok(m) && m.Obj? && d.Obj? && Distinct(m) && Distinct(d) && j < |d.members|
    requires now == ReplaceAt(start, ks, Upto(m, d, j))
    ensures var key, i, there := d.members[j].0, Find(m.members, d.members[j].0), ks + [Key(d.members[j].0)];
            && Lookup(now, there) == (if i < |m.members| then Ok(Kid(m, i)) else Err(NodeNotFound))
            && (i == |m.members| ==> Upsert(now, there, Kid(d, j)) == Ok(ReplaceAt(start, ks, Upto(m, d, j + 1))))
            && (i < |m.members| && !(Kid(m, i).Obj? && Kid(d, j).Obj?) ==>
                now == ReplaceAt(start, ks, Upto(m, d, j + 1)))
  {
    var key := d.members[j].0;
    var partly := Upto(m, d, j);
    NextKey(m, d, j);
    MergeStep(m, d, j);
    assert ks + [] == ks;
    LookupReplaced(start, ks, partly, []);
    LookupAppend(now, ks, [Key(key)]);
    LookupOne(partly, key);
    if Find(m.members, key) == |m.members| {
      UpsertChild(now, ks, Key(key), Kid(d, j));
      ReplaceTwice(start, ks, partly, AppendKid(partly, Key(key), Kid(d, j)));
    }
  }

  lemma PlaceFits(start: Tree, D: State, h: Handle, ks: seq<Segment>, spot: Spot, m: Tree, d: Tree, j: nat)
    requires Place(start, D, h, ks, spot, m, d) && j < |d.members|
    ensures Fits(Kid(d, j), |ks + [Key(d.members[j].0)]|)
  {
    FitsAt(Erase(D.root), spot, 0);
  }

  lemma KindAt(s: State, h: Handle, spot: Spot)
    requires Represents(s.nodes, s.root) && Points(s, h, spot)
    ensures ValidAt(Erase(s.root), spot) && h.id < |s.nodes| && s.nodes[h.id].kind == TypeOf(At(Erase(s.root), spot))
  {
    PartFacts(s.nodes, s.root, spot);
  }

  lemma NestedPlace(start: Tree, D: State, h: Handle, ks: seq<Segment>, spot: Spot, m: Tree, d: Tree, j: nat, now: Tree,
                    child: Handle)
    requires Place(start, D, h, ks, spot, m, d) && j < |d.members| && now == ReplaceAt(start, ks, Upto(m, d, j))
    requires var i := Find(m.members, d.members[j].0); i < |m.members| && Kid(m, i).Obj? && Kid(d, j).Obj?
    requires Points(D, child, spot + [j])
    ensures Place(now, D, child, ks + [Key(d.members[j].0)], spot + [j], Kid(m, Find(m.members, d.members[j].0)),
                  Kid(d, j))
  {
    KeyText(start, D, h, ks, spot, m, d, j);
    KeyInDefaults(start, D, h, ks, spot, m, d, j);
    KeyInModel(start, ks, m, d, j, now);
  }

  lemma NestedDone(start: Tree, ks: seq<Segment>, m: Tree, d: Tree, j: nat, now: Tree)
    requires Lookup(start, ks) == Ok(m) && m.Obj? && d.Obj? && Distinct(m) && Distinct(d) && j < |d.members|
    requires now == ReplaceAt(start, ks, Upto(m, d, j))
    requires var i := Find(m.members, d.members[j].0); i < |m.members| && Kid(m, i).Obj? && Kid(d, j).Obj?
    ensures var i, there := Find(m.members, d.members[j].0), ks + [Key(d.members[j].0)];
            && Lookup(now, there).Ok?
            && ReplaceAt(now, there, Merge(Kid(m, i), Kid(d, j))) == ReplaceAt(start, ks, Upto(m, d, j + 1))
  {
    var i, key := Find(m.members, d.members[j].0), d.members[j].0;
    var x := Merge(Kid(m, i), Kid(d, j));
    var partly := Upto(m, d, j);
    NextKey(m, d, j);
    MergeStep(m, d, j);
    assert ks + [] == ks;
    LookupReplaced(start, ks, partly, []);
    ReplaceChild(now, ks, Key(key), x);
    ReplaceTwice(start, ks, partly, WithKid(partly, i, x));
  }

  /** One default key: copied in if the model has no such key, descended into if both hold objects, else left. */
  method FillKey(model: ConfigModel, defaults: ConfigModel, h: Handle, path: Text, key: Text,
                 ghost ks: seq<Segment>, ghost spot: Spot, ghost m: Tree, ghost d: Tree, ghost j: nat,
                 ghost start: Tree)
    returns (r: Outcome<bool>)
    requires model.Valid() && defaults.Valid() && Separate(model, defaults)
    requires Place(start, State(defaults.arena.nodes, defaults.root), h, ks, spot, m, d) && path == PathText(ks)
    requires j < |d.members| && key == d.members[j].0
    requires model.Contents() == ReplaceAt(start, ks, Upto(m, d, j))
    modifies model, model.arena, model.arena.heap
    ensures model.Valid() && !r.Refused?
    ensures r.Done? ==> model.Contents() == ReplaceAt(start, ks, Upto(m, d, j + 1))
    ensures r.Done? ==>
              (r.value <==>
                 var i := Find(m.members, key);
                 i == |m.members| || (Kid(m, i).Obj? && Kid(d, j).Obj? && Merge(Kid(m, i), Kid(d, j)) != Kid(m, i)))
    ensures r.OutOfMemory? ==> model.arena.heap.budget == 0
    decreases d, 0
  {
    hide FreeList, Represents, Holds, Erase, ModelTree, Merge, Distinct, Locate, At, ValidAt, Lookup, Upsert, Fits;
    hide Points;
    hide Place, ReplaceAt, Upto, PathText, SetEffect, Valid;
    ghost var now := model.Contents();
    ghost var there := ks + [Key(key)];
    ghost var D := State(defaults.arena.nodes, defaults.root);
    PlaceFacts(start, D, h, ks, spot, m, d);
    KeyText(start, D, h, ks, spot, m, d, j);
    KeyInDefaults(start, D, h, ks, spot, m, d, j);
    KeyInModel(start, ks, m, d, j, now);
    PlaceFits(start, D, h, ks, spot, m, d, j);
    var childPath := if path == [] then key else path + [DOT] + key;
    var child := Descend(defaults.arena, h, Key(key), defaults.root, spot);
    var present := model.Contains(childPath);
    if !present {
      var subtree := defaults.ReadValue(childPath);
      if subtree.OutOfMemory? {
        return OutOfMemory;
      }
      var written := model.Set(childPath, subtree.value);
      r := if written.Done? then Done(true) else OutOfMemory;
      return;
    }
    ghost var i := Find(m.members, key);
    KindAt(D, child.value, spot + [j]);
    var defaultType := defaults.arena.nodes[child.value.id].kind;
    if defaultType == TObject {
      var modelChild := model.NodeAt(childPath);
      LookupByLocate(now, there);
      KindAt(State(model.arena.nodes, model.root), modelChild.value, Locate(now, there).value);
      if model.arena.nodes[modelChild.value.id].kind == TObject {
        NestedPlace(start, D, h, ks, spot, m, d, j, now, child.value);
        r := FillMissing(model, defaults, child.value, childPath, there, spot + [j], Kid(m, i), Kid(d, j));
        if r.Done? {
          NestedDone(start, ks, m, d, j, now);
        }
        return;
      }
    }
    r := Done(false);
  }

  /** Repair from the top: the model becomes the merge of what it was with the defaults, and the answer says
      whether that changed anything. */
  method FillFromRoot(model: ConfigModel, defaults: ConfigModel) returns (r: Outcome<bool>)
    requires model.Valid() && defaults.Valid() && Separate(model, defaults)
    modifies model, model.arena, model.arena.heap
    ensures model.Valid() && !r.Refused?
    ensures r.Done? ==> model.Contents() == Merge(old(model.Contents()), defaults.Contents())
    ensures r.Done? ==> (r.value <==> model.Contents() != old(model.Contents()))
    ensures r.OutOfMemory? ==> model.arena.heap.budget == 0
  {
    var h := Handle(defaults.rootId, defaults.arena.nodes[defaults.rootId].Generation());
    RootPlace(model.Contents(), State(defaults.arena.nodes, defaults.root), h);
    r := FillMissing(model, defaults, h, [], [], [], model.Contents(), defaults.Contents());
  }

  lemma RootPlace(model: Tree, D: State, h: Handle)
    requires ModelTree(model) && Represents(D.nodes, D.root) && ModelTree(Erase(D.root))
    requires h.id == D.root.id && Names(D.nodes, h, D.root.id)
    ensures Place(model, D, h, [], [], model, Erase(D.root))
  {
    AtRoot(D.nodes, D.root);
  }
}

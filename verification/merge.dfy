/** The structural merge that repair stands for, and what it promises (docs: "Repair"). */
module Merging {
  import opened Base
  import opened ConfigPath
  import opened Trees
  import opened TreeLaws

  /** `defaults` merged into `model`, both objects: every member the model has keeps its place, and its value
      unless both sides hold an object there; the default members it lacks follow, in default order. */
  function Merge(model: Tree, defaults: Tree): Tree
    requires model.Obj? && defaults.Obj?
    decreases defaults, 1
  {
    Obj(seq(|model.members|, i requires 0 <= i < |model.members| =>
            (model.members[i].0, MergedValue(model.members[i], defaults)))
        + Missing(model.members, defaults.members))
  }

  /** What a member the model already has becomes. */
  function MergedValue(member: (Text, Tree), defaults: Tree): Tree
    requires defaults.Obj?
    decreases defaults, 0
  {
    var j := Find(defaults.members, member.0);
    if j < |defaults.members| && member.1.Obj? && defaults.members[j].1.Obj? then
      Merge(member.1, Kid(defaults, j))
    else member.1
  }

  /** The defaults whose keys the model lacks, in order. */
  function Missing(members: seq<(Text, Tree)>, defaults: seq<(Text, Tree)>): seq<(Text, Tree)> {
    if defaults == [] then []
    else
      var last := defaults[|defaults| - 1];
      Missing(members, defaults[..|defaults| - 1]) + if Find(members, last.0) == |members| then [last] else []
  }

  // ------------------------------------------------------------------ what it keeps and what it completes

  lemma {:induction false} MissingFacts(members: seq<(Text, Tree)>, defaults: seq<(Text, Tree)>)
    requires UniqueKeys(defaults)
    ensures UniqueKeys(Missing(members, defaults))
    ensures forall i :: 0 <= i < |Missing(members, defaults)| ==>
              Missing(members, defaults)[i] in defaults && Find(members, Missing(members, defaults)[i].0) == |members|
    ensures forall j :: 0 <= j < |defaults| && Find(members, defaults[j].0) == |members| ==>
              defaults[j] in Missing(members, defaults)
  {
    if defaults != [] {
      var n := |defaults| - 1;
      MissingFacts(members, defaults[..n]);
      var m := Missing(members, defaults[..n]);
      forall i | 0 <= i < |m|
        ensures m[i].0 != defaults[n].0
      {
        assert m[i] in defaults[..n];
      }
      forall j | 0 <= j < |defaults| && Find(members, defaults[j].0) == |members|
        ensures defaults[j] in Missing(members, defaults)
      {
        if j < n {
          assert defaults[..n][j] == defaults[j];
        }
      }
    }
  }

  /** The merged object's members: the model's keys first, in place, then the missing defaults. */
  lemma {:induction false} MergeShape(model: Tree, defaults: Tree)
    requires model.Obj? && defaults.Obj? && UniqueKeys(model.members) && UniqueKeys(defaults.members)
    ensures Merge(model, defaults).Obj?
    ensures var merged := Merge(model, defaults).members;
            && |merged| == |model.members| + |Missing(model.members, defaults.members)|
            && (forall i :: 0 <= i < |model.members| ==>
                  merged[i] == (model.members[i].0, MergedValue(model.members[i], defaults)))
            && merged[|model.members|..] == Missing(model.members, defaults.members)
            && UniqueKeys(merged)
  {
    MissingFacts(model.members, defaults.members);
    var merged, missing := Merge(model, defaults).members, Missing(model.members, defaults.members);
    forall i, j | 0 <= i < j < |merged|
      ensures merged[i].0 != merged[j].0
    {
      if j >= |model.members| {
        assert merged[j] == missing[j - |model.members|];
        if i >= |model.members| {
          assert merged[i] == missing[i - |model.members|];
        }
      }
    }
  }

  /** Where the merged object keeps each key. */
  lemma {:induction false} MergeFind(model: Tree, defaults: Tree, key: Text)
    requires model.Obj? && defaults.Obj? && UniqueKeys(model.members) && UniqueKeys(defaults.members)
    ensures var merged, i, j := Merge(model, defaults).members, Find(model.members, key), Find(defaults.members, key);
            && (i < |model.members| ==> Find(merged, key) == i)
            && (i == |model.members| && j < |defaults.members| ==>
                  Find(merged, key) < |merged| && merged[Find(merged, key)] == defaults.members[j])
            && (i == |model.members| && j == |defaults.members| ==> Find(merged, key) == |merged|)
  {
    hide Find, Merge, MergedValue, Missing, UniqueKeys;
    MergeShape(model, defaults);
    MissingFacts(model.members, defaults.members);
    var ms, ds, merged := model.members, defaults.members, Merge(model, defaults).members;
    var missing := Missing(ms, ds);
    var i, j := Find(ms, key), Find(ds, key);
    if i < |ms| {
      FindAt(merged, i);
    } else if j < |ds| {
      assert ds[j] in missing;
      var x :| 0 <= x < |missing| && missing[x] == ds[j];
      assert merged[|ms| + x] == merged[|ms|..][x] == ds[j];
      FindAt(merged, |ms| + x);
    } else {
      Added(merged, missing, |ms|);
    }
  }

  lemma Added(merged: seq<(Text, Tree)>, missing: seq<(Text, Tree)>, n: nat)
    requires n <= |merged| && merged[n..] == missing
    ensures forall f :: n <= f < |merged| ==> f - n < |missing| && merged[f] == missing[f - n]
  {
  }

  predicate AllKeys(p: seq<Segment>) {
    forall i :: 0 <= i < |p| ==> p[i].Key?
  }

  /** Both trees hold an object at `p`, reached through objects only: the places repair descends to. */
  predicate BothObjects(model: Tree, defaults: Tree, p: seq<Segment>) {
    AllKeys(p) && Lookup(model, p).Ok? && Lookup(model, p).value.Obj? && Lookup(defaults, p).Ok?
    && Lookup(defaults, p).value.Obj?
  }

  /** Keeps: every path that led to a value still does, and to the same value, unless both trees hold an object
      there; then to the merge of the two. Arrays and mismatched types are therefore never touched. */
  lemma {:induction false} MergeKeeps(model: Tree, defaults: Tree, p: seq<Segment>)
    requires model.Obj? && defaults.Obj? && Distinct(model) && Distinct(defaults)
    requires Lookup(model, p).Ok?
    ensures Lookup(Merge(model, defaults), p) ==
            if BothObjects(model, defaults, p) then Ok(Merge(Lookup(model, p).value, Lookup(defaults, p).value))
            else Lookup(model, p)
    decreases |p|
  {
    if p != [] {
      var merged := Merge(model, defaults);
      MergeShape(model, defaults);
      MergeFind(model, defaults, p[0].key);
      var i, j := Find(model.members, p[0].key), Find(defaults.members, p[0].key);
      assert Kid(merged, i) == MergedValue(model.members[i], defaults);
      assert AllKeys(p) <==> AllKeys(p[1..]) by {
        assert forall k :: 1 <= k < |p| ==> p[k] == p[1..][k - 1];
      }
      if j < |defaults.members| && Kid(model, i).Obj? && Kid(defaults, j).Obj? {
        MergeKeeps(Kid(model, i), Kid(defaults, j), p[1..]);
      } else if j < |defaults.members| && p[1..] != [] {
        assert AllKeys(p) ==> p[1..][0].Key?;
      }
    }
  }

  /** Completes: where both trees hold an object, every key of the default is present afterwards, and one the
      model lacked has the default's value. */
  lemma MergeCompletes(model: Tree, defaults: Tree, p: seq<Segment>, key: Text)
    requires model.Obj? && defaults.Obj? && Distinct(model) && Distinct(defaults)
    requires BothObjects(model, defaults, p) && Lookup(defaults, p + [Key(key)]).Ok?
    ensures Lookup(Merge(model, defaults), p + [Key(key)]).Ok?
    ensures Lookup(model, p + [Key(key)]).Err? ==>
              Lookup(Merge(model, defaults), p + [Key(key)]) == Lookup(defaults, p + [Key(key)])
  {
    var merged := Merge(model, defaults);
    MergeKeeps(model, defaults, p);
    LookupAppend(merged, p, [Key(key)]);
    LookupAppend(model, p, [Key(key)]);
    LookupAppend(defaults, p, [Key(key)]);
    LookupKeeps(model, p);
    LookupKeeps(defaults, p);
    var m, d := Lookup(model, p).value, Lookup(defaults, p).value;
    MergeFind(m, d, key);
    LookupOne(m, key);
    LookupOne(d, key);
    LookupOne(Merge(m, d), key);
  }

  lemma {:induction false} LookupKeeps(t: Tree, p: seq<Segment>)
    requires Distinct(t) && Lookup(t, p).Ok?
    ensures Distinct(Lookup(t, p).value)
    decreases |p|
  {
    if p != [] {
      LookupKeeps(Kid(t, Step(t, p[0]).value), p[1..]);
    }
  }

  // ------------------------------------------------------------------ invariants

  lemma {:induction false} MergeValid(model: Tree, defaults: Tree, depth: nat)
    requires model.Obj? && defaults.Obj? && Distinct(model) && Distinct(defaults)
    requires Fits(model, depth) && Fits(defaults, depth)
    ensures Distinct(Merge(model, defaults)) && Fits(Merge(model, defaults), depth)
    decreases defaults
  {
    var merged := Merge(model, defaults);
    MergeShape(model, defaults);
    MissingFacts(model.members, defaults.members);
    forall i | 0 <= i < KidCount(merged)
      ensures Distinct(Kid(merged, i)) && Fits(Kid(merged, i), depth + 1) && Addressable(merged.members[i].0)
    {
      if i < |model.members| {
        var j := Find(defaults.members, model.members[i].0);
        assert Kid(model, i) == model.members[i].1;
        if j < |defaults.members| && Kid(model, i).Obj? && Kid(defaults, j).Obj? {
          MergeValid(Kid(model, i), Kid(defaults, j), depth + 1);
        }
      } else {
        var x := merged.members[|model.members|..][i - |model.members|];
        assert x in defaults.members;
        var j :| 0 <= j < |defaults.members| && defaults.members[j] == x;
        assert Kid(defaults, j) == x.1;
      }
    }
  }

  /** Repairing a repaired model adds nothing. */
  lemma {:induction false} MergeTwice(model: Tree, defaults: Tree)
    requires model.Obj? && defaults.Obj? && Distinct(model) && Distinct(defaults)
    ensures Merge(Merge(model, defaults), defaults) == Merge(model, defaults)
    decreases defaults
  {
    var merged := Merge(model, defaults);
    var again := Merge(merged, defaults);
    MergeShape(model, defaults);
    MergeShape(merged, defaults);
    NothingMissing(model, defaults);
    forall i | 0 <= i < |merged.members|
      ensures again.members[i] == merged.members[i]
    {
      var key := merged.members[i].0;
      var j := Find(defaults.members, key);
      MergeFind(model, defaults, key);
      FindAt(merged.members, i);
      if i < |model.members| {
        FindAt(model.members, i);
        if j < |defaults.members| && Kid(model, i).Obj? && Kid(defaults, j).Obj? {
          MergeTwice(Kid(model, i), Kid(defaults, j));
        }
      } else if j < |defaults.members| && Kid(defaults, j).Obj? {
        MergeSelf(Kid(defaults, j));
      }
    }
  }

  lemma NothingMissing(model: Tree, defaults: Tree)
    requires model.Obj? && defaults.Obj? && Distinct(model) && Distinct(defaults)
    ensures Missing(Merge(model, defaults).members, defaults.members) == []
  {
    forall j | 0 <= j < |defaults.members|
      ensures Find(Merge(model, defaults).members, defaults.members[j].0) < |Merge(model, defaults).members|
    {
      MergeFind(model, defaults, defaults.members[j].0);
      FindAt(defaults.members, j);
    }
    MissingNone(Merge(model, defaults).members, defaults.members);
  }

  lemma {:induction false} MissingNone(members: seq<(Text, Tree)>, defaults: seq<(Text, Tree)>)
    requires forall j :: 0 <= j < |defaults| ==> Find(members, defaults[j].0) < |members|
    ensures Missing(members, defaults) == []
  {
    if defaults != [] {
      MissingNone(members, defaults[..|defaults| - 1]);
    }
  }

  /** A configuration made from the defaults needs no repair. */
  lemma {:induction false} MergeSelf(t: Tree)
    requires t.Obj? && Distinct(t)
    ensures Merge(t, t) == t
    decreases t
  {
    MergeShape(t, t);
    forall j | 0 <= j < |t.members|
      ensures Find(t.members, t.members[j].0) < |t.members|
    {
      FindAt(t.members, j);
    }
    MissingNone(t.members, t.members);
    var merged := Merge(t, t);
    forall i | 0 <= i < |t.members|
      ensures merged.members[i] == t.members[i]
    {
      FindAt(t.members, i);
      if Kid(t, i).Obj? {
        MergeSelf(Kid(t, i));
      }
    }
  }
}

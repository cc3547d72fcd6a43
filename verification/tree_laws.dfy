/** What reads see after writes: the laws of the path API, for every tree and every path. */
module TreeLaws {
  import opened Base
  import opened ConfigPath
  import opened PathGrammar
  import opened Trees

  /** Neither path leads through the other's target. */
  predicate Apart(p: seq<Segment>, q: seq<Segment>) {
    !(p <= q) && !(q <= p)
  }

  lemma FindAppend<T>(members: seq<(Text, T)>, last: (Text, T), key: Text)
    ensures Find(members + [last], key) ==
            if Find(members, key) < |members| then Find(members, key)
            else if last.0 == key then |members| else |members| + 1
  {
    var i, j := Find(members, key), Find(members + [last], key);
    assert i < |members| ==> (members + [last])[i] == members[i];
    assert j < |members| ==> (members + [last])[j] == members[j];
    assert (members + [last])[|members|] == last;
  }

  lemma FindAt<T>(members: seq<(Text, T)>, i: nat)
    requires UniqueKeys(members) && i < |members|
    ensures Find(members, members[i].0) == i
  {
  }

  lemma FindSame<S, T>(a: seq<(Text, S)>, b: seq<(Text, T)>, key: Text)
    requires |a| == |b| && forall i :: 0 <= i < |a| ==> a[i].0 == b[i].0
    ensures Find(a, key) == Find(b, key)
  {
    var i, j := Find(a, key), Find(b, key);
    assert i < |a| ==> b[i].0 == key;
    assert j < |a| ==> a[j].0 == key;
  }

  lemma FindWithout<T>(members: seq<(Text, T)>, i: nat, key: Text)
    requires UniqueKeys(members) && i < |members|
    ensures Find(members[..i] + members[i + 1..], key) ==
            if Find(members, key) == |members| || members[i].0 == key then |members| - 1
            else if Find(members, key) < i then Find(members, key) else Find(members, key) - 1
  {
    var shorter := members[..i] + members[i + 1..];
    var f, g := Find(members, key), Find(shorter, key);
    hide Find;
    assert forall k :: 0 <= k < |members| && members[k].0 == key ==> k == f;
    hide UniqueKeys;
    assert forall k :: 0 <= k < i ==> shorter[k] == members[k];
    assert forall k :: i <= k < |shorter| ==> shorter[k] == members[k + 1];
    if f < |members| && f != i {
      var k := if f < i then f else f - 1;
      assert shorter[k] == members[f];
    }
  }

  // ------------------------------------------------------------------ single steps

  lemma StepWithKid(t: Tree, i: nat, kid: Tree, segment: Segment)
    requires i < KidCount(t)
    ensures Step(WithKid(t, i, kid), segment) == Step(t, segment)
    ensures KidCount(WithKid(t, i, kid)) == KidCount(t)
    ensures forall j :: 0 <= j < KidCount(t) ==> Kid(WithKid(t, i, kid), j) == if j == i then kid else Kid(t, j)
  {
    if t.Obj? && segment.Key? {
      FindSame(t.members, WithKid(t, i, kid).members, segment.key);
    }
  }

  lemma StepAppendKid(t: Tree, last: Segment, kid: Tree, segment: Segment)
    requires Extends(t, last) && Step(t, last).Err?
    ensures Step(AppendKid(t, last, kid), segment) == if segment == last then Ok(KidCount(t)) else Step(t, segment)
    ensures KidCount(AppendKid(t, last, kid)) == KidCount(t) + 1
    ensures forall j :: 0 <= j <= KidCount(t) ==>
              Kid(AppendKid(t, last, kid), j) == if j == KidCount(t) then kid else Kid(t, j)
  {
    if t.Obj? && segment.Key? {
      FindAppend(t.members, (last.key, kid), segment.key);
    }
  }

  /** In a tree without repeated keys, different segments select different children. */
  lemma StepInjective(t: Tree, a: Segment, b: Segment)
    requires Step(t, a).Ok? && Step(t, b).Ok? && Step(t, a) == Step(t, b)
    ensures a == b
  {
  }

  lemma {:induction false} LookupAppend(t: Tree, p: seq<Segment>, q: seq<Segment>)
    ensures Lookup(t, p + q) == match Lookup(t, p) case Err(e) => Err(e) case Ok(s) => Lookup(s, q)
    decreases |p|
  {
    if p == [] {
      assert p + q == q;
    } else {
      assert (p + q)[1..] == p[1..] + q;
      match Step(t, p[0])
      case Err(_) =>
      case Ok(i) => LookupAppend(Kid(t, i), p[1..], q);
    }
  }

  // ------------------------------------------------------------------ read over write

  lemma {:induction false} LookupChain(segments: seq<Segment>, value: Tree)
    requires Creatable(segments)
    ensures Lookup(Chain(segments, value), segments) == Ok(value)
    decreases |segments|
  {
    if segments != [] {
      LookupChain(segments[1..], value);
      var inner := Chain(segments[1..], value);
      if segments[0].Key? {
        FindAt([(segments[0].key, inner)], 0);
      }
      assert Kid(Chain(segments, value), 0) == inner;
    }
  }

  lemma {:induction false} LookupChainApart(p: seq<Segment>, q: seq<Segment>, value: Tree)
    requires Creatable(p) && Apart(p, q)
    ensures Lookup(Chain(p, value), q).Err?
    decreases |p|
  {
    var t := Chain(p, value);
    if p[0] == q[0] {
      assert p == [p[0]] + p[1..] && q == [q[0]] + q[1..];
      LookupChainApart(p[1..], q[1..], value);
      LookupChain(p, value);
      assert Step(t, q[0]) == Ok(0);
    }
  }

  /** A value just written is the value read, and so is everything inside it. */
  lemma {:induction false} ReadAfterWrite(t: Tree, p: seq<Segment>, value: Tree, rest: seq<Segment>)
    requires p != [] && Upsert(t, p, value).Ok?
    ensures Lookup(Upsert(t, p, value).value, p + rest) == Lookup(value, rest)
    decreases |p|
  {
    var written := Upsert(t, p, value).value;
    assert (p + rest)[1..] == p[1..] + rest;
    match Step(t, p[0])
    case Err(_) =>
      var inner := Chain(p[1..], value);
      StepAppendKid(t, p[0], inner, p[0]);
      LookupChain(p[1..], value);
      LookupAppend(inner, p[1..], rest);
    case Ok(i) =>
      if |p| == 1 {
        StepWithKid(t, i, value, p[0]);
        assert p[1..] + rest == rest;
      } else {
        var kid := Upsert(Kid(t, i), p[1..], value).value;
        StepWithKid(t, i, kid, p[0]);
        ReadAfterWrite(Kid(t, i), p[1..], value, rest);
      }
  }

  /** A write is invisible to every path apart from it: presence and value are both unchanged. */
  lemma {:induction false} ReadApartFromWrite(t: Tree, p: seq<Segment>, value: Tree, q: seq<Segment>)
    requires p != [] && Upsert(t, p, value).Ok? && Apart(p, q)
    ensures Lookup(t, q).Ok? <==> Lookup(Upsert(t, p, value).value, q).Ok?
    ensures Lookup(t, q).Ok? ==> Lookup(Upsert(t, p, value).value, q) == Lookup(t, q)
    decreases |p|
  {
    assert p == [p[0]] + p[1..] && q == [q[0]] + q[1..];
    match Step(t, p[0])
    case Err(_) =>
      StepAppendKid(t, p[0], Chain(p[1..], value), q[0]);
      if p[0] == q[0] {
        LookupChainApart(p[1..], q[1..], value);
      }
    case Ok(i) =>
      if |p| == 1 {
        StepWithKid(t, i, value, q[0]);
      } else {
        StepWithKid(t, i, Upsert(Kid(t, i), p[1..], value).value, q[0]);
        if p[0] == q[0] {
          ReadApartFromWrite(Kid(t, i), p[1..], value, q[1..]);
        }
      }
      if p[0] != q[0] && Step(t, q[0]).Ok? && Step(t, q[0]).value == i {
        StepInjective(t, p[0], q[0]);
      }
  }

  lemma AppendThenDrop(t: Tree, last: Segment, kid: Tree)
    requires Extends(t, last)
    ensures KidCount(AppendKid(t, last, kid)) == KidCount(t) + 1
    ensures WithoutKid(AppendKid(t, last, kid), KidCount(t)) == t
  {
    var n := KidCount(t);
    if t.Obj? {
      var longer := t.members + [(last.key, kid)];
      assert longer[..n] + longer[n + 1..] == t.members;
    } else {
      var longer := t.elements + [kid];
      assert longer[..n] + longer[n + 1..] == t.elements;
    }
  }

  /** Writing an absent child into an existing container, then removing it, restores the tree. */
  lemma {:induction false} RemoveUndoesCreate(t: Tree, p: seq<Segment>, value: Tree)
    requires p != [] && Upsert(t, p, value).Ok?
    requires Lookup(t, p[..|p| - 1]).Ok? && Lookup(t, p).Err?
    ensures Remove(Upsert(t, p, value).value, p) == Ok(t)
    decreases |p|
  {
    assert |p| > 1 ==> p[..|p| - 1][0] == p[0];
    match Step(t, p[0])
    case Err(_) =>
      assert |p| == 1;
      StepAppendKid(t, p[0], value, p[0]);
      AppendThenDrop(t, p[0], value);
    case Ok(i) =>
      assert p == [p[0]] + p[1..];
      assert p[..|p| - 1][1..] == p[1..][..|p| - 2];
      assert p[..|p| - 1][0] == p[0];
      var kid := Upsert(Kid(t, i), p[1..], value).value;
      RemoveUndoesCreate(Kid(t, i), p[1..], value);
      StepWithKid(t, i, kid, p[0]);
      assert WithKid(WithKid(t, i, kid), i, Kid(t, i)) == t by {
        if t.Obj? {
          assert t.members[i := (t.members[i].0, kid)][i := (t.members[i].0, Kid(t, i))] == t.members;
        } else {
          assert t.elements[i := kid][i := Kid(t, i)] == t.elements;
        }
      }
  }

  // ------------------------------------------------------------------ removal

  /** Where a surviving path leads after `p` is removed: later siblings in the same array move down by one. */
  function Shift(p: seq<Segment>, q: seq<Segment>): seq<Segment>
    requires p != []
  {
    var k := |p| - 1;
    if k < |q| && p[..k] == q[..k] && p[k].Index? && q[k].Index? && q[k].index > p[k].index then
      q[k := Index(q[k].index - 1)]
    else q
  }

  lemma ShiftOne(a: Segment, b: Segment)
    ensures Shift([a], [b]) == [if a.Index? && b.Index? && b.index > a.index then Index(b.index - 1) else b]
  {
    assert [a][..0] == [b][..0];
  }

  lemma {:induction false} StepWithoutKid(t: Tree, i: nat, removed: Segment, segment: Segment)
    requires Distinct(t) && Step(t, removed) == Ok(i)
    requires segment != removed && Step(t, segment).Ok?
    ensures KidCount(WithoutKid(t, i)) == KidCount(t) - 1
    ensures var k := Step(t, segment).value;
            && Step(WithoutKid(t, i), Shift([removed], [segment])[0]) == Ok(if k < i then k else k - 1)
            && Kid(WithoutKid(t, i), if k < i then k else k - 1) == Kid(t, k)
  {
    ShiftOne(removed, segment);
    hide Shift, Find;
    if t.Obj? {
      FindWithout(t.members, i, segment.key);
    }
    hide Distinct;
  }

  lemma ShiftBelow(p: seq<Segment>, q: seq<Segment>)
    requires |p| > 1 && q != []
    ensures Shift(p, q) == if p[0] == q[0] then [q[0]] + Shift(p[1..], q[1..]) else q
  {
    var k := |p| - 1;
    assert p[..k] == [p[0]] + p[1..][..k - 1];
    if k < |q| {
      assert q[..k] == [q[0]] + q[1..][..k - 1];
      assert p[0] == q[0] && p[1..][..k - 1] == q[1..][..k - 1] ==> p[..k] == q[..k];
      assert p[..k] == q[..k] ==> p[..k][0] == q[..k][0] && p[..k][1..] == q[..k][1..];
    }
  }

  /** Removal takes away what was named and nothing else; arrays close the gap. */
  lemma {:induction false} ReadAfterRemove(t: Tree, p: seq<Segment>, q: seq<Segment>)
    requires Distinct(t) && p != [] && Remove(t, p).Ok?
    requires !(p <= q) && !(q < p) && Lookup(t, q).Ok?
    ensures Lookup(Remove(t, p).value, Shift(p, q)) == Lookup(t, q)
    decreases |p|
  {
    hide Distinct, Find, WithoutKid, Shift;
    assert p == [p[0]] + p[1..] && q == [q[0]] + q[1..];
    var i := Step(t, p[0]).value;
    if |p| == 1 {
      assert p == [p[0]];
      ShiftHead(p[0], q);
      StepWithoutKid(t, i, p[0], q[0]);
      assert Shift(p, q)[1..] == q[1..];
    } else {
      hide Step, WithKid;
      var kid := Remove(Kid(t, i), p[1..]).value;
      StepWithKid(t, i, kid, q[0]);
      KidDistinct(t, i);
      ShiftBelow(p, q);
      if p[0] == q[0] {
        ReadAfterRemove(Kid(t, i), p[1..], q[1..]);
      } else if Step(t, q[0]) == Ok(i) {
        StepInjective(t, p[0], q[0]);
      }
    }
  }

  lemma ShiftHead(removed: Segment, q: seq<Segment>)
    requires q != []
    ensures Shift([removed], q) == Shift([removed], [q[0]]) + q[1..] && |Shift([removed], [q[0]])| == 1
  {
    assert [removed][..0] == q[..0] == [q[0]][..0];
  }

  lemma KidDistinct(t: Tree, i: nat)
    requires Distinct(t) && i < KidCount(t)
    ensures Distinct(Kid(t, i))
  {
  }

  /** A removed member is gone; a removed element leaves its index to the next one, or to nothing. */
  lemma {:induction false} RemovedIsGone(t: Tree, p: seq<Segment>)
    requires Distinct(t) && p != [] && Remove(t, p).Ok?
    ensures Lookup(Remove(t, p).value, p) ==
            match p[|p| - 1]
            case Key(_) => Err(NodeNotFound)
            case Index(n) => Lookup(t, p[|p| - 1 := Index(n + 1)])
    decreases |p|
  {
    hide Find, WithoutKid, UniqueKeys;
    var i := Step(t, p[0]).value;
    assert p == [p[0]] + p[1..];
    if |p| == 1 {
      RemovedChild(t, p[0]);
    } else {
      hide Step, WithKid;
      var kid := Remove(Kid(t, i), p[1..]).value;
      StepWithKid(t, i, kid, p[0]);
      RemovedIsGone(Kid(t, i), p[1..]);
      if p[|p| - 1].Index? {
        var next := Index(p[|p| - 1].index + 1);
        assert p[|p| - 1 := next][1..] == p[1..][|p| - 2 := next];
      }
    }
  }

  lemma RemovedChild(t: Tree, segment: Segment)
    requires Distinct(t) && Step(t, segment).Ok?
    ensures var less := WithoutKid(t, Step(t, segment).value);
            match segment
            case Key(_) => Lookup(less, [segment]) == Err(NodeNotFound)
            case Index(n) => Lookup(less, [segment]) == Lookup(t, [Index(n + 1)])
  {
    var i := Step(t, segment).value;
    if t.Obj? {
      FindWithout(t.members, i, segment.key);
    } else {
      assert WithoutKid(t, i).elements[i..] == t.elements[i + 1..];
    }
  }

  lemma LookupOne(t: Tree, key: Text)
    requires t.Obj?
    ensures Lookup(t, [Key(key)]) ==
            if Find(t.members, key) < |t.members| then Ok(t.members[Find(t.members, key)].1) else Err(NodeNotFound)
  {
  }

  // ------------------------------------------------------------------ counting

  lemma KidSizesNext(t: Tree, k: nat)
    requires k < KidCount(t)
    ensures KidSizes(t, k + 1) == KidSizes(t, k) + Size(Kid(t, k))
  {
  }

  // ------------------------------------------------------------------ writes keep the invariant

  lemma {:induction false} ChainKeeps(segments: seq<Segment>, value: Tree, depth: nat)
    requires Distinct(value) && Fits(value, depth + |segments|)
    requires forall i :: 0 <= i < |segments| ==> SegmentPrintable(segments[i])
    ensures Distinct(Chain(segments, value)) && Fits(Chain(segments, value), depth)
    decreases |segments|
  {
    if segments != [] {
      ChainKeeps(segments[1..], value, depth + 1);
      assert SegmentPrintable(segments[0]);
    }
  }

  lemma KidFine(t: Tree, i: nat, depth: nat)
    requires Distinct(t) && Fits(t, depth) && i < KidCount(t)
    ensures Distinct(Kid(t, i)) && Fits(Kid(t, i), depth + 1)
  {
  }

  lemma {:induction false} KidKept(t: Tree, i: nat, kid: Tree, depth: nat)
    requires Distinct(t) && Fits(t, depth) && i < KidCount(t)
    requires Distinct(kid) && Fits(kid, depth + 1)
    ensures Distinct(WithKid(t, i, kid)) && Fits(WithKid(t, i, kid), depth)
  {
    StepWithKid(t, i, kid, Index(0));
  }

  lemma {:induction false} AppendKept(t: Tree, last: Segment, kid: Tree, depth: nat)
    requires Distinct(t) && Fits(t, depth) && Extends(t, last) && Step(t, last).Err? && SegmentPrintable(last)
    requires Distinct(kid) && Fits(kid, depth + 1)
    ensures Distinct(AppendKid(t, last, kid)) && Fits(AppendKid(t, last, kid), depth)
  {
    StepAppendKid(t, last, kid, last);
  }

  lemma {:induction false} UpsertKeeps(t: Tree, p: seq<Segment>, value: Tree, depth: nat)
    requires p != [] && Upsert(t, p, value).Ok?
    requires forall i :: 0 <= i < |p| ==> SegmentPrintable(p[i])
    requires Distinct(t) && Fits(t, depth) && Distinct(value) && Fits(value, depth + |p|)
    ensures Distinct(Upsert(t, p, value).value) && Fits(Upsert(t, p, value).value, depth)
    ensures TypeOf(Upsert(t, p, value).value) == TypeOf(t)
    decreases |p|
  {
    hide Fits, Distinct, Chain, Creatable, Extends;
    match Step(t, p[0])
    case Err(_) =>
      assert SegmentPrintable(p[0]);
      ChainKeeps(p[1..], value, depth + 1);
      AppendKept(t, p[0], Chain(p[1..], value), depth);
    case Ok(i) =>
      KidFine(t, i, depth);
      if |p| == 1 {
        KidKept(t, i, value, depth);
      } else {
        UpsertKeeps(Kid(t, i), p[1..], value, depth + 1);
        KidKept(t, i, Upsert(Kid(t, i), p[1..], value).value, depth);
      }
  }

  lemma {:induction false} KidDropped(t: Tree, i: nat, depth: nat)
    requires Distinct(t) && Fits(t, depth) && i < KidCount(t)
    ensures Distinct(WithoutKid(t, i)) && Fits(WithoutKid(t, i), depth)
  {
    var s := WithoutKid(t, i);
    assert forall j :: 0 <= j < KidCount(s) ==> Kid(s, j) == Kid(t, if j < i then j else j + 1);
  }

  lemma {:induction false} RemoveKeeps(t: Tree, p: seq<Segment>, depth: nat)
    requires p != [] && Remove(t, p).Ok? && Distinct(t) && Fits(t, depth)
    ensures Distinct(Remove(t, p).value) && Fits(Remove(t, p).value, depth)
    ensures TypeOf(Remove(t, p).value) == TypeOf(t)
    decreases |p|
  {
    var i := Step(t, p[0]).value;
    if |p| == 1 {
      KidDropped(t, i, depth);
    } else {
      RemoveKeeps(Kid(t, i), p[1..], depth + 1);
      KidKept(t, i, Remove(Kid(t, i), p[1..]).value, depth);
    }
  }

  /** What the parser accepts, it could have printed. */
  lemma ParsedIsPrintable(text: Text)
    requires Parse(text).Ok?
    ensures Printable(Parse(text).value)
  {
    var tokens := SegmentSound(text);
    MeaningPrintable(tokens);
  }

  lemma {:induction false} MeaningPrintable(tokens: seq<Token>)
    requires AllLegal(tokens)
    ensures |Meaning(tokens)| == |tokens|
    ensures forall i :: 0 <= i < |tokens| ==>
              SegmentPrintable(Meaning(tokens)[i]) && (Meaning(tokens)[i].Key? <==> tokens[i].Name?)
  {
    if tokens != [] {
      MeaningPrintable(tokens[1..]);
      assert Legal(tokens[0]);
    }
  }

  /** Both writes lead from one legal model to another. */
  lemma WritesKeepModels(t: Tree, path: Text, value: Value)
    requires ModelTree(t)
    ensures SetValue(t, path, value).Ok? ==> ModelTree(SetValue(t, path, value).value)
    ensures RemoveValue(t, path).Ok? ==> ModelTree(RemoveValue(t, path).value)
  {
    if Parse(path).Ok? {
      ParsedIsPrintable(path);
      var p := Parse(path).value;
      if SetValue(t, path, value).Ok? {
        UpsertKeeps(t, p, value, 0);
      }
      if Remove(t, p).Ok? {
        RemoveKeeps(t, p, 0);
      }
    }
  }

  /** The laws a caller of the path API sees, path text in, value out. */
  lemma SetThenGet(t: Tree, path: Text, value: Tree, other: Text)
    requires SetValue(t, path, value).Ok?
    ensures GetValue(SetValue(t, path, value).value, path) == Ok(value)
    ensures Parse(other).Ok? && Apart(Parse(path).value, Parse(other).value) ==>
              var t' := SetValue(t, path, value).value;
              && (GetValue(t, other).Ok? <==> GetValue(t', other).Ok?)
              && (GetValue(t, other).Ok? ==> GetValue(t', other) == GetValue(t, other))
  {
    var p := Parse(path).value;
    assert p + [] == p;
    ReadAfterWrite(t, p, value, []);
    if Parse(other).Ok? && Apart(p, Parse(other).value) {
      ReadApartFromWrite(t, p, value, Parse(other).value);
    }
  }
}

/** When a read or a write succeeds, and with which code it is refused, said about the tree as it stands. */
module WriteLaws {
  import opened Base
  import opened ConfigPath
  import opened PathGrammar
  import opened Trees
  import opened TreeLaws
  import opened Locations

  // ------------------------------------------------------------------ at the end of a path

  /** Both null, both bool, both int, both double, both string, both object or both array. */
  predicate SameType(a: Tree, b: Tree) {
    if a.Leaf? && b.Leaf? then
      && (a.scalar.Null? <==> b.scalar.Null?) && (a.scalar.Bool? <==> b.scalar.Bool?)
      && (a.scalar.Int? <==> b.scalar.Int?) && (a.scalar.Real? <==> b.scalar.Real?)
      && (a.scalar.Str? <==> b.scalar.Str?)
    else (a.Obj? && b.Obj?) || (a.Arr? && b.Arr?)
  }

  lemma TypeOfIs(a: Tree, b: Tree)
    ensures TypeOf(a) == TypeOf(b) <==> SameType(a, b)
  {
  }

  /** A key needs an object, an index an array. */
  predicate Enters(t: Tree, segment: Segment) {
    if segment.Key? then t.Obj? else t.Arr?
  }

  predicate Holds(t: Tree, segment: Segment)
    requires Enters(t, segment)
  {
    if segment.Key? then exists i :: 0 <= i < |t.members| && t.members[i].0 == segment.key
    else segment.index < |t.elements|
  }

  /** The child of that key, or at that index. */
  ghost predicate Child(t: Tree, segment: Segment, kid: Tree)
    requires Enters(t, segment)
  {
    if segment.Key? then
      exists i :: 0 <= i < |t.members| && t.members[i] == (segment.key, kid)
                  && forall j :: 0 <= j < i ==> t.members[j].0 != segment.key
    else segment.index < |t.elements| && t.elements[segment.index] == kid
  }

  lemma StepIs(t: Tree, segment: Segment)
    ensures Step(t, segment).Ok? <==> Enters(t, segment) && Holds(t, segment)
    ensures Step(t, segment).Err? ==> Step(t, segment).error == if Enters(t, segment) then NodeNotFound else InvalidType
    ensures Step(t, segment).Ok? ==> Child(t, segment, Kid(t, Step(t, segment).value))
    ensures Step(t, segment).Ok? ==> forall kid :: Child(t, segment, kid) ==> kid == Kid(t, Step(t, segment).value)
  {
    if segment.Key? && t.Obj? {
      var i := Find(t.members, segment.key);
      assert i < |t.members| ==> t.members[i] == (segment.key, Kid(t, i));
    }
  }

  /** Reading the empty path reads the whole tree; one segment more reads the child it names. */
  lemma LookupChild(t: Tree, p: seq<Segment>, segment: Segment, kid: Tree)
    ensures Lookup(t, []) == Ok(t)
    ensures Lookup(t, p + [segment]) == Ok(kid) <==>
            Lookup(t, p).Ok? && Enters(Lookup(t, p).value, segment) && Child(Lookup(t, p).value, segment, kid)
  {
    LookupAppend(t, p, [segment]);
    if Lookup(t, p).Ok? {
      var s := Lookup(t, p).value;
      StepIs(s, segment);
      if Step(s, segment).Ok? {
        var i := Step(s, segment).value;
        assert Lookup(Kid(s, i), [segment][1..]) == Ok(Kid(s, i));
      }
    }
  }

  // ------------------------------------------------------------------ along a path

  /** The first `k` segments lead somewhere, and the next does not fit what is there. */
  predicate Misfit(t: Tree, p: seq<Segment>, k: nat)
    requires k < |p|
  {
    Lookup(t, p[..k]).Ok? && !Enters(Lookup(t, p[..k]).value, p[k])
  }

  /** The first `k` segments lead to a container of the right kind that lacks the next. */
  predicate Missing(t: Tree, p: seq<Segment>, k: nat)
    requires k < |p|
  {
    Lookup(t, p[..k]).Ok? && Enters(Lookup(t, p[..k]).value, p[k]) && !Holds(Lookup(t, p[..k]).value, p[k])
  }

  /** And a write may create it: an index must be the next one, and every index below it must be 0. */
  predicate Creates(t: Tree, p: seq<Segment>, k: nat)
    requires k < |p|
  {
    && Missing(t, p, k)
    && (p[k].Index? ==> p[k].index == |Lookup(t, p[..k]).value.elements|)
    && forall i :: k < i < |p| && p[i].Index? ==> p[i].index == 0
  }

  predicate SomeMisfit(t: Tree, p: seq<Segment>) {
    exists k :: 0 <= k < |p| && Misfit(t, p, k)
  }

  predicate SomeMissing(t: Tree, p: seq<Segment>) {
    exists k :: 0 <= k < |p| && Missing(t, p, k)
  }

  predicate SomeCreates(t: Tree, p: seq<Segment>) {
    exists k :: 0 <= k < |p| && Creates(t, p, k)
  }

  /** What a write at `p` needs: something of the same type there, or a place where it can be created. */
  predicate Writable(t: Tree, p: seq<Segment>, value: Tree) {
    if Lookup(t, p).Ok? then SameType(Lookup(t, p).value, value) else SomeCreates(t, p)
  }

  lemma PrefixBelow(t: Tree, p: seq<Segment>, k: nat)
    requires 0 < k <= |p|
    ensures p[..k][0] == p[0] && p[..k][1..] == p[1..][..k - 1]
    ensures Step(t, p[0]).Err? ==> Lookup(t, p[..k]).Err?
    ensures Step(t, p[0]).Ok? ==> Lookup(t, p[..k]) == Lookup(Kid(t, Step(t, p[0]).value), p[1..][..k - 1])
  {
  }

  /** At the first segment. */
  lemma FirstSegment(t: Tree, p: seq<Segment>)
    requires p != []
    ensures Misfit(t, p, 0) <==> Step(t, p[0]) == Err(InvalidType)
    ensures Missing(t, p, 0) <==> Step(t, p[0]) == Err(NodeNotFound)
    ensures Creates(t, p, 0) <==> Step(t, p[0]) == Err(NodeNotFound) && Extends(t, p[0]) && Creatable(p[1..])
  {
    StepIs(t, p[0]);
    hide Step;
    assert Lookup(t, p[..0]) == Ok(t);
    assert forall i :: 0 <= i < |p[1..]| ==> p[1..][i] == p[i + 1];
    if forall i :: 0 < i < |p| && p[i].Index? ==> p[i].index == 0 {
      assert Creatable(p[1..]);
    } else {
      var i :| 0 < i < |p| && p[i].Index? && p[i].index != 0;
      assert p[1..][i - 1] == p[i];
    }
  }

  /** Past the first segment everything is as seen from the child, and nothing is if there is none. */
  lemma LaterSegment(t: Tree, p: seq<Segment>, k: nat)
    requires 0 < k < |p|
    ensures Step(t, p[0]).Err? ==> !Misfit(t, p, k) && !Missing(t, p, k)
    ensures Step(t, p[0]).Ok? ==>
              var kid := Kid(t, Step(t, p[0]).value);
              && (Misfit(t, p, k) <==> Misfit(kid, p[1..], k - 1))
              && (Missing(t, p, k) <==> Missing(kid, p[1..], k - 1))
              && (Creates(t, p, k) <==> Creates(kid, p[1..], k - 1))
  {
    hide Lookup, Step, Enters, Holds;
    PrefixBelow(t, p, k);
    var q := p[1..];
    assert q[k - 1] == p[k];
    assert forall i :: 0 <= i < |q| ==> q[i] == p[i + 1];
    assert forall i :: 0 < i < |p| ==> p[i] == q[i - 1];
  }

  lemma Below(t: Tree, p: seq<Segment>)
    requires p != [] && Step(t, p[0]).Ok?
    ensures var kid := Kid(t, Step(t, p[0]).value);
            && (SomeMisfit(t, p) <==> SomeMisfit(kid, p[1..]))
            && (SomeMissing(t, p) <==> SomeMissing(kid, p[1..]))
            && (SomeCreates(t, p) <==> SomeCreates(kid, p[1..]))
  {
    FirstSegment(t, p);
    var kid := Kid(t, Step(t, p[0]).value);
    hide Misfit, Missing, Step;
    forall k | 0 < k < |p|
      ensures Misfit(t, p, k) <==> Misfit(kid, p[1..], k - 1)
      ensures Missing(t, p, k) <==> Missing(kid, p[1..], k - 1)
      ensures Creates(t, p, k) <==> Creates(kid, p[1..], k - 1)
    {
      LaterSegment(t, p, k);
    }
    hide Creates;
    ShiftedBack(t, p, kid);
  }

  lemma ShiftedBack(t: Tree, p: seq<Segment>, kid: Tree)
    requires p != [] && !Misfit(t, p, 0) && !Missing(t, p, 0) && !Creates(t, p, 0)
    requires forall k :: 0 < k < |p| ==> (Misfit(t, p, k) <==> Misfit(kid, p[1..], k - 1))
    requires forall k :: 0 < k < |p| ==> (Missing(t, p, k) <==> Missing(kid, p[1..], k - 1))
    requires forall k :: 0 < k < |p| ==> (Creates(t, p, k) <==> Creates(kid, p[1..], k - 1))
    ensures SomeMisfit(t, p) <==> SomeMisfit(kid, p[1..])
    ensures SomeMissing(t, p) <==> SomeMissing(kid, p[1..])
    ensures SomeCreates(t, p) <==> SomeCreates(kid, p[1..])
  {
    hide Misfit, Missing, Creates;
    forall k | 0 <= k < |p[1..]|
      ensures Misfit(kid, p[1..], k) <==> Misfit(t, p, k + 1)
      ensures Missing(kid, p[1..], k) <==> Missing(t, p, k + 1)
      ensures Creates(kid, p[1..], k) <==> Creates(t, p, k + 1)
    {
    }
  }

  lemma StopsHere(t: Tree, p: seq<Segment>)
    requires p != [] && Step(t, p[0]).Err?
    ensures SomeMisfit(t, p) <==> Misfit(t, p, 0)
    ensures SomeMissing(t, p) <==> Missing(t, p, 0)
    ensures SomeCreates(t, p) <==> Creates(t, p, 0)
  {
    hide Misfit, Missing, Step;
    forall k | 0 < k < |p|
      ensures !Misfit(t, p, k) && !Missing(t, p, k)
    {
      LaterSegment(t, p, k);
    }
  }

  // ------------------------------------------------------------------ the laws

  /** A read is refused exactly where the path does not fit the tree or leads to nothing. */
  lemma {:induction false} LookupRefused(t: Tree, p: seq<Segment>)
    ensures Lookup(t, p).Err? <==> SomeMisfit(t, p) || SomeMissing(t, p)
    ensures Lookup(t, p) == Err(InvalidType) <==> SomeMisfit(t, p)
    ensures Lookup(t, p) == Err(NodeNotFound) <==> SomeMissing(t, p)
    decreases |p|
  {
    hide Misfit, Missing, Creates;
    if p != [] {
      if Step(t, p[0]).Ok? {
        Below(t, p);
        LookupRefused(Kid(t, Step(t, p[0]).value), p[1..]);
      } else {
        FirstSegment(t, p);
        StopsHere(t, p);
      }
      hide SomeMisfit, SomeMissing;
    }
  }

  /** A write succeeds exactly where it may overwrite or create. It is refused with `InvalidType` exactly if the path
      does not fit the tree or what is there has another type, and with `NodeNotFound` exactly if something is
      missing that it may not create. */
  lemma {:induction false} UpsertAccepted(t: Tree, p: seq<Segment>, value: Tree)
    requires p != []
    ensures Upsert(t, p, value).Ok? <==> Writable(t, p, value)
    ensures Upsert(t, p, value) == Err(InvalidType) <==>
            SomeMisfit(t, p) || (Lookup(t, p).Ok? && !SameType(Lookup(t, p).value, value))
    ensures Upsert(t, p, value) == Err(NodeNotFound) <==> SomeMissing(t, p) && !SomeCreates(t, p)
    decreases |p|
  {
    hide Misfit, Missing, Creates;
    LookupRefused(t, p);
    hide SomeMisfit, SomeMissing, SomeCreates;
    if Step(t, p[0]).Ok? {
      Below(t, p);
      var kid := Kid(t, Step(t, p[0]).value);
      if |p| == 1 {
        TypeOfIs(kid, value);
        NothingLeft(kid, p[1..]);
      } else {
        UpsertAccepted(kid, p[1..], value);
      }
    } else {
      FirstSegment(t, p);
      StopsHere(t, p);
    }
  }

  lemma NothingLeft(t: Tree, p: seq<Segment>)
    requires p == []
    ensures !SomeMisfit(t, p) && !SomeMissing(t, p) && !SomeCreates(t, p)
  {
  }

  /** A removal is refused exactly where a read is, with the same code. */
  lemma {:induction false} RemoveRefused(t: Tree, p: seq<Segment>)
    requires p != []
    ensures Remove(t, p).Ok? <==> Lookup(t, p).Ok?
    ensures Remove(t, p).Err? ==> Lookup(t, p) == Err(Remove(t, p).error)
    decreases |p|
  {
    if Step(t, p[0]).Ok? && |p| > 1 {
      RemoveRefused(Kid(t, Step(t, p[0]).value), p[1..]);
    }
  }

  // ------------------------------------------------------------------ which values fit

  /** A text without '.', '[' and ']', and not empty. */
  predicate PlainKey(key: Text) {
    key != [] && forall i :: 0 <= i < |key| ==> key[i] != 0x2E && key[i] != 0x5B && key[i] != 0x5D
  }

  /** Exactly the keys that are paths of their own are addressable. */
  lemma AddressableIs(key: Text)
    ensures Addressable(key) <==> PlainKey(key)
    ensures Addressable(key) <==> Parse(key) == Ok([Key(key)])
  {
    if Addressable(key) {
      ParsePrint([Key(key)]);
      assert Print([Key(key)]) == key;
    } else if Parse(key).Ok? {
      assert KeyLength(key) < |key|;
    }
  }

  /** At every position below `t`: within 128 levels of the root, and all keys addressable. */
  ghost predicate FitsAt(t: Tree, spot: Spot, depth: nat)
    requires ValidAt(t, spot)
  {
    var s := At(t, spot);
    depth + |spot| <= 128 && (s.Obj? ==> forall i :: 0 <= i < |s.members| ==> PlainKey(s.members[i].0))
  }

  lemma {:induction false} FitsEverywhere(t: Tree, depth: nat)
    ensures Fits(t, depth) <==> forall spot: Spot :: ValidAt(t, spot) ==> FitsAt(t, spot, depth)
    decreases t
  {
    hide Addressable, PlainKey;
    KeysPlain(t);
    forall i | 0 <= i < KidCount(t)
      ensures Fits(Kid(t, i), depth + 1) <==>
              forall spot: Spot :: ValidAt(Kid(t, i), spot) ==> FitsAt(Kid(t, i), spot, depth + 1)
    {
      FitsEverywhere(Kid(t, i), depth + 1);
    }
    FitsTop(t, depth);
    if Fits(t, depth) {
      forall spot: Spot | ValidAt(t, spot)
        ensures FitsAt(t, spot, depth)
      {
        if spot != [] {
          var kid := Kid(t, spot[0]);
          assert Fits(kid, depth + 1) && ValidAt(kid, spot[1..]);
          assert FitsAt(kid, spot[1..], depth + 1);
        }
      }
    }
    if forall spot: Spot :: ValidAt(t, spot) ==> FitsAt(t, spot, depth) {
      forall i, spot: Spot | 0 <= i < KidCount(t) && ValidAt(Kid(t, i), spot)
        ensures FitsAt(Kid(t, i), spot, depth + 1)
      {
        assert ([i] + spot)[0] == i && ([i] + spot)[1..] == spot;
        assert FitsAt(t, [i] + spot, depth);
      }
      assert FitsAt(t, [], depth);
    }
  }

  lemma KeysPlain(t: Tree)
    ensures t.Obj? ==> forall i :: 0 <= i < |t.members| ==> (Addressable(t.members[i].0) <==> PlainKey(t.members[i].0))
  {
  }

  lemma FitsTop(t: Tree, depth: nat)
    ensures ValidAt(t, []) && At(t, []) == t
    ensures Fits(t, depth) <==>
            && depth <= 128 && (t.Obj? ==> forall i :: 0 <= i < |t.members| ==> Addressable(t.members[i].0))
            && forall i :: 0 <= i < KidCount(t) ==> Fits(Kid(t, i), depth + 1)
  {
    hide Addressable;
  }

  // ------------------------------------------------------------------ on path texts

  /** A set succeeds exactly if the text is a path, the value fits below it, and it may be written there; each of the
      three codes has its own cause. */
  lemma SetAccepted(t: Tree, path: Text, value: Tree)
    ensures SetValue(t, path, value) == Err(InvalidPath) <==> Parse(path).Err? || !Fits(value, |Parse(path).value|)
    ensures Parse(path).Ok? && Fits(value, |Parse(path).value|) ==>
              var p, r := Parse(path).value, SetValue(t, path, value);
              && (r.Ok? <==> Writable(t, p, value))
              && (r == Err(InvalidType) <==>
                    SomeMisfit(t, p) || (Lookup(t, p).Ok? && !SameType(Lookup(t, p).value, value)))
              && (r == Err(NodeNotFound) <==> SomeMissing(t, p) && !SomeCreates(t, p))
              && (r.Ok? || r.error == InvalidType || r.error == NodeNotFound)
  {
    hide Parse, Fits, Upsert, SomeMisfit, SomeMissing, SomeCreates, Lookup, SameType;
    ParseErrors(path);
    if Parse(path).Ok? {
      UpsertAccepted(t, Parse(path).value, value);
      UpsertCodes(t, Parse(path).value, value);
    }
  }

  lemma {:induction false} UpsertCodes(t: Tree, p: seq<Segment>, value: Tree)
    requires p != []
    ensures var r := Upsert(t, p, value); r.Ok? || r.error == InvalidType || r.error == NodeNotFound
    decreases |p|
  {
    if Step(t, p[0]).Ok? && |p| > 1 {
      UpsertCodes(Kid(t, Step(t, p[0]).value), p[1..], value);
    }
  }

  /** "a[n].b", for one digit */
  function Inner(n: nat): Text
    requires n < 10
  {
    [0x61, 0x5B, 0x30 + n, 0x5D, 0x2E, 0x62]
  }

  /** In a model that has no "a" a write may create "a[0].b", but not "a[1].b". */
  lemma HolesAreRefused(t: Tree, value: Tree, n: nat)
    requires t.Obj? && (forall i :: 0 <= i < |t.members| ==> t.members[i].0 != [0x61]) && Fits(value, 3) && n < 10
    ensures if n == 0 then SetValue(t, Inner(n), value).Ok? else SetValue(t, Inner(n), value) == Err(NodeNotFound)
  {
    hide Parse, Fits;
    InnerPath(n);
    var p := [Key([0x61]), Index(n), Key([0x62])];
    assert p[1..] == [Index(n), Key([0x62])];
    assert Creatable(p[1..]) <==> n == 0 by {
      assert p[1..][0].Index? && p[1..][1].Key?;
    }
    hide Creatable;
    assert Find(t.members, [0x61]) == |t.members|;
  }

  lemma InnerPath(n: nat)
    requires n < 10
    ensures Parse(Inner(n)) == Ok([Key([0x61]), Index(n), Key([0x62])])
  {
    hide Parse;
    var p := [Key([0x61]), Index(n), Key([0x62])];
    assert forall i :: 0 <= i < |p| ==> SegmentPrintable(p[i]);
    ParsePrint(p);
    var tokens := TokensOf(p[1..]);
    assert p[1..] == [Index(n), Key([0x62])];
    assert tokens[0] == Subscript([0x30 + n]) && tokens[1] == Name([0x62]);
    assert Spell(tokens[1..]) == [0x2E, 0x62] by {
      assert Spell(tokens[1..][1..]) == [];
    }
    assert Spell(tokens) == [0x5B, 0x30 + n, 0x5D] + [0x2E, 0x62];
    assert Print(p) == [0x61] + Spell(tokens);
    assert Print(p) == Inner(n);
  }
}

/** What the JSON backend accepts and what it makes of it, said position by position about the document. */
module JsonLaws {
  import opened Base
  import opened ConfigPath
  import opened Trees
  import opened Locations
  import opened WriteLaws
  import opened JsonSax
  import opened JsonMeaning
  import opened JsonInterfaces

  // ------------------------------------------------------------------ positions in a document

  predicate HasPart(j: Json, spot: Spot)
    decreases |spot|
  {
    spot == [] || (spot[0] < Parts(j) && HasPart(Part(j, spot[0]), spot[1..]))
  }

  function PartAt(j: Json, spot: Spot): Json
    requires HasPart(j, spot)
    decreases |spot|
  {
    if spot == [] then j else PartAt(Part(j, spot[0]), spot[1..])
  }

  lemma PartBelow(j: Json, i: nat, spot: Spot)
    requires i < Parts(j)
    ensures HasPart(j, [i] + spot) <==> HasPart(Part(j, i), spot)
    ensures HasPart(j, [i] + spot) ==> PartAt(j, [i] + spot) == PartAt(Part(j, i), spot)
  {
    assert ([i] + spot)[0] == i && ([i] + spot)[1..] == spot;
  }

  // ------------------------------------------------------------------ literals

  /** An integer below 2^63; a float literal with '.', 'e' or 'E', as every literal of the grammar has that is not an
      integer. */
  predicate InRange(j: Json) {
    && (j.JUnsigned? ==> j.n <= 9_223_372_036_854_775_807)
    && (j.JFloat? ==> exists i :: 0 <= i < |j.text| && j.text[i] in Ascii(".eE"))
  }

  /** Scalars mean themselves; containers keep their keys and their order. */
  predicate Denotes(j: Json, t: Tree) {
    && (j.JNull? ==> t == Leaf(Null))
    && (j.JBool? ==> t == Leaf(Bool(j.b)))
    && (j.JInteger? ==> t == Leaf(Int(j.z)))
    && (j.JUnsigned? && j.n <= 9_223_372_036_854_775_807 ==> t == Leaf(Int(j.n)))
    && (j.JFloat? ==> t == Leaf(Real(j.d)))
    && (j.JString? ==> t == Leaf(Str(j.s)))
    && (j.JObject? ==> t.Obj? && |t.members| == |j.members|
                       && forall i :: 0 <= i < |j.members| ==> t.members[i].0 == j.members[i].0)
    && (j.JArray? ==> t.Arr? && |t.elements| == |j.elements|)
  }

  lemma LiteralIs(j: Json)
    requires !j.JObject? && !j.JArray?
    ensures ScalarOf(j).Ok? <==> InRange(j)
    ensures InRange(j) ==> ScalarOf(j).Ok? && Denotes(j, ScalarOf(j).value)
    ensures !InRange(j) ==> ScalarOf(j) == Err(ParseError)
  {
    PointIs(if j.JFloat? then j.text else []);
    hide HasPoint;
  }

  lemma PointIs(text: Text)
    ensures HasPoint(text) <==> exists i :: 0 <= i < |text| && text[i] in Ascii(".eE")
  {
    var letters := Ascii(".eE");
    assert letters[0] == 0x2E && letters[1] == 0x65 && letters[2] == 0x45;
    forall i | 0 <= i < |text|
      ensures text[i] in letters <==> text[i] == 0x2E || text[i] == 0x65 || text[i] == 0x45
    {
    }
  }

  // ------------------------------------------------------------------ legality, position by position

  predicate PlainKeys(members: seq<(Text, Json)>) {
    && (forall i :: 0 <= i < |members| ==> PlainKey(members[i].0))
    && (forall i, k :: 0 <= i < k < |members| ==> members[i].0 != members[k].0)
  }

  /** Within 128 levels of the root, keys addressable and no two equal, literals in range. */
  predicate SoundAt(j: Json, spot: Spot, depth: nat)
    requires HasPart(j, spot)
  {
    var part := PartAt(j, spot);
    depth + |spot| <= 128 && InRange(part) && (part.JObject? ==> PlainKeys(part.members))
  }

  ghost predicate Sound(j: Json, depth: nat) {
    forall spot: Spot :: HasPart(j, spot) ==> SoundAt(j, spot, depth)
  }

  lemma {:induction false} LawfulEverywhere(j: Json, depth: nat)
    ensures Lawful(j, depth) <==> Sound(j, depth)
    decreases j
  {
    hide Sound, Lawful, PlainKeys, InRange;
    forall i | 0 <= i < Parts(j)
      ensures Lawful(Part(j, i), depth + 1) <==> Sound(Part(j, i), depth + 1)
    {
      LawfulEverywhere(Part(j, i), depth + 1);
    }
    LawfulTop(j, depth);
    SoundTop(j, depth);
  }

  lemma LawfulTop(j: Json, depth: nat)
    ensures Lawful(j, depth) <==>
            && SoundAt(j, [], depth)
            && forall i :: 0 <= i < Parts(j) ==> Lawful(Part(j, i), depth + 1)
  {
    if !j.JObject? && !j.JArray? {
      LiteralIs(j);
    }
    hide InRange, ScalarOf, Addressable, PlainKey;
    if j.JObject? {
      forall i | 0 <= i < |j.members|
        ensures Addressable(j.members[i].0) <==> PlainKey(j.members[i].0)
      {
        AddressableIs(j.members[i].0);
      }
    }
    InRangeContainer(j);
  }

  lemma InRangeContainer(j: Json)
    ensures j.JObject? || j.JArray? ==> InRange(j)
  {
  }

  lemma SoundTop(j: Json, depth: nat)
    ensures Sound(j, depth) <==>
            && SoundAt(j, [], depth)
            && forall i :: 0 <= i < Parts(j) ==> Sound(Part(j, i), depth + 1)
  {
    hide PlainKeys, InRange;
    if Sound(j, depth) {
      forall i, spot: Spot | 0 <= i < Parts(j) && HasPart(Part(j, i), spot)
        ensures SoundAt(Part(j, i), spot, depth + 1)
      {
        PartBelow(j, i, spot);
        assert SoundAt(j, [i] + spot, depth);
      }
      assert SoundAt(j, [], depth);
    }
    if SoundAt(j, [], depth) && forall i :: 0 <= i < Parts(j) ==> Sound(Part(j, i), depth + 1) {
      forall spot: Spot | HasPart(j, spot)
        ensures SoundAt(j, spot, depth)
      {
        if spot != [] {
          assert Sound(Part(j, spot[0]), depth + 1);
          assert SoundAt(Part(j, spot[0]), spot[1..], depth + 1);
        }
      }
    }
  }

  /** The tree has the document's positions, and holds at each what stands there. */
  lemma {:induction false} SpelledEverywhere(j: Json, depth: nat, spot: Spot)
    requires Lawful(j, depth)
    ensures HasPart(j, spot) <==> ValidAt(Spelled(j), spot)
    ensures HasPart(j, spot) ==> Denotes(PartAt(j, spot), At(Spelled(j), spot))
    decreases |spot|
  {
    hide Denotes, Addressable;
    SpelledTop(j, depth);
    if spot != [] && spot[0] < Parts(j) {
      SpelledEverywhere(Part(j, spot[0]), depth + 1, spot[1..]);
    }
  }

  lemma SpelledTop(j: Json, depth: nat)
    requires Lawful(j, depth)
    ensures Denotes(j, Spelled(j)) && KidCount(Spelled(j)) == Parts(j)
    ensures forall i :: 0 <= i < Parts(j) ==> Kid(Spelled(j), i) == Spelled(Part(j, i)) && Lawful(Part(j, i), depth + 1)
  {
    if !j.JObject? && !j.JArray? {
      LiteralIs(j);
    }
    hide ScalarOf, Addressable, InRange;
  }

  // ------------------------------------------------------------------ the version carrier

  predicate IsVersion(j: Json) {
    j.JUnsigned? && j.n <= 4_294_967_295
  }

  /** Member `c` is the only one called "__version". */
  predicate SoleCarrier(members: seq<(Text, Json)>, c: nat) {
    FirstCarrier(members, c) && forall i :: c < i < |members| ==> members[i].0 != Ascii("__version")
  }

  predicate FirstCarrier(members: seq<(Text, Json)>, c: nat) {
    c < |members| && members[c].0 == Ascii("__version") && forall i :: 0 <= i < c ==> members[i].0 != Ascii("__version")
  }

  function Without(members: seq<(Text, Json)>, c: nat): Json
    requires c < |members|
  {
    JObject(members[..c] + members[c + 1..])
  }

  lemma CarrierName()
    ensures VERSION_KEY == Ascii("__version")
  {
  }

  lemma FirstIsFound(members: seq<(Text, Json)>, c: nat)
    ensures FirstCarrier(members, c) <==> c < |members| && Find(members, VERSION_KEY) == c
  {
    CarrierName();
    hide VERSION_KEY, Ascii;
    var f := Find(members, VERSION_KEY);
    assert f < |members| ==> members[f].0 == VERSION_KEY;
  }

  // ------------------------------------------------------------------ whole documents

  /** One version, and everything else sound and within the node limit. */
  ghost predicate Loadable(j: Json, c: nat, max: nat) {
    && j.JObject? && SoleCarrier(j.members, c) && IsVersion(j.members[c].1)
    && Sound(Without(j.members, c), 0) && Nodes(Without(j.members, c)) <= max
  }

  /** The version is the carrier's, and the tree holds at every position what the rest of the document does there. */
  ghost predicate Renders(j: Json, c: nat, config: Config)
    requires j.JObject? && c < |j.members| && IsVersion(j.members[c].1)
  {
    var body := Without(j.members, c);
    && config.version == j.members[c].1.n
    && forall spot: Spot ::
         && (HasPart(body, spot) <==> ValidAt(config.tree, spot))
         && (HasPart(body, spot) ==> Denotes(PartAt(body, spot), At(config.tree, spot)))
  }

  lemma AcceptedIs(j: Json, max: nat)
    ensures Accepted(j, max) <==> exists c: nat :: Loadable(j, c, max)
    ensures forall c: nat :: Loadable(j, c, max) ==>
              Accepted(j, max) && Body(j.members) == Without(j.members, c) && VersionOf(j) == j.members[c].1.n
  {
    hide Sound, Lawful, Nodes, Find;
    CarrierName();
    hide VERSION_KEY, Ascii;
    if j.JObject? {
      forall c: nat
        ensures FirstCarrier(j.members, c) <==> c < |j.members| && Find(j.members, VERSION_KEY) == c
      {
        FirstIsFound(j.members, c);
      }
      LawfulEverywhere(Body(j.members), 0);
      var c := Find(j.members, VERSION_KEY);
      assert Accepted(j, max) ==> Loadable(j, c, max);
    }
  }

  /** A document loads if and only if it is loadable, and then as what it renders. */
  lemma LoadedMeans(j: Json, max: nat)
    ensures Loaded(j, max).Ok? <==> exists c: nat :: Loadable(j, c, max)
    ensures forall c: nat :: Loadable(j, c, max) ==> Loaded(j, max).Ok? && Renders(j, c, Loaded(j, max).value)
  {
    hide Accepted, Loadable, EvalDocument, Body, VersionOf, Without, IsVersion, Spelled, SpelledMembers;
    DocumentMeaning(j, max);
    AcceptedIs(j, max);
    forall c: nat | Loadable(j, c, max)
      ensures j.JObject? && c < |j.members| && IsVersion(j.members[c].1)
      ensures Loaded(j, max).Ok? && Renders(j, c, Loaded(j, max).value)
    {
      LoadableParts(j, c, max);
      AcceptedTree(j, max);
      forall spot: Spot
        ensures var body, t := Without(j.members, c), Loaded(j, max).value.tree;
                && (HasPart(body, spot) <==> ValidAt(t, spot))
                && (HasPart(body, spot) ==> Denotes(PartAt(body, spot), At(t, spot)))
      {
        SpelledEverywhere(Without(j.members, c), 0, spot);
      }
    }
  }

  lemma LoadableParts(j: Json, c: nat, max: nat)
    requires Loadable(j, c, max)
    ensures j.JObject? && c < |j.members| && IsVersion(j.members[c].1)
    ensures Lawful(Without(j.members, c), 0)
  {
    LawfulEverywhere(Without(j.members, c), 0);
  }

  // ------------------------------------------------------------------ which code

  /** Some members, the carrier not among them, are sound and within the limit. */
  ghost predicate Readable(members: seq<(Text, Json)>, count: nat, max: nat) {
    Sound(JObject(members), 0) && Nodes(JObject(members)) <= max + count
  }

  /** Everything before the carrier can be read, and the carrier is no version. */
  ghost predicate BadCarrier(members: seq<(Text, Json)>, c: nat, max: nat) {
    FirstCarrier(members, c) && Readable(members[..c], 1, max) && !IsVersion(members[c].1)
  }

  ghost predicate NoVersion(members: seq<(Text, Json)>, max: nat) {
    (forall i :: 0 <= i < |members| ==> members[i].0 != Ascii("__version")) && Readable(members, 0, max)
  }

  /** A refusal has the code `InvalidVersion` exactly if the first fault is a carrier that is no version, or there is
      no fault but that the carrier is missing. Every other refusal is a `ParseError`. The root is counted last. */
  lemma LoadedCodes(j: Json, max: nat)
    ensures Loaded(j, max).Err? ==> Loaded(j, max).error == InvalidVersion || Loaded(j, max).error == ParseError
    ensures Loaded(j, max) == Err(InvalidVersion) <==>
            j.JObject? && ((exists c: nat :: BadCarrier(j.members, c, max)) || NoVersion(j.members, max))
  {
    hide EvalTop, Readable, Find;
    CarrierName();
    hide VERSION_KEY, Ascii;
    if j.JObject? {
      var members, c, top := j.members, Find(j.members, VERSION_KEY), Top([], 0, None);
      forall d: nat
        ensures FirstCarrier(members, d) <==> d < |members| && Find(members, VERSION_KEY) == d
      {
        FirstIsFound(members, d);
      }
      assert members[..c][..c] == members[..c];
      PrefixMeaning(members[..c], max);
      if c < |members| {
        EvalTopSplit(members, 0, c, max, top);
        var before := EvalTop(members[..c], 0, max, top);
        if before.Ok? {
          AtCarrier(members, c, max, before.value);
        }
        assert BadCarrier(members, c, max) <==> Readable(members[..c], 1, max) && !IsVersion(members[c].1);
        assert members[c].0 == VERSION_KEY;
      } else {
        assert members[..c] == members;
      }
    }
  }

  lemma PrefixMeaning(members: seq<(Text, Json)>, max: nat)
    requires NoCarrier(members, 0)
    ensures var r := EvalTop(members, 0, max, Top([], 0, None));
            && (r.Ok? <==> Readable(members, 1, max))
            && (r.Ok? ==> r.value.version == None && r.value.nodes <= max)
            && (r.Ok? ==> r.value.nodes + 1 == Nodes(JObject(members)))
            && (r.Err? ==> r.error == ParseError)
            && (Readable(members, 0, max) <==> r.Ok? && r.value.nodes < max)
  {
    hide EvalTop, Sound, LawfulKeys, LawfulParts, PartNodes;
    BodyMeaning(JObject(members), max);
    LawfulEverywhere(JObject(members), 0);
  }

  lemma {:induction false} EvalTopSplit(members: seq<(Text, Json)>, k: nat, c: nat, max: nat, top: Top)
    requires k <= c <= |members|
    ensures var r := EvalTop(members[..c], k, max, top);
            EvalTop(members, k, max, top) == if r.Ok? then EvalTop(members, c, max, r.value) else r
    decreases c - k
  {
    hide TopStep;
    if k < c {
      assert members[..c][k] == members[k];
      var step := TopStep(members[k].0, members[k].1, max, top);
      if step.Ok? {
        EvalTopSplit(members, k + 1, c, max, step.value);
      }
    }
  }

  lemma AtCarrier(members: seq<(Text, Json)>, c: nat, max: nat, top: Top)
    requires c < |members| && members[c].0 == VERSION_KEY && top.version == None && top.nodes <= max
    ensures var r := EvalTop(members, c, max, top);
            if !IsVersion(members[c].1) then r == Err(InvalidVersion)
            else if r.Err? then r.error == ParseError
            else r.value.version.Some? && r.value.nodes <= max
  {
    EvalTopStep(members, c, max, top);
    hide EvalTop, VERSION_KEY, Eval;
    if IsVersion(members[c].1) {
      AfterCarrier(members, c + 1, max, top.(version := Some(members[c].1.n)));
    }
  }

  lemma {:induction false} AfterCarrier(members: seq<(Text, Json)>, k: nat, max: nat, top: Top)
    requires k <= |members| && top.version.Some? && top.nodes <= max
    ensures var r := EvalTop(members, k, max, top);
            if r.Err? then r.error == ParseError else r.value.version.Some? && r.value.nodes <= max
    decreases |members| - k
  {
    hide VERSION_KEY, Eval, KeyOk;
    if k < |members| {
      EvalIsSpelled(members[k].1, 1, top.nodes, max);
      var step := TopStep(members[k].0, members[k].1, max, top);
      if step.Ok? {
        AfterCarrier(members, k + 1, max, step.value);
      }
    }
  }

  // ------------------------------------------------------------------ one literal

  /** A document of a version and one more member, a literal: it loads if and only if the literal is in range, and then
      as what the literal denotes. */
  lemma LiteralLoads(version: UInt32, key: Text, j: Json, max: nat)
    requires !j.JObject? && !j.JArray? && PlainKey(key) && key != Ascii("__version") && max >= 2
    ensures var r := Loaded(JObject([(Ascii("__version"), JUnsigned(version)), (key, j)]), max);
            && (InRange(j) ==> exists t :: Denotes(j, t) && r == Ok(Config(version, Obj([(key, t)]))))
            && (!InRange(j) ==> r == Err(ParseError))
  {
    CarrierName();
    AddressableIs(key);
    LiteralIs(j);
    hide VERSION_KEY, Ascii, Addressable, ScalarOf, InRange;
    var members := [(VERSION_KEY, JUnsigned(version)), (key, j)];
    var top := Top([], 0, None);
    var first := top.(version := Some(version));
    EvalTopStep(members, 0, max, top);
    EvalTopStep(members, 1, max, first);
    var value := Eval(j, 1, 0, max);
    if value.Ok? {
      EvalTopEnd(members, max, first.(members := [] + [(key, value.value.0)], nodes := 1));
      assert [] + [(key, value.value.0)] == [(key, value.value.0)];
    }
  }

  // ------------------------------------------------------------------ what is saved

  /** No member called "__version", and no double that is not finite at any position. */
  ghost predicate Writable(t: Tree)
    requires t.Obj?
  {
    && (forall i :: 0 <= i < |t.members| ==> t.members[i].0 != Ascii("__version"))
    && forall spot: Spot :: ValidAt(t, spot) ==> FiniteAt(t, spot)
  }

  predicate FiniteAt(t: Tree, spot: Spot)
    requires ValidAt(t, spot)
  {
    var s := At(t, spot);
    s.Leaf? && s.scalar.Real? ==> s.scalar.d.Finite()
  }

  lemma {:induction false} FiniteEverywhere(t: Tree)
    ensures AllFinite(t) <==> forall spot: Spot :: ValidAt(t, spot) ==> FiniteAt(t, spot)
    decreases t
  {
    forall i | 0 <= i < KidCount(t)
      ensures AllFinite(Kid(t, i)) <==> forall spot: Spot :: ValidAt(Kid(t, i), spot) ==> FiniteAt(Kid(t, i), spot)
    {
      FiniteEverywhere(Kid(t, i));
    }
    if AllFinite(t) {
      forall spot: Spot | ValidAt(t, spot)
        ensures FiniteAt(t, spot)
      {
        if spot != [] {
          assert AllFinite(Kid(t, spot[0]));
          assert FiniteAt(Kid(t, spot[0]), spot[1..]);
        }
      }
    }
    if forall spot: Spot :: ValidAt(t, spot) ==> FiniteAt(t, spot) {
      forall i, spot: Spot | 0 <= i < KidCount(t) && ValidAt(Kid(t, i), spot)
        ensures FiniteAt(Kid(t, i), spot)
      {
        assert ([i] + spot)[0] == i && ([i] + spot)[1..] == spot;
        assert FiniteAt(t, [i] + spot);
      }
      assert FiniteAt(t, []);
    }
  }

  /** A configuration is saved if and only if it is writable: its version first, and then a document that holds at every
      position what the tree does there. */
  lemma SavedMeans(c: Config, text: Double -> Text)
    requires ModelTree(c.tree) && Pointed(text)
    ensures if Writable(c.tree) then Saved(c, text).Ok? else Saved(c, text) == Err(SerializationError)
    ensures Saved(c, text).Ok? ==>
              var j := Saved(c, text).value;
              j.JObject? && Loadable(j, 0, Size(c.tree)) && Renders(j, 0, c)
  {
    hide Pointed, Renders, Loadable, ModelTree, AllFinite, Size, Loaded, FiniteAt;
    FiniteEverywhere(c.tree);
    CarrierName();
    RootIsObject(c.tree);
    assert Reserved(c.tree) <==> !forall i :: 0 <= i < |c.tree.members| ==> c.tree.members[i].0 != VERSION_KEY;
    if Saved(c, text).Ok? {
      LoadedSaved(c, text, Size(c.tree));
      var j := Saved(c, text).value;
      LoadedMeans(j, Size(c.tree));
      var d: nat :| Loadable(j, d, Size(c.tree));
      FirstMember(c, text, d);
    }
  }

  lemma RootIsObject(t: Tree)
    ensures ModelTree(t) ==> t.Obj?
  {
  }

  lemma FirstMember(c: Config, text: Double -> Text, d: nat)
    requires Saved(c, text).Ok? && Loadable(Saved(c, text).value, d, Size(c.tree))
    ensures d == 0
  {
    CarrierName();
    hide Sound, Nodes, Ascii, VERSION_KEY, Size;
    assert Saved(c, text).value.members[0].0 == VERSION_KEY;
  }
}

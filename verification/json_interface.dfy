/** `JsonInterface`: saving and loading versioned configurations, and that the two are inverse. */
module JsonInterfaces {
  import opened Base
  import opened ConfigPath
  import opened PathGrammar
  import opened Trees
  import opened TreeLaws
  import opened Ownership
  import opened NodeArena
  import opened ModelState
  import opened ConfigModels
  import opened MigrationEngines
  import opened JsonSax
  import opened JsonMeaning

  // ------------------------------------------------------------------ what is written

  /** JSON has no literal for the other doubles. */
  predicate AllFinite(t: Tree) {
    && (t.Leaf? && t.scalar.Real? ==> t.scalar.d.Finite())
    && forall i :: 0 <= i < KidCount(t) ==> AllFinite(Kid(t, i))
  }

  /** The document node of a tree; `text` is how the writer spells a double. */
  function Emit(t: Tree, text: Double -> Text): Json
    requires AllFinite(t)
    decreases t, 1
  {
    match t
    case Leaf(Null) => JNull
    case Leaf(Bool(b)) => JBool(b)
    case Leaf(Int(n)) => if n < 0 then JInteger(n) else JUnsigned(n)
    case Leaf(Real(d)) => JFloat(d, text(d))
    case Leaf(Str(s)) => JString(s)
    case Obj(members) => JObject(EmitMembers(t, |members|, text))
    case Arr(elements) => JArray(EmitElements(t, |elements|, text))
  }

  function EmitMembers(t: Tree, n: nat, text: Double -> Text): (out: seq<(Text, Json)>)
    requires AllFinite(t) && t.Obj? && n <= |t.members|
    ensures |out| == n
    ensures forall i :: 0 <= i < n ==> out[i] == (t.members[i].0, Emit(Kid(t, i), text))
    decreases t, 0, n
  {
    if n == 0 then [] else EmitMembers(t, n - 1, text) + [(t.members[n - 1].0, Emit(Kid(t, n - 1), text))]
  }

  function EmitElements(t: Tree, n: nat, text: Double -> Text): (out: seq<Json>)
    requires AllFinite(t) && t.Arr? && n <= |t.elements|
    ensures |out| == n
    ensures forall i :: 0 <= i < n ==> out[i] == Emit(Kid(t, i), text)
    decreases t, 0, n
  {
    if n == 0 then [] else EmitElements(t, n - 1, text) + [Emit(Kid(t, n - 1), text)]
  }

  /** `toJson`: the one fallible case is a double without a literal. */
  method ToJson(arena: NodeArena, id: NodeId, text: Double -> Text, ghost o: Owned, ghost parent: Option<NodeId>)
    returns (r: Result<Json>)
    requires Holds(arena.nodes, o, parent) && o.id == id
    ensures r == if AllFinite(Erase(o)) then Ok(Emit(Erase(o), text)) else Err(SerializationError)
    decreases o, 1
  {
    var node := arena.nodes[id];
    if node.kind == TObject {
      var members := MembersToJson(arena, id, text, o, parent);
      r := if members.Ok? then Ok(JObject(members.value)) else Err(members.error);
    } else if node.kind == TArray {
      r := ElementsToJson(arena, id, text, o, parent);
    } else if node.scalar.Real? && !node.scalar.d.Finite() {
      r := Err(SerializationError);
    } else {
      r := Ok(Emit(Leaf(node.scalar), text));
    }
  }

  method MembersToJson(arena: NodeArena, id: NodeId, text: Double -> Text, ghost o: Owned, ghost parent: Option<NodeId>)
    returns (r: Result<seq<(Text, Json)>>)
    requires Holds(arena.nodes, o, parent) && o.id == id && o.head.Object?
    ensures r == if AllFinite(Erase(o)) then Ok(EmitMembers(Erase(o), KidCount(Erase(o)), text))
              else Err(SerializationError)
    decreases o, 0
  {
    hide Emit, EmitMembers;
    EraseKids(o);
    ghost var t := Erase(o);
    var members := arena.nodes[id].members;
    var out: seq<(Text, Json)> := [];
    for k := 0 to |members|
      invariant |out| == k
      invariant forall i :: 0 <= i < k ==> AllFinite(Kid(t, i)) && out[i] == (members[i].0, Emit(Kid(t, i), text))
    {
      var child := ToJson(arena, members[k].1, text, o.kids[k], Some(id));
      if child.Err? {
        assert !AllFinite(Kid(t, k));
        return Err(child.error);
      }
      out := out + [(members[k].0, child.value)];
    }
    assert AllFinite(t);
    assert out == EmitMembers(t, KidCount(t), text);
    r := Ok(out);
  }

  method ElementsToJson(arena: NodeArena, id: NodeId, text: Double -> Text, ghost o: Owned,
                        ghost parent: Option<NodeId>)
    returns (r: Result<Json>)
    requires Holds(arena.nodes, o, parent) && o.id == id && o.head.Array?
    ensures r == if AllFinite(Erase(o)) then Ok(Emit(Erase(o), text)) else Err(SerializationError)
    decreases o, 0
  {
    hide EmitElements;
    EraseKids(o);
    ghost var t := Erase(o);
    var elements := arena.nodes[id].elements;
    var out: seq<Json> := [];
    for k := 0 to |elements|
      invariant |out| == k
      invariant forall i :: 0 <= i < k ==> AllFinite(Kid(t, i)) && out[i] == Emit(Kid(t, i), text)
    {
      var child := ToJson(arena, elements[k], text, o.kids[k], Some(id));
      if child.Err? {
        assert !AllFinite(Kid(t, k));
        return Err(child.error);
      }
      out := out + [child.value];
    }
    assert AllFinite(t);
    assert out == EmitElements(t, KidCount(t), text);
    r := Ok(JArray(out));
  }

  // ------------------------------------------------------------------ save and load

  predicate Reserved(t: Tree)
    requires t.Obj?
  {
    Find(t.members, VERSION_KEY) < |t.members|
  }

  /** Which configurations can be saved. */
  predicate Savable(t: Tree)
    requires t.Obj?
  {
    !Reserved(t) && AllFinite(t)
  }

  /** The carrier first, then the model's members. */
  function Document(version: UInt32, t: Tree, text: Double -> Text): Json
    requires t.Obj? && AllFinite(t)
  {
    JObject([(VERSION_KEY, JUnsigned(version))] + EmitMembers(t, |t.members|, text))
  }

  /** What `save` makes of a configuration. */
  function Saved(c: Config, text: Double -> Text): Result<Json> {
    if c.tree.Obj? && Savable(c.tree) then Ok(Document(c.version, c.tree, text)) else Err(SerializationError)
  }

  /** What `load` makes of a document. */
  function Loaded(j: Json, max: nat): Result<Config> {
    var end := EvalDocument(j, max);
    if end.Err? then Err(end.error)
    else if end.value.version.None? then Err(InvalidVersion)
    else Ok(Config(end.value.version.value, Obj(end.value.members)))
  }

  method Save(config: VersionedConfig, text: Double -> Text) returns (r: Result<Json>)
    requires config.model.Valid()
    ensures var t := config.model.Contents();
            r == if Savable(t) then Ok(Document(config.version, t, text)) else Err(SerializationError)
    ensures r == Saved(Config(config.version, config.model.Contents()), text)
  {
    var model := config.model;
    CarrierPath(model.Contents());
    var reserved := model.Contains(VERSION_KEY);
    if reserved {
      return Err(SerializationError);
    }
    AtRoot(model.arena.nodes, model.root);
    var members := MembersToJson(model.arena, model.rootId, text, model.root, None);
    if members.Err? {
      return Err(members.error);
    }
    r := Ok(JObject([(VERSION_KEY, JUnsigned(config.version))] + members.value));
  }

  /** The carrier key is a path of its own, to the root's member of that name. */
  lemma CarrierPath(t: Tree)
    requires t.Obj?
    ensures GetValue(t, VERSION_KEY).Ok? <==> Reserved(t)
  {
    CarrierAddressable();
    ParsePrint([Key(VERSION_KEY)]);
    assert Print([Key(VERSION_KEY)]) == VERSION_KEY;
    LookupOne(t, VERSION_KEY);
  }

  /** Accepts exactly the accepted documents. The model's own refusal cannot occur. */
  method Load(heap: Heap, document: Json, maxNodes: nat) returns (r: Outcome<VersionedConfig>)
    modifies heap
    ensures r.Done? ==>
              && Accepted(document, maxNodes)
              && fresh(r.value) && fresh(r.value.model) && fresh(r.value.model.arena)
              && r.value.model.arena.heap == heap
              && r.value.model.Valid()
              && r.value.version == VersionOf(document)
              && r.value.model.Contents() == Spelled(Body(document.members))
    ensures r.Done? ==> Loaded(document, maxNodes) == Ok(Config(r.value.version, r.value.model.Contents()))
    ensures r.Refused? ==> !Accepted(document, maxNodes) && Loaded(document, maxNodes) == Err(r.error)
    ensures r.OutOfMemory? ==> Accepted(document, maxNodes) && heap.budget == 0
  {
    hide EvalDocument, Accepted, Spelled, VersionOf, Body;
    DocumentMeaning(document, maxNodes);
    var builder := new ValueBuilder(maxNodes);
    var ok := FeedDocument(builder, document);
    if !ok {
      return Refused(builder.error.value);
    }
    if builder.version.None? {
      return Refused(InvalidVersion);
    }
    AcceptedFits(document, maxNodes);
    AcceptedTree(document, maxNodes);
    var model := ConfigModel.FromValue(heap, builder.root.value);
    if model.OutOfMemory? {
      return OutOfMemory;
    }
    if model.Refused? {
      return Refused(ParseError);
    }
    var config := new VersionedConfig(builder.version.value, model.value);
    r := Done(config);
  }

  lemma AcceptedTree(j: Json, max: nat)
    requires Accepted(j, max)
    ensures j.JObject? && Spelled(Body(j.members)) == Obj(SpelledMembers(Body(j.members)))
  {
  }

  // ------------------------------------------------------------------ the round trips

  /** The writer prints every finite double with a point or an exponent. */
  ghost predicate Pointed(text: Double -> Text) {
    forall d: Double :: d.Finite() ==> HasPoint(text(d))
  }

  /** What is written means what was saved, node for node. */
  lemma {:induction false} EmitMeans(t: Tree, depth: nat, text: Double -> Text)
    requires AllFinite(t) && Distinct(t) && Pointed(text)
    ensures Spelled(Emit(t, text)) == t
    ensures Nodes(Emit(t, text)) == Size(t)
    ensures Lawful(Emit(t, text), depth) <==> Fits(t, depth)
    decreases t, 2
  {
    hide Emit, Lawful, Fits, Spelled, Nodes, Size, AllFinite, Distinct;
    if t.Leaf? {
      EmitLeaf(t, depth, text);
    } else {
      EmitContainer(t, depth, text);
    }
  }

  lemma EmitLeaf(t: Tree, depth: nat, text: Double -> Text)
    requires t.Leaf? && AllFinite(t) && Pointed(text)
    ensures Spelled(Emit(t, text)) == t
    ensures Nodes(Emit(t, text)) == Size(t)
    ensures Lawful(Emit(t, text), depth) <==> Fits(t, depth)
  {
    hide HasPoint, PartNodes, KidSizes;
    EmptySums(t, Emit(t, text));
  }

  lemma {:induction false} EmitContainer(t: Tree, depth: nat, text: Double -> Text)
    requires !t.Leaf? && AllFinite(t) && Distinct(t) && Pointed(text)
    ensures Spelled(Emit(t, text)) == t
    ensures Nodes(Emit(t, text)) == Size(t)
    ensures Lawful(Emit(t, text), depth) <==> Fits(t, depth)
    decreases t, 1
  {
    hide Addressable, PartNodes, KidSizes, EmitMembers, EmitElements, SpelledMembers, SpelledElements, AllFinite;
    hide Pointed;
    var j := Emit(t, text);
    EmitParts(t, text);
    forall i | 0 <= i < KidCount(t)
      ensures Spelled(Part(j, i)) == Kid(t, i) && (Lawful(Part(j, i), depth + 1) <==> Fits(Kid(t, i), depth + 1))
    {
      FineKid(t, i);
      EmitMeans(Kid(t, i), depth + 1, text);
    }
    EmitSizes(t, KidCount(t), text);
    if t.Obj? {
      assert SpelledMembers(j) == t.members;
    } else {
      assert SpelledElements(j) == t.elements;
    }
  }

  lemma EmptySums(t: Tree, j: Json)
    ensures PartNodes(j, 0) == 0 && KidSizes(t, 0) == 0
  {
  }

  lemma {:induction false} EmitSizes(t: Tree, n: nat, text: Double -> Text)
    requires AllFinite(t) && Distinct(t) && Pointed(text) && !t.Leaf? && n <= KidCount(t)
    ensures Parts(Emit(t, text)) == KidCount(t) && PartNodes(Emit(t, text), n) == KidSizes(t, n)
    decreases t, 0, n
  {
    hide Lawful, Spelled, Fits, Emit, PartNodes, KidSizes, Nodes, Size, AllFinite, Distinct, Pointed;
    var j := Emit(t, text);
    EmitParts(t, text);
    if n == 0 {
      EmptySums(t, j);
    } else {
      FineKid(t, n - 1);
      EmitMeans(Kid(t, n - 1), 0, text);
      EmitSizes(t, n - 1, text);
      PartNodesNext(j, n - 1);
      KidSizesNext(t, n - 1);
    }
  }

  lemma EmitParts(t: Tree, text: Double -> Text)
    requires AllFinite(t) && !t.Leaf?
    ensures Parts(Emit(t, text)) == KidCount(t)
    ensures forall i :: 0 <= i < KidCount(t) ==> AllFinite(Kid(t, i)) && Part(Emit(t, text), i) == Emit(Kid(t, i), text)
  {
  }

  lemma FineKid(t: Tree, i: nat)
    requires AllFinite(t) && Distinct(t) && i < KidCount(t)
    ensures AllFinite(Kid(t, i)) && Distinct(Kid(t, i))
  {
  }

  /** Loading what was saved gives back the version and the tree; it is refused only for exceeding the node limit. */
  lemma SaveThenLoad(version: UInt32, t: Tree, text: Double -> Text, max: nat)
    requires ModelTree(t) && Savable(t) && Pointed(text)
    ensures var j := Document(version, t, text);
            && (Accepted(j, max) <==> Size(t) <= max)
            && OneCarrier(j.members) && VersionOf(j) == version
            && Spelled(Body(j.members)) == t
  {
    hide Lawful, Nodes, Fits, AllFinite, Spelled, EmitMembers;
    var j := Document(version, t, text);
    var members := EmitMembers(t, |t.members|, text);
    CarrierFirst(version, members, t.members);
    assert j.members == [(VERSION_KEY, JUnsigned(version))] + members;
    EmitObject(t, text);
    EmitMeans(t, 0, text);
  }

  /** The same, of the two functions. */
  lemma LoadedSaved(c: Config, text: Double -> Text, max: nat)
    requires ModelTree(c.tree) && Saved(c, text).Ok? && Pointed(text)
    ensures var again := Loaded(Saved(c, text).value, max);
            if Size(c.tree) <= max then again == Ok(c) else again.Err?
  {
    hide EvalDocument, Accepted, Savable, Spelled, ModelTree, Size;
    var j := Saved(c, text).value;
    SaveThenLoad(c.version, c.tree, text, max);
    DocumentMeaning(j, max);
    if Accepted(j, max) {
      AcceptedTree(j, max);
    }
  }

  lemma LoadedFits(j: Json, max: nat)
    requires Loaded(j, max).Ok?
    ensures ModelTree(Loaded(j, max).value.tree)
  {
    hide EvalDocument, Accepted, Spelled, ModelTree;
    DocumentMeaning(j, max);
    AcceptedFits(j, max);
    AcceptedTree(j, max);
  }

  lemma EmitObject(t: Tree, text: Double -> Text)
    requires t.Obj? && AllFinite(t)
    ensures Emit(t, text) == JObject(EmitMembers(t, |t.members|, text))
  {
  }

  lemma CarrierFirst(version: UInt32, members: seq<(Text, Json)>, model: seq<(Text, Tree)>)
    requires |members| == |model| && forall i :: 0 <= i < |members| ==> members[i].0 == model[i].0
    requires Find(model, VERSION_KEY) == |model|
    ensures var all := [(VERSION_KEY, JUnsigned(version))] + members;
            OneCarrier(all) && Find(all, VERSION_KEY) == 0 && Body(all) == JObject(members)
  {
    hide Find, CarrierOf, VERSION_KEY;
    var all := [(VERSION_KEY, JUnsigned(version))] + members;
    CarrierIsVersion(version);
    FoundAtOnce(all, VERSION_KEY);
    assert forall i :: 0 <= i < |model| ==> model[i].0 != VERSION_KEY;
    forall i | 1 <= i < |all|
      ensures all[i].0 != VERSION_KEY
    {
      assert all[i].0 == model[i - 1].0;
    }
    assert all[..0] + all[1..] == members;
  }

  lemma CarrierIsVersion(version: UInt32)
    ensures CarrierOf(JUnsigned(version)) == Ok(version)
  {
  }

  lemma FoundAtOnce(members: seq<(Text, Json)>, key: Text)
    requires members != [] && members[0].0 == key
    ensures Find(members, key) == 0
  {
  }

  /** A document holds finite numbers only, so its tree does too. */
  lemma {:induction false} SpelledFinite(j: Json)
    ensures AllFinite(Spelled(j))
    decreases j
  {
    var t := Spelled(j);
    forall i | 0 <= i < KidCount(t)
      ensures AllFinite(Kid(t, i))
    {
      assert Kid(t, i) == Spelled(Part(j, i));
      SpelledFinite(Part(j, i));
    }
  }

  /** Whatever is loaded can be saved, and loads again as the same version and tree within the same limit. */
  lemma LoadThenSave(j: Json, max: nat, text: Double -> Text)
    requires Accepted(j, max) && Pointed(text)
    ensures var t := Spelled(Body(j.members));
            && ModelTree(t) && Savable(t)
            && var again := Document(VersionOf(j), t, text);
               && Accepted(again, max) && VersionOf(again) == VersionOf(j) && Spelled(Body(again.members)) == t
  {
    var body := Body(j.members);
    var t := Spelled(body);
    AcceptedFits(j, max);
    SpelledFinite(body);
    BodyFacts(j.members);
    assert forall i :: 0 <= i < |t.members| ==> t.members[i].0 == body.members[i].0 != VERSION_KEY;
    LawfulSize(body, 0);
    SaveThenLoad(VersionOf(j), t, text, max);
  }

  /** A document has as many nodes as its tree. */
  lemma {:induction false} LawfulSize(j: Json, depth: nat)
    ensures Nodes(j) == Size(Spelled(j))
    decreases j, 1
  {
    hide PartNodes, KidSizes;
    PartsSize(j, Parts(j));
  }

  lemma {:induction false} PartsSize(j: Json, n: nat)
    requires n <= Parts(j)
    ensures KidCount(Spelled(j)) == Parts(j) && PartNodes(j, n) == KidSizes(Spelled(j), n)
    decreases j, 0, n
  {
    hide Spelled, PartNodes, KidSizes, Nodes, Size;
    var t := Spelled(j);
    SpelledParts(j);
    if n == 0 {
      EmptySums(t, j);
    } else {
      LawfulSize(Part(j, n - 1), 0);
      PartsSize(j, n - 1);
      PartNodesNext(j, n - 1);
      KidSizesNext(t, n - 1);
    }
  }

  lemma SpelledParts(j: Json)
    ensures KidCount(Spelled(j)) == Parts(j)
    ensures forall i :: 0 <= i < Parts(j) ==> Kid(Spelled(j), i) == Spelled(Part(j, i))
  {
  }
}

/** Which JSON documents are accepted, and as what, said without the machine. */
module JsonMeaning {
  import opened Base
  import opened ConfigPath
  import opened Trees
  import opened JsonSax

  // ------------------------------------------------------------------ legality, size and plain meaning

  function Parts(j: Json): nat {
    match j
    case JObject(members) => |members|
    case JArray(elements) => |elements|
    case _ => 0
  }

  function Part(j: Json, i: nat): (part: Json)
    requires i < Parts(j)
    ensures part < j
  {
    match j
    case JObject(members) => members[i].1
    case JArray(elements) => elements[i]
  }

  /** The first `n` keys are addressable and no two are equal. */
  predicate LawfulKeys(members: seq<(Text, Json)>, n: nat)
    requires n <= |members|
  {
    && (forall i :: 0 <= i < n ==> Addressable(members[i].0))
    && (forall i, k :: 0 <= i < k < n ==> members[i].0 != members[k].0)
  }

  /** Keys addressable and unique, numbers in range, nothing below the depth limit. */
  predicate Lawful(j: Json, depth: nat) {
    && depth <= MAX_DEPTH
    && (j.JObject? ==> LawfulKeys(j.members, |j.members|))
    && (j.JObject? || j.JArray? || ScalarOf(j).Ok?)
    && LawfulParts(j, 0, depth)
  }

  /** The parts from the `k`-th on are legal one level down. */
  predicate LawfulParts(j: Json, k: nat, depth: nat) {
    forall i :: k <= i < Parts(j) ==> Lawful(Part(j, i), depth + 1)
  }

  function Nodes(j: Json): nat
    decreases j, 1, 0
  {
    1 + PartNodes(j, Parts(j))
  }

  function PartNodes(j: Json, n: nat): nat
    requires n <= Parts(j)
    decreases j, 0, n
  {
    if n == 0 then 0 else PartNodes(j, n - 1) + Nodes(Part(j, n - 1))
  }

  /** The tree a document spells, order kept. */
  function Spelled(j: Json): Tree
    decreases j, 1
  {
    if j.JObject? then Obj(SpelledMembers(j))
    else if j.JArray? then Arr(SpelledElements(j))
    else if ScalarOf(j).Ok? then ScalarOf(j).value
    else Leaf(Null)
  }

  function SpelledMembers(j: Json): (members: seq<(Text, Tree)>)
    requires j.JObject?
    ensures |members| == |j.members|
    ensures forall i :: 0 <= i < |members| ==> members[i] == (j.members[i].0, Spelled(Part(j, i)))
    decreases j, 0
  {
    seq(|j.members|, i requires 0 <= i < |j.members| => (j.members[i].0, Spelled(Part(j, i))))
  }

  function SpelledElements(j: Json): (elements: seq<Tree>)
    requires j.JArray?
    ensures |elements| == |j.elements|
    ensures forall i :: 0 <= i < |elements| ==> elements[i] == Spelled(Part(j, i))
    decreases j, 0
  {
    seq(|j.elements|, i requires 0 <= i < |j.elements| => Spelled(Part(j, i)))
  }

  // ------------------------------------------------------------------ the machine's meaning is the plain one

  lemma {:induction false} PartNodesGrow(j: Json, m: nat, n: nat)
    requires m <= n <= Parts(j)
    ensures PartNodes(j, m) + (n - m) <= PartNodes(j, n)
    decreases n
  {
    if m < n {
      PartNodesGrow(j, m, n - 1);
    }
  }

  lemma PartNodesNext(j: Json, k: nat)
    requires k < Parts(j)
    ensures PartNodes(j, k + 1) == PartNodes(j, k) + Nodes(Part(j, k))
    ensures PartNodes(j, k + 1) <= PartNodes(j, Parts(j))
  {
    PartNodesGrow(j, k + 1, Parts(j));
  }

  lemma LawfulPart(j: Json, k: nat, depth: nat)
    requires k < Parts(j)
    ensures LawfulParts(j, k, depth) <==> Lawful(Part(j, k), depth + 1) && LawfulParts(j, k + 1, depth)
  {
    hide Lawful;
    if Lawful(Part(j, k), depth + 1) && LawfulParts(j, k + 1, depth) {
      forall i | k <= i < Parts(j)
        ensures Lawful(Part(j, i), depth + 1)
      {
      }
    }
  }

  /** A value is accepted exactly when it is legal where it stands and fits the node budget. */
  lemma {:induction false} EvalIsSpelled(j: Json, depth: nat, nodes: nat, max: nat)
    requires nodes <= max
    ensures Eval(j, depth, nodes, max) ==
            if Lawful(j, depth) && nodes + Nodes(j) <= max then Ok((Spelled(j), nodes + Nodes(j))) else Err(ParseError)
    decreases j, 1, 0
  {
    hide LawfulParts, LawfulKeys, EvalMembers, EvalElements, PartNodes, SpelledMembers, SpelledElements;
    if j.JObject? {
      EvalObject(j, depth, nodes, max);
      NoParts(j);
      if depth <= MAX_DEPTH {
        assert SpelledMembers(j)[..0] == [];
        MembersAreSpelled(j, 0, depth, nodes, nodes, max);
      }
    } else if j.JArray? {
      EvalArray(j, depth, nodes, max);
      NoParts(j);
      if depth <= MAX_DEPTH {
        assert SpelledElements(j)[..0] == [];
        ElementsAreSpelled(j, 0, depth, nodes, nodes, max);
      }
    } else {
      NoParts(j);
      Childless(j, depth);
    }
  }

  lemma NoParts(j: Json)
    ensures PartNodes(j, 0) == 0
    ensures j.JObject? ==> LawfulKeys(j.members, 0)
  {
  }

  lemma Childless(j: Json, depth: nat)
    requires !j.JObject? && !j.JArray?
    ensures Parts(j) == 0 && LawfulParts(j, 0, depth)
  {
  }

  lemma {:induction false} MembersAreSpelled(j: Json, k: nat, depth: nat, base: nat, nodes: nat, max: nat)
    requires j.JObject? && k <= Parts(j)
    requires nodes == base + PartNodes(j, k) <= max && LawfulKeys(j.members, k)
    ensures EvalMembers(j, k, depth + 1, nodes, max, SpelledMembers(j)[..k]) ==
            if LawfulKeys(j.members, Parts(j)) && LawfulParts(j, k, depth) && base + PartNodes(j, Parts(j)) <= max
            then Ok((SpelledMembers(j), base + PartNodes(j, Parts(j)))) else Err(ParseError)
    decreases j, 0, Parts(j) - k
  {
    hide Eval, EvalMembers, Spelled, Lawful, LawfulParts, LawfulKeys, Nodes, PartNodes;
    var done := SpelledMembers(j)[..k];
    if k == Parts(j) {
      EvalNoMember(j, depth + 1, nodes, max, done);
      NoneLeft(j, depth);
      assert done == SpelledMembers(j);
    } else {
      EvalMember(j, k, depth + 1, nodes, max, done);
      KeyOkIs(j, k);
      EvalIsSpelled(Part(j, k), depth + 1, nodes, max);
      PartNodesNext(j, k);
      LawfulPart(j, k, depth);
      if KeyOk(j.members[k].0, done) && Lawful(Part(j, k), depth + 1) && nodes + Nodes(Part(j, k)) <= max {
        MembersAreSpelled(j, k + 1, depth, base, nodes + Nodes(Part(j, k)), max);
        assert SpelledMembers(j)[..k + 1] == done + [(j.members[k].0, Spelled(Part(j, k)))];
      }
    }
  }

  lemma NoneLeft(j: Json, depth: nat)
    ensures LawfulParts(j, Parts(j), depth)
  {
  }

  lemma KeyOkIs(j: Json, k: nat)
    requires j.JObject? && k < |j.members| && LawfulKeys(j.members, k)
    ensures KeyOk(j.members[k].0, SpelledMembers(j)[..k]) <==> LawfulKeys(j.members, k + 1)
    ensures LawfulKeys(j.members, |j.members|) ==> LawfulKeys(j.members, k + 1)
  {
    hide Spelled, Addressable;
    var done, key := SpelledMembers(j)[..k], j.members[k].0;
    if Find(done, key) < k {
      assert j.members[Find(done, key)].0 == key;
    } else {
      assert forall i :: 0 <= i < k ==> done[i].0 == j.members[i].0;
    }
  }

  lemma {:induction false} ElementsAreSpelled(j: Json, k: nat, depth: nat, base: nat, nodes: nat, max: nat)
    requires j.JArray? && k <= Parts(j)
    requires nodes == base + PartNodes(j, k) <= max
    ensures EvalElements(j, k, depth + 1, nodes, max, SpelledElements(j)[..k]) ==
            if LawfulParts(j, k, depth) && base + PartNodes(j, Parts(j)) <= max
            then Ok((SpelledElements(j), base + PartNodes(j, Parts(j)))) else Err(ParseError)
    decreases j, 0, Parts(j) - k
  {
    hide Eval, EvalElements, Spelled, Lawful, LawfulParts, Nodes, PartNodes;
    var done := SpelledElements(j)[..k];
    if k == Parts(j) {
      EvalNoElement(j, depth + 1, nodes, max, done);
      NoneLeft(j, depth);
      assert done == SpelledElements(j);
    } else {
      EvalElement(j, k, depth + 1, nodes, max, done);
      EvalIsSpelled(Part(j, k), depth + 1, nodes, max);
      PartNodesNext(j, k);
      LawfulPart(j, k, depth);
      if Lawful(Part(j, k), depth + 1) && nodes + Nodes(Part(j, k)) <= max {
        ElementsAreSpelled(j, k + 1, depth, base, nodes + Nodes(Part(j, k)), max);
        assert SpelledElements(j)[..k + 1] == done + [Spelled(Part(j, k))];
      }
    }
  }

  /** What the machine accepts can always be adopted by a model. */
  lemma {:induction false} LawfulFits(j: Json, depth: nat)
    requires Lawful(j, depth)
    ensures Distinct(Spelled(j)) && Fits(Spelled(j), depth)
    decreases j
  {
    hide Addressable;
    var t := Spelled(j);
    assert KidCount(t) == Parts(j);
    forall i | 0 <= i < KidCount(t)
      ensures Distinct(Kid(t, i)) && Fits(Kid(t, i), depth + 1)
    {
      assert Kid(t, i) == Spelled(Part(j, i));
      LawfulFits(Part(j, i), depth + 1);
    }
  }

  // ------------------------------------------------------------------ the carrier

  predicate NoCarrier(members: seq<(Text, Json)>, from: nat) {
    forall i :: from <= i < |members| ==> members[i].0 != VERSION_KEY
  }

  /** Exactly one member is named like the carrier, and its value is a version. */
  predicate OneCarrier(members: seq<(Text, Json)>) {
    var c := Find(members, VERSION_KEY);
    c < |members| && CarrierOf(members[c].1).Ok? && NoCarrier(members, c + 1)
  }

  /** The document without its carrier. */
  function Body(members: seq<(Text, Json)>): Json {
    var c := Find(members, VERSION_KEY);
    JObject(if c < |members| then members[..c] + members[c + 1..] else members)
  }

  /** What `load` accepts. */
  predicate Accepted(j: Json, max: nat) {
    j.JObject? && OneCarrier(j.members) && Lawful(Body(j.members), 0) && Nodes(Body(j.members)) <= max
  }

  function VersionOf(j: Json): UInt32
    requires j.JObject? && OneCarrier(j.members)
  {
    j.members[Find(j.members, VERSION_KEY)].1.n
  }

  function Versioned(r: Result<Top>, version: Option<UInt32>): Result<Top> {
    if r.Ok? then Ok(r.value.(version := version)) else r
  }

  /** Past the carrier, or without one, only the members that are left matter. */
  lemma {:induction false} SuffixSame(a: seq<(Text, Json)>, i: nat, b: seq<(Text, Json)>, k: nat, max: nat, top: Top,
                                      v: Option<UInt32>)
    requires i <= |a| && k <= |b| && a[i..] == b[k..] && NoCarrier(a, i)
    ensures EvalTop(a, i, max, top.(version := v)) == Versioned(EvalTop(b, k, max, top.(version := None)), v)
    decreases |a| - i
  {
    hide Eval, KeyOk;
    if i < |a| {
      assert a[i] == a[i..][0] == b[k];
      var step := TopStep(b[k].0, b[k].1, max, top.(version := None));
      if step.Ok? {
        assert a[i + 1..] == a[i..][1..] == b[k + 1..];
        SuffixSame(a, i + 1, b, k + 1, max, step.value, v);
      }
    }
  }

  lemma {:induction false} CarrierDrops(members: seq<(Text, Json)>, k: nat, c: nat, rest: seq<(Text, Json)>, max: nat,
                                        top: Top)
    requires k <= c < |members| && members[c].0 == VERSION_KEY && CarrierOf(members[c].1).Ok?
    requires (forall i :: k <= i < c ==> members[i].0 != VERSION_KEY) && NoCarrier(members, c + 1)
    requires rest == members[..c] + members[c + 1..] && top.version == None
    ensures EvalTop(members, k, max, top) == Versioned(EvalTop(rest, k, max, top), Some(CarrierOf(members[c].1).value))
    decreases c - k
  {
    hide Eval, KeyOk;
    if k == c {
      assert rest[c..] == members[c + 1..];
      SuffixSame(members, c + 1, rest, c, max, top, Some(CarrierOf(members[c].1).value));
    } else {
      assert rest[k] == members[k];
      var step := TopStep(members[k].0, members[k].1, max, top);
      if step.Ok? {
        CarrierDrops(members, k + 1, c, rest, max, step.value);
      }
    }
  }

  /** Without a carrier the root's members are evaluated like any object's. */
  lemma {:induction false} TopIsMembers(j: Json, k: nat, max: nat, top: Top)
    requires j.JObject? && k <= |j.members| && NoCarrier(j.members, 0) && top.version == None
    ensures EvalTop(j.members, k, max, top) ==
            match EvalMembers(j, k, 1, top.nodes, max, top.members)
            case Err(e) => Err(e)
            case Ok(r) => Ok(Top(r.0, r.1, None))
    decreases |j.members| - k
  {
    hide Eval, KeyOk, EvalMembers;
    if k == |j.members| {
      EvalNoMember(j, 1, top.nodes, max, top.members);
    } else {
      EvalMember(j, k, 1, top.nodes, max, top.members);
      var step := TopStep(j.members[k].0, j.members[k].1, max, top);
      if step.Ok? {
        TopIsMembers(j, k + 1, max, step.value);
      }
    }
  }

  /** Once the carrier has been seen, a second one is refused. */
  lemma {:induction false} SecondRefused(members: seq<(Text, Json)>, k: nat, max: nat, top: Top)
    requires k <= |members| && top.version.Some? && EvalTop(members, k, max, top).Ok?
    ensures NoCarrier(members, k)
    decreases |members| - k
  {
    hide Eval, KeyOk;
    if k < |members| {
      SecondRefused(members, k + 1, max, TopStep(members[k].0, members[k].1, max, top).value);
    }
  }

  lemma {:induction false} CarrierChecked(members: seq<(Text, Json)>, k: nat, c: nat, max: nat, top: Top)
    requires k <= c < |members| && members[c].0 == VERSION_KEY && top.version == None
    requires forall i :: k <= i < c ==> members[i].0 != VERSION_KEY
    requires EvalTop(members, k, max, top).Ok?
    ensures CarrierOf(members[c].1).Ok? && NoCarrier(members, c + 1)
    decreases c - k
  {
    hide Eval, KeyOk;
    var step := TopStep(members[k].0, members[k].1, max, top).value;
    if k == c {
      SecondRefused(members, c + 1, max, step);
    } else {
      CarrierChecked(members, k + 1, c, max, step);
    }
  }

  lemma BodyFacts(members: seq<(Text, Json)>)
    requires Find(members, VERSION_KEY) < |members| ==> NoCarrier(members, Find(members, VERSION_KEY) + 1)
    ensures NoCarrier(Body(members).members, 0)
  {
    var c := Find(members, VERSION_KEY);
    FoundFirst(members, VERSION_KEY);
    hide Find, NoCarrier;
    if c < |members| {
      DropOne(members, c);
    }
  }

  lemma FoundFirst(members: seq<(Text, Json)>, key: Text)
    ensures var c := Find(members, key);
            && (forall i :: 0 <= i < c ==> members[i].0 != key)
            && (c == |members| && key == VERSION_KEY ==> NoCarrier(members, 0))
  {
    hide Find, VERSION_KEY;
  }

  lemma DropOne(members: seq<(Text, Json)>, c: nat)
    requires c < |members| && forall i :: 0 <= i < c ==> members[i].0 != VERSION_KEY
    requires NoCarrier(members, c + 1)
    ensures NoCarrier(members[..c] + members[c + 1..], 0)
  {
    hide VERSION_KEY;
  }

  lemma BodyMeaning(body: Json, max: nat)
    requires body.JObject? && NoCarrier(body.members, 0)
    ensures EvalTop(body.members, 0, max, Top([], 0, None)) ==
            if LawfulKeys(body.members, Parts(body)) && LawfulParts(body, 0, 0) && PartNodes(body, Parts(body)) <= max
            then Ok(Top(SpelledMembers(body), PartNodes(body, Parts(body)), None)) else Err(ParseError)
  {
    hide EvalTop, EvalMembers, LawfulKeys, LawfulParts, PartNodes, SpelledMembers;
    TopIsMembers(body, 0, max, Top([], 0, None));
    NoParts(body);
    MembersAreSpelled(body, 0, 0, 0, 0, max);
    assert SpelledMembers(body)[..0] == [];
  }

  /** Exactly the accepted documents build a versioned tree, and it is the document's own without the carrier. */
  lemma DocumentMeaning(j: Json, max: nat)
    ensures var r := EvalDocument(j, max);
            r.Ok? && r.value.version.Some? <==> Accepted(j, max)
    ensures Accepted(j, max) ==>
              EvalDocument(j, max) ==
              Ok(Top(SpelledMembers(Body(j.members)), Nodes(Body(j.members)), Some(VersionOf(j))))
  {
    hide EvalTop, LawfulKeys, LawfulParts, PartNodes, SpelledMembers, Find;
    if j.JObject? {
      var members, c, top := j.members, Find(j.members, VERSION_KEY), Top([], 0, None);
      if c < |members| {
        if EvalTop(members, 0, max, top).Ok? {
          CarrierChecked(members, 0, c, max, top);
        }
        if CarrierOf(members[c].1).Ok? && NoCarrier(members, c + 1) {
          BodyFacts(members);
          CarrierDrops(members, 0, c, members[..c] + members[c + 1..], max, top);
          BodyMeaning(Body(members), max);
        }
      } else {
        BodyFacts(members);
        BodyMeaning(Body(members), max);
      }
    }
  }

  /** An accepted document's tree is one a model may hold. */
  lemma AcceptedFits(j: Json, max: nat)
    requires Accepted(j, max)
    ensures ModelTree(Spelled(Body(j.members)))
  {
    LawfulFits(Body(j.members), 0);
  }
}

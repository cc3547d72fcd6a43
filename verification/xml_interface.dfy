/** `XmlInterface`: saving and loading versioned configurations, and that the two are inverse. */
module XmlInterfaces {
  import opened Base
  import opened Decimals
  import opened Trees
  import opened NodeArena
  import opened ModelState
  import opened ConfigModels
  import opened MigrationEngines
  import opened XmlText
  import opened XmlMeaning
  import opened XmlParse
  import opened XmlPrint

  // ------------------------------------------------------------------ the document's root

  /** `document_element()`: the first element among the document's nodes. */
  function FirstElement(doc: seq<Xml>): (i: nat)
    ensures i <= |doc|
    ensures forall j :: 0 <= j < i ==> doc[j].Chars?
    ensures i < |doc| ==> doc[i].Element?
  {
    if doc == [] || doc[0].Element? then 0 else 1 + FirstElement(doc[1..])
  }

  /** One root element named `config`, with nothing but white space around it. */
  predicate SoleRoot(doc: seq<Xml>) {
    var r := FirstElement(doc);
    && r < |doc| && doc[r].name == CONFIG
    && forall i :: 0 <= i < |doc| && i != r ==> doc[i].Chars? && Blank(doc[i].text)
  }

  function RootOf(doc: seq<Xml>): (root: Xml)
    requires SoleRoot(doc)
    ensures root.Element? && root.name == CONFIG
  {
    doc[FirstElement(doc)]
  }

  method FindRoot(doc: seq<Xml>) returns (r: Result<Xml>)
    ensures r == if SoleRoot(doc) then Ok(RootOf(doc)) else Err(ParseError)
  {
    hide Blank, CONFIG;
    var root := FirstElement(doc);
    for k := 0 to |doc|
      invariant forall i :: 0 <= i < k && i != root ==> doc[i].Chars? && Blank(doc[i].text)
    {
      if doc[k].Element? {
        if k != root {
          return Err(ParseError);
        }
      } else {
        var blank := IsBlank(doc[k].text);
        if !blank {
          return Err(ParseError);
        }
      }
    }
    if root == |doc| || doc[root].name != CONFIG {
      return Err(ParseError);
    }
    r := Ok(doc[root]);
  }

  predicate IsVersion(attribute: (Text, Text)) {
    attribute.0 == VERSION_ATTRIBUTE && VersionText(attribute.1)
  }

  predicate IsObjectType(attribute: (Text, Text)) {
    attribute.0 == TYPE && attribute.1 == OBJECT
  }

  /** One version and at most the redundant type, in either order. */
  predicate RootAttributes(attributes: seq<(Text, Text)>) {
    || (|attributes| == 1 && IsVersion(attributes[0]))
    || (|attributes| == 2 && IsVersion(attributes[0]) && IsObjectType(attributes[1]))
    || (|attributes| == 2 && IsObjectType(attributes[0]) && IsVersion(attributes[1]))
  }

  function VersionIn(attributes: seq<(Text, Text)>): UInt32
    requires RootAttributes(attributes)
  {
    ValueOf(if IsVersion(attributes[0]) then attributes[0].1 else attributes[1].1)
  }

  /** The first fault of the attributes from the `k`-th on: a missing or malformed version has its own code. */
  function RootFault(attributes: seq<(Text, Text)>, k: nat, versioned: bool, typed: bool): Option<ErrorCode>
    requires k <= |attributes|
    decreases |attributes| - k
  {
    if k == |attributes| then (if versioned then None else Some(InvalidVersion))
    else
      var (name, value) := attributes[k];
      if name == VERSION_ATTRIBUTE then
        if versioned then Some(ParseError)
        else if !VersionText(value) then Some(InvalidVersion)
        else RootFault(attributes, k + 1, true, typed)
      else if name == TYPE then
        if typed || value != OBJECT then Some(ParseError) else RootFault(attributes, k + 1, versioned, true)
      else Some(ParseError)
  }

  /** What the scan has seen after `k` attributes, none of them faulty. */
  ghost predicate Scanned(attributes: seq<(Text, Text)>, k: nat, version: Option<UInt32>, typed: bool)
    requires k <= |attributes|
  {
    && (version == None && !typed ==> k == 0)
    && (version == None && typed ==> k == 1 && IsObjectType(attributes[0]))
    && (version.Some? && !typed ==> k == 1)
    && (version.Some? && typed ==> k == 2)
    && (version.Some? ==> RootAttributes(attributes[..k]) && version.value == VersionIn(attributes[..k]))
  }

  lemma ScanNext(attributes: seq<(Text, Text)>, k: nat, version: Option<UInt32>, typed: bool)
    requires k < |attributes| && Scanned(attributes, k, version, typed)
    ensures version == None && IsVersion(attributes[k]) ==>
              Scanned(attributes, k + 1, Some(ValueOf(attributes[k].1)), typed)
    ensures !typed && IsObjectType(attributes[k]) ==> Scanned(attributes, k + 1, version, true)
    ensures !(version == None && IsVersion(attributes[k])) && !(!typed && IsObjectType(attributes[k])) ==>
              !RootAttributes(attributes)
  {
    hide VersionText, VERSION_ATTRIBUTE, OBJECT, TYPE, ValueOf;
    NamesDiffer();
    var next := attributes[..k + 1];
    assert forall i :: 0 <= i < k ==> attributes[..k][i] == next[i] == attributes[i];
    assert next[k] == attributes[k];
  }

  lemma NamesDiffer()
    ensures VERSION_ATTRIBUTE != TYPE
  {
    assert |VERSION_ATTRIBUTE| != |TYPE|;
  }

  method ScanRoot(attributes: seq<(Text, Text)>) returns (r: Result<UInt32>)
    ensures r.Ok? <==> RootAttributes(attributes)
    ensures r.Ok? ==> r.value == VersionIn(attributes)
    ensures RootFault(attributes, 0, false, false) == if r.Ok? then None else Some(r.error)
  {
    hide VersionText, VERSION_ATTRIBUTE, OBJECT, TYPE, RootAttributes, VersionIn, Scanned, RootFault, ValueOf;
    hide AllDigits;
    NamesDiffer();
    var version: Option<UInt32>, typed := None, false;
    ScanNone(attributes);
    for k := 0 to |attributes|
      invariant Scanned(attributes, k, version, typed)
      invariant RootFault(attributes, 0, false, false) == RootFault(attributes, k, version.Some?, typed)
    {
      ScanNext(attributes, k, version, typed);
      RootFaultNext(attributes, k, version.Some?, typed);
      if attributes[k].0 == VERSION_ATTRIBUTE {
        if version.Some? {
          return Err(ParseError);
        }
        VersionTextDigits(attributes[k].1);
        var carrier := ParseVersionCarrier(attributes[k].1);
        if carrier.Err? {
          return Err(carrier.error);
        }
        version := Some(carrier.value);
      } else if attributes[k].0 == TYPE {
        if typed || attributes[k].1 != OBJECT {
          return Err(ParseError);
        }
        typed := true;
      } else {
        return Err(ParseError);
      }
    }
    RootFaultEnd(attributes, version.Some?, typed);
    ScanEnd(attributes, version, typed);
    r := if version.Some? then Ok(version.value) else Err(InvalidVersion);
  }

  lemma ScanNone(attributes: seq<(Text, Text)>)
    ensures Scanned(attributes, 0, None, false)
  {
  }

  lemma ScanEnd(attributes: seq<(Text, Text)>, version: Option<UInt32>, typed: bool)
    requires Scanned(attributes, |attributes|, version, typed)
    ensures version.Some? <==> RootAttributes(attributes)
    ensures version.Some? ==> version.value == VersionIn(attributes)
  {
    NamesDiffer();
    hide VersionText, VERSION_ATTRIBUTE, OBJECT, TYPE, ValueOf;
    assert attributes[..|attributes|] == attributes;
  }

  lemma VersionTextDigits(text: Text)
    ensures VersionText(text) ==> AllDigits(text)
  {
  }

  lemma RootFaultNext(attributes: seq<(Text, Text)>, k: nat, versioned: bool, typed: bool)
    requires k < |attributes|
    ensures var (name, value) := attributes[k];
            RootFault(attributes, k, versioned, typed) ==
            if name == VERSION_ATTRIBUTE then
              if versioned then Some(ParseError)
              else if !VersionText(value) then Some(InvalidVersion)
              else RootFault(attributes, k + 1, true, typed)
            else if name == TYPE then
              if typed || value != OBJECT then Some(ParseError) else RootFault(attributes, k + 1, versioned, true)
            else Some(ParseError)
  {
  }

  lemma RootFaultEnd(attributes: seq<(Text, Text)>, versioned: bool, typed: bool)
    ensures RootFault(attributes, |attributes|, versioned, typed) == if versioned then None else Some(InvalidVersion)
  {
  }

  // ------------------------------------------------------------------ load and save

  /** What `load` accepts. */
  ghost predicate Accepted(doc: seq<Xml>, max: nat, read: Reader) {
    && SoleRoot(doc) && RootAttributes(RootOf(doc).attributes)
    && LawfulMembers(RootOf(doc).children, 0, read)
    && 1 + Counts(RootOf(doc).children) <= max
  }

  function VersionOf(doc: seq<Xml>): UInt32
    requires SoleRoot(doc) && RootAttributes(RootOf(doc).attributes)
  {
    VersionIn(RootOf(doc).attributes)
  }

  ghost function TreeOf(doc: seq<Xml>, read: Reader): Tree
    requires SoleRoot(doc)
  {
    Obj(Members(RootOf(doc).children, read))
  }

  /** What `load` makes of a document; a fault of the root's attributes has its own code. */
  ghost function Loaded(doc: seq<Xml>, max: nat, read: Reader): Result<Config> {
    if Accepted(doc, max, read) then Ok(Config(VersionOf(doc), TreeOf(doc, read)))
    else if SoleRoot(doc) && RootFault(RootOf(doc).attributes, 0, false, false).Some? then
      Err(RootFault(RootOf(doc).attributes, 0, false, false).value)
    else Err(ParseError)
  }

  /** Accepts exactly the accepted documents. The model's own refusal cannot occur. */
  method Load(heap: Heap, doc: seq<Xml>, maxNodes: nat, read: Reader) returns (r: Outcome<VersionedConfig>)
    modifies heap
    ensures r.Done? ==>
              && Accepted(doc, maxNodes, read)
              && fresh(r.value) && fresh(r.value.model) && fresh(r.value.model.arena)
              && r.value.model.arena.heap == heap
              && r.value.model.Valid()
              && r.value.version == VersionOf(doc)
              && r.value.model.Contents() == TreeOf(doc, read)
    ensures r.Done? ==> Loaded(doc, maxNodes, read) == Ok(Config(r.value.version, r.value.model.Contents()))
    ensures r.Refused? ==> !Accepted(doc, maxNodes, read) && Loaded(doc, maxNodes, read) == Err(r.error)
    ensures r.OutOfMemory? ==> Accepted(doc, maxNodes, read) && heap.budget == 0
  {
    hide SoleRoot, RootOf, RootAttributes, RootFault, VersionIn, LawfulMembers, Counts, Members;
    var root := FindRoot(doc);
    if root.Err? {
      return Refused(root.error);
    }
    var version := ScanRoot(root.value.attributes);
    if version.Err? {
      return Refused(version.error);
    }
    var budget := new NodeBudget(maxNodes);
    var consumed := budget.Consume();
    if !consumed {
      return Refused(ParseError);
    }
    var value := ParseObjectMembers(root.value, 0, budget, read);
    if value.Err? {
      return Refused(value.error);
    }
    AcceptedFits(doc, maxNodes, read);
    var model := ConfigModel.FromValue(heap, value.value);
    if model.OutOfMemory? {
      return OutOfMemory;
    }
    if model.Refused? {
      return Refused(ParseError);
    }
    var config := new VersionedConfig(version.value, model.value);
    r := Done(config);
  }

  lemma AcceptedFits(doc: seq<Xml>, max: nat, read: Reader)
    requires Accepted(doc, max, read)
    ensures ModelTree(TreeOf(doc, read))
  {
    hide LawfulMembers, Members, Distinct, Fits;
    MembersFit(RootOf(doc).children, 0, read);
  }

  /** The root carries the version; its children are the model's members. */
  function Document(version: UInt32, t: Tree, show: Double -> Text): Xml {
    Element(CONFIG, [(VERSION_ATTRIBUTE, Decimal(version))], ShowKids(t, KidCount(t), show))
  }

  /** What `save` makes of a configuration. */
  ghost function Saved(c: Config, show: Double -> Text): Result<Xml> {
    if Printable(c.tree) then Ok(Document(c.version, c.tree, show)) else Err(SerializationError)
  }

  method Save(config: VersionedConfig, show: Double -> Text) returns (r: Result<Xml>)
    requires config.model.Valid()
    ensures var t := config.model.Contents();
            r == if Printable(t) then Ok(Document(config.version, t, show)) else Err(SerializationError)
    ensures r == Saved(Config(config.version, config.model.Contents()), show)
  {
    hide Printable, ShowKids;
    var model := config.model;
    AtRoot(model.arena.nodes, model.root);
    var members := AppendMembers(model.arena, model.rootId, show, model.root, None);
    if members.Err? {
      return Err(members.error);
    }
    r := Ok(Element(CONFIG, [(VERSION_ATTRIBUTE, Decimal(config.version))], members.value));
  }

  // ------------------------------------------------------------------ the round trips

  /** Loading what was saved gives back the version and the tree, however white space is put between the children
      of its non-empty containers and around its root; it is refused only for exceeding the node limit. */
  lemma SaveThenLoad(version: UInt32, t: Tree, doc: seq<Xml>, max: nat, read: Reader, show: Double -> Text)
    requires ModelTree(t) && Printable(t) && ReadsBack(read, show)
    requires SoleRoot(doc) && Strip(RootOf(doc)) == Document(version, t, show)
    ensures Accepted(doc, max, read) <==> Size(t) <= max
    ensures RootAttributes(RootOf(doc).attributes) && VersionOf(doc) == version
    ensures TreeOf(doc, read) == t
  {
    hide SoleRoot, RootOf, LawfulMembers, Counts, Members, StripAll, ShowKids, Distinct, KidSizes, Printable;
    hide ReadsBack, KidsFit;
    hide HasElements;
    var root := RootOf(doc);
    var n := KidCount(t);
    CarrierReads(version);
    FitsByKids(t, 0);
    hide Fits;
    ShowKidsMean(t, n, 0, read, show);
    StripAllMembers(root.children, 0, read);
    StripAllKeeps(root.children);
    assert t.members[..n] == t.members;
  }

  /** The same, of the two functions. */
  lemma LoadedSaved(c: Config, doc: seq<Xml>, max: nat, read: Reader, show: Double -> Text)
    requires ModelTree(c.tree) && Saved(c, show).Ok? && ReadsBack(read, show)
    requires SoleRoot(doc) && Strip(RootOf(doc)) == Saved(c, show).value
    ensures var again := Loaded(doc, max, read);
            if Size(c.tree) <= max then again == Ok(c) else again.Err?
  {
    hide Accepted, SoleRoot, RootOf, Printable, Document, TreeOf, VersionOf, RootFault, Size, ModelTree, Strip;
    SaveThenLoad(c.version, c.tree, doc, max, read, show);
  }

  lemma LoadedFits(doc: seq<Xml>, max: nat, read: Reader)
    requires Loaded(doc, max, read).Ok?
    ensures ModelTree(Loaded(doc, max, read).value.tree)
  {
    hide Accepted, SoleRoot, RootOf, TreeOf, VersionOf, RootFault, ModelTree;
    AcceptedFits(doc, max, read);
  }

  lemma CarrierReads(version: UInt32)
    ensures var attributes := [(VERSION_ATTRIBUTE, Decimal(version))];
            RootAttributes(attributes) && VersionIn(attributes) == version
  {
  }

  /** Whatever is loaded can be saved, and loads again as the same version and tree within the same limit. */
  lemma LoadThenSave(doc: seq<Xml>, max: nat, read: Reader, show: Double -> Text)
    requires Accepted(doc, max, read) && ReadsBack(read, show)
    ensures var t := TreeOf(doc, read);
            && ModelTree(t) && Printable(t)
            && var again := [Document(VersionOf(doc), t, show)];
               && Accepted(again, max, read) && VersionOf(again) == VersionOf(doc) && TreeOf(again, read) == t
  {
    hide Counts, Members, ShowKids, KidSizes, Printable, LawfulMembers, ReadsBack, ModelTree, RootAttributes;
    hide VersionOf, StripAll;
    var t := TreeOf(doc, read);
    AcceptedFits(doc, max, read);
    AcceptedSize(doc, max, read);
    var root := Document(VersionOf(doc), t, show);
    assert SoleRoot([root]) && RootOf([root]) == root;
    StripDocument(VersionOf(doc), t, read, show);
    SaveThenLoad(VersionOf(doc), t, [root], max, read, show);
  }

  lemma AcceptedSize(doc: seq<Xml>, max: nat, read: Reader)
    requires Accepted(doc, max, read)
    ensures RootAttributes(RootOf(doc).attributes)
    ensures Printable(TreeOf(doc, read)) && Size(TreeOf(doc, read)) <= max
  {
    hide Counts, Members, KidSizes, Printable, LawfulMembers, RootAttributes, SoleRoot, RootOf;
    MembersPrint(RootOf(doc).children, 0, read);
  }

  lemma StripDocument(version: UInt32, t: Tree, read: Reader, show: Double -> Text)
    requires ModelTree(t) && Printable(t) && ReadsBack(read, show)
    ensures Strip(Document(version, t, show)) == Document(version, t, show)
  {
    hide Counts, Members, ShowKids, KidSizes, Printable, LawfulMembers, ReadsBack, Fits, Distinct, StripAll;
    ShowKidsMean(t, KidCount(t), 0, read, show);
  }
}

/** What the XML backend accepts and what it makes of it, said element by element about the document. */
module XmlLaws {
  import opened Base
  import opened Decimals
  import opened ConfigPath
  import opened Trees
  import opened TreeLaws
  import opened Locations
  import opened WriteLaws
  import opened XmlText
  import opened XmlMeaning
  import opened XmlPrint
  import opened XmlInterfaces

  // ------------------------------------------------------------------ texts

  predicate White(text: Text) {
    forall i :: 0 <= i < |text| ==> text[i] in [0x20, 0x9, 0xA, 0xD]
  }

  predicate Digits(text: Text) {
    text != [] && forall i :: 0 <= i < |text| ==> 0x30 <= text[i] <= 0x39
  }

  /** An optional '-' and one or more digits. */
  predicate Numeral(text: Text, n: int) {
    || (Digits(text) && n == ValueOf(text))
    || (text != [] && text[0] == 0x2D && Digits(text[1..]) && n == -(ValueOf(text[1..]) as int))
  }

  lemma DigitsAre(text: Text)
    ensures Digits(text) <==> text != [] && AllDigits(text)
  {
  }

  lemma NumeralIs(text: Text, n: Int64)
    ensures ReadInt(text) == Some(n) <==> Numeral(text, n)
  {
    DigitsAre(text);
    if text != [] {
      DigitsAre(text[1..]);
    }
    hide ValueOf;
  }

  lemma WhiteIs(text: Text)
    ensures Blank(text) <==> White(text)
  {
    forall i | 0 <= i < |text|
      ensures IsSpace(text[i]) <==> text[i] in [0x20, 0x9, 0xA, 0xD]
    {
    }
    hide IsSpace;
  }

  /** The words of the mapping. */
  lemma Words()
    ensures CONFIG == Ascii("config") && VERSION_ATTRIBUTE == Ascii("version") && TYPE == Ascii("type")
    ensures ITEM == Ascii("item") && OBJECT == Ascii("object") && ARRAY == Ascii("array") && NULL == Ascii("null")
    ensures BOOL == Ascii("bool") && INT == Ascii("int") && DOUBLE == Ascii("double")
    ensures TRUE == Ascii("true") && FALSE == Ascii("false")
  {
  }

  // ------------------------------------------------------------------ scalars

  predicate Typed(e: Xml, name: Text)
    requires e.Element?
  {
    e.attributes == [(Ascii("type"), name)]
  }

  /** The value an element with this text spells, by its type: an untyped one is a string. */
  ghost predicate Spells(e: Xml, text: Text, t: Tree, read: Reader)
    requires e.Element?
  {
    || (Typed(e, Ascii("null")) && text == [] && t == Leaf(Null))
    || (Typed(e, Ascii("bool")) && text == Ascii("true") && t == Leaf(Bool(true)))
    || (Typed(e, Ascii("bool")) && text == Ascii("false") && t == Leaf(Bool(false)))
    || (Typed(e, Ascii("int")) && t.Leaf? && t.scalar.Int? && Numeral(text, t.scalar.n))
    || (Typed(e, Ascii("double")) && read(text).Some? && read(text).value.Finite() && t == Leaf(Real(read(text).value)))
    || (e.attributes == [] && Representable(text) && t == Leaf(Str(text)))
  }

  predicate IsObject(e: Xml)
    requires e.Element?
  {
    Typed(e, Ascii("object")) || (e.attributes == [] && HasElements(e.children))
  }

  predicate IsArray(e: Xml)
    requires e.Element?
  {
    Typed(e, Ascii("array"))
  }

  lemma KindIs(e: Xml)
    requires e.Element?
    ensures KindOf(e) == Some(KObject) <==> IsObject(e)
    ensures KindOf(e) == Some(KArray) <==> IsArray(e)
    ensures KindOf(e) == Some(KNull) <==> Typed(e, Ascii("null"))
    ensures KindOf(e) == Some(KBool) <==> Typed(e, Ascii("bool"))
    ensures KindOf(e) == Some(KInt) <==> Typed(e, Ascii("int"))
    ensures KindOf(e) == Some(KDouble) <==> Typed(e, Ascii("double"))
    ensures KindOf(e) == Some(KString) <==> e.attributes == [] && !HasElements(e.children)
  {
    Words();
    WordsDiffer();
    hide OBJECT, ARRAY, NULL, BOOL, INT, DOUBLE, TYPE, Ascii, HasElements;
    if |e.attributes| == 1 {
      assert e.attributes == [(e.attributes[0].0, e.attributes[0].1)];
    }
  }

  lemma WordsDiffer()
    ensures OBJECT != ARRAY && OBJECT != NULL && OBJECT != BOOL && OBJECT != INT && OBJECT != DOUBLE
    ensures ARRAY != NULL && ARRAY != BOOL && ARRAY != INT && ARRAY != DOUBLE
    ensures NULL != BOOL && NULL != INT && NULL != DOUBLE && BOOL != INT && BOOL != DOUBLE && INT != DOUBLE
    ensures TRUE != FALSE
  {
    assert |OBJECT| == 6 && |ARRAY| == 5 && |NULL| == 4 && |BOOL| == 4 && |INT| == 3 && |DOUBLE| == 6;
    assert OBJECT[0] != DOUBLE[0] && NULL[0] != BOOL[0] && |TRUE| != |FALSE|;
  }

  lemma SpellsIs(e: Xml, text: Text, t: Tree, read: Reader)
    requires e.Element? && !IsObject(e) && !IsArray(e)
    requires !HasElements(e.children)
    ensures Spells(e, text, t, read) <==> KindOf(e).Some? && ScalarOf(KindOf(e).value, text, read) == Some(t)
  {
    KindIs(e);
    Words();
    WordsDiffer();
    if t.Leaf? && t.scalar.Int? {
      NumeralIs(text, t.scalar.n);
    }
    hide KindOf, Ascii, TRUE, FALSE, HasElements, Representable, Numeral, ReadInt;
  }

  // ------------------------------------------------------------------ positions in a document

  /** Every step goes to a child element. */
  predicate HasElement(e: Xml, spot: Spot)
    requires e.Element?
    decreases |spot|
  {
    spot == [] || (spot[0] < |e.children| && e.children[spot[0]].Element? && HasElement(e.children[spot[0]], spot[1..]))
  }

  function ElementAt(e: Xml, spot: Spot): (x: Xml)
    requires e.Element? && HasElement(e, spot)
    ensures x.Element?
    decreases |spot|
  {
    if spot == [] then e else ElementAt(e.children[spot[0]], spot[1..])
  }

  lemma ElementBelow(e: Xml, i: nat, spot: Spot)
    requires e.Element? && i < |e.children| && e.children[i].Element?
    ensures HasElement(e, [i] + spot) <==> HasElement(e.children[i], spot)
    ensures HasElement(e, [i] + spot) ==> ElementAt(e, [i] + spot) == ElementAt(e.children[i], spot)
  {
    assert ([i] + spot)[0] == i && ([i] + spot)[1..] == spot;
  }

  // ------------------------------------------------------------------ legality, position by position

  predicate WhiteBetween(children: seq<Xml>) {
    forall i :: 0 <= i < |children| && children[i].Chars? ==> White(children[i].text)
  }

  ghost predicate MemberName(name: Text) {
    PlainKey(name) && ElementName(name)
  }

  ghost predicate MembersSound(children: seq<Xml>) {
    && WhiteBetween(children)
    && (forall i :: 0 <= i < |children| && children[i].Element? ==> MemberName(children[i].name))
    && (forall i, k :: 0 <= i < k < |children| && children[i].Element? && children[k].Element? ==>
          children[i].name != children[k].name)
  }

  predicate ItemsSound(children: seq<Xml>) {
    && WhiteBetween(children)
    && (forall i :: 0 <= i < |children| && children[i].Element? ==> children[i].name == Ascii("item"))
  }

  /** Members have new, addressable XML names and nothing but white space between them; items are called "item"; a
      scalar's text spells some value of its type. */
  ghost predicate ElementSound(e: Xml, read: Reader)
    requires e.Element?
  {
    if IsObject(e) then MembersSound(e.children)
    else if IsArray(e) then ItemsSound(e.children)
    else !HasElements(e.children) && exists t :: Spells(e, TextOf(e.children), t, read)
  }

  ghost predicate SoundAt(e: Xml, spot: Spot, depth: nat, read: Reader)
    requires e.Element? && HasElement(e, spot)
  {
    depth + |spot| <= 128 && ElementSound(ElementAt(e, spot), read)
  }

  ghost predicate Sound(e: Xml, depth: nat, read: Reader)
    requires e.Element?
  {
    forall spot: Spot :: HasElement(e, spot) ==> SoundAt(e, spot, depth, read)
  }

  lemma SoundTop(e: Xml, depth: nat, read: Reader)
    requires e.Element?
    ensures Sound(e, depth, read) <==>
            && SoundAt(e, [], depth, read)
            && forall i :: 0 <= i < |e.children| && e.children[i].Element? ==> Sound(e.children[i], depth + 1, read)
  {
    hide ElementSound;
    if Sound(e, depth, read) {
      forall i, spot: Spot | 0 <= i < |e.children| && e.children[i].Element? && HasElement(e.children[i], spot)
        ensures SoundAt(e.children[i], spot, depth + 1, read)
      {
        ElementBelow(e, i, spot);
        assert SoundAt(e, [i] + spot, depth, read);
      }
      assert SoundAt(e, [], depth, read);
    }
    if SoundAt(e, [], depth, read)
       && forall i :: 0 <= i < |e.children| && e.children[i].Element? ==> Sound(e.children[i], depth + 1, read) {
      forall spot: Spot | HasElement(e, spot)
        ensures SoundAt(e, spot, depth, read)
      {
        if spot != [] {
          assert Sound(e.children[spot[0]], depth + 1, read);
          assert SoundAt(e.children[spot[0]], spot[1..], depth + 1, read);
        }
      }
    }
  }

  /** The child elements are lawful one level down. */
  ghost predicate KidsLawful(children: seq<Xml>, depth: nat, read: Reader) {
    forall i :: 0 <= i < |children| && children[i].Element? ==> Lawful(children[i], depth, read)
  }

  lemma {:induction false} LawfulMembersAre(children: seq<Xml>, depth: nat, read: Reader)
    ensures LawfulMembers(children, depth, read) <==> MembersSound(children) && KidsLawful(children, depth + 1, read)
    decreases children
  {
    hide Lawful, Meaning, MemberName, White, Blank, Addressable, PlainKey, ElementName;
    if children != [] {
      var k := |children| - 1;
      var rest, last := children[..k], children[k];
      LawfulMembersAre(rest, depth, read);
      assert forall i :: 0 <= i < k ==> rest[i] == children[i];
      if last.Chars? {
        WhiteIs(last.text);
      } else {
        NameIsNew(rest, last.name, read);
      }
    }
  }

  lemma NameIsNew(children: seq<Xml>, name: Text, read: Reader)
    ensures NewName(name, Members(children, read)) <==>
            && MemberName(name)
            && forall i :: 0 <= i < |children| && children[i].Element? ==> children[i].name != name
  {
    AddressableIs(name);
    MemberNames(children, name, read);
    hide Addressable, PlainKey, ElementName, Members;
  }

  lemma {:induction false} MemberNames(children: seq<Xml>, name: Text, read: Reader)
    ensures Find(Members(children, read), name) == |Members(children, read)| <==>
            forall i :: 0 <= i < |children| && children[i].Element? ==> children[i].name != name
    decreases children
  {
    hide Meaning, Find;
    if children != [] {
      var k := |children| - 1;
      var rest, last := children[..k], children[k];
      MemberNames(rest, name, read);
      hide Members;
      assert forall i :: 0 <= i < k ==> rest[i] == children[i];
      LastMember(children, read);
      if last.Element? {
        FindAppend(Members(rest, read), (last.name, Meaning(last, read)), name);
      }
    }
  }

  lemma LastMember(children: seq<Xml>, read: Reader)
    requires children != []
    ensures var rest, last := children[..|children| - 1], children[|children| - 1];
            Members(children, read) ==
            if last.Chars? then Members(rest, read) else Members(rest, read) + [(last.name, Meaning(last, read))]
  {
    hide Meaning;
  }

  lemma {:induction false} LawfulItemsAre(children: seq<Xml>, depth: nat, read: Reader)
    ensures LawfulItems(children, depth, read) <==> ItemsSound(children) && KidsLawful(children, depth + 1, read)
    decreases children
  {
    Words();
    hide Lawful, White, Blank, ITEM, Ascii;
    if children != [] {
      var k := |children| - 1;
      var rest, last := children[..k], children[k];
      LawfulItemsAre(rest, depth, read);
      assert forall i :: 0 <= i < k ==> rest[i] == children[i];
      if last.Chars? {
        WhiteIs(last.text);
      }
    }
  }

  lemma LawfulTop(e: Xml, depth: nat, read: Reader)
    requires e.Element?
    ensures Lawful(e, depth, read) <==> SoundAt(e, [], depth, read) && KidsLawful(e.children, depth + 1, read)
  {
    KindIs(e);
    LawfulMembersAre(e.children, depth, read);
    LawfulItemsAre(e.children, depth, read);
    hide LawfulMembers, LawfulItems, MembersSound, ItemsSound, KindOf, IsObject, IsArray, TextOf, Spells;
    if !IsObject(e) && !IsArray(e) {
      if !HasElements(e.children) {
        ScalarSound(e, read);
      }
    }
  }

  lemma ScalarSound(e: Xml, read: Reader)
    requires e.Element? && !IsObject(e) && !IsArray(e) && !HasElements(e.children)
    ensures (exists t :: Spells(e, TextOf(e.children), t, read)) <==>
            KindOf(e).Some? && ScalarOf(KindOf(e).value, TextOf(e.children), read).Some?
  {
    hide Spells, IsObject, IsArray, KindOf, TextOf, HasElements, ScalarOf;
    var text := TextOf(e.children);
    forall t
      ensures Spells(e, text, t, read) <==> KindOf(e).Some? && ScalarOf(KindOf(e).value, text, read) == Some(t)
    {
      SpellsIs(e, text, t, read);
    }
    if KindOf(e).Some? && ScalarOf(KindOf(e).value, text, read).Some? {
      assert Spells(e, text, ScalarOf(KindOf(e).value, text, read).value, read);
    }
  }

  /** An element is accepted exactly if every element in it is sound where it stands. */
  lemma {:induction false} LawfulEverywhere(e: Xml, depth: nat, read: Reader)
    requires e.Element?
    ensures Lawful(e, depth, read) <==> Sound(e, depth, read)
    decreases e
  {
    hide Lawful, Sound, SoundAt;
    forall i | 0 <= i < |e.children| && e.children[i].Element?
      ensures Lawful(e.children[i], depth + 1, read) <==> Sound(e.children[i], depth + 1, read)
    {
      LawfulEverywhere(e.children[i], depth + 1, read);
    }
    LawfulTop(e, depth, read);
    SoundTop(e, depth, read);
  }

  // ------------------------------------------------------------------ meaning

  /** The text, the members and the items of an element are those of its children, in order. */
  lemma InOrder(a: seq<Xml>, b: seq<Xml>, read: Reader)
    ensures TextOf(a + b) == TextOf(a) + TextOf(b)
    ensures Members(a + b, read) == Members(a, read) + Members(b, read)
    ensures Items(a + b, read) == Items(a, read) + Items(b, read)
  {
    hide TextOf, Members, Items;
    TextInOrder(a, b);
    MembersInOrder(a, b, read);
    ItemsInOrder(a, b, read);
  }

  lemma OneLonger(a: seq<Xml>, b: seq<Xml>)
    requires b != []
    ensures (a + b)[..|a + b| - 1] == a + b[..|b| - 1] && (a + b)[|a + b| - 1] == b[|b| - 1]
  {
  }

  lemma {:induction false} TextInOrder(a: seq<Xml>, b: seq<Xml>)
    ensures TextOf(a + b) == TextOf(a) + TextOf(b)
    decreases b
  {
    if b == [] {
      assert a + b == a;
    } else {
      TextInOrder(a, b[..|b| - 1]);
      OneLonger(a, b);
    }
  }

  lemma {:induction false} MembersInOrder(a: seq<Xml>, b: seq<Xml>, read: Reader)
    ensures Members(a + b, read) == Members(a, read) + Members(b, read)
    decreases b
  {
    hide Meaning;
    if b == [] {
      assert a + b == a;
    } else {
      MembersInOrder(a, b[..|b| - 1], read);
      OneLonger(a, b);
    }
  }

  lemma {:induction false} ItemsInOrder(a: seq<Xml>, b: seq<Xml>, read: Reader)
    ensures Items(a + b, read) == Items(a, read) + Items(b, read)
    decreases b
  {
    hide Meaning;
    if b == [] {
      assert a + b == a;
    } else {
      ItemsInOrder(a, b[..|b| - 1], read);
      OneLonger(a, b);
    }
  }

  /** A child element contributes itself, other children their text. */
  lemma OneChild(child: Xml, read: Reader)
    ensures TextOf([child]) == if child.Chars? then child.text else []
    ensures Members([child], read) == if child.Chars? then [] else [(child.name, Meaning(child, read))]
    ensures Items([child], read) == if child.Chars? then [] else [Meaning(child, read)]
  {
    hide Meaning;
    assert [child][..0] == [];
  }

  /** What an accepted element means. */
  lemma MeaningIs(e: Xml, depth: nat, read: Reader)
    requires e.Element? && Lawful(e, depth, read)
    ensures IsObject(e) ==> Meaning(e, read) == Obj(Members(e.children, read))
    ensures IsArray(e) ==> Meaning(e, read) == Arr(Items(e.children, read))
    ensures !IsObject(e) && !IsArray(e) ==> Spells(e, TextOf(e.children), Meaning(e, read), read)
  {
    KindIs(e);
    hide KindOf, IsObject, IsArray, Spells, ScalarOf, Members, Items, TextOf, LawfulMembers, LawfulItems;
    if !IsObject(e) && !IsArray(e) {
      SpellsIs(e, TextOf(e.children), Meaning(e, read), read);
    }
  }

  /** At most one value is spelled. */
  lemma SpellsOne(e: Xml, text: Text, a: Tree, b: Tree, read: Reader)
    requires e.Element? && Spells(e, text, a, read) && Spells(e, text, b, read)
    ensures a == b
  {
    Words();
    WordsDiffer();
    hide Ascii, Representable, TRUE, FALSE, NULL, BOOL, INT, DOUBLE, TYPE, ValueOf;
  }

  /** One scalar element: accepted exactly if its text spells a value of its type, and then as that value. */
  lemma ScalarMeans(e: Xml, depth: nat, read: Reader, t: Tree)
    requires e.Element? && depth <= 128 && !HasElements(e.children) && !IsObject(e) && !IsArray(e)
    ensures Spells(e, TextOf(e.children), t, read) <==> Lawful(e, depth, read) && Meaning(e, read) == t
  {
    KindIs(e);
    SpellsIs(e, TextOf(e.children), t, read);
    hide KindOf, IsObject, IsArray, Spells, ScalarOf, HasElements;
  }

  // ------------------------------------------------------------------ whole documents

  /** One element, called "config", with nothing but white space around it. */
  predicate RootAt(doc: seq<Xml>, r: nat) {
    && r < |doc| && doc[r].Element? && doc[r].name == Ascii("config")
    && forall i :: 0 <= i < |doc| && i != r ==> doc[i].Chars? && White(doc[i].text)
  }

  lemma RootIs(doc: seq<Xml>)
    ensures SoleRoot(doc) <==> exists r: nat :: RootAt(doc, r)
    ensures forall r: nat :: RootAt(doc, r) ==> SoleRoot(doc) && RootOf(doc) == doc[r]
  {
    Words();
    forall i | 0 <= i < |doc| && doc[i].Chars?
      ensures Blank(doc[i].text) <==> White(doc[i].text)
    {
      WhiteIs(doc[i].text);
    }
    hide Blank, White, Ascii, CONFIG;
    var r := FirstElement(doc);
    assert SoleRoot(doc) ==> RootAt(doc, r);
  }

  /** A decimal number below 2^32, leading zeros allowed. */
  predicate IsVersionOf(attribute: (Text, Text), version: int) {
    attribute.0 == Ascii("version") && Digits(attribute.1) && ValueOf(attribute.1) == version <= 4_294_967_295
  }

  predicate IsRootType(attribute: (Text, Text)) {
    attribute == (Ascii("type"), Ascii("object"))
  }

  /** The version, and perhaps the type, in either order. */
  predicate Carries(attributes: seq<(Text, Text)>, version: int) {
    || (|attributes| == 1 && IsVersionOf(attributes[0], version))
    || (|attributes| == 2 && IsVersionOf(attributes[0], version) && IsRootType(attributes[1]))
    || (|attributes| == 2 && IsRootType(attributes[0]) && IsVersionOf(attributes[1], version))
  }

  lemma VersionIs(attribute: (Text, Text))
    ensures IsVersion(attribute) <==> exists version: nat :: IsVersionOf(attribute, version)
    ensures forall version: int :: IsVersionOf(attribute, version) ==>
              IsVersion(attribute) && ValueOf(attribute.1) == version
    ensures IsObjectType(attribute) <==> IsRootType(attribute)
  {
    Words();
    DigitsAre(attribute.1);
    hide Ascii, VERSION_ATTRIBUTE, TYPE, OBJECT, ValueOf, AllDigits, Digits;
    if IsVersion(attribute) {
      assert IsVersionOf(attribute, ValueOf(attribute.1));
    }
    assert attribute == (attribute.0, attribute.1);
  }

  lemma CarriesIs(attributes: seq<(Text, Text)>)
    ensures RootAttributes(attributes) <==> exists version: nat :: Carries(attributes, version)
    ensures forall version: int :: Carries(attributes, version) ==>
              RootAttributes(attributes) && VersionIn(attributes) == version
  {
    forall i | 0 <= i < |attributes|
      ensures IsVersion(attributes[i]) <==> exists version: nat :: IsVersionOf(attributes[i], version)
      ensures forall version: int :: IsVersionOf(attributes[i], version) ==>
                IsVersion(attributes[i]) && ValueOf(attributes[i].1) == version
      ensures IsObjectType(attributes[i]) <==> IsRootType(attributes[i])
      ensures !(IsVersion(attributes[i]) && IsRootType(attributes[i]))
    {
      VersionIs(attributes[i]);
      NamesDiffer();
      Words();
      hide Ascii, VERSION_ATTRIBUTE, TYPE, OBJECT;
    }
    hide IsVersion, IsVersionOf, IsObjectType, IsRootType, ValueOf;
    if RootAttributes(attributes) {
      var k := if IsVersion(attributes[0]) then 0 else 1;
      var version: nat :| IsVersionOf(attributes[k], version);
      assert Carries(attributes, version);
    }
  }

  /** The root's children as an object of their own. */
  function Body(root: Xml): (body: Xml)
    requires root.Element?
    ensures body.Element?
  {
    Element(root.name, [(Ascii("type"), Ascii("object"))], root.children)
  }

  lemma BodyIs(root: Xml, read: Reader)
    requires root.Element?
    ensures Lawful(Body(root), 0, read) <==> LawfulMembers(root.children, 0, read)
    ensures Meaning(Body(root), read) == Obj(Members(root.children, read))
    ensures Count(Body(root)) == 1 + Counts(root.children)
  {
    KindIs(Body(root));
    hide KindOf, Ascii, LawfulMembers, LawfulItems, Members, Items, Counts, TextOf;
  }

  /** One root that carries this version, all of it sound and within the node limit. */
  ghost predicate Loadable(doc: seq<Xml>, r: nat, version: int, max: nat, read: Reader) {
    && RootAt(doc, r) && Carries(doc[r].attributes, version)
    && Sound(Body(doc[r]), 0, read) && Count(Body(doc[r])) <= max
  }

  /** A document loads if and only if it is loadable, and then as its version and what its root means. */
  lemma LoadedMeans(doc: seq<Xml>, max: nat, read: Reader)
    ensures Loaded(doc, max, read).Ok? <==> exists r: nat, version: UInt32 :: Loadable(doc, r, version, max, read)
    ensures forall r: nat, version: UInt32 :: Loadable(doc, r, version, max, read) ==>
              && RootAt(doc, r)
              && Loaded(doc, max, read) == Ok(Config(version, Meaning(Body(doc[r]), read)))
  {
    RootIs(doc);
    hide SoleRoot, RootOf, RootAt, RootAttributes, VersionIn, Carries, Sound, Count, Meaning, Body, RootFault;
    hide Counts, Members, LawfulMembers;
    forall r: nat | RootAt(doc, r)
      ensures r < |doc| && doc[r].Element?
      ensures Accepted(doc, max, read) <==>
              RootAttributes(doc[r].attributes) && Sound(Body(doc[r]), 0, read) && Count(Body(doc[r])) <= max
      ensures TreeOf(doc, read) == Meaning(Body(doc[r]), read)
      ensures RootAttributes(doc[r].attributes) <==> exists version: nat :: Carries(doc[r].attributes, version)
      ensures forall version: int :: Carries(doc[r].attributes, version) ==>
                RootAttributes(doc[r].attributes) && VersionIn(doc[r].attributes) == version
    {
      RootElement(doc, r);
      BodyIs(doc[r], read);
      LawfulEverywhere(Body(doc[r]), 0, read);
      CarriesIs(doc[r].attributes);
    }
    if Accepted(doc, max, read) {
      var r: nat :| RootAt(doc, r);
      var version: nat :| Carries(doc[r].attributes, version);
      assert Loadable(doc, r, VersionIn(doc[r].attributes), max, read);
    }
  }

  lemma RootElement(doc: seq<Xml>, r: nat)
    requires RootAt(doc, r)
    ensures r < |doc| && doc[r].Element?
  {
  }

  // ------------------------------------------------------------------ which code

  /** The first `k` attributes are versions or object types, and no name is repeated. */
  ghost predicate Fine(attributes: seq<(Text, Text)>, k: nat)
    requires k <= |attributes|
  {
    && (forall i :: 0 <= i < k ==>
          IsRootType(attributes[i]) || exists version: nat :: IsVersionOf(attributes[i], version))
    && (forall i, j :: 0 <= i < j < k ==> attributes[i].0 != attributes[j].0)
  }

  predicate Named(attributes: seq<(Text, Text)>, k: nat, name: Text)
    requires k <= |attributes|
  {
    exists i :: 0 <= i < k && attributes[i].0 == name
  }

  /** After fine attributes only, the first version is no version. */
  ghost predicate BadVersion(attributes: seq<(Text, Text)>, k: nat) {
    && k < |attributes| && Fine(attributes, k)
    && attributes[k].0 == Ascii("version") && !Named(attributes, k, Ascii("version"))
    && !exists version: nat :: IsVersionOf(attributes[k], version)
  }

  ghost predicate BadFrom(attributes: seq<(Text, Text)>, k: nat) {
    exists i: nat :: k <= i && BadVersion(attributes, i)
  }

  ghost predicate NoVersion(attributes: seq<(Text, Text)>) {
    Fine(attributes, |attributes|) && !Named(attributes, |attributes|, Ascii("version"))
  }

  /** From `k` fine attributes on, the first fault is about the version exactly in these cases. */
  lemma {:induction false} RootFaultIs(attributes: seq<(Text, Text)>, k: nat)
    requires k <= |attributes| && Fine(attributes, k)
    ensures var versioned, typed := Named(attributes, k, Ascii("version")), Named(attributes, k, Ascii("type"));
            var fault := RootFault(attributes, k, versioned, typed);
            && (fault == Some(InvalidVersion) <==>
                  BadFrom(attributes, k) || NoVersion(attributes))
            && (fault.None? || fault == Some(InvalidVersion) || fault == Some(ParseError))
    decreases |attributes| - k
  {
    hide IsVersionOf, IsRootType, Fine, Named, RootFault, Ascii;
    if k == |attributes| {
      RootFaultEnd(attributes, Named(attributes, k, Ascii("version")), Named(attributes, k, Ascii("type")));
    } else {
      RootFaultNext(attributes, k, Named(attributes, k, Ascii("version")), Named(attributes, k, Ascii("type")));
      AttributeNext(attributes, k);
      assert BadFrom(attributes, k) <==> BadVersion(attributes, k) || BadFrom(attributes, k + 1);
      if Fine(attributes, k + 1) {
        RootFaultIs(attributes, k + 1);
      } else {
        NeverFine(attributes, k + 1);
      }
    }
  }

  lemma NeverFine(attributes: seq<(Text, Text)>, k: nat)
    requires k <= |attributes| && !Fine(attributes, k)
    ensures !BadFrom(attributes, k) && !NoVersion(attributes)
  {
    hide IsRootType, IsVersionOf, Named;
    forall n: nat | k <= n <= |attributes|
      ensures !Fine(attributes, n)
    {
    }
  }

  /** One attribute more. */
  lemma AttributeNext(attributes: seq<(Text, Text)>, k: nat)
    requires k < |attributes| && Fine(attributes, k)
    ensures VERSION_ATTRIBUTE == Ascii("version") && TYPE == Ascii("type") && VERSION_ATTRIBUTE != TYPE
    ensures forall name :: Named(attributes, k + 1, name) <==> Named(attributes, k, name) || attributes[k].0 == name
    ensures var name := attributes[k].0;
            Fine(attributes, k + 1) <==>
              || (name == VERSION_ATTRIBUTE && VersionText(attributes[k].1) && !Named(attributes, k, name))
              || (name == TYPE && attributes[k].1 == OBJECT && !Named(attributes, k, name))
    ensures attributes[k].0 == VERSION_ATTRIBUTE ==>
              (VersionText(attributes[k].1) <==> exists version: nat :: IsVersionOf(attributes[k], version))
  {
    Words();
    NamesDiffer();
    VersionIs(attributes[k]);
    FineNext(attributes, k);
    hide IsVersionOf, VersionText, Ascii, VERSION_ATTRIBUTE, TYPE, OBJECT, Fine, IsRootType;
    assert Fine(attributes, k + 1) <==>
           (IsObjectType(attributes[k]) || IsVersion(attributes[k])) && !Named(attributes, k, attributes[k].0);
    assert forall name :: Named(attributes, k, name) ==> Named(attributes, k + 1, name);
    forall name
      ensures Named(attributes, k + 1, name) <==> Named(attributes, k, name) || attributes[k].0 == name
    {
    }
  }

  lemma FineNext(attributes: seq<(Text, Text)>, k: nat)
    requires k < |attributes| && Fine(attributes, k)
    ensures Fine(attributes, k + 1) <==>
            && (IsRootType(attributes[k]) || exists version: nat :: IsVersionOf(attributes[k], version))
            && !Named(attributes, k, attributes[k].0)
  {
    hide IsRootType, IsVersionOf;
  }

  /** A refusal has the code `InvalidVersion` exactly if there is a proper root whose first faulty attribute is a
      version that is none, or whose attributes are fine but for a missing version. Every other one is a
      `ParseError`. */
  lemma LoadedCodes(doc: seq<Xml>, max: nat, read: Reader)
    ensures Loaded(doc, max, read).Err? ==>
              Loaded(doc, max, read).error == InvalidVersion || Loaded(doc, max, read).error == ParseError
    ensures Loaded(doc, max, read) == Err(InvalidVersion) <==>
            exists r: nat :: RootAt(doc, r)
                             && (BadFrom(doc[r].attributes, 0) || NoVersion(doc[r].attributes))
  {
    RootIs(doc);
    hide RootAt, SoleRoot, RootOf, RootAttributes, VersionIn, RootFault, BadFrom, NoVersion, Fine, Named;
    hide LawfulMembers, Counts, Members;
    if SoleRoot(doc) {
      var attributes := RootOf(doc).attributes;
      NothingSeen(attributes);
      RootFaultIs(attributes, 0);
      if RootAttributes(attributes) {
        NoFault(attributes);
      }
    }
  }

  lemma NothingSeen(attributes: seq<(Text, Text)>)
    ensures Fine(attributes, 0) && forall name :: !Named(attributes, 0, name)
  {
  }

  lemma NoFault(attributes: seq<(Text, Text)>)
    requires RootAttributes(attributes)
    ensures RootFault(attributes, 0, false, false) == None
  {
    NamesDiffer();
    hide RootFault, VersionText, VERSION_ATTRIBUTE, TYPE, OBJECT;
    RootFaultNext(attributes, 0, false, false);
    if |attributes| == 2 {
      RootFaultNext(attributes, 1, true, false);
      RootFaultNext(attributes, 1, false, true);
    }
    RootFaultEnd(attributes, true, false);
    RootFaultEnd(attributes, true, true);
  }

  // ------------------------------------------------------------------ one scalar

  function OneMember(version: UInt32, e: Xml): Xml {
    Element(Ascii("config"), [(Ascii("version"), Decimal(version))], [e])
  }

  /** A document of a version and one scalar member loads if and only if the member's text spells a value of its type,
      and then as that value. */
  lemma ScalarLoads(version: UInt32, e: Xml, text: Text, max: nat, read: Reader)
    requires e.Element? && MemberName(e.name) && e.children == [Chars(text)] && !IsObject(e) && !IsArray(e) && max >= 2
    ensures var r := Loaded([OneMember(version, e)], max, read);
            && (forall t :: r == Ok(Config(version, Obj([(e.name, t)]))) <==> Spells(e, text, t, read))
            && ((forall t :: !Spells(e, text, t, read)) ==> r == Err(ParseError))
  {
    hide Spells, IsObject, IsArray, MemberName, Lawful, Sound, Decimal, Ascii, Meaning, Loaded, BadFrom, NoVersion;
    hide White, ValueOf;
    var root := OneMember(version, e);
    OneRoot(version, e);
    LoadedMeans([root], max, read);
    LoadedCodes([root], max, read);
    BodyIs(root, read);
    LawfulEverywhere(Body(root), 0, read);
    OneMemberLawful(e, text, read);
    forall t
      ensures Spells(e, text, t, read) <==> Lawful(e, 1, read) && Meaning(e, read) == t
    {
      assert [Chars(text)] == e.children;
      OneChild(Chars(text), read);
      ScalarMeans(e, 1, read, t);
    }
    assert Loadable([root], 0, version, max, read) <==> Lawful(e, 1, read);
    if Lawful(e, 1, read) {
      assert Spells(e, text, Meaning(e, read), read);
    }
  }

  lemma OneRoot(version: UInt32, e: Xml)
    ensures var root := OneMember(version, e);
            && Carries(root.attributes, version) && !BadFrom(root.attributes, 0) && !NoVersion(root.attributes)
            && RootAt([root], 0) && forall r: nat :: RootAt([root], r) ==> r == 0
  {
    hide Decimal, ValueOf;
    var attributes := OneMember(version, e).attributes;
    assert Digits(Decimal(version)) && IsVersionOf(attributes[0], version);
    assert Named(attributes, 1, Ascii("version"));
  }

  lemma OneMemberLawful(e: Xml, text: Text, read: Reader)
    requires e.Element? && MemberName(e.name) && e.children == [Chars(text)]
    ensures LawfulMembers([e], 0, read) <==> Lawful(e, 1, read)
    ensures Members([e], read) == [(e.name, Meaning(e, read))]
    ensures Counts([e]) == 1
  {
    hide Lawful, Meaning, MemberName, LawfulMembers, Members, Counts;
    LawfulMembersAre([e], 0, read);
    OneChild(e, read);
    OneCount(e);
    OneCount(Chars(text));
  }

  lemma OneCount(e: Xml)
    ensures Counts([e]) == Count(e) == if e.Chars? then 0 else 1 + Counts(e.children)
  {
    assert [e][..0] == [];
  }

  // ------------------------------------------------------------------ what is saved

  /** Keys are XML names, strings are of legal characters, doubles are finite. */
  ghost predicate PrintableAt(t: Tree, spot: Spot)
    requires ValidAt(t, spot)
  {
    var s := At(t, spot);
    && (s.Leaf? && s.scalar.Real? ==> s.scalar.d.Finite()) && (s.Leaf? && s.scalar.Str? ==> Representable(s.scalar.s))
    && (s.Obj? ==> forall i :: 0 <= i < |s.members| ==> ElementName(s.members[i].0))
  }

  ghost predicate Writable(t: Tree) {
    forall spot: Spot :: ValidAt(t, spot) ==> PrintableAt(t, spot)
  }

  lemma {:induction false} PrintableEverywhere(t: Tree)
    ensures Printable(t) <==> Writable(t)
    decreases t
  {
    hide Writable, Representable, ElementName;
    forall i | 0 <= i < KidCount(t)
      ensures Printable(Kid(t, i)) <==> Writable(Kid(t, i))
    {
      PrintableEverywhere(Kid(t, i));
    }
    WritableTop(t);
  }

  lemma WritableTop(t: Tree)
    ensures Writable(t) <==> PrintableAt(t, []) && forall i :: 0 <= i < KidCount(t) ==> Writable(Kid(t, i))
  {
    hide Representable, ElementName;
    if Writable(t) {
      forall i, spot: Spot | 0 <= i < KidCount(t) && ValidAt(Kid(t, i), spot)
        ensures PrintableAt(Kid(t, i), spot)
      {
        assert ([i] + spot)[0] == i && ([i] + spot)[1..] == spot;
        assert PrintableAt(t, [i] + spot);
      }
      assert PrintableAt(t, []);
    }
    if PrintableAt(t, []) && forall i :: 0 <= i < KidCount(t) ==> Writable(Kid(t, i)) {
      forall spot: Spot | ValidAt(t, spot)
        ensures PrintableAt(t, spot)
      {
        if spot != [] {
          assert Writable(Kid(t, spot[0]));
          assert PrintableAt(Kid(t, spot[0]), spot[1..]);
        }
      }
    }
  }

  /** A configuration is saved if and only if it is writable, as a root that carries its version and means its tree. */
  lemma SavedMeans(c: Config, read: Reader, show: Double -> Text)
    requires ModelTree(c.tree) && ReadsBack(read, show)
    ensures if Writable(c.tree) then Saved(c, show).Ok? else Saved(c, show) == Err(SerializationError)
    ensures Saved(c, show).Ok? ==>
              var root := Saved(c, show).value;
              && root.Element? && Loadable([root], 0, c.version, Size(c.tree), read)
              && Meaning(Body(root), read) == c.tree
  {
    hide Printable, Writable, ReadsBack, ModelTree, Size, Strip, Loaded, Meaning, Sound, Carries, Body, Count, ShowKids;
    PrintableEverywhere(c.tree);
    if Saved(c, show).Ok? {
      var root := Saved(c, show).value;
      RootAlone(root);
      StripDocument(c.version, c.tree, read, show);
      LoadedSaved(c, [root], Size(c.tree), read, show);
      LoadedMeans([root], Size(c.tree), read);
      var r: nat, version: UInt32 :| Loadable([root], r, version, Size(c.tree), read);
    }
  }

  lemma RootAlone(root: Xml)
    requires root.Element? && root.name == CONFIG
    ensures SoleRoot([root]) && RootOf([root]) == root
    ensures RootAt([root], 0) && forall r: nat :: RootAt([root], r) ==> r == 0
  {
    Words();
  }
}

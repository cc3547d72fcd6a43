/** The XML mapping: which element trees spell a configuration, and which one. */
module XmlMeaning {
  import opened Base
  import opened Decimals
  import opened ConfigPath
  import opened Trees
  import opened XmlText

  /** A parsed document, after the text layer: attributes in order, character data and CDATA alike. */
  datatype Xml =
    | Element(name: Text, attributes: seq<(Text, Text)>, children: seq<Xml>)
    | Chars(text: Text)

  /** What `std::from_chars` makes of a whole text as a floating-point literal. */
  type Reader = Text -> Option<Double>

  const CONFIG: Text := [0x63, 0x6F, 0x6E, 0x66, 0x69, 0x67] // "config"
  const VERSION_ATTRIBUTE: Text := [0x76, 0x65, 0x72, 0x73, 0x69, 0x6F, 0x6E] // "version"
  const TYPE: Text := [0x74, 0x79, 0x70, 0x65] // "type"
  const ITEM: Text := [0x69, 0x74, 0x65, 0x6D] // "item"
  const OBJECT: Text := [0x6F, 0x62, 0x6A, 0x65, 0x63, 0x74] // "object"
  const ARRAY: Text := [0x61, 0x72, 0x72, 0x61, 0x79] // "array"
  const NULL: Text := [0x6E, 0x75, 0x6C, 0x6C] // "null"
  const BOOL: Text := [0x62, 0x6F, 0x6F, 0x6C] // "bool"
  const INT: Text := [0x69, 0x6E, 0x74] // "int"
  const DOUBLE: Text := [0x64, 0x6F, 0x75, 0x62, 0x6C, 0x65] // "double"
  const TRUE: Text := [0x74, 0x72, 0x75, 0x65] // "true"
  const FALSE: Text := [0x66, 0x61, 0x6C, 0x73, 0x65] // "false"

  // ------------------------------------------------------------------ an element's kind

  datatype Kind = KNull | KBool | KInt | KDouble | KString | KObject | KArray

  function KindNamed(name: Text): Option<Kind> {
    if name == OBJECT then Some(KObject)
    else if name == ARRAY then Some(KArray)
    else if name == NULL then Some(KNull)
    else if name == BOOL then Some(KBool)
    else if name == INT then Some(KInt)
    else if name == DOUBLE then Some(KDouble)
    else None
  }

  predicate HasElements(children: seq<Xml>) {
    exists i :: 0 <= i < |children| && children[i].Element?
  }

  /** Untyped elements are objects if they have child elements and strings otherwise; no attribute but one
      `type` is allowed. */
  function KindOf(e: Xml): Option<Kind>
    requires e.Element?
  {
    if e.attributes == [] then Some(if HasElements(e.children) then KObject else KString)
    else if |e.attributes| == 1 && e.attributes[0].0 == TYPE then KindNamed(e.attributes[0].1)
    else None
  }

  predicate IsSpace(c: Byte) {
    c == 0x20 || c == 0x9 || c == 0xA || c == 0xD
  }

  predicate Blank(text: Text) {
    forall i :: 0 <= i < |text| ==> IsSpace(text[i])
  }

  /** The character data of an element, in one piece. */
  function TextOf(children: seq<Xml>): Text {
    if children == [] then []
    else
      var rest, last := TextOf(children[..|children| - 1]), children[|children| - 1];
      if last.Chars? then rest + last.text else rest
  }

  ghost function ScalarOf(kind: Kind, text: Text, read: Reader): Option<Tree> {
    match kind
    case KNull => if text == [] then Some(Leaf(Null)) else None
    case KBool =>
      if text == TRUE then Some(Leaf(Bool(true))) else if text == FALSE then Some(Leaf(Bool(false))) else None
    case KInt => var n := ReadInt(text); if n.Some? then Some(Leaf(Int(n.value))) else None
    case KDouble => var d := read(text); if d.Some? && d.value.Finite() then Some(Leaf(Real(d.value))) else None
    case KString => if Representable(text) then Some(Leaf(Str(text))) else None
    case KObject => None
    case KArray => None
  }

  // ------------------------------------------------------------------ meaning, size and legality

  /** The tree an element spells, order kept. */
  ghost function Meaning(e: Xml, read: Reader): Tree
    requires e.Element?
    decreases e
  {
    var kind := KindOf(e);
    if kind == Some(KObject) then Obj(Members(e.children, read))
    else if kind == Some(KArray) then Arr(Items(e.children, read))
    else if kind.Some? && ScalarOf(kind.value, TextOf(e.children), read).Some? then
      ScalarOf(kind.value, TextOf(e.children), read).value
    else Leaf(Null)
  }

  ghost function Members(children: seq<Xml>, read: Reader): seq<(Text, Tree)>
    decreases children
  {
    if children == [] then []
    else
      var rest, last := Members(children[..|children| - 1], read), children[|children| - 1];
      if last.Chars? then rest else rest + [(last.name, Meaning(last, read))]
  }

  ghost function Items(children: seq<Xml>, read: Reader): seq<Tree>
    decreases children
  {
    if children == [] then []
    else
      var rest, last := Items(children[..|children| - 1], read), children[|children| - 1];
      if last.Chars? then rest else rest + [Meaning(last, read)]
  }

  /** Elements only: character data is no node of the model. */
  function Count(e: Xml): nat
    decreases e
  {
    if e.Chars? then 0 else 1 + Counts(e.children)
  }

  function Counts(children: seq<Xml>): nat
    decreases children
  {
    if children == [] then 0 else Counts(children[..|children| - 1]) + Count(children[|children| - 1])
  }

  ghost predicate Lawful(e: Xml, depth: nat, read: Reader)
    requires e.Element?
    decreases e
  {
    && depth <= MAX_DEPTH
    && KindOf(e).Some?
    && (if KindOf(e) == Some(KObject) then LawfulMembers(e.children, depth, read)
        else if KindOf(e) == Some(KArray) then LawfulItems(e.children, depth, read)
        else !HasElements(e.children) && ScalarOf(KindOf(e).value, TextOf(e.children), read).Some?)
  }

  /** A member's name is addressable, an XML name, and new among the members before it. */
  ghost predicate NewName(name: Text, before: seq<(Text, Tree)>) {
    Addressable(name) && ElementName(name) && Find(before, name) == |before|
  }

  ghost predicate LawfulMembers(children: seq<Xml>, depth: nat, read: Reader)
    decreases children
  {
    children == [] ||
    var rest, last := children[..|children| - 1], children[|children| - 1];
    && LawfulMembers(rest, depth, read)
    && if last.Chars? then Blank(last.text)
       else NewName(last.name, Members(rest, read)) && Lawful(last, depth + 1, read)
  }

  ghost predicate LawfulItems(children: seq<Xml>, depth: nat, read: Reader)
    decreases children
  {
    children == [] ||
    var rest, last := children[..|children| - 1], children[|children| - 1];
    && LawfulItems(rest, depth, read)
    && if last.Chars? then Blank(last.text) else last.name == ITEM && Lawful(last, depth + 1, read)
  }

  // ------------------------------------------------------------------ one child more

  lemma MembersNext(children: seq<Xml>, k: nat, depth: nat, read: Reader)
    requires k < |children|
    ensures var rest, last := children[..k], children[k];
            && Members(children[..k + 1], read) ==
               (if last.Chars? then Members(rest, read) else Members(rest, read) + [(last.name, Meaning(last, read))])
            && (LawfulMembers(children[..k + 1], depth, read) <==>
                && LawfulMembers(rest, depth, read)
                && if last.Chars? then Blank(last.text)
                   else NewName(last.name, Members(rest, read)) && Lawful(last, depth + 1, read))
  {
    assert children[..k + 1][..k] == children[..k];
  }

  lemma ItemsNext(children: seq<Xml>, k: nat, depth: nat, read: Reader)
    requires k < |children|
    ensures var rest, last := children[..k], children[k];
            && Items(children[..k + 1], read) ==
               (if last.Chars? then Items(rest, read) else Items(rest, read) + [Meaning(last, read)])
            && (LawfulItems(children[..k + 1], depth, read) <==>
                && LawfulItems(rest, depth, read)
                && if last.Chars? then Blank(last.text) else last.name == ITEM && Lawful(last, depth + 1, read))
  {
    assert children[..k + 1][..k] == children[..k];
  }

  lemma CountsNext(children: seq<Xml>, k: nat)
    requires k < |children|
    ensures Counts(children[..k + 1]) == Counts(children[..k]) + Count(children[k])
  {
    assert children[..k + 1][..k] == children[..k];
  }

  lemma {:induction false} CountsGrow(children: seq<Xml>, k: nat)
    requires k <= |children|
    ensures Counts(children[..k]) <= Counts(children)
    decreases |children| - k
  {
    if k < |children| {
      CountsNext(children, k);
      CountsGrow(children, k + 1);
    } else {
      assert children[..k] == children;
    }
  }

  lemma {:induction false} MembersPrefix(children: seq<Xml>, k: nat, depth: nat, read: Reader)
    requires k <= |children| && LawfulMembers(children, depth, read)
    ensures LawfulMembers(children[..k], depth, read)
    decreases |children|
  {
    if k == |children| {
      assert children[..k] == children;
    } else {
      var front := children[..|children| - 1];
      MembersPrefix(front, k, depth, read);
      assert front[..k] == children[..k];
    }
  }

  lemma {:induction false} ItemsPrefix(children: seq<Xml>, k: nat, depth: nat, read: Reader)
    requires k <= |children| && LawfulItems(children, depth, read)
    ensures LawfulItems(children[..k], depth, read)
    decreases |children|
  {
    if k == |children| {
      assert children[..k] == children;
    } else {
      var front := children[..|children| - 1];
      ItemsPrefix(front, k, depth, read);
      assert front[..k] == children[..k];
    }
  }

  lemma {:induction false} NoElementsNoCount(children: seq<Xml>)
    requires !HasElements(children)
    ensures Counts(children) == 0
    decreases children
  {
    if children != [] {
      var rest := children[..|children| - 1];
      assert !children[|children| - 1].Element?;
      assert forall i :: 0 <= i < |rest| ==> rest[i] == children[i];
      NoElementsNoCount(rest);
    }
  }

  // ------------------------------------------------------------------ what is accepted can be adopted

  lemma {:induction false} LawfulFits(e: Xml, depth: nat, read: Reader)
    requires e.Element? && Lawful(e, depth, read)
    ensures Distinct(Meaning(e, read)) && Fits(Meaning(e, read), depth)
    decreases e
  {
    hide Addressable, ElementName, LawfulMembers, LawfulItems, Members, Items, TextOf, HasElements, KindNamed;
    hide ReadInt, Representable;
    if KindOf(e) == Some(KObject) {
      MembersFit(e.children, depth, read);
    } else if KindOf(e) == Some(KArray) {
      ItemsFit(e.children, depth, read);
    }
  }

  lemma {:induction false} MembersFit(children: seq<Xml>, depth: nat, read: Reader)
    requires LawfulMembers(children, depth, read)
    ensures var t := Obj(Members(children, read));
            Distinct(t) && (depth <= MAX_DEPTH ==> Fits(t, depth))
    decreases children
  {
    hide Addressable, ElementName, Lawful, Meaning;
    if children != [] {
      var rest, last := children[..|children| - 1], children[|children| - 1];
      MembersFit(rest, depth, read);
      if last.Element? {
        LawfulFits(last, depth + 1, read);
        PushMember(Members(rest, read), last.name, Meaning(last, read), depth);
      }
    }
  }

  lemma PushMember(members: seq<(Text, Tree)>, key: Text, t: Tree, depth: nat)
    requires Distinct(Obj(members)) && (depth <= MAX_DEPTH ==> Fits(Obj(members), depth))
    requires Distinct(t) && Fits(t, depth + 1) && Addressable(key) && Find(members, key) == |members|
    ensures Distinct(Obj(members + [(key, t)])) && (depth <= MAX_DEPTH ==> Fits(Obj(members + [(key, t)]), depth))
  {
    hide Addressable;
    var all := Obj(members + [(key, t)]);
    forall i | 0 <= i < KidCount(all)
      ensures Distinct(Kid(all, i)) && Fits(Kid(all, i), depth + 1)
    {
      assert i < |members| ==> Kid(all, i) == Kid(Obj(members), i);
    }
  }

  lemma {:induction false} ItemsFit(children: seq<Xml>, depth: nat, read: Reader)
    requires LawfulItems(children, depth, read)
    ensures var t := Arr(Items(children, read));
            Distinct(t) && (depth <= MAX_DEPTH ==> Fits(t, depth))
    decreases children
  {
    hide Lawful, Meaning;
    if children != [] {
      var rest, last := children[..|children| - 1], children[|children| - 1];
      ItemsFit(rest, depth, read);
      if last.Element? {
        LawfulFits(last, depth + 1, read);
        PushItem(Items(rest, read), Meaning(last, read), depth);
      }
    }
  }

  lemma PushItem(elements: seq<Tree>, t: Tree, depth: nat)
    requires Distinct(Arr(elements)) && (depth <= MAX_DEPTH ==> Fits(Arr(elements), depth))
    requires Distinct(t) && Fits(t, depth + 1)
    ensures Distinct(Arr(elements + [t])) && (depth <= MAX_DEPTH ==> Fits(Arr(elements + [t]), depth))
  {
    var all := Arr(elements + [t]);
    forall i | 0 <= i < KidCount(all)
      ensures Distinct(Kid(all, i)) && Fits(Kid(all, i), depth + 1)
    {
      assert i < |elements| ==> Kid(all, i) == Kid(Arr(elements), i);
    }
  }

  // ------------------------------------------------------------------ formatting

  /** Without the white space between the children of non-empty containers. */
  function Strip(e: Xml): (s: Xml)
    ensures e.Element? ==> s.Element? && s.name == e.name && s.attributes == e.attributes
    ensures e.Chars? ==> s == e
    decreases e
  {
    if e.Element? && HasElements(e.children) then e.(children := StripAll(e.children)) else e
  }

  function StripAll(children: seq<Xml>): seq<Xml>
    decreases children
  {
    if children == [] then []
    else
      var rest, last := StripAll(children[..|children| - 1]), children[|children| - 1];
      if last.Chars? && Blank(last.text) then rest else rest + [Strip(last)]
  }

  /** Formatting changes neither what is accepted nor what it means nor how much it counts. */
  lemma {:induction false} StripMeans(e: Xml, depth: nat, read: Reader)
    requires e.Element?
    ensures Lawful(Strip(e), depth, read) <==> Lawful(e, depth, read)
    ensures Lawful(e, depth, read) ==> Meaning(Strip(e), read) == Meaning(e, read)
    ensures Count(Strip(e)) == Count(e)
    decreases e
  {
    hide ElementName, LawfulMembers, LawfulItems, Members, Items, TextOf, KindNamed, StripAll, Counts;
    hide ReadInt, Representable, ScalarOf;
    if HasElements(e.children) {
      StripAllKeeps(e.children);
      StripAllMembers(e.children, depth, read);
      StripAllItems(e.children, depth, read);
      hide HasElements;
    }
  }

  lemma {:induction false} StripAllKeeps(children: seq<Xml>)
    ensures HasElements(StripAll(children)) <==> HasElements(children)
    ensures Counts(StripAll(children)) == Counts(children)
    decreases children
  {
    hide Strip, Count, Counts, Blank, HasElements, StripAll;
    var k := |children| - 1;
    if k < 0 {
      NothingStripped();
    } else {
      var rest, last := children[..k], children[k];
      StripAllKeeps(rest);
      StripAllNext(children, k);
      CountsNext(children, k);
      assert children[..k + 1] == children == rest + [last];
      SomeElement(rest, last);
      CountKept(last);
      SomeElement(StripAll(rest), Strip(last));
      CountsPush(StripAll(rest), Strip(last));
    }
  }

  lemma NothingStripped()
    ensures StripAll([]) == []
  {
  }

  lemma {:induction false} CountKept(e: Xml)
    ensures Count(Strip(e)) == Count(e)
    ensures e.Chars? ==> Count(e) == 0
    decreases e
  {
    hide HasElements, StripAll, Counts;
    if e.Element? && HasElements(e.children) {
      StripAllKeeps(e.children);
    }
  }

  lemma SomeElement(rest: seq<Xml>, last: Xml)
    ensures HasElements(rest + [last]) <==> HasElements(rest) || last.Element?
  {
    var all := rest + [last];
    if HasElements(rest) {
      var i :| 0 <= i < |rest| && rest[i].Element?;
      assert all[i].Element?;
    }
    assert all[|rest|] == last;
  }

  lemma CountsPush(rest: seq<Xml>, last: Xml)
    ensures Counts(rest + [last]) == Counts(rest) + Count(last)
  {
    assert (rest + [last])[..|rest|] == rest;
  }

  lemma {:induction false} StripAllMembers(children: seq<Xml>, depth: nat, read: Reader)
    ensures LawfulMembers(StripAll(children), depth, read) <==> LawfulMembers(children, depth, read)
    ensures LawfulMembers(children, depth, read) ==> Members(StripAll(children), read) == Members(children, read)
    decreases children
  {
    hide Strip, Blank, Lawful, Meaning, NewName;
    if children != [] {
      var rest, last := children[..|children| - 1], children[|children| - 1];
      StripAllMembers(rest, depth, read);
      if last.Element? {
        StripMeans(last, depth + 1, read);
      }
      if !(last.Chars? && Blank(last.text)) {
        assert (StripAll(rest) + [Strip(last)])[..|StripAll(rest)|] == StripAll(rest);
      }
    }
  }

  lemma {:induction false} StripAllItems(children: seq<Xml>, depth: nat, read: Reader)
    ensures LawfulItems(StripAll(children), depth, read) <==> LawfulItems(children, depth, read)
    ensures LawfulItems(children, depth, read) ==> Items(StripAll(children), read) == Items(children, read)
    decreases children
  {
    hide Strip, Blank, Lawful, Meaning;
    if children != [] {
      var rest, last := children[..|children| - 1], children[|children| - 1];
      StripAllItems(rest, depth, read);
      if last.Element? {
        StripMeans(last, depth + 1, read);
      }
      if !(last.Chars? && Blank(last.text)) {
        assert (StripAll(rest) + [Strip(last)])[..|StripAll(rest)|] == StripAll(rest);
      }
    }
  }

  lemma StripAllNext(children: seq<Xml>, k: nat)
    requires k < |children|
    ensures StripAll(children[..k + 1]) ==
            if children[k].Chars? && Blank(children[k].text) then StripAll(children[..k])
            else StripAll(children[..k]) + [Strip(children[k])]
  {
    assert children[..k + 1][..k] == children[..k];
  }
}

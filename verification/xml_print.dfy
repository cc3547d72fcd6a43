/** The XML backend's writer, and that reading undoes writing. */
module XmlPrint {
  import opened Base
  import opened Decimals
  import opened ConfigPath
  import opened Trees
  import opened TreeLaws
  import opened Utf8
  import opened XmlText
  import opened XmlMeaning

  import opened Ownership
  import opened NodeArena

  // ------------------------------------------------------------------ what is written

  /** What the mapping can carry: keys that are XML names, texts of legal characters, finite doubles. */
  ghost predicate Printable(t: Tree) {
    && (t.Leaf? && t.scalar.Real? ==> t.scalar.d.Finite())
    && (t.Leaf? && t.scalar.Str? ==> Representable(t.scalar.s))
    && (t.Obj? ==> forall i :: 0 <= i < |t.members| ==> ElementName(t.members[i].0))
    && forall i :: 0 <= i < KidCount(t) ==> Printable(Kid(t, i))
  }

  /** The element of a node; `show` is how the writer spells a double. */
  function Show(name: Text, t: Tree, show: Double -> Text): (e: Xml)
    ensures e.Element? && e.name == name
    decreases t, 1
  {
    match t
    case Leaf(Null) => Element(name, [(TYPE, NULL)], [])
    case Leaf(Bool(b)) => Element(name, [(TYPE, BOOL)], [Chars(if b then TRUE else FALSE)])
    case Leaf(Int(n)) => Element(name, [(TYPE, INT)], [Chars(ShowInt(n))])
    case Leaf(Real(d)) => Element(name, [(TYPE, DOUBLE)], [Chars(show(d))])
    case Leaf(Str(s)) => Element(name, [], if s == [] then [] else [Chars(s)])
    case Obj(members) =>
      if members == [] then Element(name, [(TYPE, OBJECT)], []) else Element(name, [], ShowKids(t, |members|, show))
    case Arr(elements) => Element(name, [(TYPE, ARRAY)], ShowKids(t, |elements|, show))
  }

  function NameOfKid(t: Tree, i: nat): Text
    requires i < KidCount(t)
  {
    if t.Obj? then t.members[i].0 else ITEM
  }

  function ShowKids(t: Tree, n: nat, show: Double -> Text): (out: seq<Xml>)
    requires n <= KidCount(t)
    ensures |out| == n
    ensures forall i :: 0 <= i < n ==> out[i] == Show(NameOfKid(t, i), Kid(t, i), show)
    decreases t, 0, n
  {
    if n == 0 then [] else ShowKids(t, n - 1, show) + [Show(NameOfKid(t, n - 1), Kid(t, n - 1), show)]
  }

  /** Writes one node as an element called `name`. */
  method AppendValueElement(arena: NodeArena, id: NodeId, name: Text, show: Double -> Text,
                            ghost o: Owned, ghost parent: Option<NodeId>) returns (r: Result<Xml>)
    requires Holds(arena.nodes, o, parent) && o.id == id
    ensures r == if ElementName(name) && Printable(Erase(o)) then Ok(Show(name, Erase(o), show))
              else Err(SerializationError)
    decreases o, 1
  {
    hide ElementName, Representable, ShowInt, ShowKids, TYPE, NULL, BOOL, INT, DOUBLE, OBJECT, ARRAY, TRUE, FALSE;
    var valid := IsValidElementName(name);
    if !valid {
      return Err(SerializationError);
    }
    var node := arena.nodes[id];
    if node.kind == TObject {
      EraseKids(o);
      if node.members == [] {
        return Ok(Element(name, [(TYPE, OBJECT)], []));
      }
      var members := AppendMembers(arena, id, show, o, parent);
      return if members.Ok? then Ok(Element(name, [], members.value)) else Err(members.error);
    }
    if node.kind == TArray {
      var items := AppendItems(arena, id, show, o, parent);
      return if items.Ok? then Ok(Element(name, [(TYPE, ARRAY)], items.value)) else Err(items.error);
    }
    if node.scalar.Real? && !node.scalar.d.Finite() {
      return Err(SerializationError);
    }
    if node.scalar.Str? {
      var representable := IsXmlRepresentable(node.scalar.s);
      if !representable {
        return Err(SerializationError);
      }
    }
    r := Ok(Show(name, Leaf(node.scalar), show));
  }

  method AppendMembers(arena: NodeArena, id: NodeId, show: Double -> Text, ghost o: Owned, ghost parent: Option<NodeId>)
    returns (r: Result<seq<Xml>>)
    requires Holds(arena.nodes, o, parent) && o.id == id && o.head.Object?
    ensures r == if Printable(Erase(o)) then Ok(ShowKids(Erase(o), KidCount(Erase(o)), show))
              else Err(SerializationError)
    decreases o, 0
  {
    hide Show, ShowKids, ElementName, Representable;
    EraseKids(o);
    ghost var t := Erase(o);
    var members := arena.nodes[id].members;
    var out: seq<Xml> := [];
    for k := 0 to |members|
      invariant |out| == k
      invariant forall i :: 0 <= i < k ==>
                  ElementName(members[i].0) && Printable(Kid(t, i)) && out[i] == Show(members[i].0, Kid(t, i), show)
    {
      var child := AppendValueElement(arena, members[k].1, members[k].0, show, o.kids[k], Some(id));
      if child.Err? {
        assert !(ElementName(t.members[k].0) && Printable(Kid(t, k)));
        return Err(child.error);
      }
      out := out + [child.value];
    }
    assert Printable(t);
    assert out == ShowKids(t, KidCount(t), show);
    r := Ok(out);
  }

  method AppendItems(arena: NodeArena, id: NodeId, show: Double -> Text, ghost o: Owned, ghost parent: Option<NodeId>)
    returns (r: Result<seq<Xml>>)
    requires Holds(arena.nodes, o, parent) && o.id == id && o.head.Array?
    ensures r == if Printable(Erase(o)) then Ok(ShowKids(Erase(o), KidCount(Erase(o)), show))
              else Err(SerializationError)
    decreases o, 0
  {
    hide Show, ShowKids, ElementName, Representable, ITEM;
    ItemIsName();
    EraseKids(o);
    ghost var t := Erase(o);
    var elements := arena.nodes[id].elements;
    var out: seq<Xml> := [];
    for k := 0 to |elements|
      invariant |out| == k
      invariant forall i :: 0 <= i < k ==> Printable(Kid(t, i)) && out[i] == Show(ITEM, Kid(t, i), show)
    {
      var child := AppendValueElement(arena, elements[k], ITEM, show, o.kids[k], Some(id));
      if child.Err? {
        assert !Printable(Kid(t, k));
        return Err(child.error);
      }
      out := out + [child.value];
    }
    assert Printable(t);
    assert out == ShowKids(t, KidCount(t), show);
    r := Ok(out);
  }

  lemma ItemIsName()
    ensures ElementName(ITEM)
  {
    var cs: seq<CodePoint> := ITEM;
    AsciiText(cs);
    assert NameOf(cs);
  }

  lemma {:induction false} AsciiText(cs: seq<CodePoint>)
    requires forall i :: 0 <= i < |cs| ==> cs[i] < 0x80
    ensures EncodeAll(cs) == cs
  {
    if cs != [] {
      AsciiText(cs[..|cs| - 1]);
    }
  }

  // ------------------------------------------------------------------ reading undoes writing

  /** The text of a finite double reads back as that double. */
  ghost predicate ReadsBack(read: Reader, show: Double -> Text) {
    forall d: Double :: d.Finite() ==> read(show(d)) == Some(d)
  }

  /** The element written for a tree spells that tree, node for node, and is stripped already. */
  lemma {:induction false} ShowMeans(name: Text, t: Tree, depth: nat, read: Reader, show: Double -> Text)
    requires Printable(t) && Distinct(t) && ReadsBack(read, show)
    ensures Lawful(Show(name, t, show), depth, read) <==> Fits(t, depth)
    ensures Meaning(Show(name, t, show), read) == t
    ensures Count(Show(name, t, show)) == Size(t)
    ensures Strip(Show(name, t, show)) == Show(name, t, show)
    decreases t, 2
  {
    hide Show, Lawful, Fits, Meaning, Count, Size, Strip, Printable, Distinct;
    if t.Leaf? {
      ShowLeaf(name, t, depth, read, show);
    } else {
      ShowContainer(name, t, depth, read, show);
    }
  }

  lemma ShowLeaf(name: Text, t: Tree, depth: nat, read: Reader, show: Double -> Text)
    requires t.Leaf? && Printable(t) && ReadsBack(read, show)
    ensures Lawful(Show(name, t, show), depth, read) <==> Fits(t, depth)
    ensures Meaning(Show(name, t, show), read) == t
    ensures Count(Show(name, t, show)) == Size(t)
    ensures Strip(Show(name, t, show)) == Show(name, t, show)
  {
    hide LawfulMembers, LawfulItems, Members, Items, TextOf, Counts, StripAll, Representable, ShowInt, ReadInt;
    hide KindNamed;
    hide NULL, BOOL, INT, DOUBLE, TRUE, FALSE, KidSizes, Addressable;
    var e := Show(name, t, show);
    KindNames();
    assert |e.children| <= 1;
    OneText(e.children);
    assert KidSizes(t, 0) == 0 by { NoKidSizes(t); }
    if t.scalar.Int? {
      ReadShownInt(t.scalar.n);
    }
  }

  lemma NoKidSizes(t: Tree)
    ensures KidSizes(t, 0) == 0
  {
  }

  lemma KindNames()
    ensures KindNamed(NULL) == Some(KNull) && KindNamed(BOOL) == Some(KBool) && KindNamed(INT) == Some(KInt)
    ensures KindNamed(DOUBLE) == Some(KDouble) && KindNamed(OBJECT) == Some(KObject) && KindNamed(ARRAY) == Some(KArray)
    ensures TRUE != FALSE
  {
    assert NULL[0] != BOOL[0];
    assert OBJECT[0] != DOUBLE[0];
    assert |TRUE| != |FALSE|;
  }

  lemma OneText(children: seq<Xml>)
    requires |children| <= 1 && forall i :: 0 <= i < |children| ==> children[i].Chars?
    ensures TextOf(children) == (if children == [] then [] else children[0].text)
    ensures Counts(children) == 0 && !HasElements(children)
  {
    if children != [] {
      assert children[..0] == [];
      assert TextOf(children[..0]) == [] && Counts(children[..0]) == 0;
    }
  }

  lemma {:induction false} ShowContainer(name: Text, t: Tree, depth: nat, read: Reader, show: Double -> Text)
    requires !t.Leaf? && Printable(t) && Distinct(t) && ReadsBack(read, show)
    ensures Lawful(Show(name, t, show), depth, read) <==> Fits(t, depth)
    ensures Meaning(Show(name, t, show), read) == t
    ensures Count(Show(name, t, show)) == Size(t)
    ensures Strip(Show(name, t, show)) == Show(name, t, show)
    decreases t, 1
  {
    hide LawfulMembers, LawfulItems, Members, Items, TextOf, Counts, StripAll, KindNamed, KidSizes, Addressable;
    hide OBJECT, ARRAY, ElementName, ShowKids, Distinct, Printable;
    var n := KidCount(t);
    var kids := ShowKids(t, n, show);
    KindNames();
    ShowKidsMean(t, n, depth, read, show);
    FitsByKids(t, depth);
    if n == 0 {
      NoKids(read);
      assert kids == [];
      assert t == if t.Obj? then Obj([]) else Arr([]);
    } else {
      assert kids[0].Element?;
      assert HasElements(kids);
    }
  }

  lemma NoKids(read: Reader)
    ensures StripAll([]) == [] && !HasElements([])
  {
  }

  /** The first `n` children are what the tree's depth and keys allow. */
  ghost predicate KidsFit(t: Tree, n: nat, depth: nat)
    requires n <= KidCount(t)
  {
    forall i :: 0 <= i < n ==> (t.Obj? ==> Addressable(t.members[i].0)) && Fits(Kid(t, i), depth + 1)
  }

  lemma FitsByKids(t: Tree, depth: nat)
    ensures Fits(t, depth) <==> depth <= MAX_DEPTH && KidsFit(t, KidCount(t), depth)
  {
    hide Addressable;
  }

  lemma KidsFitNext(t: Tree, n: nat, depth: nat)
    requires n < KidCount(t)
    ensures KidsFit(t, n + 1, depth) <==>
            KidsFit(t, n, depth) && (t.Obj? ==> Addressable(t.members[n].0)) && Fits(Kid(t, n), depth + 1)
  {
    hide Addressable, Fits;
  }

  lemma {:induction false} ShowKidsMean(t: Tree, n: nat, depth: nat, read: Reader, show: Double -> Text)
    requires !t.Leaf? && Printable(t) && Distinct(t) && ReadsBack(read, show) && n <= KidCount(t)
    ensures var kids := ShowKids(t, n, show);
            && (t.Obj? ==>
                (LawfulMembers(kids, depth, read) <==> KidsFit(t, n, depth)) && Members(kids, read) == t.members[..n])
            && (t.Arr? ==>
                (LawfulItems(kids, depth, read) <==> KidsFit(t, n, depth)) && Items(kids, read) == t.elements[..n])
            && Counts(kids) == KidSizes(t, n) && StripAll(kids) == kids
    decreases t, 0, n
  {
    hide Show, Lawful, Fits, Meaning, Count, Size, Strip, KidsFit, Addressable, ElementName, Find, Blank, ITEM;
    hide ShowKids;
    hide LawfulMembers, LawfulItems, Members, Items, Counts, StripAll, Printable, Distinct, NewName, ReadsBack;
    var kids := ShowKids(t, n, show);
    if n > 0 {
      var k := n - 1;
      ShowKidsMean(t, k, depth, read, show);
      KidFacts(t, k);
      ShowMeans(NameOfKid(t, k), Kid(t, k), depth + 1, read, show);
      assert kids[..k] == ShowKids(t, k, show) && kids[..n] == kids;
      CountsNext(kids, k);
      KidSizesNext(t, k);
      StripAllNext(kids, k);
      if t.Obj? {
        MemberMeans(t, kids, k, depth, read);
      } else {
        ItemMeans(t, kids, k, depth, read);
      }
    } else {
      KidsFitNone(t, depth, read);
      assert kids == [];
    }
  }

  lemma MemberMeans(t: Tree, kids: seq<Xml>, k: nat, depth: nat, read: Reader)
    requires t.Obj? && k < |kids| && k < |t.members| && UniqueKeys(t.members) && ElementName(t.members[k].0)
    requires kids[k].Element? && kids[k].name == t.members[k].0 && Meaning(kids[k], read) == t.members[k].1
    requires Lawful(kids[k], depth + 1, read) <==> Fits(Kid(t, k), depth + 1)
    requires LawfulMembers(kids[..k], depth, read) <==> KidsFit(t, k, depth)
    requires Members(kids[..k], read) == t.members[..k]
    ensures LawfulMembers(kids[..k + 1], depth, read) <==> KidsFit(t, k + 1, depth)
    ensures Members(kids[..k + 1], read) == t.members[..k + 1]
  {
    hide Lawful, Fits, Meaning, KidsFit, Addressable, ElementName, Find, Blank, LawfulMembers, Members, NewName;
    KidsFitNext(t, k, depth);
    MembersNext(kids, k, depth, read);
    KeyFacts(t.members, k);
    hide UniqueKeys;
    assert t.members[..k + 1] == t.members[..k] + [t.members[k]];
  }

  lemma ItemMeans(t: Tree, kids: seq<Xml>, k: nat, depth: nat, read: Reader)
    requires t.Arr? && k < |kids| && k < |t.elements|
    requires kids[k].Element? && kids[k].name == ITEM && Meaning(kids[k], read) == t.elements[k]
    requires Lawful(kids[k], depth + 1, read) <==> Fits(Kid(t, k), depth + 1)
    requires LawfulItems(kids[..k], depth, read) <==> KidsFit(t, k, depth)
    requires Items(kids[..k], read) == t.elements[..k]
    ensures LawfulItems(kids[..k + 1], depth, read) <==> KidsFit(t, k + 1, depth)
    ensures Items(kids[..k + 1], read) == t.elements[..k + 1]
  {
    hide Lawful, Fits, Meaning, KidsFit, Blank, ITEM, LawfulItems, Items;
    KidsFitNext(t, k, depth);
    ItemsNext(kids, k, depth, read);
    assert t.elements[..k + 1] == t.elements[..k] + [t.elements[k]];
  }

  lemma KidFacts(t: Tree, k: nat)
    requires k < KidCount(t) && Printable(t) && Distinct(t)
    ensures Printable(Kid(t, k)) && Distinct(Kid(t, k))
    ensures t.Obj? ==> ElementName(t.members[k].0) && UniqueKeys(t.members)
  {
    hide ElementName, Representable;
  }

  /** A unique key is a new name after the members before it if it is addressable. */
  lemma KeyFacts(members: seq<(Text, Tree)>, k: nat)
    requires UniqueKeys(members) && k < |members| && ElementName(members[k].0)
    ensures NewName(members[k].0, members[..k]) <==> Addressable(members[k].0)
  {
    hide ElementName, Addressable;
    FindInPrefix(members, k);
  }

  lemma KidsFitNone(t: Tree, depth: nat, read: Reader)
    ensures KidsFit(t, 0, depth) && KidSizes(t, 0) == 0
    ensures LawfulMembers([], depth, read) && Members([], read) == []
    ensures LawfulItems([], depth, read) && Items([], read) == []
    ensures Counts([]) == 0 && StripAll([]) == []
  {
  }

  lemma FindInPrefix(members: seq<(Text, Tree)>, k: nat)
    requires UniqueKeys(members) && k < |members|
    ensures Find(members[..k], members[k].0) == |members[..k]|
  {
    hide Find;
    assert forall i :: 0 <= i < k ==> members[..k][i].0 != members[k].0;
  }

  // ------------------------------------------------------------------ what is read can be written

  lemma {:induction false} LawfulPrints(e: Xml, depth: nat, read: Reader)
    requires e.Element? && Lawful(e, depth, read)
    ensures Printable(Meaning(e, read)) && Size(Meaning(e, read)) == Count(e)
    decreases e
  {
    hide ElementName, LawfulMembers, LawfulItems, Members, Items, TextOf, KindNamed, Representable, ReadInt, Counts;
    hide KidSizes;
    var t := Meaning(e, read);
    NoKidSizes(t);
    if KindOf(e) == Some(KObject) {
      MembersPrint(e.children, depth, read);
    } else if KindOf(e) == Some(KArray) {
      ItemsPrint(e.children, depth, read);
    } else {
      NoElementsNoCount(e.children);
    }
  }

  lemma {:induction false} MembersPrint(children: seq<Xml>, depth: nat, read: Reader)
    requires LawfulMembers(children, depth, read)
    ensures var t := Obj(Members(children, read));
            Printable(t) && KidSizes(t, KidCount(t)) == Counts(children)
    decreases children
  {
    hide Addressable, ElementName, Lawful, Meaning, Size, Count, Find;
    if children == [] {
      NoKidSizes(Obj([]));
    } else {
      var rest, last := children[..|children| - 1], children[|children| - 1];
      MembersPrint(rest, depth, read);
      CountKept(last);
      if last.Element? {
        LawfulPrints(last, depth + 1, read);
        var before, after := Members(rest, read), Members(children, read);
        assert after == before + [(last.name, Meaning(last, read))];
        KidSizesPush(Obj(before), Obj(after));
        PushPrints(Obj(before), Obj(after));
      }
    }
  }

  lemma PushPrints(a: Tree, b: Tree)
    requires Printable(a) && KidCount(b) == KidCount(a) + 1 && Printable(Kid(b, KidCount(a)))
    requires (a.Obj? && b.Obj? && b.members[..|a.members|] == a.members && ElementName(b.members[|a.members|].0))
             || (a.Arr? && b.Arr? && b.elements[..|a.elements|] == a.elements)
    ensures Printable(b)
  {
    hide ElementName, Representable, Printable;
    KidsPrint(a);
    KidsKept(a, b);
    PrintableByKids(b);
  }

  lemma KidsKept(a: Tree, b: Tree)
    requires KidCount(b) == KidCount(a) + 1
    requires (a.Obj? && b.Obj? && b.members[..|a.members|] == a.members)
             || (a.Arr? && b.Arr? && b.elements[..|a.elements|] == a.elements)
    ensures forall i :: 0 <= i < KidCount(a) ==> Kid(b, i) == Kid(a, i)
    ensures a.Obj? ==> forall i :: 0 <= i < |a.members| ==> b.members[i] == a.members[i]
  {
    if a.Obj? {
      var n := |a.members|;
      assert forall i :: 0 <= i < n ==> b.members[..n][i] == a.members[i];
    } else {
      var n := |a.elements|;
      assert forall i :: 0 <= i < n ==> b.elements[..n][i] == a.elements[i];
    }
  }

  lemma KidsPrint(t: Tree)
    requires Printable(t)
    ensures forall i :: 0 <= i < KidCount(t) ==> Printable(Kid(t, i))
    ensures t.Obj? ==> forall i :: 0 <= i < |t.members| ==> ElementName(t.members[i].0)
  {
    hide ElementName, Representable;
  }

  lemma PrintableByKids(t: Tree)
    requires !t.Leaf? && forall i :: 0 <= i < KidCount(t) ==> Printable(Kid(t, i))
    requires t.Obj? ==> forall i :: 0 <= i < |t.members| ==> ElementName(t.members[i].0)
    ensures Printable(t)
  {
    hide ElementName, Representable;
  }

  lemma KidSizesPush(a: Tree, b: Tree)
    requires KidCount(b) == KidCount(a) + 1
    requires (a.Obj? && b.Obj? && b.members[..|a.members|] == a.members)
             || (a.Arr? && b.Arr? && b.elements[..|a.elements|] == a.elements)
    ensures KidSizes(b, KidCount(b)) == KidSizes(a, KidCount(a)) + Size(Kid(b, KidCount(a)))
  {
    KidSizesSame(a, b, KidCount(a));
  }

  lemma {:induction false} KidSizesSame(a: Tree, b: Tree, n: nat)
    requires n <= KidCount(a) <= KidCount(b)
    requires (a.Obj? && b.Obj? && b.members[..|a.members|] == a.members)
             || (a.Arr? && b.Arr? && b.elements[..|a.elements|] == a.elements)
    ensures KidSizes(a, n) == KidSizes(b, n)
    decreases n
  {
    hide Size;
    if n > 0 {
      KidSizesSame(a, b, n - 1);
      assert Kid(a, n - 1) == Kid(b, n - 1);
    }
  }

  lemma {:induction false} ItemsPrint(children: seq<Xml>, depth: nat, read: Reader)
    requires LawfulItems(children, depth, read)
    ensures var t := Arr(Items(children, read));
            Printable(t) && KidSizes(t, KidCount(t)) == Counts(children)
    decreases children
  {
    hide Lawful, Meaning, Size, Count, ElementName;
    if children == [] {
      NoKidSizes(Arr([]));
    } else {
      var rest, last := children[..|children| - 1], children[|children| - 1];
      ItemsPrint(rest, depth, read);
      CountKept(last);
      if last.Element? {
        LawfulPrints(last, depth + 1, read);
        var before, after := Items(rest, read), Items(children, read);
        assert after == before + [Meaning(last, read)];
        KidSizesPush(Arr(before), Arr(after));
        PushPrints(Arr(before), Arr(after));
      }
    }
  }
}

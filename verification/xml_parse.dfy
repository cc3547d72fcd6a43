/** The XML backend's reader: a recursive descent over the element tree, with a node budget and a depth limit. */
module XmlParse {
  import opened Base
  import opened Decimals
  import opened ConfigPath
  import opened Trees
  import opened ConfigValues
  import opened XmlText
  import opened XmlMeaning

  /** How many of the nodes a load may make it has made. */
  class NodeBudget {
    const maxNodes: nat
    var nodes: nat

    ghost predicate Valid()
      reads this
    {
      nodes <= maxNodes
    }

    constructor (maxNodes: nat)
      ensures Valid() && nodes == 0 && this.maxNodes == maxNodes
    {
      this.maxNodes, nodes := maxNodes, 0;
    }

    method Consume() returns (ok: bool)
      requires Valid()
      modifies this
      ensures Valid() && ok == (old(nodes) < maxNodes)
      ensures nodes == if ok then old(nodes) + 1 else old(nodes)
    {
      if nodes == maxNodes {
        return false;
      }
      nodes := nodes + 1;
      ok := true;
    }
  }

  method HasElementChildren(children: seq<Xml>) returns (found: bool)
    ensures found <==> HasElements(children)
  {
    for k := 0 to |children|
      invariant forall i :: 0 <= i < k ==> !children[i].Element?
    {
      if children[k].Element? {
        return true;
      }
    }
    found := false;
  }

  /** The character data of a scalar element, which must have no child elements. */
  method ScalarText(children: seq<Xml>) returns (r: Result<Text>)
    ensures r == if HasElements(children) then Err(ParseError) else Ok(TextOf(children))
  {
    var text: Text := [];
    for k := 0 to |children|
      invariant forall i :: 0 <= i < k ==> !children[i].Element?
      invariant text == TextOf(children[..k])
    {
      if children[k].Element? {
        return Err(ParseError);
      }
      assert children[..k + 1][..k] == children[..k];
      text := text + children[k].text;
    }
    assert children[..|children|] == children;
    r := Ok(text);
  }

  method IsBlank(text: Text) returns (blank: bool)
    ensures blank <==> Blank(text)
  {
    for k := 0 to |text|
      invariant forall i :: 0 <= i < k ==> IsSpace(text[i])
    {
      if !IsSpace(text[k]) {
        return false;
      }
    }
    blank := true;
  }

  /** An element's value: accepted exactly when it is lawful at this depth and the budget covers it. */
  method ParseValue(e: Xml, depth: nat, budget: NodeBudget, read: Reader) returns (r: Result<Tree>)
    requires e.Element? && budget.Valid()
    modifies budget
    ensures budget.Valid()
    ensures r == if Lawful(e, depth, read) && old(budget.nodes) + Count(e) <= budget.maxNodes
                 then Ok(Meaning(e, read)) else Err(ParseError)
    ensures r.Ok? ==> budget.nodes == old(budget.nodes) + Count(e)
    decreases e, 1
  {
    hide LawfulMembers, LawfulItems, Members, Items, HasElements, TextOf, KindNamed, Representable, ReadInt, Counts;
    if depth > MAX_DEPTH {
      return Err(ParseError);
    }
    var consumed := budget.Consume();
    if !consumed {
      return Err(ParseError);
    }
    var named: Option<Text> := None;
    for k := 0 to |e.attributes|
      invariant k <= 1 && (k == 0 <==> named == None)
      invariant k == 1 ==> e.attributes[0].0 == TYPE && named == Some(e.attributes[0].1)
    {
      if e.attributes[k].0 != TYPE || named.Some? {
        return Err(ParseError);
      }
      named := Some(e.attributes[k].1);
    }
    if named.None? {
      var nested := HasElementChildren(e.children);
      if nested {
        r := ParseObjectMembers(e, depth, budget, read);
        return;
      }
      var text := ScalarText(e.children);
      NoElementsNoCount(e.children);
      var representable := IsXmlRepresentable(text.value);
      return if representable then Ok(Leaf(Str(text.value))) else Err(ParseError);
    }
    var kind := KindNamed(named.value);
    if kind == Some(KObject) {
      r := ParseObjectMembers(e, depth, budget, read);
    } else if kind == Some(KArray) {
      r := ParseArrayItems(e, depth, budget, read);
    } else if kind.Some? && kind.value != KString {
      var text := ScalarText(e.children);
      if text.Err? {
        return Err(ParseError);
      }
      NoElementsNoCount(e.children);
      r := ParseScalar(kind.value, text.value, read);
    } else {
      NoStringKind(named.value);
      r := Err(ParseError);
    }
  }

  /** The typed scalars: null must be empty, a bool is spelled one of two ways, a number fills the text. */
  method ParseScalar(kind: Kind, text: Text, read: Reader) returns (r: Result<Tree>)
    requires kind == KNull || kind == KBool || kind == KInt || kind == KDouble
    ensures r == var t := ScalarOf(kind, text, read); if t.Some? then Ok(t.value) else Err(ParseError)
  {
    hide ReadInt, TRUE, FALSE;
    if kind == KNull {
      return if text == [] then Ok(Leaf(Null)) else Err(ParseError);
    }
    if kind == KBool {
      if text == TRUE {
        return Ok(Leaf(Bool(true)));
      }
      return if text == FALSE then Ok(Leaf(Bool(false))) else Err(ParseError);
    }
    if kind == KInt {
      var n := ReadInt(text);
      return if n.Some? then Ok(Leaf(Int(n.value))) else Err(ParseError);
    }
    var d := read(text);
    r := if d.Some? && d.value.Finite() then Ok(Leaf(Real(d.value))) else Err(ParseError);
  }

  /** No `type` attribute names the string kind. */
  lemma NoStringKind(name: Text)
    ensures KindNamed(name) != Some(KString)
  {
  }

  method ParseObjectMembers(e: Xml, depth: nat, budget: NodeBudget, read: Reader) returns (r: Result<Tree>)
    requires e.Element? && budget.Valid()
    modifies budget
    ensures budget.Valid()
    ensures r == if LawfulMembers(e.children, depth, read) && old(budget.nodes) + Counts(e.children) <= budget.maxNodes
                 then Ok(Obj(Members(e.children, read))) else Err(ParseError)
    ensures r.Ok? ==> budget.nodes == old(budget.nodes) + Counts(e.children)
    decreases e, 0
  {
    hide LawfulMembers, Members, Lawful, Meaning, Count, Counts, ElementName, Addressable, Find, Blank, SetMember;
    var children := e.children;
    var members: seq<(Text, Tree)> := [];
    NoChildren(depth, read);
    assert children[..0] == [];
    for k := 0 to |children|
      invariant LawfulMembers(children[..k], depth, read) && members == Members(children[..k], read)
      invariant budget.Valid() && budget.nodes == old(budget.nodes) + Counts(children[..k])
    {
      var child := children[k];
      MembersNext(children, k, depth, read);
      CountsNext(children, k);
      CountsGrow(children, k + 1);
      if LawfulMembers(children, depth, read) {
        MembersPrefix(children, k + 1, depth, read);
      }
      if child.Chars? {
        CharsCountNothing(child);
        var blank := IsBlank(child.text);
        if !blank {
          return Err(ParseError);
        }
      } else {
        if !Addressable(child.name) {
          return Err(ParseError);
        }
        var valid := IsValidElementName(child.name);
        if !valid {
          return Err(ParseError);
        }
        if Find(members, child.name) < |members| {
          return Err(ParseError);
        }
        var value := ParseValue(child, depth + 1, budget, read);
        if value.Err? {
          return Err(value.error);
        }
        SetNew(members, child.name, value.value);
        members := SetMember(members, child.name, value.value);
      }
    }
    assert children[..|children|] == children;
    r := Ok(Obj(members));
  }

  lemma SetNew(members: seq<(Text, Tree)>, key: Text, t: Tree)
    requires Find(members, key) == |members|
    ensures SetMember(members, key, t) == members + [(key, t)]
  {
    hide Find;
  }

  lemma NoChildren(depth: nat, read: Reader)
    ensures LawfulMembers([], depth, read) && Members([], read) == []
    ensures LawfulItems([], depth, read) && Items([], read) == []
    ensures Counts([]) == 0
  {
  }

  lemma CharsCountNothing(e: Xml)
    requires e.Chars?
    ensures Count(e) == 0
  {
  }

  method ParseArrayItems(e: Xml, depth: nat, budget: NodeBudget, read: Reader) returns (r: Result<Tree>)
    requires e.Element? && budget.Valid()
    modifies budget
    ensures budget.Valid()
    ensures r == if LawfulItems(e.children, depth, read) && old(budget.nodes) + Counts(e.children) <= budget.maxNodes
                 then Ok(Arr(Items(e.children, read))) else Err(ParseError)
    ensures r.Ok? ==> budget.nodes == old(budget.nodes) + Counts(e.children)
    decreases e, 0
  {
    hide LawfulItems, Items, Lawful, Meaning, Count, Counts, Blank;
    var children := e.children;
    var items: seq<Tree> := [];
    NoChildren(depth, read);
    assert children[..0] == [];
    for k := 0 to |children|
      invariant LawfulItems(children[..k], depth, read) && items == Items(children[..k], read)
      invariant budget.Valid() && budget.nodes == old(budget.nodes) + Counts(children[..k])
    {
      var child := children[k];
      ItemsNext(children, k, depth, read);
      CountsNext(children, k);
      CountsGrow(children, k + 1);
      if LawfulItems(children, depth, read) {
        ItemsPrefix(children, k + 1, depth, read);
      }
      if child.Chars? {
        CharsCountNothing(child);
        var blank := IsBlank(child.text);
        if !blank {
          return Err(ParseError);
        }
      } else {
        if child.name != ITEM {
          return Err(ParseError);
        }
        var value := ParseValue(child, depth + 1, budget, read);
        if value.Err? {
          return Err(value.error);
        }
        items := items + [value.value];
      }
    }
    assert children[..|children|] == children;
    r := Ok(Arr(items));
  }
}

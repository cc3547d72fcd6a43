/** The configuration tree as a value, and what each model operation means on it. */
module Trees {
  import opened Base
  import opened ConfigPath

  datatype NodeType = TNull | TBool | TInt | TDouble | TString | TObject | TArray

  datatype Scalar = Null | Bool(b: bool) | Int(n: Int64) | Real(d: Double) | Str(s: Text)

  /** Object members keep insertion order (ADR-022). */
  datatype Tree =
    | Leaf(scalar: Scalar)
    | Obj(members: seq<(Text, Tree)>)
    | Arr(elements: seq<Tree>)

  /** A versioned configuration as a value: what a backend reads and writes. */
  datatype Config = Config(version: UInt32, tree: Tree)

  function ScalarType(s: Scalar): NodeType {
    match s
    case Null => TNull
    case Bool(_) => TBool
    case Int(_) => TInt
    case Real(_) => TDouble
    case Str(_) => TString
  }

  function TypeOf(t: Tree): NodeType {
    match t
    case Leaf(s) => ScalarType(s)
    case Obj(_) => TObject
    case Arr(_) => TArray
  }

  // ------------------------------------------------------------------ children, uniformly

  function KidCount(t: Tree): nat {
    match t
    case Leaf(_) => 0
    case Obj(members) => |members|
    case Arr(elements) => |elements|
  }

  function Kid(t: Tree, i: nat): (kid: Tree)
    requires i < KidCount(t)
    ensures kid < t
  {
    match t
    case Obj(members) => members[i].1
    case Arr(elements) => elements[i]
  }

  function WithKid(t: Tree, i: nat, kid: Tree): Tree
    requires i < KidCount(t)
  {
    match t
    case Obj(members) => Obj(members[i := (members[i].0, kid)])
    case Arr(elements) => Arr(elements[i := kid])
  }

  function WithoutKid(t: Tree, i: nat): Tree
    requires i < KidCount(t)
  {
    match t
    case Obj(members) => Obj(members[..i] + members[i + 1..])
    case Arr(elements) => Arr(elements[..i] + elements[i + 1..])
  }

  /** A new last child: the segment's key names it in an object, an array takes it as its next element. */
  function AppendKid(t: Tree, segment: Segment, kid: Tree): Tree
    requires if segment.Key? then t.Obj? else t.Arr?
  {
    match segment
    case Key(key) => Obj(t.members + [(key, kid)])
    case Index(_) => Arr(t.elements + [kid])
  }

  /** Position of the first member named `key`; the member count when there is none. */
  function Find<T>(members: seq<(Text, T)>, key: Text): (i: nat)
    ensures i <= |members|
    ensures forall j :: 0 <= j < i ==> members[j].0 != key
    ensures i < |members| ==> members[i].0 == key
  {
    if members == [] || members[0].0 == key then 0 else 1 + Find(members[1..], key)
  }

  predicate UniqueKeys<T>(members: seq<(Text, T)>) {
    forall i, j :: 0 <= i < j < |members| ==> members[i].0 != members[j].0
  }

  // ------------------------------------------------------------------ which trees are legal

  const MAX_DEPTH: nat := 128

  /** No object in the tree repeats a key: what building through `ConfigValue::set` guarantees. */
  predicate Distinct(t: Tree) {
    && (t.Obj? ==> UniqueKeys(t.members))
    && forall i :: 0 <= i < KidCount(t) ==> Distinct(Kid(t, i))
  }

  /** Values a `ConfigValue` can hold. */
  type Value = t: Tree | Distinct(t) witness Leaf(Null)

  /** `validateTree`: every key addressable and no node below the depth limit. */
  predicate Fits(t: Tree, depth: nat) {
    && depth <= MAX_DEPTH
    && (t.Obj? ==> forall i :: 0 <= i < |t.members| ==> Addressable(t.members[i].0))
    && forall i :: 0 <= i < KidCount(t) ==> Fits(Kid(t, i), depth + 1)
  }

  /** The invariant of every `ConfigModel`. */
  predicate ModelTree(t: Tree) {
    t.Obj? && Distinct(t) && Fits(t, 0)
  }

  function Size(t: Tree): nat {
    1 + KidSizes(t, KidCount(t))
  }

  function KidSizes(t: Tree, n: nat): nat
    requires n <= KidCount(t)
    decreases t, n
  {
    if n == 0 then 0 else KidSizes(t, n - 1) + Size(Kid(t, n - 1))
  }

  // ------------------------------------------------------------------ reading

  /** One segment: the child it selects, or why it selects none. */
  function Step(t: Tree, segment: Segment): (r: Result<nat>)
    ensures r.Ok? ==> r.value < KidCount(t)
    ensures r.Err? ==> r.error == InvalidType || r.error == NodeNotFound
  {
    match segment
    case Key(key) =>
      if !t.Obj? then Err(InvalidType)
      else if Find(t.members, key) == |t.members| then Err(NodeNotFound)
      else Ok(Find(t.members, key))
    case Index(index) =>
      if !t.Arr? then Err(InvalidType)
      else if index >= |t.elements| then Err(NodeNotFound)
      else Ok(index)
  }

  function Lookup(t: Tree, segments: seq<Segment>): Result<Tree>
    decreases |segments|
  {
    if segments == [] then Ok(t)
    else match Step(t, segments[0])
      case Err(e) => Err(e)
      case Ok(i) => Lookup(Kid(t, i), segments[1..])
  }

  // ------------------------------------------------------------------ writing

  /** Below the creation point containers start empty, so the only index that can be created is 0. */
  predicate Creatable(segments: seq<Segment>) {
    forall i :: 0 <= i < |segments| ==> segments[i].Index? ==> segments[i].index == 0
  }

  /** The containers `segments` name, each holding only the next, around `value`. */
  function Chain(segments: seq<Segment>, value: Tree): Tree {
    if segments == [] then value
    else match segments[0]
      case Key(key) => Obj([(key, Chain(segments[1..], value))])
      case Index(_) => Arr([Chain(segments[1..], value)])
  }

  /** A missing child that a write may create: any absent key, or the index one past the end. */
  predicate Extends(t: Tree, segment: Segment) {
    match segment
    case Key(_) => t.Obj?
    case Index(index) => t.Arr? && index == |t.elements|
  }

  function Upsert(t: Tree, segments: seq<Segment>, value: Tree): Result<Tree>
    requires segments != []
    decreases |segments|
  {
    match Step(t, segments[0])
    case Err(e) =>
      if e == NodeNotFound && Extends(t, segments[0]) && Creatable(segments[1..]) then
        Ok(AppendKid(t, segments[0], Chain(segments[1..], value)))
      else Err(e)
    case Ok(i) =>
      if |segments| == 1 then
        if TypeOf(Kid(t, i)) == TypeOf(value) then Ok(WithKid(t, i, value)) else Err(InvalidType)
      else
        match Upsert(Kid(t, i), segments[1..], value)
        case Err(e) => Err(e)
        case Ok(kid) => Ok(WithKid(t, i, kid))
  }

  function Remove(t: Tree, segments: seq<Segment>): Result<Tree>
    requires segments != []
    decreases |segments|
  {
    match Step(t, segments[0])
    case Err(e) => Err(e)
    case Ok(i) =>
      if |segments| == 1 then Ok(WithoutKid(t, i))
      else
        match Remove(Kid(t, i), segments[1..])
        case Err(e) => Err(e)
        case Ok(kid) => Ok(WithKid(t, i, kid))
  }

  // ------------------------------------------------------------------ the path API, on values

  function GetValue(t: Tree, path: Text): Result<Tree> {
    match Parse(path)
    case Err(e) => Err(e)
    case Ok(segments) => Lookup(t, segments)
  }

  function SetValue(t: Tree, path: Text, value: Tree): Result<Tree> {
    match Parse(path)
    case Err(e) => Err(e)
    case Ok(segments) =>
      if !Fits(value, |segments|) then Err(InvalidPath) else Upsert(t, segments, value)
  }

  function RemoveValue(t: Tree, path: Text): Result<Tree> {
    match Parse(path)
    case Err(e) => Err(e)
    case Ok(segments) => Remove(t, segments)
  }
}

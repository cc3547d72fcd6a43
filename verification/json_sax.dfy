/** The JSON backend's SAX handler: an explicit stack machine, driven by the events of a document. */
module JsonSax {
  import opened Base
  import opened ConfigPath
  import opened Trees
  import opened ConfigValues

  type UInt64 = x: int | 0 <= x < 0x1_0000_0000_0000_0000

  /** An overflowing literal is a parse error of the reader, so the float callback sees finite values only. */
  type FiniteDouble = d: Double | d.Finite() witness Double(0)

  /** A parsed JSON text, before any rule of the backend: keys may repeat, and a number keeps the form its
      literal was routed by. */
  datatype Json =
    | JNull
    | JBool(b: bool)
    | JInteger(z: Int64)
    | JUnsigned(n: UInt64)
    | JFloat(d: FiniteDouble, text: Text)
    | JString(s: Text)
    | JObject(members: seq<(Text, Json)>)
    | JArray(elements: seq<Json>)

  /** "__version" */
  const VERSION_KEY: Text := [0x5F, 0x5F, 0x76, 0x65, 0x72, 0x73, 0x69, 0x6F, 0x6E]
  const MAX_VERSION: int := 0xFFFF_FFFF
  const MAX_INT: int := 0x7FFF_FFFF_FFFF_FFFF

  /** A literal with '.', 'e' or 'E'; without one, an integral literal that overflowed reaches the float callback. */
  predicate HasPoint(text: Text) {
    exists i :: 0 <= i < |text| && (text[i] == 0x2E || text[i] == 0x65 || text[i] == 0x45)
  }

  // ------------------------------------------------------------------ the meaning of a document

  /** A scalar's value, if its number is in range. */
  function ScalarOf(j: Json): Result<Tree>
    requires !j.JObject? && !j.JArray?
  {
    match j
    case JNull => Ok(Leaf(Null))
    case JBool(b) => Ok(Leaf(Bool(b)))
    case JInteger(n) => Ok(Leaf(Int(n)))
    case JUnsigned(n) => if n > MAX_INT then Err(ParseError) else Ok(Leaf(Int(n)))
    case JFloat(d, text) => if HasPoint(text) then Ok(Leaf(Real(d))) else Err(ParseError)
    case JString(s) => Ok(Leaf(Str(s)))
  }

  /** Counting one node against the limit. */
  function Count(nodes: nat, max: nat): Result<nat> {
    if nodes == max then Err(ParseError) else Ok(nodes + 1)
  }

  /** A value at `depth`, with `nodes` counted before it: its tree and the count after it, or the first error. */
  function Eval(j: Json, depth: nat, nodes: nat, max: nat): Result<(Tree, nat)>
    decreases j, 1, 0
  {
    match j
    case JObject(members) =>
      if depth > MAX_DEPTH then Err(ParseError)
      else (match EvalMembers(j, 0, depth + 1, nodes, max, [])
        case Err(e) => Err(e)
        case Ok(r) => (match Count(r.1, max) case Err(e) => Err(e) case Ok(n) => Ok((Obj(r.0), n))))
    case JArray(elements) =>
      if depth > MAX_DEPTH then Err(ParseError)
      else (match EvalElements(j, 0, depth + 1, nodes, max, [])
        case Err(e) => Err(e)
        case Ok(r) => (match Count(r.1, max) case Err(e) => Err(e) case Ok(n) => Ok((Arr(r.0), n))))
    case _ =>
      match ScalarOf(j)
      case Err(e) => Err(e)
      case Ok(t) =>
        if depth > MAX_DEPTH then Err(ParseError)
        else match Count(nodes, max) case Err(e) => Err(e) case Ok(n) => Ok((t, n))
  }

  function KeyOk(key: Text, done: seq<(Text, Tree)>): bool {
    Addressable(key) && Find(done, key) == |done|
  }

  /** The members of `j` from the `k`-th on, after those in `done`. */
  function EvalMembers(j: Json, k: nat, depth: nat, nodes: nat, max: nat, done: seq<(Text, Tree)>)
    : Result<(seq<(Text, Tree)>, nat)>
    requires j.JObject? && k <= |j.members|
    decreases j, 0, |j.members| - k
  {
    if k == |j.members| then Ok((done, nodes))
    else if !KeyOk(j.members[k].0, done) then Err(ParseError)
    else
      match Eval(j.members[k].1, depth, nodes, max)
      case Err(e) => Err(e)
      case Ok(r) => EvalMembers(j, k + 1, depth, r.1, max, done + [(j.members[k].0, r.0)])
  }

  function EvalElements(j: Json, k: nat, depth: nat, nodes: nat, max: nat, done: seq<Tree>): Result<(seq<Tree>, nat)>
    requires j.JArray? && k <= |j.elements|
    decreases j, 0, |j.elements| - k
  {
    if k == |j.elements| then Ok((done, nodes))
    else
      match Eval(j.elements[k], depth, nodes, max)
      case Err(e) => Err(e)
      case Ok(r) => EvalElements(j, k + 1, depth, r.1, max, done + [r.0])
  }

  /** The version carrier's value. */
  function CarrierOf(j: Json): Result<UInt32> {
    if j.JUnsigned? && j.n <= MAX_VERSION then Ok(j.n) else Err(InvalidVersion)
  }

  /** What the members of the root object come to: the tree's members and the version carrier, if there is one. */
  datatype Top = Top(members: seq<(Text, Tree)>, nodes: nat, version: Option<UInt32>)

  function TopStep(key: Text, value: Json, max: nat, top: Top): Result<Top> {
    if key == VERSION_KEY then
      if top.version.Some? then Err(ParseError)
      else (match CarrierOf(value) case Err(e) => Err(e) case Ok(v) => Ok(top.(version := Some(v))))
    else if !KeyOk(key, top.members) then Err(ParseError)
    else
      match Eval(value, 1, top.nodes, max)
      case Err(e) => Err(e)
      case Ok(r) => Ok(top.(members := top.members + [(key, r.0)], nodes := r.1))
  }

  function EvalTop(members: seq<(Text, Json)>, k: nat, max: nat, top: Top): Result<Top>
    requires k <= |members|
    decreases |members| - k
  {
    if k == |members| then Ok(top)
    else
      match TopStep(members[k].0, members[k].1, max, top)
      case Err(e) => Err(e)
      case Ok(next) => EvalTop(members, k + 1, max, next)
  }

  /** A whole document: the root object is counted last. */
  function EvalDocument(j: Json, max: nat): Result<Top> {
    if !j.JObject? then Err(ParseError)
    else
      match EvalTop(j.members, 0, max, Top([], 0, None))
      case Err(e) => Err(e)
      case Ok(top) => (match Count(top.nodes, max) case Err(e) => Err(e) case Ok(n) => Ok(top.(nodes := n)))
  }

  // ------------------------------------------------------------------ the machine

  /** A container under construction; `pendingKey` is set by `key` and consumed when the value is attached. */
  datatype Frame = Frame(container: Tree, pendingKey: Text)

  predicate Open(frame: Frame) {
    !frame.container.Leaf?
  }

  /** The stack after a finished value is attached to its top container. */
  function Attach(stack: seq<Frame>, value: Tree): seq<Frame>
    requires stack != [] && Open(stack[|stack| - 1])
  {
    var top := stack[|stack| - 1];
    stack[..|stack| - 1] +
    [if top.container.Obj? then Frame(Obj(SetMember(top.container.members, top.pendingKey, value)), [])
     else Frame(Arr(top.container.elements + [value]), top.pendingKey)]
  }

  class ValueBuilder {
    const maxNodes: nat
    var nodes: nat
    var stack: seq<Frame>
    var root: Option<Tree>
    var version: Option<UInt32>
    var sawVersionKey: bool
    var nextIsCarrier: bool
    var error: Option<ErrorCode>

    ghost predicate Valid()
      reads this
    {
      && (forall i :: 0 <= i < |stack| ==> Open(stack[i]))
      && nodes <= maxNodes
    }

    /** Between two values inside a container: no carrier pending, no error so far. */
    ghost predicate Ready()
      reads this
    {
      Valid() && stack != [] && !nextIsCarrier && error == None
    }

    constructor (maxNodes: nat)
      ensures Valid() && this.maxNodes == maxNodes && nodes == 0 && stack == [] && root == None && version == None
      ensures !sawVersionKey && !nextIsCarrier && error == None
    {
      this.maxNodes := maxNodes;
      nodes, stack, root, version, sawVersionKey, nextIsCarrier, error := 0, [], None, None, false, false, None;
    }

    method SetError(code: ErrorCode) returns (ok: bool)
      modifies this`error
      ensures !ok && error == Some(code)
    {
      error := Some(code);
      ok := false;
    }

    method ConsumeCarrierFlag() returns (was: bool)
      modifies this`nextIsCarrier
      ensures was == old(nextIsCarrier) && !nextIsCarrier
    {
      was := nextIsCarrier;
      nextIsCarrier := false;
    }

    method ConsumeNode() returns (ok: bool)
      modifies this`nodes, this`error
      ensures match Count(old(nodes), maxNodes)
              case Ok(n) => ok && nodes == n && error == old(error)
              case Err(e) => !ok && error == Some(e) && nodes == old(nodes)
    {
      if nodes == maxNodes {
        ok := SetError(ParseError);
        return;
      }
      nodes := nodes + 1;
      ok := true;
    }

    /** Attaches a finished value to the container on top. */
    method AttachValue(value: Tree) returns (ok: bool)
      requires Valid() && stack != []
      modifies this`nodes, this`error, this`stack
      ensures Valid()
      ensures |old(stack)| > MAX_DEPTH ==> !ok && error == Some(ParseError)
      ensures |old(stack)| <= MAX_DEPTH ==>
                match Count(old(nodes), maxNodes)
                case Ok(n) => ok && nodes == n && stack == Attach(old(stack), value) && error == old(error)
                case Err(e) => !ok && error == Some(e)
    {
      if |stack| > MAX_DEPTH {
        ok := SetError(ParseError);
        return;
      }
      ok := ConsumeNode();
      if ok {
        var top := stack[|stack| - 1];
        var grown := if top.container.Obj? then Frame(Obj(SetMember(top.container.members, top.pendingKey, value)), [])
                     else Frame(Arr(top.container.elements + [value]), top.pendingKey);
        stack := stack[..|stack| - 1] + [grown];
      }
    }

    /** One scalar event, whichever callback it arrives through. */
    method OnScalar(j: Json) returns (ok: bool)
      requires Valid() && error == None && !j.JObject? && !j.JArray?
      modifies this
      ensures Valid() && root == old(root) && sawVersionKey == old(sawVersionKey)
      ensures old(stack) == [] ==> !ok && error == Some(ParseError)
      ensures old(stack) != [] && old(nextIsCarrier) ==>
                match CarrierOf(j)
                case Ok(v) => ok && version == Some(v) && stack == old(stack) && nodes == old(nodes) && Ready()
                case Err(e) => !ok && error == Some(e)
      ensures old(stack) != [] && !old(nextIsCarrier) ==>
                && version == old(version)
                && match Eval(j, |old(stack)|, old(nodes), maxNodes)
                   case Ok(r) => ok && stack == Attach(old(stack), r.0) && nodes == r.1 && Ready()
                   case Err(e) => !ok && error == Some(e)
    {
      if stack == [] {
        ok := SetError(ParseError);
        return;
      }
      var carrier := ConsumeCarrierFlag();
      if carrier {
        if j.JUnsigned? && j.n <= MAX_VERSION {
          version := Some(j.n);
          return true;
        }
        ok := SetError(InvalidVersion);
        return;
      }
      var value := ScalarOf(j);
      if value.Err? {
        ok := SetError(ParseError);
        return;
      }
      ok := AttachValue(value.value);
    }

    /** `start_object` and `start_array`: the depth limit fires on the way down. */
    method Start(container: Tree) returns (ok: bool)
      requires Valid() && error == None && (container == Obj([]) || container == Arr([]))
      modifies this
      ensures Valid() && root == old(root) && version == old(version) && sawVersionKey == old(sawVersionKey)
                && nodes == old(nodes)
      ensures old(stack) == [] && container.Arr? ==> !ok && error == Some(ParseError)
      ensures !(old(stack) == [] && container.Arr?) ==>
                if old(nextIsCarrier) then !ok && error == Some(InvalidVersion)
                else if |old(stack)| > MAX_DEPTH then !ok && error == Some(ParseError)
                else ok && stack == old(stack) + [Frame(container, [])] && Ready()
    {
      if container.Arr? && stack == [] {
        ok := SetError(ParseError);
        return;
      }
      var carrier := ConsumeCarrierFlag();
      if carrier {
        ok := SetError(InvalidVersion);
        return;
      }
      if |stack| > MAX_DEPTH {
        ok := SetError(ParseError);
        return;
      }
      stack := stack + [Frame(container, [])];
      ok := true;
    }

    /** `key`: the top-level carrier is recognised here and never enters the tree. */
    method Key(key: Text) returns (ok: bool)
      requires Ready() && stack[|stack| - 1].container.Obj?
      modifies this
      ensures Valid() && root == old(root) && version == old(version) && nodes == old(nodes) && |stack| == |old(stack)|
      ensures var top := old(stack)[|old(stack)| - 1];
              if !Addressable(key) then !ok && error == Some(ParseError)
              else if |old(stack)| == 1 && key == VERSION_KEY then
                if old(sawVersionKey) then !ok && error == Some(ParseError)
                else ok && sawVersionKey && nextIsCarrier && stack == old(stack) && error == None
              else if Find(top.container.members, key) < |top.container.members| then !ok && error == Some(ParseError)
              else
                && ok && Ready() && sawVersionKey == old(sawVersionKey)
                && stack == old(stack)[..|stack| - 1] + [Frame(top.container, key)]
    {
      if !Addressable(key) {
        ok := SetError(ParseError);
        return;
      }
      var top := stack[|stack| - 1];
      if |stack| == 1 && key == VERSION_KEY {
        if sawVersionKey {
          ok := SetError(ParseError);
          return;
        }
        sawVersionKey, nextIsCarrier := true, true;
        return true;
      }
      if Find(top.container.members, key) < |top.container.members| {
        ok := SetError(ParseError);
        return;
      }
      stack := stack[..|stack| - 1] + [Frame(top.container, key)];
      ok := true;
    }

    /** `end_object` and `end_array`: the finished container is attached below, or becomes the root. */
    method PopFrame() returns (ok: bool)
      requires Ready()
      modifies this
      ensures Valid() && version == old(version) && sawVersionKey == old(sawVersionKey)
      ensures |old(stack)| == 1 ==>
                match Count(old(nodes), maxNodes)
                case Ok(n) => ok && nodes == n && root == Some(old(stack)[0].container) && stack == [] && error == None
                case Err(e) => !ok && error == Some(e)
      ensures |old(stack)| > 1 && |old(stack)| - 1 <= MAX_DEPTH ==>
                && root == old(root)
                && match Count(old(nodes), maxNodes)
                   case Ok(n) =>
                     && ok && nodes == n && Ready()
                     && stack == Attach(old(stack)[..|old(stack)| - 1], old(stack)[|old(stack)| - 1].container)
                   case Err(e) => !ok && error == Some(e)
    {
      var done := stack[|stack| - 1].container;
      stack := stack[..|stack| - 1];
      if stack == [] {
        ok := ConsumeNode();
        if ok {
          root := Some(done);
        }
        return;
      }
      ok := AttachValue(done);
    }
  }

  // ------------------------------------------------------------------ the parser's events

  /** Sends the events of one value, as the SAX parser does: it stops at the first callback that returns false.
      The builder then holds what the recursive meaning says, on any stack it may be called with. */
  method Feed(b: ValueBuilder, j: Json) returns (ok: bool)
    requires b.Ready() && |b.stack| <= MAX_DEPTH + 1
    modifies b
    ensures b.Valid() && b.root == old(b.root) && b.version == old(b.version)
    ensures match Eval(j, |old(b.stack)|, old(b.nodes), b.maxNodes)
            case Ok(r) =>
              && ok && b.Ready() && b.nodes == r.1 && b.stack == Attach(old(b.stack), r.0)
              && b.sawVersionKey == old(b.sawVersionKey)
            case Err(e) => !ok && b.error == Some(e)
    decreases j, 1, 0
  {
    hide Addressable, Find, SetMember;
    if j.JObject? {
      ok := FeedObject(b, j);
    } else if j.JArray? {
      ok := FeedArray(b, j);
    } else {
      ok := b.OnScalar(j);
    }
  }

  method FeedObject(b: ValueBuilder, j: Json) returns (ok: bool)
    requires b.Ready() && |b.stack| <= MAX_DEPTH + 1 && j.JObject?
    modifies b
    ensures b.Valid() && b.root == old(b.root) && b.version == old(b.version)
    ensures match Eval(j, |old(b.stack)|, old(b.nodes), b.maxNodes)
            case Ok(r) =>
              && ok && b.Ready() && b.nodes == r.1 && b.stack == Attach(old(b.stack), r.0)
              && b.sawVersionKey == old(b.sawVersionKey)
            case Err(e) => !ok && b.error == Some(e)
    decreases j, 0, 0
  {
    hide Addressable, Find, Eval, EvalMembers;
    ghost var below, nodes := b.stack, b.nodes;
    EvalObject(j, |below|, nodes, b.maxNodes);
    ok := b.Start(Obj([]));
    if !ok {
      return;
    }
    ghost var done: seq<(Text, Tree)> := [];
    for k := 0 to |j.members|
      invariant b.Ready() && b.root == old(b.root) && b.version == old(b.version)
                  && b.sawVersionKey == old(b.sawVersionKey)
      invariant |b.stack| == |below| + 1 && b.stack[..|below|] == below && b.stack[|below|].container == Obj(done)
      invariant EvalMembers(j, 0, |below| + 1, nodes, b.maxNodes, []) ==
                EvalMembers(j, k, |below| + 1, b.nodes, b.maxNodes, done)
    {
      EvalMember(j, k, |below| + 1, b.nodes, b.maxNodes, done);
      ok := b.Key(j.members[k].0);
      if !ok {
        return;
      }
      ghost var before := b.nodes;
      ok := Feed(b, j.members[k].1);
      if !ok {
        return;
      }
      var value := Eval(j.members[k].1, |below| + 1, before, b.maxNodes).value.0;
      assert SetMember(done, j.members[k].0, value) == done + [(j.members[k].0, value)];
      done := done + [(j.members[k].0, value)];
    }
    EvalNoMember(j, |below| + 1, b.nodes, b.maxNodes, done);
    ok := b.PopFrame();
  }

  lemma EvalObject(j: Json, depth: nat, nodes: nat, max: nat)
    requires j.JObject?
    ensures Eval(j, depth, nodes, max) ==
            if depth > MAX_DEPTH then Err(ParseError)
            else match EvalMembers(j, 0, depth + 1, nodes, max, [])
              case Err(e) => Err(e)
              case Ok(r) => (match Count(r.1, max) case Err(e) => Err(e) case Ok(n) => Ok((Obj(r.0), n)))
  {
  }

  lemma EvalMember(j: Json, k: nat, depth: nat, nodes: nat, max: nat, done: seq<(Text, Tree)>)
    requires j.JObject? && k < |j.members|
    ensures EvalMembers(j, k, depth, nodes, max, done) ==
            if !KeyOk(j.members[k].0, done) then Err(ParseError)
            else match Eval(j.members[k].1, depth, nodes, max)
              case Err(e) => Err(e)
              case Ok(r) => EvalMembers(j, k + 1, depth, r.1, max, done + [(j.members[k].0, r.0)])
  {
  }

  lemma EvalNoMember(j: Json, depth: nat, nodes: nat, max: nat, done: seq<(Text, Tree)>)
    requires j.JObject?
    ensures EvalMembers(j, |j.members|, depth, nodes, max, done) == Ok((done, nodes))
  {
  }

  method FeedArray(b: ValueBuilder, j: Json) returns (ok: bool)
    requires b.Ready() && |b.stack| <= MAX_DEPTH + 1 && j.JArray?
    modifies b
    ensures b.Valid() && b.root == old(b.root) && b.version == old(b.version)
    ensures match Eval(j, |old(b.stack)|, old(b.nodes), b.maxNodes)
            case Ok(r) =>
              && ok && b.Ready() && b.nodes == r.1 && b.stack == Attach(old(b.stack), r.0)
              && b.sawVersionKey == old(b.sawVersionKey)
            case Err(e) => !ok && b.error == Some(e)
    decreases j, 0, 0
  {
    hide Addressable, Find, SetMember, Eval, EvalElements;
    ghost var below, nodes := b.stack, b.nodes;
    EvalArray(j, |below|, nodes, b.maxNodes);
    ok := b.Start(Arr([]));
    if !ok {
      return;
    }
    ghost var done: seq<Tree> := [];
    for k := 0 to |j.elements|
      invariant b.Ready() && b.root == old(b.root) && b.version == old(b.version)
                  && b.sawVersionKey == old(b.sawVersionKey)
      invariant |b.stack| == |below| + 1 && b.stack[..|below|] == below && b.stack[|below|].container == Arr(done)
      invariant EvalElements(j, 0, |below| + 1, nodes, b.maxNodes, []) ==
                EvalElements(j, k, |below| + 1, b.nodes, b.maxNodes, done)
    {
      EvalElement(j, k, |below| + 1, b.nodes, b.maxNodes, done);
      ghost var before := b.nodes;
      ok := Feed(b, j.elements[k]);
      if !ok {
        return;
      }
      done := done + [Eval(j.elements[k], |below| + 1, before, b.maxNodes).value.0];
    }
    EvalNoElement(j, |below| + 1, b.nodes, b.maxNodes, done);
    ok := b.PopFrame();
  }

  lemma EvalArray(j: Json, depth: nat, nodes: nat, max: nat)
    requires j.JArray?
    ensures Eval(j, depth, nodes, max) ==
            if depth > MAX_DEPTH then Err(ParseError)
            else match EvalElements(j, 0, depth + 1, nodes, max, [])
              case Err(e) => Err(e)
              case Ok(r) => (match Count(r.1, max) case Err(e) => Err(e) case Ok(n) => Ok((Arr(r.0), n)))
  {
  }

  lemma EvalElement(j: Json, k: nat, depth: nat, nodes: nat, max: nat, done: seq<Tree>)
    requires j.JArray? && k < |j.elements|
    ensures EvalElements(j, k, depth, nodes, max, done) ==
            match Eval(j.elements[k], depth, nodes, max)
            case Err(e) => Err(e)
            case Ok(r) => EvalElements(j, k + 1, depth, r.1, max, done + [r.0])
  {
  }

  lemma EvalNoElement(j: Json, depth: nat, nodes: nat, max: nat, done: seq<Tree>)
    requires j.JArray?
    ensures EvalElements(j, |j.elements|, depth, nodes, max, done) == Ok((done, nodes))
  {
  }

  /** The event, or events, of the value after the carrier key: only a native unsigned integer is taken. */
  method FeedCarrier(b: ValueBuilder, j: Json) returns (ok: bool)
    requires b.Valid() && b.stack != [] && b.nextIsCarrier && b.error == None
    modifies b
    ensures b.Valid() && b.root == old(b.root) && b.sawVersionKey == old(b.sawVersionKey)
    ensures match CarrierOf(j)
            case Ok(v) => ok && b.Ready() && b.version == Some(v) && b.stack == old(b.stack) && b.nodes == old(b.nodes)
            case Err(e) => !ok && b.error == Some(e)
  {
    if j.JObject? || j.JArray? {
      ok := b.Start(if j.JObject? then Obj([]) else Arr([]));
    } else {
      ok := b.OnScalar(j);
    }
  }

  /** Sends the events of a whole document to a fresh builder. */
  method FeedDocument(b: ValueBuilder, j: Json) returns (ok: bool)
    requires b.Valid() && b.nodes == 0 && b.stack == [] && b.root == None && b.version == None
    requires !b.sawVersionKey && !b.nextIsCarrier && b.error == None
    modifies b
    ensures match EvalDocument(j, b.maxNodes)
            case Ok(top) => ok && b.root == Some(Obj(top.members)) && b.version == top.version && b.nodes == top.nodes
            case Err(e) => !ok && b.error == Some(e)
  {
    hide Addressable, Find, Eval, EvalTop;
    if j.JArray? {
      ok := b.Start(Arr([]));
      return;
    }
    if !j.JObject? {
      ok := b.OnScalar(j);
      return;
    }
    ok := b.Start(Obj([]));
    ghost var top := Top([], 0, None);
    for k := 0 to |j.members|
      invariant Holding(b, top)
      invariant EvalTop(j.members, 0, b.maxNodes, Top([], 0, None)) == EvalTop(j.members, k, b.maxNodes, top)
    {
      EvalTopStep(j.members, k, b.maxNodes, top);
      ok := FeedTopMember(b, j.members[k].0, j.members[k].1, top);
      if !ok {
        return;
      }
      top := TopStep(j.members[k].0, j.members[k].1, b.maxNodes, top).value;
    }
    EvalTopEnd(j.members, b.maxNodes, top);
    ok := b.PopFrame();
  }

  /** The builder inside the root object, holding what `top` says. */
  ghost predicate Holding(b: ValueBuilder, top: Top)
    reads b
  {
    && b.Ready() && b.root == None
    && |b.stack| == 1 && b.stack[0].container == Obj(top.members)
    && b.nodes == top.nodes && b.version == top.version && (b.sawVersionKey <==> top.version.Some?)
  }

  method FeedTopMember(b: ValueBuilder, key: Text, value: Json, ghost top: Top) returns (ok: bool)
    requires Holding(b, top)
    modifies b
    ensures match TopStep(key, value, b.maxNodes, top)
            case Ok(next) => ok && Holding(b, next)
            case Err(e) => !ok && b.error == Some(e)
  {
    hide Addressable, Find, Eval;
    CarrierAddressable();
    ok := b.Key(key);
    if !ok {
      return;
    }
    if key == VERSION_KEY {
      ok := FeedCarrier(b, value);
    } else {
      ok := Feed(b, value);
      if ok {
        ghost var t := Eval(value, 1, top.nodes, b.maxNodes).value.0;
        assert SetMember(top.members, key, t) == top.members + [(key, t)];
      }
    }
  }

  lemma CarrierAddressable()
    ensures Addressable(VERSION_KEY)
  {
  }

  lemma EvalTopStep(members: seq<(Text, Json)>, k: nat, max: nat, top: Top)
    requires k < |members|
    ensures EvalTop(members, k, max, top) ==
            match TopStep(members[k].0, members[k].1, max, top)
            case Err(e) => Err(e)
            case Ok(next) => EvalTop(members, k + 1, max, next)
  {
  }

  lemma EvalTopEnd(members: seq<(Text, Json)>, max: nat, top: Top)
    ensures EvalTop(members, |members|, max, top) == Ok(top)
  {
  }
}

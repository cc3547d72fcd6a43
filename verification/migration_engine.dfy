/** `MigrationEngine`: the walk from a configuration's version to a target, one adjacent edge at a time. */
module MigrationEngines {
  import opened Base
  import opened Trees
  import opened TreeLaws
  import opened Ownership
  import opened NodeArena
  import opened ModelState
  import opened ConfigModels
  import opened Lifetimes
  import opened VersionCatalogs
  import opened MigrationRegistries

  class VersionedConfig {
    var version: UInt32
    var model: ConfigModel

    constructor (version: UInt32, model: ConfigModel)
      ensures this.version == version && this.model == model
    {
      this.version, this.model := version, model;
    }
  }

  // ------------------------------------------------------------------ what a migration makes of a tree

  /** One write through the API: a refused one changes nothing. */
  function Wrote(t: Tree, w: Write): Tree {
    match w
    case SetCall(path, value) => (match SetValue(t, path, value) case Ok(t') => t' case Err(_) => t)
    case RemoveCall(path) => (match RemoveValue(t, path) case Ok(t') => t' case Err(_) => t)
  }

  function Play(t: Tree, writes: seq<Write>): Tree {
    if writes == [] then t else Wrote(Play(t, writes[..|writes| - 1]), writes[|writes| - 1])
  }

  /** Writes take effect in order; a refused one is as if it had not been made. */
  lemma PlayOneMore(t: Tree, writes: seq<Write>, path: Text, value: Value)
    ensures Play(t, []) == t
    ensures var s, r := Play(t, writes), SetValue(Play(t, writes), path, value);
            Play(t, writes + [SetCall(path, value)]) == if r.Ok? then r.value else s
    ensures var s, r := Play(t, writes), RemoveValue(Play(t, writes), path);
            Play(t, writes + [RemoveCall(path)]) == if r.Ok? then r.value else s
  {
    hide SetValue, RemoveValue;
    assert forall w: Write :: (writes + [w])[..|writes|] == writes;
  }

  lemma {:induction false} PlayKeeps(t: Tree, writes: seq<Write>)
    requires ModelTree(t)
    ensures ModelTree(Play(t, writes))
  {
    if writes != [] {
      var n := |writes| - 1;
      PlayKeeps(t, writes[..n]);
      var s := Play(t, writes[..n]);
      match writes[n]
      case SetCall(path, value) => WritesKeepModels(s, path, value);
      case RemoveCall(path) => WritesKeepModels(s, path, Leaf(Null));
    }
  }

  /** The tree after one edge, whatever its verdict: a failed step may leave partial changes behind. */
  function AfterEdge(edge: Edge, t: Tree): Tree {
    Play(t, edge.apply(t).0)
  }

  // ------------------------------------------------------------------ where the walk stops

  datatype Stop = Stop(version: UInt32, tree: Tree, error: Option<ErrorCode>)

  lemma NextRanks(entries: seq<Artifact>, v: UInt32)
    requires Ascending(entries) && NextOf(entries, v).Ok?
    ensures Rank(entries, v) < Rank(entries, NextOf(entries, v).value)
    ensures v < NextOf(entries, v).value && Registered(entries, NextOf(entries, v).value)
  {
    RankSplits(entries, v);
    RankSplits(entries, NextOf(entries, v).value);
  }

  /** Every version strictly between the walk's position and its target is visited, none is skipped. */
  function Walk(entries: seq<Artifact>, edges: seq<Edge>, v: UInt32, t: Tree, target: UInt32): Stop
    requires Ascending(entries)
    decreases |entries| - Rank(entries, v)
  {
    if v >= target then Stop(v, t, None)
    else
      match NextOf(entries, v)
      case Err(e) => Stop(v, t, Some(e))
      case Ok(next) =>
        match FindEdge(edges, v, next)
        case Err(e) => Stop(v, t, Some(e))
        case Ok(edge) =>
          NextRanks(entries, v);
          if edge.apply(t).1 == Applied then Walk(entries, edges, next, AfterEdge(edge, t), target)
          else Stop(v, AfterEdge(edge, t), Some(MigrationFailed))
  }

  function Migrated(entries: seq<Artifact>, edges: seq<Edge>, v: UInt32, t: Tree, target: UInt32): Stop
    requires Ascending(entries)
  {
    if !Registered(entries, target) || v > target then Stop(v, t, Some(InvalidVersion))
    else Walk(entries, edges, v, t, target)
  }

  // ------------------------------------------------------------------ the engine

  /** Runs a callback on the model: it reads what it likes, then its writes go through the model's API. */
  method Invoke(model: ConfigModel, apply: Migration) returns (r: Outcome<Verdict>)
    requires model.Valid()
    modifies model, model.arena, model.arena.heap
    ensures model.Valid()
    ensures r.Done? ==> r.value == apply(old(model.Contents())).1
    ensures r.Done? ==> model.Contents() == Play(old(model.Contents()), apply(old(model.Contents())).0)
    ensures r.Refused? ==> false
    ensures r.OutOfMemory? ==> model.arena.heap.budget == 0
  {
    ghost var start := model.Contents();
    AtRoot(model.arena.nodes, model.root);
    var seen := BuildValue(model.arena, model.rootId, model.root, None);
    if seen.None? {
      return OutOfMemory;
    }
    hide FreeList, Represents, Erase, ModelTree, SetEffect, RemoveEffect;
    var (writes, verdict) := apply(seen.value);
    for i := 0 to |writes|
      invariant model.Valid() && model.Contents() == Play(start, writes[..i])
    {
      assert writes[..i + 1][..i] == writes[..i];
      match writes[i] {
        case SetCall(path, value) =>
          var w := model.Set(path, value);
          if w.OutOfMemory? {
            return OutOfMemory;
          }
        case RemoveCall(path) =>
          var w := model.Remove(path);
      }
    }
    assert writes[..|writes|] == writes;
    r := Done(verdict);
  }

  /** Advances the configuration in place: model and version move together, one completed step at a time. */
  method Migrate(config: VersionedConfig, catalog: VersionCatalog, registry: MigrationRegistry, target: UInt32)
    returns (r: Outcome<()>)
    requires catalog.Valid() && registry.Valid() && config.model.Valid()
    modifies config`version, config.model, config.model.arena, config.model.arena.heap
    ensures config.model.Valid()
    ensures !r.OutOfMemory? ==>
              Migrated(catalog.entries, registry.edges, old(config.version), old(config.model.Contents()), target) ==
              Stop(config.version, config.model.Contents(), if r.Done? then None else Some(r.error))
    ensures r.OutOfMemory? ==> config.model.arena.heap.budget == 0
  {
    hide FreeList, Represents, Erase, ModelTree, Registered, Rank, NextOf, FindEdge;
    var known := catalog.Contains(target);
    if !known {
      return Refused(InvalidVersion);
    }
    if config.version > target {
      return Refused(InvalidVersion);
    }
    var current := config.version;
    while current < target
      invariant config.model.Valid() && config.version == current
      invariant Walk(catalog.entries, registry.edges, old(config.version), old(config.model.Contents()), target) ==
                Walk(catalog.entries, registry.edges, current, config.model.Contents(), target)
      decreases |catalog.entries| - Rank(catalog.entries, current)
    {
      var next := catalog.NextVersion(current);
      if next.Err? {
        return Refused(next.error);
      }
      var edge := registry.FindMigration(current, next.value);
      if edge.Err? {
        return Refused(edge.error);
      }
      var applied := Invoke(config.model, edge.value.apply);
      if applied.OutOfMemory? {
        return OutOfMemory;
      }
      if applied.value != Applied {
        return Refused(MigrationFailed);
      }
      NextRanks(catalog.entries, current);
      current := next.value;
      config.version := current;
    }
    r := Done(());
  }

  // ------------------------------------------------------------------ over a validated chain

  /** Every version but the last has a next one, and an edge to it. */
  ghost predicate Linked(entries: seq<Artifact>, edges: seq<Edge>) {
    forall x :: 0 <= x < |entries| - 1 ==>
      && NextOf(entries, entries[x].version) == Ok(entries[x + 1].version)
      && FindEdge(edges, entries[x].version, entries[x + 1].version).Ok?
  }

  lemma {:induction false} ExactLinks(entries: seq<Artifact>, edges: seq<Edge>)
    requires NoRepeats(Pairs(edges)) && Ascending(entries) && Exact(edges, entries)
    ensures Linked(entries, edges)
  {
    hide NextOf, FindEdge, Exact;
    forall x | 0 <= x < |entries| - 1
      ensures NextOf(entries, entries[x].version) == Ok(entries[x + 1].version)
      ensures FindEdge(edges, entries[x].version, entries[x + 1].version).Ok?
    {
      ExactHasEdge(edges, entries, x);
    }
  }

  /** The edge out of position `k`. */
  ghost function EdgeAt(entries: seq<Artifact>, edges: seq<Edge>, k: nat): Edge
    requires Linked(entries, edges) && k < |entries| - 1
  {
    FindEdge(edges, entries[k].version, entries[k + 1].version).value
  }

  /** The edges between positions `i` and `k` of the catalog, composed in ascending order. */
  ghost function Compose(entries: seq<Artifact>, edges: seq<Edge>, t: Tree, i: nat, k: nat): Tree
    requires Linked(entries, edges) && i <= k < |entries|
    decreases k - i
  {
    if k == i then t else AfterEdge(EdgeAt(entries, edges, k - 1), Compose(entries, edges, t, i, k - 1))
  }

  /** The edge out of position `k` succeeds on the tree the walk brings there. */
  ghost predicate Succeeds(entries: seq<Artifact>, edges: seq<Edge>, t: Tree, i: nat, k: nat)
    requires Linked(entries, edges) && i <= k < |entries| - 1
  {
    EdgeAt(entries, edges, k).apply(Compose(entries, edges, t, i, k)).1 == Applied
  }

  /** From any registered version to any registered target at or above it, over a validated registry: the walk
      applies exactly the edges in between, in order, up to the first that fails. It stops at the target with
      their composition, or short of it, at the last completed version, with MigrationFailed. */
  lemma WalkStops(entries: seq<Artifact>, edges: seq<Edge>, i: nat, j: nat, t: Tree) returns (k: nat)
    requires NoRepeats(Pairs(edges)) && Ascending(entries) && Exact(edges, entries)
    requires i <= j < |entries|
    ensures Linked(entries, edges) && i <= k <= j
    ensures forall x :: i <= x < k ==> Succeeds(entries, edges, t, i, x)
    ensures k < j ==> !Succeeds(entries, edges, t, i, k)
    ensures Migrated(entries, edges, entries[i].version, t, entries[j].version) ==
            if k == j then Stop(entries[j].version, Compose(entries, edges, t, i, j), None)
            else Stop(entries[k].version, Compose(entries, edges, t, i, k + 1), Some(MigrationFailed))
  {
    hide Linked, Exact, Succeeds, Walk, Compose, Migrated, Ascending, NoRepeats, Pairs;
    ExactLinks(entries, edges);
    ComposeStart(entries, edges, t, i);
    k := WalkFrom(entries, edges, i, i, j, t);
    MigratedIsWalk(entries, edges, i, j, t);
  }

  lemma MigratedIsWalk(entries: seq<Artifact>, edges: seq<Edge>, i: nat, j: nat, t: Tree)
    requires Ascending(entries) && i <= j < |entries|
    ensures Migrated(entries, edges, entries[i].version, t, entries[j].version) ==
            Walk(entries, edges, entries[i].version, t, entries[j].version)
  {
    assert entries[i].version <= entries[j].version;
    hide Walk;
  }

  lemma ComposeStart(entries: seq<Artifact>, edges: seq<Edge>, t: Tree, i: nat)
    requires Linked(entries, edges) && i < |entries|
    ensures Compose(entries, edges, t, i, i) == t
  {
  }

  /** One turn of the walk, at a position of the catalog. */
  lemma WalkStep(entries: seq<Artifact>, edges: seq<Edge>, at: nat, j: nat, t: Tree)
    requires Ascending(entries) && Linked(entries, edges) && at < j < |entries|
    ensures Walk(entries, edges, entries[at].version, t, entries[j].version) ==
            if EdgeAt(entries, edges, at).apply(t).1 == Applied then
              Walk(entries, edges, entries[at + 1].version, AfterEdge(EdgeAt(entries, edges, at), t),
                   entries[j].version)
            else Stop(entries[at].version, AfterEdge(EdgeAt(entries, edges, at), t), Some(MigrationFailed))
  {
    hide NextOf, FindEdge, AfterEdge;
    assert entries[at].version < entries[j].version;
  }

  lemma {:induction false} WalkFrom(entries: seq<Artifact>, edges: seq<Edge>, i: nat, at: nat, j: nat, t: Tree)
    returns (k: nat)
    requires Ascending(entries) && Linked(entries, edges) && i <= at <= j < |entries|
    ensures at <= k <= j
    ensures forall x :: at <= x < k ==> Succeeds(entries, edges, t, i, x)
    ensures k < j ==> !Succeeds(entries, edges, t, i, k)
    ensures Walk(entries, edges, entries[at].version, Compose(entries, edges, t, i, at), entries[j].version) ==
            if k == j then Stop(entries[j].version, Compose(entries, edges, t, i, j), None)
            else Stop(entries[k].version, Compose(entries, edges, t, i, k + 1), Some(MigrationFailed))
    decreases j - at
  {
    hide NextOf, FindEdge, AfterEdge, Linked, EdgeAt, Ascending;
    if at == j {
      k := j;
    } else {
      WalkStep(entries, edges, at, j, Compose(entries, edges, t, i, at));
      if Succeeds(entries, edges, t, i, at) {
        k := WalkFrom(entries, edges, i, at + 1, j, t);
      } else {
        k := at;
      }
    }
  }

  lemma {:induction false} ComposeKeeps(entries: seq<Artifact>, edges: seq<Edge>, t: Tree, i: nat, k: nat)
    requires Linked(entries, edges) && i <= k < |entries| && ModelTree(t)
    ensures ModelTree(Compose(entries, edges, t, i, k))
    decreases k - i
  {
    if i < k {
      ComposeKeeps(entries, edges, t, i, k - 1);
      var s := Compose(entries, edges, t, i, k - 1);
      PlayKeeps(s, EdgeAt(entries, edges, k - 1).apply(s).0);
    }
  }

  /** Whatever the callbacks write, the walk leads from models to models. */
  lemma {:induction false} WalkKeeps(entries: seq<Artifact>, edges: seq<Edge>, v: UInt32, t: Tree, target: UInt32)
    requires Ascending(entries) && ModelTree(t)
    ensures ModelTree(Walk(entries, edges, v, t, target).tree)
    decreases |entries| - Rank(entries, v)
  {
    if v < target && NextOf(entries, v).Ok? {
      var next := NextOf(entries, v).value;
      if FindEdge(edges, v, next).Ok? {
        var edge := FindEdge(edges, v, next).value;
        NextRanks(entries, v);
        PlayKeeps(t, edge.apply(t).0);
        if edge.apply(t).1 == Applied {
          WalkKeeps(entries, edges, next, AfterEdge(edge, t), target);
        }
      }
    }
  }
}

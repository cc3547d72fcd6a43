/** `ConfigRuntime`: validating construction, and `synchronize` as one transaction. */
module ConfigRuntimes {
  import opened Base
  import opened Trees
  import opened Ownership
  import opened NodeArena
  import opened ModelState
  import opened ConfigModels
  import opened Merging
  import opened Repair
  import opened VersionCatalogs
  import opened MigrationRegistries
  import opened MigrationEngines

  datatype SyncStatus = InSync | UpgradeRequired | DowngradeRequired

  datatype SyncState = SyncState(currentVersion: UInt32, targetVersion: UInt32, status: SyncStatus)

  /** What synchronizing a configuration comes to: its status, and the version and tree it then has. */
  datatype Synced = Synced(status: SyncStatus, version: UInt32, tree: Tree)

  /** The end of the pipeline: an error in the walk or in the defaults is the result, else the repaired tree is. */
  ghost function Repaired(stop: Stop, defaults: Result<Tree>): Result<Synced>
    requires stop.tree.Obj? && (defaults.Ok? ==> defaults.value.Obj?)
  {
    if stop.error.Some? then Err(stop.error.value)
    else match defaults
      case Err(e) => Err(e)
      case Ok(d) => Ok(Synced(InSync, stop.version, Merge(stop.tree, d)))
  }

  /** The whole pipeline on values: refuse, or migrate and then repair against the target's defaults. */
  ghost function Sync(entries: seq<Artifact>, edges: seq<Edge>, version: UInt32, t: Tree,
                      supported: UInt32): Result<Synced>
    requires Ascending(entries) && ModelTree(t)
  {
    if !Registered(entries, supported) then Err(InvalidVersion)
    else if version > supported then Ok(Synced(DowngradeRequired, version, t))
    else if version < supported && !Registered(entries, version) then Err(InvalidVersion)
    else
      WalkKeeps(entries, edges, version, t, supported);
      Repaired(if version < supported then Migrated(entries, edges, version, t, supported) else Stop(version, t, None),
               DefaultOf(entries, supported))
  }

  class ConfigRuntime {
    const catalog: VersionCatalog
    const registry: MigrationRegistry

    ghost predicate Valid()
      reads this, catalog, registry
    {
      catalog.Valid() && registry.Valid() && catalog.entries != [] && Exact(registry.edges, catalog.entries)
    }

    constructor Over(catalog: VersionCatalog, registry: MigrationRegistry)
      requires catalog.Valid() && registry.Valid() && catalog.entries != [] && Exact(registry.edges, catalog.entries)
      ensures Valid() && this.catalog == catalog && this.registry == registry
    {
      this.catalog, this.registry := catalog, registry;
    }

    /** A runtime exists only over a catalog with a complete and exact chain of migrations. */
    static method Create(catalog: VersionCatalog, registry: MigrationRegistry) returns (r: Result<ConfigRuntime>)
      requires catalog.Valid() && registry.Valid()
      ensures r.Ok? <==> catalog.entries != [] && Exact(registry.edges, catalog.entries)
      ensures r.Ok? ==> fresh(r.value) && r.value.Valid() && r.value.catalog == catalog && r.value.registry == registry
      ensures r.Err? ==>
                r.error == if catalog.entries == []
                              || exists x :: x in Pairs(registry.edges) && x !in Adjacent(catalog.entries)
                           then InvalidVersion else MissingMigration
    {
      var versions := catalog.Versions();
      if versions == [] {
        return Err(InvalidVersion);
      }
      var validated := registry.Validate(catalog);
      if validated.Err? {
        return Err(validated.error);
      }
      var runtime := new ConfigRuntime.Over(catalog, registry);
      r := Ok(runtime);
    }

    function Inspect(config: VersionedConfig, supported: UInt32): (s: SyncState)
      reads config
      ensures s.status.UpgradeRequired? <==> config.version < supported
      ensures s.status.DowngradeRequired? <==> config.version > supported
      ensures s.currentVersion == config.version && s.targetVersion == supported
    {
      SyncState(config.version, supported,
                if config.version < supported then UpgradeRequired
                else if config.version > supported then DowngradeRequired else InSync)
    }

    method SupportsVersion(version: UInt32) returns (known: bool)
      requires Valid()
      ensures known <==> Registered(catalog.entries, version)
    {
      known := catalog.Contains(version);
    }

    /** The model becomes its merge with the defaults of `target`, and the answer says whether that changed it. */
    method RepairModel(model: ConfigModel, target: UInt32) returns (r: Outcome<bool>)
      requires Valid() && model.Valid()
      modifies model, model.arena, model.arena.heap
      ensures model.Valid()
      ensures r.Done? ==> DefaultOf(catalog.entries, target).Ok?
                          && model.Contents() == Merge(old(model.Contents()), DefaultOf(catalog.entries, target).value)
      ensures r.Done? ==> (r.value <==> model.Contents() != old(model.Contents()))
      ensures r.Refused? ==>
                DefaultOf(catalog.entries, target) == Err(r.error) && model.Contents() == old(model.Contents())
      ensures r.OutOfMemory? ==> model.arena.heap.budget == 0
    {
      hide FreeList, Represents, Erase, ModelTree, Merge, DefaultOf, Exact, Ascending;
      var defaults := catalog.CreateDefault(model.arena.heap, target);
      if defaults.Refused? {
        return Refused(defaults.error);
      }
      if defaults.OutOfMemory? {
        return OutOfMemory;
      }
      r := FillFromRoot(model, defaults.value);
    }

    /** All work happens on a clone; `config` changes in one step at the end, or not at all. The model object it
        held before is never written to, whatever happens. */
    method Synchronize(config: VersionedConfig, supported: UInt32) returns (r: Outcome<SyncStatus>)
      requires Valid() && config.model.Valid()
      modifies config, config.model.arena.heap
      ensures config.model.Valid()
      ensures r.Done? ==>
                Sync(catalog.entries, registry.edges, old(config.version), old(config.model.Contents()), supported) ==
                Ok(Synced(r.value, config.version, config.model.Contents()))
      ensures r.Refused? ==>
                Sync(catalog.entries, registry.edges, old(config.version), old(config.model.Contents()), supported) ==
                Err(r.error)
      ensures !r.Done? || r.value != InSync ==>
                config.version == old(config.version) && config.model == old(config.model)
      ensures config.version == old(config.version) && config.model.Contents() == old(config.model.Contents()) ==>
                config.model == old(config.model)
      ensures config.model == old(config.model) || fresh(config.model)
      ensures config.model.arena.heap == old(config.model.arena.heap)
      ensures r.OutOfMemory? ==> old(config.model).arena.heap.budget == 0
    {
      hide FreeList, Represents, Erase, ModelTree, Merge, DefaultOf, Exact, Ascending, Registered, Walk;
      var known := catalog.Contains(supported);
      if !known {
        return Refused(InvalidVersion);
      }
      var state := Inspect(config, supported);
      if state.status == DowngradeRequired {
        return Done(DowngradeRequired);
      }
      if state.status == UpgradeRequired {
        var registered := catalog.Contains(config.version);
        if !registered {
          return Refused(InvalidVersion);
        }
      }
      var copy := config.model.Clone();
      if copy.None? {
        return OutOfMemory;
      }
      var working := new VersionedConfig(config.version, copy.value);
      var migrated := false;
      if state.status == UpgradeRequired {
        var outcome := Migrate(working, catalog, registry, supported);
        if outcome.OutOfMemory? {
          return OutOfMemory;
        }
        if outcome.Refused? {
          return Refused(outcome.error);
        }
        MigratedVersion(catalog.entries, registry.edges, config.version, config.model.Contents(), supported);
        migrated := true;
      }
      var repaired := RepairModel(working.model, supported);
      if repaired.OutOfMemory? {
        return OutOfMemory;
      }
      if repaired.Refused? {
        return Refused(repaired.error);
      }
      if migrated || repaired.value {
        config.version, config.model := working.version, working.model;
      }
      r := Done(InSync);
    }

    /** Towards the latest registered version, which `Create` guarantees to exist. */
    method SynchronizeLatest(config: VersionedConfig) returns (r: Outcome<SyncStatus>)
      requires Valid() && config.model.Valid()
      modifies config, config.model.arena.heap
      ensures config.model.Valid()
      ensures r.Done? ==>
                Sync(catalog.entries, registry.edges, old(config.version), old(config.model.Contents()),
                     catalog.entries[|catalog.entries| - 1].version) ==
                Ok(Synced(r.value, config.version, config.model.Contents()))
      ensures r.Refused? ==>
                Sync(catalog.entries, registry.edges, old(config.version), old(config.model.Contents()),
                     catalog.entries[|catalog.entries| - 1].version) == Err(r.error)
      ensures !r.Done? || r.value != InSync ==>
                config.version == old(config.version) && config.model == old(config.model)
      ensures config.version == old(config.version) && config.model.Contents() == old(config.model.Contents()) ==>
                config.model == old(config.model)
      ensures config.model == old(config.model) || fresh(config.model)
      ensures r.OutOfMemory? ==> old(config.model).arena.heap.budget == 0
    {
      var latest := catalog.LatestVersion();
      LatestIs(catalog.entries, latest.value);
      r := Synchronize(config, latest.value);
    }
  }

  lemma LatestIs(entries: seq<Artifact>, v: UInt32)
    requires entries != [] && Registered(entries, v) && forall i :: 0 <= i < |entries| ==> entries[i].version <= v
    requires Ascending(entries)
    ensures v == entries[|entries| - 1].version
  {
  }

  /** A walk that finishes has come from below its target, to exactly its target. */
  lemma {:induction false} MigratedVersion(entries: seq<Artifact>, edges: seq<Edge>, v: UInt32, t: Tree, target: UInt32)
    requires Ascending(entries) && Migrated(entries, edges, v, t, target).error.None?
    ensures v <= Migrated(entries, edges, v, t, target).version == target
  {
    NeverOvershoots(entries, edges, v, t, target);
  }

  lemma {:induction false} NeverOvershoots(entries: seq<Artifact>, edges: seq<Edge>, v: UInt32, t: Tree, target: UInt32)
    requires Ascending(entries) && Registered(entries, target) && v <= target
    ensures v <= Walk(entries, edges, v, t, target).version <= target
    ensures Walk(entries, edges, v, t, target).error.None? ==> Walk(entries, edges, v, t, target).version == target
    decreases |entries| - Rank(entries, v)
  {
    if v < target && NextOf(entries, v).Ok? {
      var next := NextOf(entries, v).value;
      NextRanks(entries, v);
      RankSplits(entries, v);
      RankSplits(entries, target);
      assert next <= target;
      if FindEdge(edges, v, next).Ok? {
        NeverOvershoots(entries, edges, next, AfterEdge(FindEdge(edges, v, next).value, t), target);
      }
    }
  }

  /** What synchronizing from position `i` to position `j` of the catalog should come to. */
  ghost function Expected(entries: seq<Artifact>, edges: seq<Edge>, i: nat, j: nat, t: Tree): Result<Synced>
    requires Linked(entries, edges) && i <= j < |entries| && ModelTree(t)
  {
    ComposeKeeps(entries, edges, t, i, j);
    var defaults := DefaultOf(entries, entries[j].version);
    if exists x :: i <= x < j && !Succeeds(entries, edges, t, i, x) then Err(MigrationFailed)
    else if defaults.Err? then Err(defaults.error)
    else Ok(Synced(InSync, entries[j].version, Merge(Compose(entries, edges, t, i, j), defaults.value)))
  }

  /** From any registered version to any supported one at or above it: if every edge in between succeeds and the
      defaults can be made, the repair of the composed chain, at exactly the supported version; else an error. */
  lemma SyncIs(entries: seq<Artifact>, edges: seq<Edge>, i: nat, j: nat, t: Tree)
    requires NoRepeats(Pairs(edges)) && Ascending(entries) && Exact(edges, entries) && ModelTree(t)
    requires i <= j < |entries|
    ensures Linked(entries, edges)
    ensures Sync(entries, edges, entries[i].version, t, entries[j].version) == Expected(entries, edges, i, j, t)
  {
    var k := WalkStops(entries, edges, i, j, t);
    ComposeKeeps(entries, edges, t, i, k);
    ComposeKeeps(entries, edges, t, i, j);
    WalkKeeps(entries, edges, entries[i].version, t, entries[j].version);
    hide Linked, Exact, Compose, Walk, Merge, DefaultOf, Succeeds, Migrated, Sync;
    SyncByWalk(entries, edges, i, j, t);
  }

  lemma SyncByWalk(entries: seq<Artifact>, edges: seq<Edge>, i: nat, j: nat, t: Tree)
    requires Ascending(entries) && ModelTree(t) && i <= j < |entries|
    ensures Migrated(entries, edges, entries[i].version, t, entries[j].version).tree.Obj?
    ensures Sync(entries, edges, entries[i].version, t, entries[j].version) ==
            Repaired(Migrated(entries, edges, entries[i].version, t, entries[j].version),
                     DefaultOf(entries, entries[j].version))
  {
    WalkKeeps(entries, edges, entries[i].version, t, entries[j].version);
    assert i < j ==> entries[i].version < entries[j].version;
    AtTarget(entries, edges, i, t);
    hide ModelTree, DefaultOf, Walk, Migrated, Repaired;
  }

  lemma AtTarget(entries: seq<Artifact>, edges: seq<Edge>, i: nat, t: Tree)
    requires Ascending(entries) && i < |entries|
    ensures Migrated(entries, edges, entries[i].version, t, entries[i].version) == Stop(entries[i].version, t, None)
    ensures Registered(entries, entries[i].version)
  {
  }

  /** Unregistered versions are refused before any work. Every other outcome leaves a model, and never a version
      above the supported one unless it was there before. */
  lemma SyncKeeps(entries: seq<Artifact>, edges: seq<Edge>, version: UInt32, t: Tree, supported: UInt32)
    requires Ascending(entries) && ModelTree(t)
    ensures !Registered(entries, supported) || (version < supported && !Registered(entries, version)) ==>
              Sync(entries, edges, version, t, supported) == Err(InvalidVersion)
    ensures Registered(entries, supported) && version > supported ==>
              Sync(entries, edges, version, t, supported) == Ok(Synced(DowngradeRequired, version, t))
    ensures Sync(entries, edges, version, t, supported).Ok? ==>
              var s := Sync(entries, edges, version, t, supported).value;
              && ModelTree(s.tree)
              && (s.status == InSync || (s.status == DowngradeRequired && s.version == version && s.tree == t))
              && (s.status == InSync <==> version <= supported)
              && (s.status == InSync ==> s.version == supported)
  {
    if Sync(entries, edges, version, t, supported).Ok? && version <= supported {
      var stop := if version < supported then Migrated(entries, edges, version, t, supported)
                  else Stop(version, t, None);
      WalkKeeps(entries, edges, version, t, supported);
      NeverOvershoots(entries, edges, version, t, supported);
      MergeValid(stop.tree, DefaultOf(entries, supported).value, 0);
    }
  }

  /** With fixed factories a second call finds nothing to do: same version, same tree, so no commit. */
  lemma SyncTwice(entries: seq<Artifact>, edges: seq<Edge>, version: UInt32, t: Tree, supported: UInt32)
    requires Ascending(entries) && ModelTree(t) && Sync(entries, edges, version, t, supported).Ok?
    ensures var s := Sync(entries, edges, version, t, supported).value;
            ModelTree(s.tree) && Sync(entries, edges, s.version, s.tree, supported) == Ok(s)
  {
    SyncKeeps(entries, edges, version, t, supported);
    if version <= supported {
      var stop := if version < supported then Migrated(entries, edges, version, t, supported)
                  else Stop(version, t, None);
      WalkKeeps(entries, edges, version, t, supported);
      MergeTwice(stop.tree, DefaultOf(entries, supported).value);
    }
  }
}

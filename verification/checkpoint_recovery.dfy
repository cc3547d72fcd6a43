/** Recovery after a firmware downgrade: prepare, let the application judge, commit. */
module CheckpointRecovery {
  import opened Base
  import opened Trees
  import opened Ownership
  import opened NodeArena
  import opened ModelState
  import opened ConfigModels
  import opened VersionCatalogs
  import opened MigrationRegistries
  import opened ConfigRuntimes
  import opened Disks
  import opened CheckpointStores
  import opened CheckpointPruning
  import opened CheckpointRestore

  type Saver = Config -> Result<Text>

  /** A backend's limits on what it loads. Saving ignores them. */
  datatype Limits = Limits(maxInputBytes: nat, maxNodes: nat)

  predicate Within(limits: Limits, bytes: Text, t: Tree) {
    |bytes| <= limits.maxInputBytes && Size(t) <= limits.maxNodes
  }

  /** What the backend saves it loads back if it is within the limits, and refuses otherwise. */
  ghost predicate LoadUndoesSave(load: Loader, save: Saver, limits: Limits) {
    forall c: Config :: ModelTree(c.tree) && save(c).Ok? ==> LoadsBack(load, save(c).value, c, limits)
  }

  ghost predicate LoadsBack(load: Loader, bytes: Text, c: Config, limits: Limits) {
    if Within(limits, bytes, c.tree) then load(bytes) == Ok(c) else load(bytes).Err?
  }

  datatype Ending = NoCandidate | Declined(name: Text) | Restored(name: Text)

  datatype Recovery = Recovery(rejected: Rejected, ending: Ending) {
    function Chosen(): Option<Text> {
      if ending.NoCandidate? then None else Some(ending.name)
    }
  }

  /** The configuration that the verified checkpoint called `name` synchronizes to. */
  ghost predicate SynchronizesTo(options: Options, load: Loader, files: Files, entries: seq<Artifact>,
                                 edges: seq<Edge>, supported: UInt32, name: Text, config: Config)
    requires LoadsModels(load) && Ascending(entries)
  {
    && config.version == supported
    && exists e ::
         && IsEntry(options, load, files, e) && e.name == name
         && Synchronized(options, load, files, entries, edges, e, supported) ==
            Ok(Synced(InSync, supported, config.tree))
  }

  /** The canonical file has been replaced by the saved form of `config`, and nothing else has changed. */
  ghost predicate Replacing(options: Options, save: Saver, before: Files, after: Files, config: Config) {
    var p := options.Canonical();
    p in after && after == before[p := after[p]] && save(config) == Ok(after[p].bytes)
  }

  /** Searches the checkpoints and, if the application accepts what was found, commits it. What was found is the
      highest-ranked checkpoint that synchronizes, and nothing is found only if all fail. */
  method Recover(options: Options, disk: Disk, names: TempNames, runtime: ConfigRuntime, heap: Heap,
                 supported: UInt32, load: Loader, save: Saver, accept: Config -> bool)
    returns (r: Outcome<Recovery>)
    requires runtime.Valid() && LoadsModels(load) && disk.Valid()
    modifies heap, disk, names
    ensures disk.Valid() && old(disk.past) <= disk.past
    ensures r.Done? ==>
              Found(options, load, old(disk.files), runtime.catalog.entries, runtime.registry.edges, supported,
                    r.value.rejected, r.value.Chosen())
    ensures r.Done? && r.value.ending.Restored? ==>
              exists config: Config ::
                && SynchronizesTo(options, load, old(disk.files), runtime.catalog.entries, runtime.registry.edges,
                                  supported, r.value.ending.name, config)
                && ModelTree(config.tree) && accept(config)
                && Replacing(options, save, old(disk.files), disk.files, config)
    ensures r.Done? && !r.value.ending.Restored? ==> disk.files == old(disk.files)
    ensures !r.Done? ==> SameAt(old(disk.files), disk.files, options.Canonical())
  {
    hide Found, Exact, ModelTree, LoadsModels, Synchronized, IsEntry, Replaced, Represents, Holds, Erase;
    var search := PrepareRestore(options, disk, runtime, heap, supported, load);
    if search.OutOfMemory? {
      return OutOfMemory;
    }
    if search.Refused? {
      return Refused(search.error);
    }
    var rejected := search.value.rejected;
    if search.value.candidate.None? {
      return Done(Recovery(rejected, NoCandidate));
    }
    var name, found := search.value.candidate.value.name, search.value.candidate.value.config;
    AtRoot(found.model.arena.nodes, found.model.root);
    ModelIsValue(found.model.Contents());
    var tree := BuildValue(found.model.arena, found.model.rootId, found.model.root, None);
    if tree.None? {
      return OutOfMemory;
    }
    var config := Config(found.version, tree.value);
    assert SynchronizesTo(options, load, disk.files, runtime.catalog.entries, runtime.registry.edges, supported,
                          name, config);
    if !accept(config) {
      return Done(Recovery(rejected, Declined(name)));
    }
    var committed := Commit(options, disk, names, save(config));
    if committed.Err? {
      return Refused(committed.error);
    }
    assert Replacing(options, save, old(disk.files), disk.files, config);
    r := Done(Recovery(rejected, Restored(name)));
  }

  /** After a recovery the canonical file loads as the recovered configuration if and only if it is within the
      backend's limits, and it can be captured again if and only if it is also readable and within the store's size
      limit. Committing checks none of this. */
  ghost predicate Reloads(options: Options, load: Loader, after: Files, config: Config, limits: Limits)
    requires options.Canonical() in after
  {
    var file := after[options.Canonical()];
    && (load(file.bytes) == Ok(config) <==> Within(limits, file.bytes, config.tree))
    && (Capturable(options, load, after, config.version) <==>
          file.readable && |file.bytes| <= options.maxBytes && Within(limits, file.bytes, config.tree))
  }

  lemma RecoveredLoads(options: Options, load: Loader, save: Saver, before: Files, after: Files, config: Config,
                       limits: Limits)
    requires LoadUndoesSave(load, save, limits) && ModelTree(config.tree)
    requires Replacing(options, save, before, after, config)
    ensures Reloads(options, load, after, config, limits)
  {
    hide ModelTree, Within;
    var file := after[options.Canonical()];
    assert LoadsBack(load, file.bytes, config, limits);
  }
}

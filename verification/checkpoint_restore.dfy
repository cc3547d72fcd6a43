/** `cpPrepareRestore`: the best checkpoint that the running firmware can bring to its own version. */
module CheckpointRestore {
  import opened Base
  import opened Trees
  import opened NodeArena
  import opened ConfigModels
  import opened VersionCatalogs
  import opened MigrationRegistries
  import opened MigrationEngines
  import opened ConfigRuntimes
  import opened Filenames
  import opened Ranking
  import opened Disks
  import opened CheckpointStores
  import opened CheckpointPruning

  /** Backends return models. */
  ghost predicate LoadsModels(load: Loader) {
    forall bytes :: load(bytes).Ok? ==> ModelTree(load(bytes).value.tree)
  }

  /** Why a file is no candidate, if it is none: newer than supported comes before an unknown time stamp. */
  function Unfit(options: Options, load: Loader, files: Files, p: Path, supported: UInt32): Option<ErrorCode> {
    var loaded := LoadFile(options, load, files, p);
    if loaded.Err? then Some(loaded.error)
    else if loaded.value.version > supported then Some(InvalidVersion)
    else if p in files && files[p].stamped then None
    else Some(StorageError)
  }

  ghost function Eligible(options: Options, load: Loader, files: Files, supported: UInt32): set<Entry> {
    set e | e in Verified(options, load, files) && e.version <= supported
  }

  /** The tree of a verified checkpoint. */
  function TreeOf(options: Options, load: Loader, files: Files, e: Entry): Tree
    requires IsEntry(options, load, files, e)
  {
    load(files[Store(e.name)].bytes).value.tree
  }

  /** What synchronizing a checkpoint comes to. */
  ghost function Synchronized(options: Options, load: Loader, files: Files, entries: seq<Artifact>, edges: seq<Edge>,
                              e: Entry, supported: UInt32): Result<Synced>
    requires LoadsModels(load) && Ascending(entries) && IsEntry(options, load, files, e)
  {
    Sync(entries, edges, e.version, TreeOf(options, load, files, e), supported)
  }

  datatype Prepared = Prepared(name: Text, sourceVersion: UInt32, config: VersionedConfig)
  datatype Search = Search(rejected: Rejected, candidate: Option<Prepared>) {
    function Chosen(): Option<Text> {
      if candidate.Some? then Some(candidate.value.name) else None
    }
  }

  // ------------------------------------------------------------------ loading the candidates

  /** The listed files that are no candidates, each with its reason. */
  ghost predicate Unfitting(options: Options, load: Loader, files: Files, names: seq<Text>, k: nat, supported: UInt32,
                            rejected: Rejected)
    requires k <= |names|
  {
    && (forall i :: 0 <= i < |rejected| ==>
          rejected[i].0 in names[..k]
          && Unfit(options, load, files, Store(rejected[i].0), supported) == Some(rejected[i].1))
    && (forall i :: 0 <= i < k && Unfit(options, load, files, Store(names[i]), supported).Some? ==>
          (names[i], Unfit(options, load, files, Store(names[i]), supported).value) in rejected)
  }

  ghost function SeenUpTo(options: Options, load: Loader, files: Files, names: seq<Text>, k: nat,
                          supported: UInt32): set<Entry>
    requires k <= |names|
  {
    set e | e in Seen(options, load, files, names, k) && e.version <= supported
  }

  lemma UnfitIs(options: Options, load: Loader, files: Files, p: Path, supported: UInt32)
    ensures Unfit(options, load, files, p, supported) == None <==>
            Rejection(options, load, files, p) == None && EntryOf(options, load, files, p).version <= supported
    ensures Rejection(options, load, files, p) == None ==>
              && p in files && load(files[p].bytes).Ok?
              && EntryOf(options, load, files, p).version == load(files[p].bytes).value.version
  {
  }

  /** Why a checkpoint is no candidate: it cannot be read, or not be loaded, or is newer than supported, or has no
      time stamp, and the first of these is reported. */
  lemma UnfitCodes(options: Options, load: Loader, files: Files, p: Path, supported: UInt32)
    requires p in files && Shaped(options, p)
    ensures var file, loaded := files[p], load(files[p].bytes);
            Unfit(options, load, files, p, supported) ==
            if !file.readable || |file.bytes| > options.maxBytes then Some(StorageError)
            else if loaded.Err? then Some(loaded.error)
            else if loaded.value.version > supported then Some(InvalidVersion)
            else if !file.stamped then Some(StorageError) else None
  {
  }

  method LoadCandidates(options: Options, disk: Disk, names: seq<Text>, load: Loader, supported: UInt32)
    returns (candidates: seq<Entry>, trees: map<Text, Tree>, rejected: Rejected)
    requires forall i, j :: 0 <= i < j < |names| ==> names[i] != names[j]
    requires forall name :: name in names <==> Store(name) in disk.files && Shaped(options, Store(name))
    ensures DistinctNames(candidates) && Elements(candidates) == Eligible(options, load, disk.files, supported)
    ensures forall e :: e in Elements(candidates) ==>
              IsEntry(options, load, disk.files, e) && e.name in trees
              && trees[e.name] == TreeOf(options, load, disk.files, e)
    ensures Unfitting(options, load, disk.files, names, |names|, supported, rejected)
  {
    hide Verified, Rejection, EntryOf, Shaped, Unfit, DistinctNames, Elements, IsEntry, TreeOf;
    candidates, trees, rejected := [], map[], [];
    NoCandidates(options, load, disk.files, names, supported);
    for k := 0 to |names|
      invariant DistinctNames(candidates)
      invariant Elements(candidates) == SeenUpTo(options, load, disk.files, names, k, supported)
      invariant forall e :: e in Elements(candidates) ==>
                  IsEntry(options, load, disk.files, e) && e.name in trees && e.name in names[..k]
                  && trees[e.name] == TreeOf(options, load, disk.files, e)
      invariant Unfitting(options, load, disk.files, names, k, supported, rejected)
    {
      var p := Store(names[k]);
      assert names[k] in names;
      SeenNext(options, load, disk.files, names, k);
      ByName(options, load, disk.files);
      UnfitIs(options, load, disk.files, p, supported);
      assert names[..k + 1] == names[..k] + [names[k]];
      assert names[k] !in names[..k];
      var problem := Unfit(options, load, disk.files, p, supported);
      if problem.Some? {
        rejected := rejected + [(names[k], problem.value)];
      } else {
        var e := EntryOf(options, load, disk.files, p);
        ElementsPush(candidates, e);
        NamesPush(candidates, e);
        TreeIs(options, load, disk.files, e);
        candidates, trees := candidates + [e], trees[names[k] := load(disk.files[p].bytes).value.tree];
      }
    }
    AllSeen(options, load, disk.files, names);
  }

  lemma NoCandidates(options: Options, load: Loader, files: Files, names: seq<Text>, supported: UInt32)
    ensures DistinctNames([]) && Elements([]) == {}
    ensures SeenUpTo(options, load, files, names, 0, supported) == {}
  {
  }

  lemma NamesPush(s: seq<Entry>, e: Entry)
    requires DistinctNames(s) && forall f :: f in Elements(s) ==> f.name != e.name
    ensures DistinctNames(s + [e])
  {
    forall j | 0 <= j < |s|
      ensures s[j].name != e.name
    {
      assert s[j] in Elements(s);
    }
  }

  lemma TreeIs(options: Options, load: Loader, files: Files, e: Entry)
    requires IsEntry(options, load, files, e)
    ensures Store(e.name) in files && load(files[Store(e.name)].bytes).Ok?
    ensures TreeOf(options, load, files, e) == load(files[Store(e.name)].bytes).value.tree
    ensures LoadsModels(load) ==> ModelTree(TreeOf(options, load, files, e))
  {
  }

  // ------------------------------------------------------------------ trying them

  /** The first `k` ranked candidates could not be synchronized, and are reported after the others. */
  ghost predicate Tried(options: Options, load: Loader, files: Files, entries: seq<Artifact>, edges: seq<Edge>,
                        supported: UInt32, ranked: seq<Entry>, k: nat, first: Rejected, rejected: Rejected)
    requires LoadsModels(load) && Ascending(entries) && k <= |ranked|
    requires forall i :: 0 <= i < |ranked| ==> IsEntry(options, load, files, ranked[i])
  {
    && |rejected| == |first| + k && first <= rejected
    && forall i :: 0 <= i < k ==>
         && rejected[|first| + i].0 == ranked[i].name
         && Synchronized(options, load, files, entries, edges, ranked[i], supported) == Err(rejected[|first| + i].1)
  }

  /** Tries one candidate. Synchronizing a model that is not newer ends at the supported version or in an error,
      so the status check after it never fires. */
  method Try(runtime: ConfigRuntime, heap: Heap, version: UInt32, tree: Value, supported: UInt32)
    returns (r: Outcome<VersionedConfig>)
    requires runtime.Valid() && ModelTree(tree) && version <= supported
    modifies heap
    ensures r.Done? ==>
              && fresh(r.value) && r.value.model.Valid() && r.value.version == supported
              && r.value.model.arena.heap == heap
              && Sync(runtime.catalog.entries, runtime.registry.edges, version, tree, supported) ==
                 Ok(Synced(InSync, supported, r.value.model.Contents()))
    ensures r.Refused? ==>
              Sync(runtime.catalog.entries, runtime.registry.edges, version, tree, supported) == Err(r.error)
    ensures r.OutOfMemory? ==> heap.budget == 0
  {
    hide ModelTree, Exact, Ascending;
    var model := ConfigModel.FromValue(heap, tree);
    if model.OutOfMemory? {
      return OutOfMemory;
    }
    var config := new VersionedConfig(version, model.value);
    var status := runtime.Synchronize(config, supported);
    if status.OutOfMemory? {
      return OutOfMemory;
    }
    if status.Refused? {
      return Refused(status.error);
    }
    SyncKeeps(runtime.catalog.entries, runtime.registry.edges, version, tree, supported);
    if status.value != InSync || config.version != supported {
      assert false;
    }
    r := Done(config);
  }

  /** Searches the checkpoints and changes none. The candidate is the highest-ranked one that synchronizes. */
  method PrepareRestore(options: Options, disk: Disk, runtime: ConfigRuntime, heap: Heap, supported: UInt32,
                        load: Loader)
    returns (r: Outcome<Search>)
    requires runtime.Valid() && LoadsModels(load)
    modifies heap
    ensures r.Refused? ==>
              r.error == if Registered(runtime.catalog.entries, supported) then StorageError else InvalidVersion
    ensures r.OutOfMemory? ==> heap.budget == 0
    ensures r.Done? ==> Registered(runtime.catalog.entries, supported)
    ensures r.Done? ==> Found(options, load, disk.files, runtime.catalog.entries, runtime.registry.edges, supported,
                              r.value.rejected, r.value.Chosen())
    ensures r.Done? && r.value.candidate.Some? ==>
              var c := r.value.candidate.value;
              && fresh(c.config) && c.config.model.Valid() && c.config.version == supported
              && c.config.model.arena.heap == heap
              && exists e ::
                   && IsEntry(options, load, disk.files, e) && e.name == c.name && e.version == c.sourceVersion
                   && Synchronized(options, load, disk.files, runtime.catalog.entries, runtime.registry.edges, e,
                                   supported) == Ok(Synced(InSync, supported, c.config.model.Contents()))
  {
    hide Found, Exact, ModelTree, LoadsModels, Sync, Higher, Sorted, Unfit, IsEntry, TreeOf, Elements, DistinctNames;
    hide Strict;
    hide Unfitting, Tried, Synchronized, Eligible, Shaped;
    var known := runtime.SupportsVersion(supported);
    if !known {
      return Refused(InvalidVersion);
    }
    var names := CheckpointFiles(options, disk);
    if names.Err? {
      return Refused(names.error);
    }
    var candidates, trees, first := LoadCandidates(options, disk, names.value, load, supported);
    HigherIsStrict();
    var ranked := Sort(Higher, candidates);
    RankedEntries(options, load, disk.files, supported, ranked);
    ghost var entries, edges := runtime.catalog.entries, runtime.registry.edges;
    var rejected := first;
    NoneTried(options, load, disk.files, entries, edges, supported, ranked, first);
    for k := 0 to |ranked|
      invariant runtime.Valid()
      invariant Tried(options, load, disk.files, entries, edges, supported, ranked, k, first, rejected)
    {
      var e := ranked[k];
      TreeIs(options, load, disk.files, e);
      ModelIsValue(trees[e.name]);
      var tried := Try(runtime, heap, e.version, trees[e.name], supported);
      SynchronizedIs(options, load, disk.files, entries, edges, e, supported);
      if tried.OutOfMemory? {
        return OutOfMemory;
      }
      if tried.Done? {
        FoundAt(options, load, disk.files, entries, edges, supported, names.value, ranked, k, first, rejected);
        return Done(Search(rejected, Some(Prepared(e.name, e.version, tried.value))));
      }
      TriedNext(options, load, disk.files, entries, edges, supported, ranked, k, first, rejected, tried.error);
      rejected := rejected + [(e.name, tried.error)];
    }
    FoundNone(options, load, disk.files, entries, edges, supported, names.value, ranked, first, rejected);
    r := Done(Search(rejected, None));
  }

  lemma ModelIsValue(t: Tree)
    ensures ModelTree(t) ==> Distinct(t)
  {
  }

  lemma RankedEntries(options: Options, load: Loader, files: Files, supported: UInt32, ranked: seq<Entry>)
    requires Elements(ranked) == Eligible(options, load, files, supported)
    ensures forall i :: 0 <= i < |ranked| ==>
              ranked[i] in Elements(ranked) && IsEntry(options, load, files, ranked[i])
              && ranked[i].version <= supported
  {
    VerifiedIs(options, load, files);
    hide Verified, IsEntry;
    forall i | 0 <= i < |ranked|
      ensures ranked[i] in Elements(ranked)
    {
    }
  }

  lemma SynchronizedIs(options: Options, load: Loader, files: Files, entries: seq<Artifact>, edges: seq<Edge>, e: Entry,
                       supported: UInt32)
    requires LoadsModels(load) && Ascending(entries) && IsEntry(options, load, files, e)
    ensures ModelTree(TreeOf(options, load, files, e))
    ensures Synchronized(options, load, files, entries, edges, e, supported) ==
            Sync(entries, edges, e.version, TreeOf(options, load, files, e), supported)
  {
    TreeIs(options, load, files, e);
    hide Sync, IsEntry, TreeOf, ModelTree;
  }

  lemma NoneTried(options: Options, load: Loader, files: Files, entries: seq<Artifact>, edges: seq<Edge>,
                  supported: UInt32, ranked: seq<Entry>, first: Rejected)
    requires LoadsModels(load) && Ascending(entries)
    requires forall i :: 0 <= i < |ranked| ==> IsEntry(options, load, files, ranked[i])
    ensures Tried(options, load, files, entries, edges, supported, ranked, 0, first, first)
  {
  }

  lemma TriedNext(options: Options, load: Loader, files: Files, entries: seq<Artifact>, edges: seq<Edge>,
                  supported: UInt32, ranked: seq<Entry>, k: nat, first: Rejected, rejected: Rejected, code: ErrorCode)
    requires LoadsModels(load) && Ascending(entries) && k < |ranked|
    requires forall i :: 0 <= i < |ranked| ==> IsEntry(options, load, files, ranked[i])
    requires Tried(options, load, files, entries, edges, supported, ranked, k, first, rejected)
    requires Synchronized(options, load, files, entries, edges, ranked[k], supported) == Err(code)
    ensures Tried(options, load, files, entries, edges, supported, ranked, k + 1, first,
                  rejected + [(ranked[k].name, code)])
  {
    hide Synchronized, IsEntry, LoadsModels, Ascending;
  }

  // ------------------------------------------------------------------ what a search reports

  /** A candidate that could not be synchronized, and why. */
  ghost predicate Failing(options: Options, load: Loader, files: Files, entries: seq<Artifact>, edges: seq<Edge>,
                          supported: UInt32, e: Entry, code: ErrorCode)
    requires LoadsModels(load) && Ascending(entries)
  {
    && e in Eligible(options, load, files, supported) && IsEntry(options, load, files, e)
    && Synchronized(options, load, files, entries, edges, e, supported) == Err(code)
  }

  ghost predicate Succeeding(options: Options, load: Loader, files: Files, entries: seq<Artifact>, edges: seq<Edge>,
                             supported: UInt32, e: Entry)
    requires LoadsModels(load) && Ascending(entries)
  {
    IsEntry(options, load, files, e) && Synchronized(options, load, files, entries, edges, e, supported).Ok?
  }

  /** `chosen` can be synchronized, and ranks above every other candidate but those that cannot. Rejected are exactly
      the checkpoint-shaped files that are no candidates and the candidates above `chosen`, each with its reason;
      all of them, if none is chosen. */
  ghost predicate Found(options: Options, load: Loader, files: Files, entries: seq<Artifact>, edges: seq<Edge>,
                        supported: UInt32, rejected: Rejected, chosen: Option<Text>)
    requires LoadsModels(load) && Ascending(entries)
  {
    && (chosen.Some? ==>
          exists c :: Chosen(options, load, files, supported, chosen.value, c)
                      && Succeeding(options, load, files, entries, edges, supported, c))
    && (forall e ::
          e in Eligible(options, load, files, supported) && Before(options, load, files, supported, e, chosen) ==>
          exists code :: Failing(options, load, files, entries, edges, supported, e, code))
    && (forall name, code :: (name, code) in rejected <==>
          || (&& Store(name) in files && Shaped(options, Store(name))
              && Unfit(options, load, files, Store(name), supported) == Some(code))
          || exists e: Entry :: e.name == name && Failing(options, load, files, entries, edges, supported, e, code)
                         && Before(options, load, files, supported, e, chosen))
  }

  ghost predicate Chosen(options: Options, load: Loader, files: Files, supported: UInt32, name: Text, c: Entry) {
    c in Eligible(options, load, files, supported) && c.name == name
  }

  /** Ranked above the chosen candidate; every candidate is, if none is chosen. */
  ghost predicate Before(options: Options, load: Loader, files: Files, supported: UInt32, e: Entry,
                         chosen: Option<Text>) {
    chosen.Some? ==> forall c :: Chosen(options, load, files, supported, chosen.value, c) ==> Higher(e, c)
  }

  lemma FoundAt(options: Options, load: Loader, files: Files, entries: seq<Artifact>, edges: seq<Edge>,
                supported: UInt32, names: seq<Text>, ranked: seq<Entry>, k: nat, first: Rejected, rejected: Rejected)
    requires LoadsModels(load) && Ascending(entries) && k < |ranked|
    requires forall i :: 0 <= i < |ranked| ==> IsEntry(options, load, files, ranked[i])
    requires Sorted(Higher, ranked) && Elements(ranked) == Eligible(options, load, files, supported)
    requires forall name :: name in names <==> Store(name) in files && Shaped(options, Store(name))
    requires Unfitting(options, load, files, names, |names|, supported, first)
    requires Tried(options, load, files, entries, edges, supported, ranked, k, first, rejected)
    requires Succeeding(options, load, files, entries, edges, supported, ranked[k])
    ensures Found(options, load, files, entries, edges, supported, rejected, Some(ranked[k].name))
  {
    ChosenIs(options, load, files, supported, ranked, k);
    hide Chosen, Succeeding, Higher, Sorted;
    FoundUpTo(options, load, files, entries, edges, supported, names, ranked, k, first, rejected, Some(ranked[k].name));
  }

  lemma FoundNone(options: Options, load: Loader, files: Files, entries: seq<Artifact>, edges: seq<Edge>,
                  supported: UInt32, names: seq<Text>, ranked: seq<Entry>, first: Rejected, rejected: Rejected)
    requires LoadsModels(load) && Ascending(entries)
    requires forall i :: 0 <= i < |ranked| ==> IsEntry(options, load, files, ranked[i])
    requires Elements(ranked) == Eligible(options, load, files, supported)
    requires forall name :: name in names <==> Store(name) in files && Shaped(options, Store(name))
    requires Unfitting(options, load, files, names, |names|, supported, first)
    requires Tried(options, load, files, entries, edges, supported, ranked, |ranked|, first, rejected)
    ensures Found(options, load, files, entries, edges, supported, rejected, None)
  {
    hide Chosen, Higher;
    assert forall i :: 0 <= i < |ranked| ==> Before(options, load, files, supported, ranked[i], None);
    FoundUpTo(options, load, files, entries, edges, supported, names, ranked, |ranked|, first, rejected, None);
  }

  /** The entry at position `k` is the only one of its name, and exactly the entries before it rank above it. */
  lemma ChosenIs(options: Options, load: Loader, files: Files, supported: UInt32, ranked: seq<Entry>, k: nat)
    requires k < |ranked| && Sorted(Higher, ranked) && Elements(ranked) == Eligible(options, load, files, supported)
    ensures Chosen(options, load, files, supported, ranked[k].name, ranked[k])
    ensures forall i :: 0 <= i < |ranked| ==>
              (Before(options, load, files, supported, ranked[i], Some(ranked[k].name)) <==> i < k)
  {
    VerifiedIs(options, load, files);
    HigherIsStrict();
    hide Verified, Higher, IsEntry;
    assert ranked[k] in Elements(ranked);
    assert forall c :: Chosen(options, load, files, supported, ranked[k].name, c) ==> c == ranked[k];
  }

  lemma FoundUpTo(options: Options, load: Loader, files: Files, entries: seq<Artifact>, edges: seq<Edge>,
                  supported: UInt32, names: seq<Text>, ranked: seq<Entry>, k: nat, first: Rejected, rejected: Rejected,
                  chosen: Option<Text>)
    requires LoadsModels(load) && Ascending(entries) && k <= |ranked|
    requires forall i :: 0 <= i < |ranked| ==> IsEntry(options, load, files, ranked[i])
    requires Elements(ranked) == Eligible(options, load, files, supported)
    requires forall name :: name in names <==> Store(name) in files && Shaped(options, Store(name))
    requires Unfitting(options, load, files, names, |names|, supported, first)
    requires Tried(options, load, files, entries, edges, supported, ranked, k, first, rejected)
    requires chosen.Some? ==> exists c :: Chosen(options, load, files, supported, chosen.value, c)
                                          && Succeeding(options, load, files, entries, edges, supported, c)
    requires forall i :: 0 <= i < |ranked| ==> (Before(options, load, files, supported, ranked[i], chosen) <==> i < k)
    ensures Found(options, load, files, entries, edges, supported, rejected, chosen)
  {
    hide Synchronized, IsEntry, LoadsModels, Ascending, Chosen, Before, Shaped, Unfit, Eligible, Succeeding;
    TriedFail(options, load, files, entries, edges, supported, ranked, k, first, rejected);
    UnfittingAll(options, load, files, names, supported, first);
    assert forall name, code :: (name, code) in rejected <==>
             (name, code) in first || exists i :: |first| <= i < |rejected| && rejected[i] == (name, code) by {
      Positions(first, rejected, k);
    }
    forall e | e in Eligible(options, load, files, supported) && Before(options, load, files, supported, e, chosen)
      ensures exists code :: Failing(options, load, files, entries, edges, supported, e, code)
    {
      var i :| 0 <= i < |ranked| && ranked[i] == e;
      assert Failing(options, load, files, entries, edges, supported, e, rejected[|first| + i].1);
    }
    forall name, code | exists e: Entry :: e.name == name && Before(options, load, files, supported, e, chosen)
                                           && Failing(options, load, files, entries, edges, supported, e, code)
      ensures exists i :: |first| <= i < |rejected| && rejected[i] == (name, code)
    {
      var e: Entry :| e.name == name && Before(options, load, files, supported, e, chosen)
                      && Failing(options, load, files, entries, edges, supported, e, code);
      assert e in Elements(ranked);
      var i :| 0 <= i < |ranked| && ranked[i] == e;
      assert rejected[|first| + i] == (name, code);
    }
  }

  lemma TriedFail(options: Options, load: Loader, files: Files, entries: seq<Artifact>, edges: seq<Edge>,
                  supported: UInt32, ranked: seq<Entry>, k: nat, first: Rejected, rejected: Rejected)
    requires LoadsModels(load) && Ascending(entries) && k <= |ranked|
    requires forall i :: 0 <= i < |ranked| ==> IsEntry(options, load, files, ranked[i])
    requires Elements(ranked) == Eligible(options, load, files, supported)
    requires Tried(options, load, files, entries, edges, supported, ranked, k, first, rejected)
    ensures |rejected| == |first| + k
    ensures forall i :: |first| <= i < |rejected| ==>
              && rejected[i].0 == ranked[i - |first|].name
              && Failing(options, load, files, entries, edges, supported, ranked[i - |first|], rejected[i].1)
    ensures forall i :: 0 <= i < k ==>
              Failing(options, load, files, entries, edges, supported, ranked[i], rejected[|first| + i].1)
  {
    hide Synchronized, IsEntry, LoadsModels, Ascending, Eligible;
    forall i | 0 <= i < k
      ensures ranked[i] in Elements(ranked)
    {
    }
    forall i | |first| <= i < |rejected|
      ensures rejected[i].0 == ranked[i - |first|].name
      ensures Failing(options, load, files, entries, edges, supported, ranked[i - |first|], rejected[i].1)
    {
      assert rejected[|first| + (i - |first|)] == rejected[i];
    }
  }

  lemma Positions(first: Rejected, rejected: Rejected, k: nat)
    requires |rejected| == |first| + k && first <= rejected
    ensures forall x :: x in rejected <==> x in first || exists i :: |first| <= i < |rejected| && rejected[i] == x
  {
    assert rejected == first + rejected[|first|..];
    forall x | x in rejected[|first|..]
      ensures exists i :: |first| <= i < |rejected| && rejected[i] == x
    {
      var i :| 0 <= i < |rejected[|first|..]| && rejected[|first|..][i] == x;
      assert rejected[|first| + i] == x;
    }
  }

  lemma UnfittingAll(options: Options, load: Loader, files: Files, names: seq<Text>, supported: UInt32,
                     rejected: Rejected)
    requires Unfitting(options, load, files, names, |names|, supported, rejected)
    requires forall name :: name in names <==> Store(name) in files && Shaped(options, Store(name))
    ensures forall name, code :: (name, code) in rejected <==>
              && Store(name) in files && Shaped(options, Store(name))
              && Unfit(options, load, files, Store(name), supported) == Some(code)
  {
    hide Shaped, Unfit;
    assert names[..|names|] == names;
    forall name, code | (name, code) in rejected
      ensures name in names && Unfit(options, load, files, Store(name), supported) == Some(code)
    {
      var i :| 0 <= i < |rejected| && rejected[i] == (name, code);
    }
    forall name, code | name in names && Unfit(options, load, files, Store(name), supported) == Some(code)
      ensures (name, code) in rejected
    {
      var i :| 0 <= i < |names| && names[i] == name;
    }
  }

  /** A usable checkpoint that the supported version can be reached from. */
  ghost predicate Restorable(options: Options, load: Loader, files: Files, entries: seq<Artifact>, edges: seq<Edge>,
                             supported: UInt32, p: Path)
    requires LoadsModels(load) && Ascending(entries)
  {
    && Verifiable(options, load, files, p)
    && VersionAt(load, files, p) <= supported
    && Sync(entries, edges, VersionAt(load, files, p), load(files[p].bytes).value.tree, supported).Ok?
  }

  /** What a search finds is restorable, and no restorable checkpoint has a higher version, or the same version and a
      later time stamp, or the same time stamp and a smaller name. */
  lemma FoundIsLatest(options: Options, load: Loader, files: Files, entries: seq<Artifact>, edges: seq<Edge>,
                      supported: UInt32, rejected: Rejected, name: Text, q: Path)
    requires LoadsModels(load) && Ascending(entries)
    requires Found(options, load, files, entries, edges, supported, rejected, Some(name))
    ensures Restorable(options, load, files, entries, edges, supported, Store(name))
    ensures Restorable(options, load, files, entries, edges, supported, q) ==>
              && VersionAt(load, files, q) <= VersionAt(load, files, Store(name))
              && (VersionAt(load, files, q) == VersionAt(load, files, Store(name)) ==> NoOlder(files, Store(name), q))
  {
    hide Sync, IsEntry, LoadsModels, Ascending, AtLeastAsLate, Verified, ModelTree, Failing, Newer;
    VerifiedIs(options, load, files);
    var c :| Chosen(options, load, files, supported, name, c)
             && Succeeding(options, load, files, entries, edges, supported, c);
    RestorableIs(options, load, files, entries, edges, supported, c);
    if Restorable(options, load, files, entries, edges, supported, q) {
      var e := EntryAt(options, load, files, q);
      RestorableIs(options, load, files, entries, edges, supported, e);
      if Higher(e, c) {
        OnlyChosen(options, load, files, supported, name, c);
        assert Before(options, load, files, supported, e, Some(name));
        var code :| Failing(options, load, files, entries, edges, supported, e, code);
        FailingIs(options, load, files, entries, edges, supported, e, code);
        assert false;
      }
      HigherIsStrict();
      if e.name == c.name {
        SameEntry(options, load, files, e, c);
      }
      NewerIs(c, e);
      SameIsAsLate(c);
    }
  }

  lemma RestorableIs(options: Options, load: Loader, files: Files, entries: seq<Artifact>, edges: seq<Edge>,
                     supported: UInt32, e: Entry)
    requires LoadsModels(load) && Ascending(entries) && IsEntry(options, load, files, e) && e.version <= supported
    ensures Store(e.name) in files && load(files[Store(e.name)].bytes).Ok?
    ensures e.version == VersionAt(load, files, Store(e.name)) && e.modified == files[Store(e.name)].modified
    ensures Succeeding(options, load, files, entries, edges, supported, e) <==>
            Restorable(options, load, files, entries, edges, supported, Store(e.name))
  {
    VerifiableIs(options, load, files, e);
    TreeIs(options, load, files, e);
    hide Sync, IsEntry, Shaped, ModelTree, LoadsModels, Ascending;
  }

  lemma SameEntry(options: Options, load: Loader, files: Files, a: Entry, b: Entry)
    requires IsEntry(options, load, files, a) && IsEntry(options, load, files, b) && a.name == b.name
    ensures a == b
  {
  }

  lemma OnlyChosen(options: Options, load: Loader, files: Files, supported: UInt32, name: Text, c: Entry)
    requires Chosen(options, load, files, supported, name, c)
    ensures forall f :: Before(options, load, files, supported, f, Some(name)) <==> Higher(f, c)
  {
    VerifiedIs(options, load, files);
    hide Verified, IsEntry, Higher;
  }

  lemma FailingIs(options: Options, load: Loader, files: Files, entries: seq<Artifact>, edges: seq<Edge>,
                  supported: UInt32, e: Entry, code: ErrorCode)
    requires LoadsModels(load) && Ascending(entries)
    ensures Failing(options, load, files, entries, edges, supported, e, code) ==>
              !Succeeding(options, load, files, entries, edges, supported, e)
  {
    hide Synchronized, IsEntry, Eligible;
  }

  /** With no candidate chosen, every checkpoint-shaped file is reported. */
  lemma NoneMeansAllRejected(options: Options, load: Loader, files: Files, entries: seq<Artifact>, edges: seq<Edge>,
                             supported: UInt32, rejected: Rejected, p: Path)
    requires LoadsModels(load) && Ascending(entries)
    requires Found(options, load, files, entries, edges, supported, rejected, None)
    requires p in files && Shaped(options, p)
    ensures exists code :: (p.name, code) in rejected
  {
    hide Synchronized, IsCheckpointName, LoadsModels, Ascending;
    assert p == Store(p.name);
    UnfitIs(options, load, files, p, supported);
    var problem := Unfit(options, load, files, p, supported);
    if problem.Some? {
      assert (p.name, problem.value) in rejected;
    } else {
      VerifiedIs(options, load, files);
      ByName(options, load, files);
      var e := EntryOf(options, load, files, p);
      assert e in Eligible(options, load, files, supported);
      assert Before(options, load, files, supported, e, None);
      var code :| Failing(options, load, files, entries, edges, supported, e, code);
      assert (p.name, code) in rejected;
    }
  }
}

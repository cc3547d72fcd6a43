/** What the checkpoints are for: a configuration captured before an upgrade is found again after a firmware
    downgrade. */
module CheckpointRollback {
  import opened Base
  import opened Trees
  import opened Merging
  import opened VersionCatalogs
  import opened MigrationRegistries
  import opened ConfigRuntimes
  import opened Filenames
  import opened Ranking
  import opened Disks
  import opened CheckpointStores
  import opened CheckpointPruning
  import opened CheckpointRestore
  import opened CheckpointRecovery
  import opened CheckpointRuns

  // ------------------------------------------------------------------ which checkpoint is found

  lemma OnePerVersion(options: Options, load: Loader, files: Files, a: Entry, b: Entry)
    requires WellNamed(options, load, files)
    requires IsEntry(options, load, files, a) && IsEntry(options, load, files, b) && a.version == b.version
    ensures a == b
  {
    hide CheckpointName, IsCheckpointName, Extension;
    assert Store(a.name) in files && Store(b.name) in files;
  }

  /** With at most one checkpoint per version, the search ends at a checkpoint if and only if that can be
      synchronized and none of a higher supported version can. */
  lemma RollbackFinds(options: Options, load: Loader, files: Files, entries: seq<Artifact>, edges: seq<Edge>,
                      supported: UInt32, rejected: Rejected, chosen: Option<Text>, e: Entry)
    requires LoadsModels(load) && Ascending(entries) && WellNamed(options, load, files)
    requires Found(options, load, files, entries, edges, supported, rejected, chosen)
    requires IsEntry(options, load, files, e) && e.version <= supported
    ensures chosen == Some(e.name) <==>
              && Synchronized(options, load, files, entries, edges, e, supported).Ok?
              && forall f :: f in Eligible(options, load, files, supported) && f.version > e.version ==>
                   !Succeeding(options, load, files, entries, edges, supported, f)
  {
    hide WellNamed, IsEntry, Synchronized, LoadsModels, Ascending, Failing, Verified, NamesApart, Newer, Succeeding;
    VerifiedIs(options, load, files);
    SucceedingIs(options, load, files, entries, edges, supported, e);
    forall f | f in Eligible(options, load, files, supported) && Before(options, load, files, supported, f, chosen)
      ensures !Succeeding(options, load, files, entries, edges, supported, f)
    {
      var code :| Failing(options, load, files, entries, edges, supported, f, code);
      FailingIs(options, load, files, entries, edges, supported, f, code);
    }
    assert e in Eligible(options, load, files, supported);
    if chosen.None? {
      assert Before(options, load, files, supported, e, chosen);
    } else {
      var c :| Chosen(options, load, files, supported, chosen.value, c)
               && Succeeding(options, load, files, entries, edges, supported, c);
      OnlyChosen(options, load, files, supported, chosen.value, c);
      ChosenVersion(options, load, files, supported, chosen.value, c, e);
    }
  }

  lemma SucceedingIs(options: Options, load: Loader, files: Files, entries: seq<Artifact>, edges: seq<Edge>,
                     supported: UInt32, e: Entry)
    requires LoadsModels(load) && Ascending(entries) && IsEntry(options, load, files, e)
    ensures Succeeding(options, load, files, entries, edges, supported, e) <==>
            Synchronized(options, load, files, entries, edges, e, supported).Ok?
  {
    hide Synchronized, IsEntry;
  }

  lemma ChosenVersion(options: Options, load: Loader, files: Files, supported: UInt32, name: Text, c: Entry, e: Entry)
    requires WellNamed(options, load, files) && Chosen(options, load, files, supported, name, c)
    requires IsEntry(options, load, files, e)
    ensures c.name == name && c in Eligible(options, load, files, supported)
    ensures c.version == e.version || c.name == e.name ==> c == e
  {
    hide WellNamed, Verified;
    VerifiedIs(options, load, files);
    if c.version == e.version {
      OnePerVersion(options, load, files, c, e);
    }
  }

  // ------------------------------------------------------------------ how long a checkpoint lasts

  /** A complete capture of the canonical file as the checkpoint of version `v`. */
  ghost predicate CaptureDone(options: Options, load: Loader, before: Files, after: Files, v: UInt32) {
    var dest := options.Checkpoint(v);
    && Capturable(options, load, before, v)
    && dest in after && after == before[dest := after[dest]]
    && after[dest].bytes == before[options.Canonical()].bytes
  }

  lemma CaptureIsVisit(options: Options, load: Loader, before: Files, after: Files, v: UInt32)
    requires CaptureDone(options, load, before, after, v)
    ensures Run(options, load, before, [Visit(CaptureCall(v), before, after)])
  {
    Renamed(before, after, options.Checkpoint(v), before[options.Canonical()].bytes);
    hide Replaced, Capturable;
    assert [Visit(CaptureCall(v), before, after)][..0] == [];
  }

  /** No call but a capture of the same version changes a checkpoint, other than by removing it. */
  lemma OneCallLasts(options: Options, load: Loader, visit: Visit, v: UInt32)
    requires Passes(options, load, visit.call, visit.before, visit.after) && visit.call != CaptureCall(v)
    ensures var p := options.Checkpoint(v);
            p in visit.after ==> p in visit.before && visit.after[p] == visit.before[p]
  {
    hide Capturable, Prunable, CheckpointName, IsCheckpointName, Extension, IsTempName, Shaped;
    var p := options.Checkpoint(v);
    CheckpointShaped(options, v);
    if visit.call.CaptureCall? {
      ExtensionOf(options);
      if p == options.Checkpoint(visit.call.version) {
        CheckpointNameInjective(v, visit.call.version, options.Suffix());
      }
      NotTemp(options, p, options.Checkpoint(visit.call.version));
    } else if visit.call.CommitCall? {
      NotTemp(options, p, options.Canonical());
    }
  }

  lemma ExtensionOf(options: Options)
    ensures IsExtension(options.Suffix())
  {
    ExtensionShape(options.canonical);
  }

  lemma {:induction false} CheckpointLasts(options: Options, load: Loader, start: Files, visits: seq<Visit>, v: UInt32)
    requires Run(options, load, start, visits)
    requires forall i :: 0 <= i < |visits| ==> visits[i].call != CaptureCall(v)
    ensures var p, files := options.Checkpoint(v), Last(start, visits);
            p in files ==> p in start && files[p] == start[p]
  {
    hide Passes, CheckpointName;
    if visits != [] {
      var n := |visits| - 1;
      CheckpointLasts(options, load, start, visits[..n], v);
      OneCallLasts(options, load, visits[n], v);
    }
  }

  /** With at most one checkpoint per version, pruning spares a verified one if and only if fewer than `retention`
      others are newer. */
  lemma PruneSpares(options: Options, load: Loader, files: Files, e: Entry)
    requires WellNamed(options, load, files) && IsEntry(options, load, files, e)
    ensures Store(e.name) in AfterPrune(options, load, files) <==>
            |Above(Verified(options, load, files), e)| < options.retention
  {
    hide WellNamed, IsEntry, Verified, Newer;
    var all := Verified(options, load, files);
    VerifiedIs(options, load, files);
    InFiles(options, load, files);
    forall f | f in all
      ensures f in Newest(all)
    {
      forall g | g in all && g.version == f.version
        ensures f == g
      {
        OnePerVersion(options, load, files, f, g);
      }
    }
    assert Newest(all) == all;
    assert e in all - Kept(all, options.retention) ==> e.name in Prunable(options, load, files);
  }

  // ------------------------------------------------------------------ rolling back

  /** The checkpoint is still there and can be used, and the firmware can make the defaults of its version. */
  ghost predicate Usable(options: Options, files: Files, entries: seq<Artifact>, v: UInt32) {
    var p := options.Checkpoint(v);
    p in files && files[p].readable && files[p].stamped && DefaultOf(entries, v).Ok?
  }

  lemma CheckpointEntry(options: Options, load: Loader, before: Files, after: Files, files: Files, v: UInt32)
    returns (e: Entry)
    requires CaptureDone(options, load, before, after, v)
    requires var p := options.Checkpoint(v); p in files && files[p] == after[p]
    ensures Store(e.name) == options.Checkpoint(v) && e.version == v
    ensures e.modified == files[options.Checkpoint(v)].modified
    ensures IsEntry(options, load, files, e) <==>
            files[options.Checkpoint(v)].readable && files[options.Checkpoint(v)].stamped
    ensures IsEntry(options, load, files, e) ==>
              TreeOf(options, load, files, e) == load(before[options.Canonical()].bytes).value.tree
    ensures forall f :: IsEntry(options, load, files, f) && f.name == e.name ==> f == e
  {
    CheckpointShaped(options, v);
    hide Shaped, CheckpointName;
    var p := options.Checkpoint(v);
    e := Entry(v, files[p].modified, p.name);
  }

  /** At the checkpoint's own version synchronizing comes down to the repair. */
  lemma SyncHere(entries: seq<Artifact>, edges: seq<Edge>, v: UInt32, t: Tree)
    requires Ascending(entries) && ModelTree(t)
    ensures Sync(entries, edges, v, t, v).Ok? <==> DefaultOf(entries, v).Ok?
    ensures DefaultOf(entries, v).Ok? ==>
              Sync(entries, edges, v, t, v) == Ok(Synced(InSync, v, Merge(t, DefaultOf(entries, v).value)))
  {
    hide Merge, ModelTree;
  }

  lemma StillWellNamed(options: Options, load: Loader, before: Files, start: Files, visits: seq<Visit>, v: UInt32)
    requires WellNamed(options, load, before)
    requires CaptureDone(options, load, before, start, v) && Run(options, load, start, visits)
    ensures WellNamed(options, load, Last(start, visits))
  {
    hide WellNamed, CaptureDone, Passes;
    CaptureIsVisit(options, load, before, start, v);
    NamesStayTrue(options, load, before, [Visit(CaptureCall(v), before, start)]);
    NamesStayTrue(options, load, start, visits);
  }

  lemma NotFound(options: Options, load: Loader, files: Files, entries: seq<Artifact>, edges: seq<Edge>,
                 supported: UInt32, rejected: Rejected, chosen: Option<Text>, p: Path)
    requires LoadsModels(load) && Ascending(entries)
    requires Found(options, load, files, entries, edges, supported, rejected, chosen)
    requires p.Store? && !exists e :: IsEntry(options, load, files, e) && Store(e.name) == p
    ensures chosen != Some(p.name)
  {
    hide IsEntry, Verified, LoadsModels, Ascending, Failing, Succeeding;
    VerifiedIs(options, load, files);
  }

  ghost predicate Restores(options: Options, load: Loader, before: Files, files: Files, entries: seq<Artifact>,
                           edges: seq<Edge>, v: UInt32, config: Config)
    requires LoadsModels(load) && Ascending(entries) && DefaultOf(entries, v).Ok?
    requires Capturable(options, load, before, v)
  {
    SynchronizesTo(options, load, files, entries, edges, v, options.Checkpoint(v).name, config) <==>
    config == Config(v, Merge(load(before[options.Canonical()].bytes).value.tree, DefaultOf(entries, v).value))
  }

  lemma FoundHere(options: Options, load: Loader, before: Files, after: Files, files: Files, entries: seq<Artifact>,
                  edges: seq<Edge>, v: UInt32, rejected: Rejected, chosen: Option<Text>)
    requires LoadsModels(load) && Ascending(entries) && WellNamed(options, load, files)
    requires CaptureDone(options, load, before, after, v)
    requires var p := options.Checkpoint(v); p in files && files[p] == after[p]
    requires Found(options, load, files, entries, edges, v, rejected, chosen)
    ensures chosen == Some(options.Checkpoint(v).name) <==> Usable(options, files, entries, v)
    ensures Usable(options, files, entries, v) ==>
              Capturable(options, load, before, v)
              && forall config: Config :: Restores(options, load, before, files, entries, edges, v, config)
  {
    hide WellNamed, Found, CheckpointName, LoadsModels, Ascending, IsEntry, Merge, DefaultOf, Sync, TreeOf, ModelTree;
    hide Capturable, Synchronized, Eligible;
    var e := CheckpointEntry(options, load, before, after, files, v);
    if IsEntry(options, load, files, e) {
      RollbackFinds(options, load, files, entries, edges, v, rejected, chosen, e);
      SynchronizedIs(options, load, files, entries, edges, e, v);
      SyncHere(entries, edges, v, TreeOf(options, load, files, e));
      NoneAbove(options, load, files, v);
    } else {
      NotFound(options, load, files, entries, edges, v, rejected, chosen, options.Checkpoint(v));
    }
  }

  lemma NoneAbove(options: Options, load: Loader, files: Files, supported: UInt32)
    ensures forall f :: f in Eligible(options, load, files, supported) ==> f.version <= supported
  {
  }

  /** A configuration of version `v` is captured, and then follows any run of captures of other versions, commits
      and prunes, each cut short or not. Firmware that supports `v` finds the checkpoint again if and only if it has
      not been pruned, can be read, and the defaults of `v` can be made; it then ends up with the captured tree,
      repaired. */
  lemma RollbackRestores(options: Options, load: Loader, before: Files, start: Files, visits: seq<Visit>,
                         entries: seq<Artifact>, edges: seq<Edge>, v: UInt32, rejected: Rejected, chosen: Option<Text>)
    requires LoadsModels(load) && Ascending(entries) && WellNamed(options, load, before)
    requires CaptureDone(options, load, before, start, v) && Run(options, load, start, visits)
    requires forall i :: 0 <= i < |visits| ==> visits[i].call != CaptureCall(v)
    requires Found(options, load, Last(start, visits), entries, edges, v, rejected, chosen)
    ensures chosen == Some(options.Checkpoint(v).name) <==> Usable(options, Last(start, visits), entries, v)
    ensures Usable(options, Last(start, visits), entries, v) ==>
              && Capturable(options, load, before, v)
              && forall config: Config ::
                   Restores(options, load, before, Last(start, visits), entries, edges, v, config)
  {
    hide WellNamed, CaptureDone, Run, Found, CheckpointName, LoadsModels, Ascending, IsEntry, Merge, DefaultOf, Sync;
    var files := Last(start, visits);
    StillWellNamed(options, load, before, start, visits, v);
    CheckpointLasts(options, load, start, visits, v);
    if options.Checkpoint(v) in files {
      FoundHere(options, load, before, start, files, entries, edges, v, rejected, chosen);
    } else {
      InFiles(options, load, files);
      NotFound(options, load, files, entries, edges, v, rejected, chosen, options.Checkpoint(v));
    }
  }

  /** The documented upgrade, carried out in full, and the way back: the canonical file is captured, the upgraded
      configuration committed, and the checkpoints pruned. Firmware of the old version finds its configuration again
      if and only if fewer verified checkpoints than are retained were newer when pruning began. */
  lemma UpgradeAndBack(options: Options, load: Loader, before: Files, captured: Files, committed: Files,
                       saved: Text, entries: seq<Artifact>, edges: seq<Edge>, v: UInt32, rejected: Rejected,
                       chosen: Option<Text>)
    requires LoadsModels(load) && Ascending(entries) && WellNamed(options, load, before) && DefaultOf(entries, v).Ok?
    requires CaptureDone(options, load, before, captured, v)
    requires var dest := options.Canonical();
             && dest in committed && committed[dest].bytes == saved
             && committed == captured[dest := committed[dest]]
    requires var p := options.Checkpoint(v); captured[p].readable && captured[p].stamped
    requires Found(options, load, AfterPrune(options, load, committed), entries, edges, v, rejected, chosen)
    ensures var p := options.Checkpoint(v);
            chosen == Some(p.name) <==>
            |Above(Verified(options, load, committed), Entry(v, captured[p].modified, p.name))| < options.retention
    ensures chosen == Some(options.Checkpoint(v).name) ==>
              && Capturable(options, load, before, v)
              && forall config: Config ::
                   Restores(options, load, before, AfterPrune(options, load, committed), entries, edges, v, config)
  {
    hide WellNamed, Found, CheckpointName, LoadsModels, Ascending, IsEntry, Merge, DefaultOf, Restores, Run, Passes;
    hide AfterPrune, Verified, Above, Capturable;
    var last, p := AfterPrune(options, load, committed), options.Checkpoint(v);
    var visits := [Visit(CommitCall(Ok(saved)), captured, committed), Visit(PruneCall, committed, last)];
    CommitAndPrune(options, load, captured, committed, saved);
    RollbackRestores(options, load, before, captured, visits, entries, edges, v, rejected, chosen);
    StillWellNamed(options, load, before, captured, visits[..1], v);
    CheckpointLasts(options, load, captured, visits, v);
    var e := CheckpointEntry(options, load, before, captured, committed, v);
    assert e == Entry(v, captured[p].modified, p.name);
    PruneSpares(options, load, committed, e);
  }

  lemma CommitAndPrune(options: Options, load: Loader, captured: Files, committed: Files, saved: Text)
    requires var dest := options.Canonical();
             && dest in committed && committed[dest].bytes == saved
             && committed == captured[dest := committed[dest]]
    ensures var first := Visit(CommitCall(Ok(saved)), captured, committed);
            var second := Visit(PruneCall, committed, AfterPrune(options, load, committed));
            Run(options, load, captured, [first]) && Run(options, load, captured, [first, second])
            && [first, second][..1] == [first]
  {
    hide Replaced, Prunable;
    var first := Visit(CommitCall(Ok(saved)), captured, committed);
    var second := Visit(PruneCall, committed, AfterPrune(options, load, committed));
    Renamed(captured, committed, options.Canonical(), saved);
    assert [first][..0] == [] && [first, second][..1] == [first];
  }
}

/** Every run of captures, commits and prunes, each of which may be cut short by a crash after any file operation. */
module CheckpointRuns {
  import opened Base
  import opened Filenames
  import opened Disks
  import opened CheckpointStores
  import opened CheckpointPruning

  datatype Call = CaptureCall(version: UInt32) | CommitCall(saved: Result<Text>) | PruneCall

  /** A state that a call started in `before` passes through, and in which a crash may leave the disk. */
  ghost predicate Passes(options: Options, load: Loader, call: Call, before: Files, now: Files) {
    || now == before
    || match call
       case CaptureCall(version) =>
         && Capturable(options, load, before, version)
         && Replaced(before, now, options.Checkpoint(version), before[options.Canonical()].bytes)
       case CommitCall(saved) => saved.Ok? && Replaced(before, now, options.Canonical(), saved.value)
       case PruneCall => Pruned(options, load, before, now)
  }

  /** Performs one call to its end. Every state on the way is one it may pass through. */
  method Perform(options: Options, disk: Disk, names: TempNames, load: Loader, call: Call)
    requires disk.Valid()
    modifies disk, names
    ensures disk.Valid() && old(disk.past) <= disk.past
    ensures Passes(options, load, call, old(disk.files), disk.files)
    ensures forall i :: |old(disk.past)| <= i < |disk.past| ==>
              Passes(options, load, call, old(disk.files), disk.past[i])
  {
    hide Replaced, Capturable, Pruned, AfterPrune, Prunable, Shaped, Rejection;
    if call.CaptureCall? {
      var ignored := Capture(options, disk, names, call.version, load);
      LastPassed(options, load, call, old(disk.files), disk, |old(disk.past)|);
    } else if call.CommitCall? {
      var ignored := Commit(options, disk, names, call.saved);
      LastPassed(options, load, call, old(disk.files), disk, |old(disk.past)|);
    } else {
      var ignored := Prune(options, disk, load);
    }
  }

  lemma LastPassed(options: Options, load: Loader, call: Call, before: Files, disk: Disk, mark: nat)
    requires disk.Valid()
    requires mark <= |disk.past| && (mark == |disk.past| ==> disk.files == before)
    requires forall i :: mark <= i < |disk.past| ==> Passes(options, load, call, before, disk.past[i])
    ensures Passes(options, load, call, before, disk.files)
  {
    if mark < |disk.past| {
      assert disk.past[|disk.past| - 1] == disk.files;
    }
  }

  /** One call of a run: where it started, and where it ended or was cut short. */
  datatype Visit = Visit(call: Call, before: Files, after: Files)

  function Last(start: Files, visits: seq<Visit>): Files {
    if visits == [] then start else visits[|visits| - 1].after
  }

  ghost predicate Run(options: Options, load: Loader, start: Files, visits: seq<Visit>) {
    visits == [] ||
    var front, last := visits[..|visits| - 1], visits[|visits| - 1];
    && Run(options, load, start, front)
    && last.before == Last(start, front)
    && Passes(options, load, last.call, last.before, last.after)
  }

  /** The canonical file is the initial one, or holds exactly what some commit of the run saved. */
  ghost predicate CanonicalWhole(options: Options, start: Files, visits: seq<Visit>) {
    var files, p := Last(start, visits), options.Canonical();
    || SameAt(start, files, p)
    || exists i :: 0 <= i < |visits| && visits[i].call.CommitCall? && p in files
                   && visits[i].call.saved == Ok(files[p].bytes)
  }

  lemma {:induction false} CanonicalStaysWhole(options: Options, load: Loader, start: Files, visits: seq<Visit>)
    requires Run(options, load, start, visits)
    ensures CanonicalWhole(options, start, visits)
  {
    hide Capturable, Prunable, IsTempName, CheckpointName;
    if visits != [] {
      var n := |visits| - 1;
      var front, last := visits[..n], visits[n];
      CanonicalStaysWhole(options, load, start, front);
      OneCallCanonical(options, load, last);
      if SameAt(last.before, last.after, options.Canonical()) {
        if !SameAt(start, last.before, options.Canonical()) {
          var i :| 0 <= i < n && front[i].call.CommitCall? && options.Canonical() in last.before
                   && front[i].call.saved == Ok(last.before[options.Canonical()].bytes);
          assert visits[i] == front[i];
        }
      }
    }
  }

  lemma OneCallCanonical(options: Options, load: Loader, visit: Visit)
    requires Passes(options, load, visit.call, visit.before, visit.after)
    ensures var p := options.Canonical();
            || SameAt(visit.before, visit.after, p)
            || (visit.call.CommitCall? && p in visit.after && visit.call.saved == Ok(visit.after[p].bytes))
  {
    hide Capturable, Prunable, CheckpointName, IsTempName;
  }

  /** A checkpoint made by a capture: the canonical file's bytes as they were then, complete, and their document
      carries the version in the name. */
  ghost predicate Captured(options: Options, load: Loader, visit: Visit, p: Path, bytes: Text) {
    && visit.call.CaptureCall?
    && p == options.Checkpoint(visit.call.version)
    && Capturable(options, load, visit.before, visit.call.version)
    && bytes == visit.before[options.Canonical()].bytes
  }

  ghost predicate CheckpointWhole(options: Options, load: Loader, start: Files, visits: seq<Visit>, p: Path) {
    var files := Last(start, visits);
    p in files ==>
      || (p in start && files[p] == start[p])
      || exists i :: 0 <= i < |visits| && Captured(options, load, visits[i], p, files[p].bytes)
  }

  /** Whatever is found under a checkpoint's name was there from the start or was captured whole. */
  lemma {:induction false} CheckpointsStayWhole(options: Options, load: Loader, start: Files, visits: seq<Visit>,
                                                p: Path)
    requires Run(options, load, start, visits) && Shaped(options, p)
    ensures CheckpointWhole(options, load, start, visits, p)
  {
    hide Capturable, Prunable, IsTempName, Shaped, Captured, CheckpointName;
    if visits != [] {
      var n := |visits| - 1;
      var front, last := visits[..n], visits[n];
      CheckpointsStayWhole(options, load, start, front, p);
      if p in last.after {
        OneCallCheckpoint(options, load, last, p);
        if p in last.before && last.after[p] == last.before[p] {
          if !(p in start && last.before[p] == start[p]) {
            var i :| 0 <= i < n && Captured(options, load, front[i], p, last.before[p].bytes);
            assert visits[i] == front[i];
          }
        } else {
          assert Captured(options, load, visits[n], p, last.after[p].bytes);
        }
      }
    }
  }

  lemma OneCallCheckpoint(options: Options, load: Loader, visit: Visit, p: Path)
    requires Passes(options, load, visit.call, visit.before, visit.after) && Shaped(options, p) && p in visit.after
    ensures (p in visit.before && visit.after[p] == visit.before[p])
              || Captured(options, load, visit, p, visit.after[p].bytes)
  {
    hide Capturable, Prunable, CheckpointName, IsCheckpointName, Extension;
    if visit.call.CaptureCall? {
      NotTemp(options, p, options.Checkpoint(visit.call.version));
    } else if visit.call.CommitCall? {
      NotTemp(options, p, options.Canonical());
    }
    hide IsTempName;
  }

  /** No temporary name is ever taken for a checkpoint. */
  lemma NotTemp(options: Options, p: Path, dest: Path)
    requires Shaped(options, p)
    ensures !TempOf(p, dest)
  {
    hide IsCheckpointName;
    if TempOf(p, dest) {
      TempIsNoCheckpoint(p.name, dest.name, options.Suffix());
    }
  }

  /** Each checkpoint holds a loadable document of the version its name says. */
  ghost predicate WellNamed(options: Options, load: Loader, files: Files) {
    forall p :: p in files && Shaped(options, p) ==>
      var loaded := load(files[p].bytes);
      loaded.Ok? && p == options.Checkpoint(loaded.value.version)
  }

  /** A directory in which names and contents agree stays so through every run, crashes included. */
  lemma NamesStayTrue(options: Options, load: Loader, start: Files, visits: seq<Visit>)
    requires Run(options, load, start, visits) && WellNamed(options, load, start)
    ensures WellNamed(options, load, Last(start, visits))
  {
    hide Shaped, CheckpointName, Run;
    var files := Last(start, visits);
    forall p | p in files && Shaped(options, p)
      ensures var loaded := load(files[p].bytes); loaded.Ok? && p == options.Checkpoint(loaded.value.version)
    {
      CheckpointsStayWhole(options, load, start, visits, p);
    }
  }

  /** Anything else a run leaves behind is a temporary file, which is never a checkpoint nor the canonical file. */
  lemma {:induction false} LeftoversAreTemporary(options: Options, load: Loader, start: Files, visits: seq<Visit>,
                                                 p: Path)
    requires Run(options, load, start, visits) && p in Last(start, visits) && p !in start
    requires p != options.Canonical() && !Shaped(options, p)
    ensures exists dest :: TempOf(p, dest)
  {
    var n := |visits| - 1;
    var front, last := visits[..n], visits[n];
    if p in last.before {
      LeftoversAreTemporary(options, load, start, front, p);
    } else {
      hide Capturable, Prunable, CheckpointName, IsCheckpointName, IsTempName;
      if last.call.CaptureCall? {
        var v := last.call.version;
        CheckpointShaped(options, v);
        assert TempOf(p, options.Checkpoint(v));
      } else if last.call.CommitCall? {
        assert TempOf(p, options.Canonical());
      }
    }
  }

  lemma CheckpointShaped(options: Options, v: UInt32)
    ensures Shaped(options, options.Checkpoint(v))
  {
    ExtensionShape(options.canonical);
    CheckpointNameIs(v, options.Suffix());
  }
}

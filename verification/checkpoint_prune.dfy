/** `cpPrune`: which checkpoints go, and that nothing else does. */
module CheckpointPruning {
  import opened Base
  import opened Filenames
  import opened Ranking
  import opened Disks
  import opened CheckpointStores

  ghost function OfVersion(all: set<Entry>, v: UInt32): set<Entry> {
    set e | e in all && e.version == v
  }

  /** The verified files, filed under their versions. */
  ghost predicate Filed(groups: map<UInt32, seq<Entry>>, all: set<Entry>) {
    && (forall v :: v in groups ==>
          groups[v] != [] && DistinctNames(groups[v]) && Elements(groups[v]) == OfVersion(all, v))
    && (forall e :: e in all ==> e.version in groups)
  }

  lemma FiledNext(groups: map<UInt32, seq<Entry>>, all: set<Entry>, e: Entry)
    requires Filed(groups, all) && forall f :: f in all ==> f.name != e.name
    ensures var before := if e.version in groups then groups[e.version] else [];
            Filed(groups[e.version := before + [e]], all + {e})
  {
    var before := if e.version in groups then groups[e.version] else [];
    var after := groups[e.version := before + [e]];
    assert Elements(before) == OfVersion(all, e.version);
    ElementsPush(before, e);
    forall j | 0 <= j < |before|
      ensures before[j].name != e.name
    {
      assert before[j] in Elements(before);
    }
    forall v | v in after
      ensures after[v] != [] && DistinctNames(after[v]) && Elements(after[v]) == OfVersion(all + {e}, v)
    {
      if v == e.version {
        assert OfVersion(all + {e}, v) == OfVersion(all, v) + {e};
      } else {
        assert OfVersion(all + {e}, v) == OfVersion(all, v);
      }
    }
  }

  /** The verified files among the first `k` listed. */
  ghost function Seen(options: Options, load: Loader, files: Files, names: seq<Text>, k: nat): set<Entry>
    requires k <= |names|
  {
    set e | e in Verified(options, load, files) && e.name in names[..k]
  }

  type Rejected = seq<(Text, ErrorCode)>

  /** Exactly the listed files that are not verified, each with its reason, in the order they were listed. */
  ghost predicate Reports(options: Options, load: Loader, files: Files, names: seq<Text>, k: nat, rejected: Rejected)
    requires k <= |names|
  {
    && (forall i, j :: 0 <= i < j < |rejected| ==> rejected[i].0 != rejected[j].0)
    && (forall i :: 0 <= i < |rejected| ==>
          rejected[i].0 in names[..k] && Rejection(options, load, files, Store(rejected[i].0)) == Some(rejected[i].1))
    && (forall i :: 0 <= i < k && Rejection(options, load, files, Store(names[i])).Some? ==>
          (names[i], Rejection(options, load, files, Store(names[i])).value) in rejected)
  }

  lemma SeenNext(options: Options, load: Loader, files: Files, names: seq<Text>, k: nat)
    requires k < |names| && Shaped(options, Store(names[k]))
    requires forall i, j :: 0 <= i < j < |names| ==> names[i] != names[j]
    ensures var p := Store(names[k]);
            && (Rejection(options, load, files, p).Some? ==>
                  Seen(options, load, files, names, k + 1) == Seen(options, load, files, names, k))
            && (Rejection(options, load, files, p).None? ==>
                  Seen(options, load, files, names, k + 1) ==
                  Seen(options, load, files, names, k) + {EntryOf(options, load, files, p)})
    ensures forall f :: f in Seen(options, load, files, names, k) ==> f.name != names[k]
  {
    VerifiedIs(options, load, files);
    hide Verified, Rejection, EntryOf, Shaped;
    assert names[..k + 1] == names[..k] + [names[k]];
    assert names[k] !in names[..k];
    ByName(options, load, files);
  }

  lemma ByName(options: Options, load: Loader, files: Files)
    ensures forall e :: IsEntry(options, load, files, e) ==>
              Rejection(options, load, files, Store(e.name)) == None
              && e == EntryOf(options, load, files, Store(e.name))
    ensures forall p :: Shaped(options, p) && Rejection(options, load, files, p) == None ==>
              IsEntry(options, load, files, EntryOf(options, load, files, p))
              && EntryOf(options, load, files, p).name == p.name
  {
    hide IsCheckpointName, Extension;
    forall p | Shaped(options, p) && Rejection(options, load, files, p) == None
      ensures IsEntry(options, load, files, EntryOf(options, load, files, p))
              && EntryOf(options, load, files, p).name == p.name
    {
      assert p == Store(p.name);
    }
  }

  /** Reads and loads every listed checkpoint. */
  method Collect(options: Options, disk: Disk, names: seq<Text>, load: Loader)
    returns (groups: map<UInt32, seq<Entry>>, rejected: Rejected)
    requires forall i, j :: 0 <= i < j < |names| ==> names[i] != names[j]
    requires forall name :: name in names <==> Store(name) in disk.files && Shaped(options, Store(name))
    ensures Filed(groups, Verified(options, load, disk.files))
    ensures Reports(options, load, disk.files, names, |names|, rejected)
  {
    hide Verified, Rejection, EntryOf, Shaped, Filed;
    groups, rejected := map[], [];
    FiledNone();
    assert Seen(options, load, disk.files, names, 0) == {};
    for k := 0 to |names|
      invariant Filed(groups, Seen(options, load, disk.files, names, k))
      invariant Reports(options, load, disk.files, names, k, rejected)
    {
      var p := Store(names[k]);
      assert names[k] in names;
      SeenNext(options, load, disk.files, names, k);
      ByName(options, load, disk.files);
      assert names[..k + 1] == names[..k] + [names[k]];
      var problem := Rejection(options, load, disk.files, p);
      if problem.Some? {
        rejected := rejected + [(names[k], problem.value)];
      } else {
        var e := EntryOf(options, load, disk.files, p);
        FiledNext(groups, Seen(options, load, disk.files, names, k), e);
        groups := groups[e.version := (if e.version in groups then groups[e.version] else []) + [e]];
      }
    }
    AllSeen(options, load, disk.files, names);
  }

  lemma FiledNone()
    ensures Filed(map[], {})
  {
  }

  lemma AllSeen(options: Options, load: Loader, files: Files, names: seq<Text>)
    requires forall name :: name in names <==> Store(name) in files && Shaped(options, Store(name))
    ensures Seen(options, load, files, names, |names|) == Verified(options, load, files)
  {
    VerifiedIs(options, load, files);
    assert names[..|names|] == names;
    hide IsCheckpointName, Extension;
  }

  // ------------------------------------------------------------------ choosing

  /** Newest of the versions already dealt with. */
  ghost function NewestExcept(all: set<Entry>, todo: set<UInt32>): set<Entry> {
    set e | e in Newest(all) && e.version !in todo
  }

  ghost function OthersExcept(all: set<Entry>, todo: set<UInt32>): set<Entry> {
    set e | e in all && e !in Newest(all) && e.version !in todo
  }

  lemma GroupSplit(all: set<Entry>, v: UInt32, sorted: seq<Entry>)
    requires Sorted(Newer, sorted) && sorted != [] && Elements(sorted) == OfVersion(all, v)
    ensures forall e :: e in all && e.version == v ==> (e in Newest(all) <==> e == sorted[0])
    ensures forall e :: e in all && e.version == v && e != sorted[0] ==> e in Elements(sorted[1..])
    ensures forall e :: e in Elements(sorted[1..]) ==> e in all && e.version == v && e != sorted[0]
    ensures sorted[0] in all && sorted[0].version == v
  {
    NewerIsStrict();
    hide Newer;
    assert sorted[0] in Elements(sorted);
    forall e | e in all && e.version == v && e != sorted[0]
      ensures e in Elements(sorted[1..]) && Newer(sorted[0], e)
    {
      assert e in Elements(sorted);
      var i :| 0 <= i < |sorted| && sorted[i] == e;
      assert sorted[1..][i - 1] == e;
    }
    forall e | e in Elements(sorted[1..])
      ensures e in all && e.version == v && e != sorted[0]
    {
      var i :| 0 <= i < |sorted[1..]| && sorted[1..][i] == e;
      assert sorted[i + 1] == e && e in Elements(sorted);
      assert Newer(sorted[0], sorted[i + 1]);
    }
  }

  lemma ElementsAppend(a: seq<Entry>, b: seq<Entry>)
    ensures Elements(a + b) == Elements(a) + Elements(b)
  {
    forall x | x in Elements(a) + Elements(b)
      ensures x in Elements(a + b)
    {
      if x in Elements(a) {
        var i :| 0 <= i < |a| && a[i] == x;
        assert (a + b)[i] == x;
      } else {
        var i :| 0 <= i < |b| && b[i] == x;
        assert (a + b)[|a| + i] == x;
      }
    }
  }

  lemma NewName(all: set<Entry>, s: seq<Entry>, e: Entry)
    requires NamesApart(all) && DistinctNames(s) && Elements(s) <= all && e in all && e !in Elements(s)
    ensures DistinctNames(s + [e])
  {
    forall j | 0 <= j < |s|
      ensures s[j].name != e.name
    {
      assert s[j] in Elements(s);
    }
  }

  lemma NewNames(all: set<Entry>, a: seq<Entry>, b: seq<Entry>)
    requires NamesApart(all) && DistinctNames(a) && DistinctNames(b) && Elements(a) <= all && Elements(b) <= all
    requires Elements(a) !! Elements(b)
    ensures DistinctNames(a + b)
  {
    forall i, j | 0 <= i < |a| && 0 <= j < |b|
      ensures a[i].name != b[j].name
    {
      assert a[i] in Elements(a) && b[j] in Elements(b);
    }
  }

  /** Per version, everything but the newest; then, of these newest, everything past the retention. */
  method Choose(groups: map<UInt32, seq<Entry>>, retention: nat, ghost all: set<Entry>) returns (removals: seq<Entry>)
    requires Filed(groups, all) && NamesApart(all)
    ensures DistinctNames(removals) && Elements(removals) == all - Kept(all, retention)
  {
    NewerIsStrict();
    KeptWithin(all, retention);
    hide Newer, Strict, Sorted, DistinctNames, Elements, Newest, Kept, NamesApart, NewestExcept, OthersExcept;
    var retained: seq<Entry> := [];
    removals := [];
    var todo := groups.Keys;
    NothingChosen(all, groups);
    while todo != {}
      invariant todo <= groups.Keys
      invariant DistinctNames(retained) && Elements(retained) == NewestExcept(all, todo)
      invariant DistinctNames(removals) && Elements(removals) == OthersExcept(all, todo)
      decreases todo
    {
      var v :| v in todo;
      var sorted := Sort(Newer, groups[v]);
      ChooseStep(all, groups, todo, v, sorted, retained, removals);
      retained := retained + [sorted[0]];
      removals := removals + sorted[1..];
      todo := todo - {v};
    }
    var ranked := Sort(Newer, retained);
    if retention < |ranked| {
      Overflow(all, ranked, retention, removals);
      removals := removals + ranked[retention..];
    } else {
      NoOverflow(all, ranked, retention, removals);
    }
  }

  lemma ChooseStep(all: set<Entry>, groups: map<UInt32, seq<Entry>>, todo: set<UInt32>, v: UInt32, sorted: seq<Entry>,
                   retained: seq<Entry>, removals: seq<Entry>)
    requires Filed(groups, all) && NamesApart(all) && v in todo && todo <= groups.Keys
    requires Sorted(Newer, sorted) && DistinctNames(sorted) && |sorted| == |groups[v]|
               && Elements(sorted) == Elements(groups[v])
    requires DistinctNames(retained) && Elements(retained) == NewestExcept(all, todo)
    requires DistinctNames(removals) && Elements(removals) == OthersExcept(all, todo)
    ensures sorted != []
    ensures var kept := retained + [sorted[0]]; DistinctNames(kept) && Elements(kept) == NewestExcept(all, todo - {v})
    ensures var gone := removals + sorted[1..]; DistinctNames(gone) && Elements(gone) == OthersExcept(all, todo - {v})
  {
    KeptWithin(all, 0);
    hide Newer, Sorted, DistinctNames, Elements, Newest, NamesApart;
    GroupSplit(all, v, sorted);
    SortedRest(sorted);
    NewName(all, retained, sorted[0]);
    NewNames(all, removals, sorted[1..]);
    ElementsPush(retained, sorted[0]);
    ElementsAppend(removals, sorted[1..]);
  }

  lemma Overflow(all: set<Entry>, ranked: seq<Entry>, retention: nat, removals: seq<Entry>)
    requires NamesApart(all) && retention < |ranked|
    requires Sorted(Newer, ranked) && DistinctNames(ranked) && Elements(ranked) == NewestExcept(all, {})
    requires DistinctNames(removals) && Elements(removals) == OthersExcept(all, {})
    ensures var gone := removals + ranked[retention..];
            DistinctNames(gone) && Elements(gone) == all - Kept(all, retention)
  {
    KeptWithin(all, retention);
    hide Newer, Sorted, DistinctNames, Elements, Newest, Kept, NamesApart;
    assert NewestExcept(all, {}) == Newest(all);
    KeptIsPrefix(all, ranked, retention);
    RankedSplit(ranked, retention);
    NewNames(all, removals, ranked[retention..]);
    ElementsAppend(removals, ranked[retention..]);
  }

  lemma NoOverflow(all: set<Entry>, ranked: seq<Entry>, retention: nat, removals: seq<Entry>)
    requires retention >= |ranked|
    requires Sorted(Newer, ranked) && DistinctNames(ranked) && Elements(ranked) == NewestExcept(all, {})
    requires Elements(removals) == OthersExcept(all, {})
    ensures Elements(removals) == all - Kept(all, retention)
  {
    KeptWithin(all, retention);
    hide Newer, Sorted, DistinctNames, Elements, Newest, Kept;
    assert NewestExcept(all, {}) == Newest(all);
    KeptIsPrefix(all, ranked, retention);
    assert ranked[..|ranked|] == ranked;
  }

  lemma NothingChosen(all: set<Entry>, groups: map<UInt32, seq<Entry>>)
    requires Filed(groups, all)
    ensures NewestExcept(all, groups.Keys) == {} && OthersExcept(all, groups.Keys) == {}
    ensures Elements([]) == {} && DistinctNames([])
  {
    KeptWithin(all, 0);
  }

  lemma SortedRest(sorted: seq<Entry>)
    requires DistinctNames(sorted) && sorted != []
    ensures DistinctNames(sorted[1..])
  {
  }

  lemma RankedSplit(ranked: seq<Entry>, n: nat)
    requires DistinctNames(ranked) && n <= |ranked|
    ensures DistinctNames(ranked[n..]) && Elements(ranked[..n]) !! Elements(ranked[n..])
    ensures Elements(ranked) == Elements(ranked[..n]) + Elements(ranked[n..])
  {
    assert ranked == ranked[..n] + ranked[n..];
    ElementsAppend(ranked[..n], ranked[n..]);
  }

  // ------------------------------------------------------------------ pruning

  /** The names pruning may remove. */
  ghost function Prunable(options: Options, load: Loader, files: Files): set<Text> {
    NamesOf(Verified(options, load, files) - Kept(Verified(options, load, files), options.retention))
  }

  /** Some of the prunable files are gone, and nothing else has changed. */
  ghost predicate Pruned(options: Options, load: Loader, before: Files, now: Files) {
    && (forall p :: p in now ==> p in before && now[p] == before[p])
    && (forall p :: p in before && p !in now ==> p.Store? && p.name in Prunable(options, load, before))
  }

  ghost function AfterPrune(options: Options, load: Loader, files: Files): Files {
    map p | p in files && !(p.Store? && p.name in Prunable(options, load, files)) :: files[p]
  }

  datatype Report = Report(rejected: Rejected, removed: seq<Text>)

  method Prune(options: Options, disk: Disk, load: Loader) returns (r: Result<Report>)
    requires disk.Valid()
    modifies disk
    ensures disk.Valid() && old(disk.past) <= disk.past
    ensures forall i :: |old(disk.past)| <= i < |disk.past| ==> Pruned(options, load, old(disk.files), disk.past[i])
    ensures Pruned(options, load, old(disk.files), disk.files)
    ensures r.Err? ==> r.error == StorageError
    ensures r.Ok? ==>
              && disk.files == AfterPrune(options, load, old(disk.files))
              && (forall i, j :: 0 <= i < j < |r.value.removed| ==> r.value.removed[i] != r.value.removed[j])
              && (forall name :: name in r.value.removed <==> name in Prunable(options, load, old(disk.files)))
    ensures r.Ok? ==>
              && (forall i, j :: 0 <= i < j < |r.value.rejected| ==> r.value.rejected[i].0 != r.value.rejected[j].0)
              && forall name, code :: (name, code) in r.value.rejected <==>
                Store(name) in old(disk.files) && Shaped(options, Store(name))
                && Rejection(options, load, old(disk.files), Store(name)) == Some(code)
  {
    hide Shaped, Rejection, Verified, Kept, Reports, Filed, Prunable, DistinctNames, Elements, AfterPrune, Pruned;
    ghost var before := disk.files;
    NothingPruned(options, load, before);
    var names := CheckpointFiles(options, disk);
    if names.Err? {
      return Err(names.error);
    }
    var groups, rejected := Collect(options, disk, names.value, load);
    VerifiedIs(options, load, before);
    ghost var all := Verified(options, load, before);
    var removals := Choose(groups, options.retention, all);
    PrunableIs(options, load, before, removals);
    ReportsAll(options, load, before, names.value, rejected);
    var removed := RemoveAll(options, disk, load, removals, before);
    if removed.Err? {
      return Err(removed.error);
    }
    r := Ok(Report(rejected, removed.value));
  }

  /** Removes the chosen files one by one; the first failure ends it. */
  method RemoveAll(options: Options, disk: Disk, load: Loader, removals: seq<Entry>, ghost before: Files)
    returns (r: Result<seq<Text>>)
    requires disk.Valid() && disk.files == before
    requires forall name :: name in Prunable(options, load, before) <==>
               exists i :: 0 <= i < |removals| && removals[i].name == name
    requires forall i :: 0 <= i < |removals| ==> removals[i].name in Prunable(options, load, before)
    modifies disk
    ensures disk.Valid() && old(disk.past) <= disk.past
    ensures forall i :: |old(disk.past)| <= i < |disk.past| ==> Pruned(options, load, before, disk.past[i])
    ensures Pruned(options, load, before, disk.files)
    ensures r.Err? ==> r.error == StorageError
    ensures r.Ok? ==> disk.files == AfterPrune(options, load, before)
    ensures r.Ok? ==> |r.value| == |removals| && forall i :: 0 <= i < |removals| ==> r.value[i] == removals[i].name
  {
    hide Prunable, AfterPrune;
    var removed: seq<Text> := [];
    for k := 0 to |removals|
      invariant disk.Valid() && old(disk.past) <= disk.past
      invariant forall i :: |old(disk.past)| <= i < |disk.past| ==> Pruned(options, load, before, disk.past[i])
      invariant Pruned(options, load, before, disk.files)
      invariant |removed| == k && forall i :: 0 <= i < k ==> removed[i] == removals[i].name
      invariant forall p :: p in before ==>
                  (p in disk.files <==> !(p.Store? && exists i :: 0 <= i < k && removals[i].name == p.name))
    {
      var ok := disk.Remove(Store(removals[k].name));
      if !ok {
        return Err(StorageError);
      }
      removed := removed + [removals[k].name];
    }
    AfterPruneIs(options, load, before, disk.files, removals);
    r := Ok(removed);
  }

  lemma NothingPruned(options: Options, load: Loader, files: Files)
    ensures Pruned(options, load, files, files)
  {
  }

  lemma PrunableIs(options: Options, load: Loader, files: Files, removals: seq<Entry>)
    requires Elements(removals) ==
             Verified(options, load, files) - Kept(Verified(options, load, files), options.retention)
    requires DistinctNames(removals)
    ensures forall name :: name in Prunable(options, load, files) <==>
              exists i :: 0 <= i < |removals| && removals[i].name == name
    ensures forall i :: 0 <= i < |removals| ==> removals[i].name in Prunable(options, load, files)
    ensures forall i, j :: 0 <= i < j < |removals| ==> removals[i].name != removals[j].name
  {
    hide Verified, Kept;
    forall name | name in Prunable(options, load, files)
      ensures exists i :: 0 <= i < |removals| && removals[i].name == name
    {
      var e :| e in Elements(removals) && e.name == name;
      var i :| 0 <= i < |removals| && removals[i] == e;
      assert removals[i].name == name;
    }
    forall i | 0 <= i < |removals|
      ensures removals[i].name in Prunable(options, load, files)
    {
      assert removals[i] in Elements(removals);
    }
  }

  lemma AfterPruneIs(options: Options, load: Loader, before: Files, now: Files, removals: seq<Entry>)
    requires Pruned(options, load, before, now)
    requires forall name :: name in Prunable(options, load, before) <==>
               exists i :: 0 <= i < |removals| && removals[i].name == name
    requires forall p :: p in before ==>
               (p in now <==> !(p.Store? && exists i :: 0 <= i < |removals| && removals[i].name == p.name))
    ensures now == AfterPrune(options, load, before)
  {
    hide Prunable;
    var after := AfterPrune(options, load, before);
    assert forall p :: p in now <==> p in after;
  }

  lemma ReportsAll(options: Options, load: Loader, files: Files, names: seq<Text>, rejected: Rejected)
    requires Reports(options, load, files, names, |names|, rejected)
    requires forall name :: name in names <==> Store(name) in files && Shaped(options, Store(name))
    ensures forall i, j :: 0 <= i < j < |rejected| ==> rejected[i].0 != rejected[j].0
    ensures forall name, code :: (name, code) in rejected <==>
              Store(name) in files && Shaped(options, Store(name))
              && Rejection(options, load, files, Store(name)) == Some(code)
  {
    hide Shaped, Rejection;
    assert names[..|names|] == names;
    forall name, code | (name, code) in rejected
      ensures name in names && Rejection(options, load, files, Store(name)) == Some(code)
    {
      var i :| 0 <= i < |rejected| && rejected[i] == (name, code);
    }
    forall name, code | name in names && Rejection(options, load, files, Store(name)) == Some(code)
      ensures (name, code) in rejected
    {
      var i :| 0 <= i < |names| && names[i] == name;
    }
  }

  /** Every checkpoint-shaped file is rejected, removed or kept, and no file is two of these; the removed ones are
      all checkpoints that were there, so a rejected file is never removed. */
  lemma PrunePartition(options: Options, load: Loader, files: Files, p: Path)
    requires p in files && Shaped(options, p)
    ensures var kept := NamesOf(Kept(Verified(options, load, files), options.retention));
            && (Rejection(options, load, files, p).Some? <==>
                p.name !in Prunable(options, load, files) && p.name !in kept)
            && !(p.name in Prunable(options, load, files) && p.name in kept)
    ensures forall name :: name in Prunable(options, load, files) ==>
              Store(name) in files && Shaped(options, Store(name))
  {
    var all := Verified(options, load, files);
    VerifiedIs(options, load, files);
    ByName(options, load, files);
    KeptWithin(all, options.retention);
    hide Verified, Kept, IsCheckpointName, Extension, EntryOf;
    assert p == Store(p.name);
    InFiles(options, load, files);
    if Rejection(options, load, files, p) == None {
      var e := EntryOf(options, load, files, p);
      assert e in all && e.name == p.name;
      assert e in all - Kept(all, options.retention) || e in Kept(all, options.retention);
    }
  }

  lemma InFiles(options: Options, load: Loader, files: Files)
    ensures forall e :: IsEntry(options, load, files, e) ==> Store(e.name) in files && Shaped(options, Store(e.name))
  {
    hide IsCheckpointName, Extension;
  }

  /** After a successful prune the verified checkpoints are exactly the kept ones, and pruning again would remove
      nothing. */
  lemma PruneTwice(options: Options, load: Loader, files: Files)
    ensures var after := AfterPrune(options, load, files);
            && Verified(options, load, after) == Kept(Verified(options, load, files), options.retention)
            && AfterPrune(options, load, after) == after
  {
    var all, kept := Verified(options, load, files), Kept(Verified(options, load, files), options.retention);
    var after := AfterPrune(options, load, files);
    VerifiedIs(options, load, files);
    VerifiedIs(options, load, after);
    KeptWithin(all, options.retention);
    KeptTwice(all, options.retention);
    forall e: Entry
      ensures e in Verified(options, load, after) <==> e in kept
    {
      SurvivorIs(options, load, files, e);
    }
    assert Verified(options, load, after) == kept;
    assert Prunable(options, load, after) == {};
  }

  /** `p` is no earlier than `q`, and at the same time not of the larger name. */
  ghost predicate NoOlder(files: Files, p: Path, q: Path)
    requires p in files && q in files
  {
    AtLeastAsLate(files[p].modified, p.name, files[q].modified, q.name)
  }

  ghost predicate LatestAt(options: Options, load: Loader, files: Files, p: Path)
    requires Verifiable(options, load, files, p)
  {
    forall q :: Verifiable(options, load, files, q) && VersionAt(load, files, q) == VersionAt(load, files, p) ==>
      NoOlder(files, p, q)
  }

  /** A usable checkpoint that pruning keeps is no older than any other of its version, and no older than the latest
      of any version that it removes. */
  lemma PruneKeepsLatest(options: Options, load: Loader, files: Files, p: Path, q: Path)
    requires Verifiable(options, load, files, p) && Verifiable(options, load, files, q)
    requires p in AfterPrune(options, load, files)
    requires || VersionAt(load, files, p) == VersionAt(load, files, q)
             || (q !in AfterPrune(options, load, files) && LatestAt(options, load, files, q))
    ensures NoOlder(files, p, q)
  {
    hide Verifiable, VersionAt, Verified, Kept, IsEntry, AtLeastAsLate;
    var all := Verified(options, load, files);
    VerifiedIs(options, load, files);
    var a := EntryAt(options, load, files, p);
    var b := EntryAt(options, load, files, q);
    InFiles(options, load, files);
    SurvivorKept(options, load, files, a);
    SurvivorKept(options, load, files, b);
    if b !in Kept(all, options.retention) && LatestAt(options, load, files, q) {
      forall f | f in all && f.version == b.version
        ensures AtLeastAsLate(b.modified, b.name, f.modified, f.name)
      {
        VerifiableIs(options, load, files, f);
        assert NoOlder(files, q, Store(f.name));
      }
    }
    KeptAreLatest(all, options.retention, a, b);
  }

  lemma EntryAt(options: Options, load: Loader, files: Files, p: Path) returns (e: Entry)
    requires Verifiable(options, load, files, p)
    ensures IsEntry(options, load, files, e) && p == Store(e.name)
    ensures p in files && load(files[p].bytes).Ok?
    ensures e.version == VersionAt(load, files, p) && e.modified == files[p].modified
  {
    VerifiableStore(options, load, files, p);
    e := Entry(VersionAt(load, files, p), files[p].modified, p.name);
    VerifiableIs(options, load, files, e);
  }

  lemma SurvivorKept(options: Options, load: Loader, files: Files, e: Entry)
    requires IsEntry(options, load, files, e)
    ensures var all := Verified(options, load, files);
            Store(e.name) in AfterPrune(options, load, files) <==> e in Kept(all, options.retention)
  {
    var all := Verified(options, load, files);
    VerifiedIs(options, load, files);
    KeptWithin(all, options.retention);
    InFiles(options, load, files);
    hide Verified, Kept, IsEntry;
    assert e in all - Kept(all, options.retention) ==> e.name in Prunable(options, load, files);
  }

  lemma SurvivorIs(options: Options, load: Loader, files: Files, e: Entry)
    ensures var all := Verified(options, load, files);
            IsEntry(options, load, AfterPrune(options, load, files), e) <==> e in Kept(all, options.retention)
  {
    var all := Verified(options, load, files);
    var after := AfterPrune(options, load, files);
    VerifiedIs(options, load, files);
    KeptWithin(all, options.retention);
    hide Verified, Kept, IsCheckpointName, Extension;
    assert e in all && e.name in Prunable(options, load, files) ==> e in all - Kept(all, options.retention);
    assert e in all - Kept(all, options.retention) ==> e.name in Prunable(options, load, files);
  }
}

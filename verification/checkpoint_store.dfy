/** The checkpoint store: capture, commit and prune over the two directories, with a crash possible after any
    file operation. */
module CheckpointStores {
  import opened Base
  import opened Trees
  import opened Filenames
  import opened Ranking
  import opened Disks

  type Loader = Text -> Result<Config>

  datatype Options = Options(canonical: Text, retention: nat, maxBytes: nat) {
    function Canonical(): Path {
      Home(canonical)
    }

    function Suffix(): Text {
      Extension(canonical)
    }

    function Checkpoint(version: UInt32): Path {
      Store(CheckpointName(version, Suffix()))
    }
  }

  /** A file of the checkpoint directory whose name says it is a checkpoint. */
  predicate Shaped(options: Options, p: Path) {
    p.Store? && IsCheckpointName(p.name, options.Suffix())
  }

  /** `readFileBytes`. */
  function ReadFile(options: Options, files: Files, p: Path): Result<Text> {
    if p in files && files[p].readable && |files[p].bytes| <= options.maxBytes then Ok(files[p].bytes)
    else Err(StorageError)
  }

  function LoadFile(options: Options, load: Loader, files: Files, p: Path): Result<Config> {
    match ReadFile(options, files, p)
    case Err(e) => Err(e)
    case Ok(bytes) => load(bytes)
  }

  // ------------------------------------------------------------------ capture and commit

  /** The canonical file can be read, and its document carries this version. */
  predicate Capturable(options: Options, load: Loader, files: Files, version: UInt32) {
    var loaded := LoadFile(options, load, files, options.Canonical());
    loaded.Ok? && loaded.value.version == version
  }

  /** Copies the canonical file's bytes, unchanged, to the checkpoint of their version. */
  method Capture(options: Options, disk: Disk, names: TempNames, version: UInt32, load: Loader) returns (r: Result<()>)
    requires disk.Valid()
    modifies disk, names
    ensures disk.Valid() && old(disk.past) <= disk.past
    ensures r.Ok? ==>
              && Capturable(options, load, old(disk.files), version)
              && var dest := options.Checkpoint(version);
                 && dest in disk.files && disk.files[dest].bytes == old(disk.files)[options.Canonical()].bytes
                 && disk.files == old(disk.files)[dest := disk.files[dest]]
    ensures r.Err? ==> SameAt(old(disk.files), disk.files, options.Checkpoint(version))
    ensures !Capturable(options, load, old(disk.files), version) ==>
              && disk.files == old(disk.files) && disk.past == old(disk.past)
              && var loaded := LoadFile(options, load, disk.files, options.Canonical());
                 r == Err(if loaded.Err? then loaded.error else InvalidVersion)
    ensures Capturable(options, load, old(disk.files), version) ==>
              && (r.Err? ==> r.error == StorageError)
              && PassedThrough(disk.past, |old(disk.past)|, old(disk.files), options.Checkpoint(version),
                               old(disk.files)[options.Canonical()].bytes)
  {
    hide Replaced, CheckpointName;
    var bytes := ReadFile(options, disk.files, options.Canonical());
    if bytes.Err? {
      return Err(bytes.error);
    }
    var loaded := load(bytes.value);
    if loaded.Err? {
      return Err(loaded.error);
    }
    if loaded.value.version != version {
      return Err(InvalidVersion);
    }
    r := ReplaceThrough(disk, names, options.Checkpoint(version), bytes.value);
  }

  /** Writes the configuration, as the backend saves it, over the canonical file. */
  method Commit(options: Options, disk: Disk, names: TempNames, saved: Result<Text>) returns (r: Result<()>)
    requires disk.Valid()
    modifies disk, names
    ensures disk.Valid() && old(disk.past) <= disk.past
    ensures saved.Err? ==> r == Err(saved.error) && disk.files == old(disk.files) && disk.past == old(disk.past)
    ensures r.Ok? ==>
              && saved.Ok?
              && var dest := options.Canonical();
                 && dest in disk.files && disk.files[dest].bytes == saved.value
                 && disk.files == old(disk.files)[dest := disk.files[dest]]
    ensures r.Err? ==> SameAt(old(disk.files), disk.files, options.Canonical())
    ensures saved.Ok? ==>
              && (r.Err? ==> r.error == StorageError)
              && PassedThrough(disk.past, |old(disk.past)|, old(disk.files), options.Canonical(), saved.value)
  {
    hide Replaced;
    if saved.Err? {
      return Err(saved.error);
    }
    r := ReplaceThrough(disk, names, options.Canonical(), saved.value);
  }

  // ------------------------------------------------------------------ which checkpoints are verified

  /** Why a checkpoint cannot be used, if it cannot. */
  function Rejection(options: Options, load: Loader, files: Files, p: Path): Option<ErrorCode> {
    var loaded := LoadFile(options, load, files, p);
    if loaded.Err? then Some(loaded.error)
    else if p in files && files[p].stamped then None
    else Some(StorageError)
  }

  function EntryOf(options: Options, load: Loader, files: Files, p: Path): Entry
    requires Rejection(options, load, files, p) == None
  {
    Entry(load(files[p].bytes).value.version, files[p].modified, p.name)
  }

  predicate IsEntry(options: Options, load: Loader, files: Files, e: Entry) {
    var p := Store(e.name);
    Shaped(options, p) && Rejection(options, load, files, p) == None && e == EntryOf(options, load, files, p)
  }

  function Verified(options: Options, load: Loader, files: Files): set<Entry> {
    set p | p in files && Shaped(options, p) && Rejection(options, load, files, p) == None ::
      EntryOf(options, load, files, p)
  }

  lemma VerifiedIs(options: Options, load: Loader, files: Files)
    ensures forall e :: e in Verified(options, load, files) <==> IsEntry(options, load, files, e)
    ensures NamesApart(Verified(options, load, files))
  {
    hide IsCheckpointName, Extension;
    forall e | IsEntry(options, load, files, e)
      ensures e in Verified(options, load, files)
    {
      assert Store(e.name) in files;
    }
  }

  /** A checkpoint that can be used: shaped, readable, not too big, loadable and with a known time stamp. */
  predicate Verifiable(options: Options, load: Loader, files: Files, p: Path) {
    && p in files && Shaped(options, p) && files[p].readable && |files[p].bytes| <= options.maxBytes
    && load(files[p].bytes).Ok? && files[p].stamped
  }

  /** The version a checkpoint's document carries. */
  function VersionAt(load: Loader, files: Files, p: Path): UInt32
    requires p in files && load(files[p].bytes).Ok?
  {
    load(files[p].bytes).value.version
  }

  /** Why a file is not used: the backend's own code if it can be read but not loaded, else `StorageError`. */
  lemma RejectionIs(options: Options, load: Loader, files: Files, p: Path)
    requires p in files && Shaped(options, p)
    ensures Rejection(options, load, files, p) == None <==> Verifiable(options, load, files, p)
    ensures var readable := files[p].readable && |files[p].bytes| <= options.maxBytes;
            !Verifiable(options, load, files, p) ==>
              Rejection(options, load, files, p) ==
              Some(if readable && load(files[p].bytes).Err? then load(files[p].bytes).error else StorageError)
  {
  }

  /** The verified entries are the usable files with their versions, time stamps and names. */
  lemma VerifiableIs(options: Options, load: Loader, files: Files, e: Entry)
    ensures IsEntry(options, load, files, e) <==>
            && Verifiable(options, load, files, Store(e.name))
            && e.version == VersionAt(load, files, Store(e.name)) && e.modified == files[Store(e.name)].modified
  {
    hide IsCheckpointName, Extension;
  }

  lemma VerifiableStore(options: Options, load: Loader, files: Files, p: Path)
    requires Verifiable(options, load, files, p)
    ensures p == Store(p.name)
  {
  }

  ghost function NamesOf(entries: set<Entry>): set<Text> {
    set e | e in entries :: e.name
  }

  /** `checkpointFiles`: the checkpoint-shaped names, in whatever order the directory lists them. */
  method CheckpointFiles(options: Options, disk: Disk) returns (r: Result<seq<Text>>)
    ensures r.Err? ==> r.error == StorageError
    ensures r.Ok? ==>
              && (forall i, j :: 0 <= i < j < |r.value| ==> r.value[i] != r.value[j])
              && (forall name :: name in r.value <==> Store(name) in disk.files && Shaped(options, Store(name)))
  {
    hide IsCheckpointName;
    var failed: bool := *;
    if failed {
      return Err(StorageError);
    }
    var names: seq<Text> := [];
    var rest := disk.files.Keys;
    while rest != {}
      invariant rest <= disk.files.Keys
      invariant forall i, j :: 0 <= i < j < |names| ==> names[i] != names[j]
      invariant forall name :: name in names <==>
                  Store(name) in disk.files && Store(name) !in rest && Shaped(options, Store(name))
      decreases rest
    {
      var p :| p in rest;
      rest := rest - {p};
      if Shaped(options, p) {
        names := names + [p.name];
      }
    }
    r := Ok(names);
  }
}

/** The two directories the checkpoint store works in, and replacing a file through a temporary sibling. */
module Disks {
  import opened Base
  import opened Filenames

  /** A file beside the canonical configuration, or one in the checkpoint directory. The two never coincide. */
  datatype Path = Home(name: Text) | Store(name: Text)

  /** `readable` and `stamped`: reading its bytes, and its modification time, succeeds. */
  datatype File = File(bytes: Text, modified: int, readable: bool, stamped: bool)

  type Files = map<Path, File>

  function Sibling(p: Path, name: Text): Path {
    if p.Home? then Home(name) else Store(name)
  }

  ghost predicate TempOf(temp: Path, dest: Path) {
    temp == Sibling(dest, temp.name) && IsTempName(temp.name, dest.name)
  }

  ghost predicate SameAt(before: Files, now: Files, p: Path) {
    (p in before <==> p in now) && (p in before ==> now[p] == before[p])
  }

  /** At any moment of replacing `dest` by `bytes`: nothing else has changed but that a temporary sibling may be
      there, and `dest` is what it was or holds the new bytes whole. */
  ghost predicate Replaced(before: Files, now: Files, dest: Path, bytes: Text) {
    && (forall p :: p in before && p != dest ==> p in now && now[p] == before[p])
    && (forall p :: p in now && p !in before && p != dest ==> TempOf(p, dest))
    && (SameAt(before, now, dest) || (dest in now && now[dest].bytes == bytes))
  }

  datatype Opened = Created | Taken | Failed

  /** Every file operation is one atomic step; it may fail for reasons of its own. A crash can only fall between
      steps, so the states a crash can leave behind are those in `past`. */
  class Disk {
    var files: Files
    ghost var past: seq<Files>

    ghost predicate Valid()
      reads this
    {
      past != [] && past[|past| - 1] == files
    }

    constructor (files: Files)
      ensures Valid() && this.files == files && past == [files]
    {
      this.files, past := files, [files];
    }

    /** `open(O_CREAT | O_EXCL)`. */
    method Create(p: Path) returns (r: Opened)
      requires Valid()
      modifies this
      ensures Valid() && past == old(past) + [files]
      ensures r == Taken <==> p in old(files)
      ensures r == Created ==> p in files && files == old(files)[p := files[p]] && files[p].bytes == []
      ensures r != Created ==> files == old(files)
    {
      var failed: bool := *;
      var now: int := *;
      if p in files {
        r := Taken;
      } else if failed {
        r := Failed;
      } else {
        r := Created;
        files := files[p := File([], now, true, true)];
      }
      past := past + [files];
    }

    /** `write`: some of the bytes, or none when it fails. */
    method Append(p: Path, bytes: Text) returns (written: nat)
      requires Valid() && p in files && bytes != []
      modifies this
      ensures Valid() && past == old(past) + [files]
      ensures written <= |bytes| && p in files && files == old(files)[p := files[p]]
      ensures files[p].bytes == old(files[p].bytes) + bytes[..written]
    {
      written :| 0 <= written <= |bytes|;
      var now: int := *;
      files := files[p := files[p].(bytes := files[p].bytes + bytes[..written], modified := now)];
      past := past + [files];
    }

    /** `fchmod` and `close`: the mode copied from elsewhere may leave the file unreadable. */
    method Close(p: Path) returns (ok: bool)
      requires Valid() && p in files
      modifies this
      ensures Valid() && past == old(past) + [files]
      ensures p in files && files == old(files)[p := files[p]] && files[p].bytes == old(files[p].bytes)
    {
      ok := *;
      var readable: bool := *;
      files := files[p := files[p].(readable := readable)];
      past := past + [files];
    }

    /** `remove`. */
    method Remove(p: Path) returns (ok: bool)
      requires Valid()
      modifies this
      ensures Valid() && past == old(past) + [files]
      ensures files == if ok then old(files) - {p} else old(files)
    {
      ok := *;
      if ok {
        files := files - {p};
      }
      past := past + [files];
    }

    /** `rename`: the destination changes from its old file to the source in one step. */
    method Rename(source: Path, dest: Path) returns (ok: bool)
      requires Valid() && source in files && source != dest
      modifies this
      ensures Valid() && past == old(past) + [files]
      ensures files == if ok then (old(files) - {source})[dest := old(files[source])] else old(files)
    {
      ok := *;
      if ok {
        var moved := files[source];
        files := (files - {source})[dest := moved];
      }
      past := past + [files];
    }
  }

  /** The process-wide sequence number of temporary names; it starts again with the process. */
  class TempNames {
    var sequence: Sequence

    constructor () {
      sequence := 0;
    }

    method Candidate(dest: Path) returns (temp: Path)
      modifies this
      ensures TempOf(temp, dest)
    {
      hide TempName, IsTempName;
      var ticks: Int64 :| ticks == ticks;
      Named(dest.name, ticks, sequence);
      temp := Sibling(dest, TempName(dest.name, ticks, sequence));
      sequence := if sequence == 0xFFFF_FFFF_FFFF_FFFF then 0 else sequence + 1;
    }
  }

  lemma Named(name: Text, ticks: Int64, sequence: Sequence)
    ensures IsTempName(TempName(name, ticks, sequence), name)
  {
    hide TempName;
  }

  /** Everything the disk passed through since `mark` was a moment of replacing `dest`. */
  ghost predicate PassedThrough(past: seq<Files>, mark: nat, before: Files, dest: Path, bytes: Text) {
    forall i :: mark <= i < |past| ==> Replaced(before, past[i], dest, bytes)
  }

  lemma TempIsElsewhere(temp: Path, dest: Path)
    requires TempOf(temp, dest)
    ensures temp != dest
  {
    TempIsNoCheckpoint(temp.name, dest.name, []);
  }

  lemma WithTemp(before: Files, now: Files, temp: Path, dest: Path, bytes: Text)
    requires temp !in before && TempOf(temp, dest) && temp in now && now == before[temp := now[temp]]
    ensures Replaced(before, now, dest, bytes)
  {
    TempIsElsewhere(temp, dest);
    hide TempOf;
  }

  lemma Untouched(before: Files, dest: Path, bytes: Text)
    ensures Replaced(before, before, dest, bytes)
  {
  }

  /** Writes the bytes to a new temporary sibling. A failure leaves nothing behind, unless removing it fails too. */
  method WriteTemporary(disk: Disk, names: TempNames, dest: Path, bytes: Text) returns (r: Result<Path>)
    requires disk.Valid()
    modifies disk, names
    ensures disk.Valid() && old(disk.past) <= disk.past
    ensures PassedThrough(disk.past, |old(disk.past)|, old(disk.files), dest, bytes)
    ensures r.Ok? ==> TempOf(r.value, dest) && r.value !in old(disk.files) && r.value in disk.files
    ensures r.Ok? ==>
              disk.files == old(disk.files)[r.value := disk.files[r.value]] && disk.files[r.value].bytes == bytes
    ensures r.Err? ==> r.error == StorageError && SameAt(old(disk.files), disk.files, dest)
    ensures r.Err? ==> Replaced(old(disk.files), disk.files, dest, bytes)
  {
    hide TempOf, Replaced;
    ghost var before, mark := disk.files, |disk.past|;
    Untouched(before, dest, bytes);
    for attempt := 0 to 100
      invariant disk.Valid() && old(disk.past) <= disk.past && disk.files == before
      invariant PassedThrough(disk.past, mark, before, dest, bytes)
    {
      var temp := names.Candidate(dest);
      var made := disk.Create(temp);
      if made == Failed {
        return Err(StorageError);
      }
      if made == Created {
        TempIsElsewhere(temp, dest);
        WithTemp(before, disk.files, temp, dest, bytes);
        var ok := WriteAll(disk, temp, bytes, before, mark, dest);
        if ok {
          return Ok(temp);
        }
        var removed := disk.Remove(temp);
        assert removed ==> disk.files == before;
        if !removed {
          WithTemp(before, disk.files, temp, dest, bytes);
        }
        return Err(StorageError);
      }
    }
    r := Err(StorageError);
  }

  /** The write loop, and giving the file its final mode. */
  method WriteAll(disk: Disk, temp: Path, bytes: Text, ghost before: Files, ghost mark: nat, ghost dest: Path)
    returns (ok: bool)
    requires disk.Valid() && temp !in before && TempOf(temp, dest) && temp in disk.files
    requires disk.files == before[temp := disk.files[temp]] && disk.files[temp].bytes == []
    requires PassedThrough(disk.past, mark, before, dest, bytes)
    modifies disk
    ensures disk.Valid() && old(disk.past) <= disk.past
    ensures PassedThrough(disk.past, mark, before, dest, bytes)
    ensures temp in disk.files && disk.files == before[temp := disk.files[temp]]
    ensures ok ==> disk.files[temp].bytes == bytes
  {
    hide TempOf, Replaced;
    var offset := 0;
    while offset < |bytes|
      invariant offset <= |bytes|
      invariant disk.Valid() && old(disk.past) <= disk.past
      invariant PassedThrough(disk.past, mark, before, dest, bytes)
      invariant temp in disk.files && disk.files == before[temp := disk.files[temp]]
      invariant disk.files[temp].bytes == bytes[..offset]
    {
      var written := disk.Append(temp, bytes[offset..]);
      WithTemp(before, disk.files, temp, dest, bytes);
      assert bytes[..offset] + bytes[offset..][..written] == bytes[..offset + written];
      if written == 0 {
        return false;
      }
      offset := offset + written;
    }
    assert bytes[..offset] == bytes;
    ok := disk.Close(temp);
    WithTemp(before, disk.files, temp, dest, bytes);
  }

  /** Replaces `dest` by `bytes` through a temporary file and one rename: wholly, or not at all. */
  method ReplaceThrough(disk: Disk, names: TempNames, dest: Path, bytes: Text) returns (r: Result<()>)
    requires disk.Valid()
    modifies disk, names
    ensures disk.Valid() && old(disk.past) <= disk.past
    ensures PassedThrough(disk.past, |old(disk.past)|, old(disk.files), dest, bytes)
    ensures r.Ok? ==> dest in disk.files && disk.files[dest].bytes == bytes
                      && disk.files == old(disk.files)[dest := disk.files[dest]]
    ensures r.Err? ==> r.error == StorageError && SameAt(old(disk.files), disk.files, dest)
    ensures r.Err? ==> Replaced(old(disk.files), disk.files, dest, bytes)
  {
    hide TempOf, Replaced;
    ghost var before := disk.files;
    var temp := WriteTemporary(disk, names, dest, bytes);
    if temp.Err? {
      return Err(temp.error);
    }
    TempIsElsewhere(temp.value, dest);
    WithTemp(before, disk.files, temp.value, dest, bytes);
    Untouched(before, dest, bytes);
    var renamed := disk.Rename(temp.value, dest);
    if renamed {
      assert disk.files == before[dest := disk.files[dest]];
      Renamed(before, disk.files, dest, bytes);
      return Ok(());
    }
    var removed := disk.Remove(temp.value);
    if removed {
      assert disk.files == before;
    }
    r := Err(StorageError);
  }

  lemma Renamed(before: Files, now: Files, dest: Path, bytes: Text)
    requires dest in now && now == before[dest := now[dest]] && now[dest].bytes == bytes
    ensures Replaced(before, now, dest, bytes)
  {
  }
}

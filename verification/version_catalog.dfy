/** `VersionCatalog`: registered versions in ascending order, found by binary search. */
module VersionCatalogs {
  import opened Base
  import opened Trees
  import opened NodeArena
  import opened ConfigModels

  /** A default factory by its outcome: none given, one that throws, or one that makes a fixed value. */
  datatype Factory = Empty | Throws | Makes(value: Value)

  datatype Artifact = Artifact(version: UInt32, factory: Factory)

  ghost predicate Ascending(entries: seq<Artifact>) {
    forall i, j :: 0 <= i < j < |entries| ==> entries[i].version < entries[j].version
  }

  predicate Registered(entries: seq<Artifact>, v: UInt32) {
    exists i :: 0 <= i < |entries| && entries[i].version == v
  }

  /** `lower_bound`, as a count: how many versions come before `v`. */
  function Rank(entries: seq<Artifact>, v: UInt32): (n: nat)
    ensures n <= |entries|
  {
    if entries == [] then 0
    else Rank(entries[..|entries| - 1], v) + if entries[|entries| - 1].version < v then 1 else 0
  }

  lemma {:induction false} RankIs(entries: seq<Artifact>, v: UInt32, pos: nat)
    requires Ascending(entries) && pos <= |entries|
    requires forall i :: 0 <= i < pos ==> entries[i].version < v
    requires forall i :: pos <= i < |entries| ==> entries[i].version >= v
    ensures Rank(entries, v) == pos
  {
    if entries != [] {
      var n := |entries| - 1;
      RankIs(entries[..n], v, if pos > n then n else pos);
    }
  }

  lemma {:induction false} RankSplits(entries: seq<Artifact>, v: UInt32)
    requires Ascending(entries)
    ensures forall i :: 0 <= i < |entries| ==> (i < Rank(entries, v) <==> entries[i].version < v)
    ensures Registered(entries, v) <==> Rank(entries, v) < |entries| && entries[Rank(entries, v)].version == v
  {
    if entries != [] {
      var n := |entries| - 1;
      RankSplits(entries[..n], v);
      var r := Rank(entries[..n], v);
      forall i | 0 <= i < |entries|
        ensures i < Rank(entries, v) <==> entries[i].version < v
      {
        if i < n {
          assert entries[..n][i] == entries[i];
        } else if r < n {
          assert entries[..n][r] == entries[r];
        }
      }
    }
  }

  /** The version registered right after `v`. */
  function NextOf(entries: seq<Artifact>, v: UInt32): (r: Result<UInt32>)
  {
    var i := Rank(entries, v);
    if i < |entries| && entries[i].version == v && i + 1 < |entries| then Ok(entries[i + 1].version)
    else Err(InvalidVersion)
  }

  /** The next version is the least registered one above a registered version, and there is none exactly when that
      version is unknown or the latest. */
  lemma NextIsLeast(entries: seq<Artifact>, v: UInt32)
    requires Ascending(entries)
    ensures NextOf(entries, v).Ok? <==> Registered(entries, v) && exists w: UInt32 :: w > v && Registered(entries, w)
    ensures NextOf(entries, v).Ok? ==>
              var next := NextOf(entries, v).value;
              next > v && Registered(entries, next)
              && forall w: UInt32 :: Registered(entries, w) ==> w <= v || w >= next
    ensures NextOf(entries, v).Err? ==> NextOf(entries, v).error == InvalidVersion
  {
    RankSplits(entries, v);
    var i := Rank(entries, v);
    if i < |entries| && entries[i].version == v && i + 1 < |entries| {
      assert Registered(entries, entries[i + 1].version);
    }
  }

  function Insert(entries: seq<Artifact>, artifact: Artifact): seq<Artifact> {
    entries[..Rank(entries, artifact.version)] + [artifact] + entries[Rank(entries, artifact.version)..]
  }

  lemma InsertFacts(entries: seq<Artifact>, artifact: Artifact)
    requires Ascending(entries) && !Registered(entries, artifact.version)
    ensures Ascending(Insert(entries, artifact))
    ensures forall x :: x in Insert(entries, artifact) <==> x in entries || x == artifact
    ensures forall v :: Registered(Insert(entries, artifact), v) <==> Registered(entries, v) || v == artifact.version
  {
    InsertAscending(entries, artifact);
    hide Ascending, Rank;
    var r := Rank(entries, artifact.version);
    assert entries == entries[..r] + entries[r..];
    hide Registered;
    forall v
      ensures Registered(Insert(entries, artifact), v) <==> Registered(entries, v) || v == artifact.version
    {
      RegisteredIn(entries, v);
      RegisteredIn(Insert(entries, artifact), v);
    }
  }

  lemma InsertAscending(entries: seq<Artifact>, artifact: Artifact)
    requires Ascending(entries) && !Registered(entries, artifact.version)
    ensures Ascending(Insert(entries, artifact))
  {
    RankSplits(entries, artifact.version);
    var r, longer := Rank(entries, artifact.version), Insert(entries, artifact);
    hide Rank;
    forall i | 0 <= i < |longer|
      ensures longer[i] == if i < r then entries[i] else if i == r then artifact else entries[i - 1]
    {
    }
  }

  lemma RegisteredIn(entries: seq<Artifact>, v: UInt32)
    ensures Registered(entries, v) <==> exists x :: x in entries && x.version == v
  {
    if Registered(entries, v) {
      var i :| 0 <= i < |entries| && entries[i].version == v;
      assert entries[i] in entries;
    }
  }

  lemma LastIsGreatest(a: seq<Artifact>)
    requires Ascending(a) && a != []
    ensures forall x :: x in a ==>
              x.version <= a[|a| - 1].version && (x.version == a[|a| - 1].version ==> x == a[|a| - 1])
  {
    assert forall i :: 0 <= i < |a| ==> a[i].version <= a[|a| - 1].version;
  }

  lemma InFront(a: seq<Artifact>, x: Artifact)
    requires Ascending(a) && a != []
    ensures x in a[..|a| - 1] <==> x in a && x != a[|a| - 1]
  {
    var m := |a| - 1;
    assert a == a[..m] + [a[m]];
    assert forall i :: 0 <= i < m ==> a[..m][i] != a[m];
  }

  /** An ascending catalog is determined by its artifacts. */
  lemma {:induction false} AscendingUnique(a: seq<Artifact>, b: seq<Artifact>)
    requires Ascending(a) && Ascending(b)
    requires forall x :: x in a <==> x in b
    ensures a == b
  {
    assert a != [] ==> a[0] in a && a[0] in b;
    assert b != [] ==> b[0] in b && b[0] in a;
    if a != [] && b != [] {
      var m, n := |a| - 1, |b| - 1;
      assert a[m] in b && b[n] in a;
      LastIsGreatest(a);
      LastIsGreatest(b);
      assert a[m].version == b[n].version && a[m] == b[n];
      forall x
        ensures x in a[..m] <==> x in b[..n]
      {
        InFront(a, x);
        InFront(b, x);
      }
      AscendingUnique(a[..m], b[..n]);
      assert a == a[..m] + [a[m]] && b == b[..n] + [b[n]];
    }
  }

  /** Registration order does not matter. */
  lemma InsertCommutes(entries: seq<Artifact>, a: Artifact, b: Artifact)
    requires Ascending(entries) && a.version != b.version
    requires !Registered(entries, a.version) && !Registered(entries, b.version)
    ensures Insert(Insert(entries, a), b) == Insert(Insert(entries, b), a)
  {
    InsertFacts(entries, a);
    InsertFacts(entries, b);
    var x, y := Insert(entries, a), Insert(entries, b);
    InsertFacts(x, b);
    InsertFacts(y, a);
    AscendingUnique(Insert(x, b), Insert(y, a));
  }

  class VersionCatalog {
    var entries: seq<Artifact>

    ghost predicate Valid()
      reads this
    {
      Ascending(entries) && forall i :: 0 <= i < |entries| ==> !entries[i].factory.Empty?
    }

    constructor ()
      ensures Valid() && entries == []
    {
      entries := [];
    }

    /** `std::lower_bound`: halves the range that can still hold the answer. */
    method FindEntry(v: UInt32) returns (pos: nat)
      requires Valid()
      ensures pos == Rank(entries, v)
    {
      pos := 0;
      var count := |entries|;
      while count > 0
        invariant 0 <= pos && 0 <= count && pos + count <= |entries|
        invariant forall i :: 0 <= i < pos ==> entries[i].version < v
        invariant forall i :: pos + count <= i < |entries| ==> entries[i].version >= v
        decreases count
      {
        var step := count / 2;
        if entries[pos + step].version < v {
          pos := pos + step + 1;
          count := count - step - 1;
        } else {
          count := step;
        }
      }
      RankIs(entries, v, pos);
    }

    method RegisterVersion(artifact: Artifact) returns (r: Result<()>)
      requires Valid()
      modifies this
      ensures Valid()
      ensures r.Ok? <==> !artifact.factory.Empty? && !Registered(old(entries), artifact.version)
      ensures r.Ok? ==> entries == Insert(old(entries), artifact)
      ensures r.Err? ==> entries == old(entries)
      ensures r.Err? ==> r.error == if artifact.factory.Empty? then MigrationFailed else InvalidVersion
    {
      if artifact.factory.Empty? {
        return Err(MigrationFailed);
      }
      RankSplits(entries, artifact.version);
      var pos := FindEntry(artifact.version);
      if pos != |entries| && entries[pos].version == artifact.version {
        return Err(InvalidVersion);
      }
      InsertFacts(entries, artifact);
      assert forall x :: x in Insert(entries, artifact) ==> !x.factory.Empty?;
      entries := entries[..pos] + [artifact] + entries[pos..];
      r := Ok(());
    }

    method Contains(v: UInt32) returns (found: bool)
      requires Valid()
      ensures found <==> Registered(entries, v)
    {
      RankSplits(entries, v);
      var pos := FindEntry(v);
      found := pos != |entries| && entries[pos].version == v;
    }

    method LatestVersion() returns (r: Result<UInt32>)
      requires Valid()
      ensures entries == [] ==> r == Err(InvalidVersion)
      ensures entries != [] ==> r.Ok? && Registered(entries, r.value)
      ensures entries != [] ==> forall i :: 0 <= i < |entries| ==> entries[i].version <= r.value
    {
      if entries == [] {
        return Err(InvalidVersion);
      }
      r := Ok(entries[|entries| - 1].version);
    }

    method NextVersion(v: UInt32) returns (r: Result<UInt32>)
      requires Valid()
      ensures r == NextOf(entries, v)
    {
      var pos := FindEntry(v);
      if pos == |entries| || entries[pos].version != v {
        return Err(InvalidVersion);
      }
      if pos + 1 == |entries| {
        return Err(InvalidVersion);
      }
      r := Ok(entries[pos + 1].version);
    }

    /** The registered versions, ascending. */
    method Versions() returns (ids: seq<UInt32>)
      requires Valid()
      ensures |ids| == |entries| && forall i :: 0 <= i < |ids| ==> ids[i] == entries[i].version
      ensures forall i, j :: 0 <= i < j < |ids| ==> ids[i] < ids[j]
    {
      ids := [];
      for k := 0 to |entries|
        invariant |ids| == k && forall i :: 0 <= i < k ==> ids[i] == entries[i].version
      {
        ids := ids + [entries[k].version];
      }
    }

    /** Runs the version's factory and adopts what it makes. */
    method CreateDefault(heap: Heap, v: UInt32) returns (r: Outcome<ConfigModel>)
      requires Valid()
      modifies heap
      ensures r.Done? ==> fresh(r.value) && fresh(r.value.arena) && r.value.arena.heap == heap && r.value.Valid()
      ensures r.Done? ==> DefaultOf(entries, v) == Ok(r.value.Contents())
      ensures r.Refused? ==> DefaultOf(entries, v) == Err(r.error)
      ensures r.OutOfMemory? ==> heap.budget == 0
    {
      var pos := FindEntry(v);
      if pos == |entries| || entries[pos].version != v {
        return Refused(InvalidVersion);
      }
      if entries[pos].factory.Throws? {
        return Refused(MigrationFailed);
      }
      r := ConfigModel.FromValue(heap, entries[pos].factory.value);
    }
  }

  /** The default tree of a version, or the error its factory ends in. */
  ghost function DefaultOf(entries: seq<Artifact>, v: UInt32): (r: Result<Tree>)
    ensures r.Ok? ==> ModelTree(r.value)
  {
    var i := Rank(entries, v);
    if i >= |entries| || entries[i].version != v then Err(InvalidVersion)
    else match entries[i].factory
      case Makes(value) =>
        if !value.Obj? then Err(InvalidType) else if !Fits(value, 0) then Err(InvalidPath) else Ok(value)
      case _ => Err(MigrationFailed)
  }

  /** The default of a registered version is its own artifact's: the value its factory makes, if that is a legal
      model; each failure has its own code. */
  lemma DefaultIs(entries: seq<Artifact>, i: nat, t: Tree)
    requires Ascending(entries) && i < |entries|
    ensures var r, factory := DefaultOf(entries, entries[i].version), entries[i].factory;
            && (r == Ok(t) <==> factory.Makes? && factory.value == t && ModelTree(t))
            && (r == Err(MigrationFailed) <==> !factory.Makes?)
            && (r == Err(InvalidType) <==> factory.Makes? && !factory.value.Obj?)
            && (r == Err(InvalidPath) <==> factory.Makes? && factory.value.Obj? && !Fits(factory.value, 0))
            && r != Err(InvalidVersion)
  {
    RankAt(entries, i);
    hide Rank, Fits;
  }

  /** An unregistered version has none. */
  lemma NoDefault(entries: seq<Artifact>, v: UInt32)
    requires Ascending(entries)
    ensures DefaultOf(entries, v) == Err(InvalidVersion) <==> !Registered(entries, v)
  {
    RankSplits(entries, v);
    hide Rank, Fits;
  }

  lemma RankAt(entries: seq<Artifact>, i: nat)
    requires Ascending(entries) && i < |entries|
    ensures Rank(entries, entries[i].version) == i
  {
    RankIs(entries, entries[i].version, i);
  }

  lemma SameArtifact(entries: seq<Artifact>, i: nat, longer: seq<Artifact>, j: nat)
    requires Ascending(entries) && Ascending(longer) && i < |entries| && j < |longer| && entries[i] == longer[j]
    ensures DefaultOf(entries, entries[i].version) == DefaultOf(longer, entries[i].version)
  {
    RankAt(entries, i);
    RankAt(longer, j);
    hide Rank, Fits;
  }

  /** Registering another version leaves it as it is. */
  lemma DefaultStays(entries: seq<Artifact>, artifact: Artifact, v: UInt32)
    requires Ascending(entries) && !Registered(entries, artifact.version) && v != artifact.version
    ensures DefaultOf(Insert(entries, artifact), v) == DefaultOf(entries, v)
  {
    hide DefaultOf, Insert, Rank;
    InsertFacts(entries, artifact);
    var longer := Insert(entries, artifact);
    if Registered(entries, v) {
      var i :| 0 <= i < |entries| && entries[i].version == v;
      assert entries[i] in longer;
      var j :| 0 <= j < |longer| && longer[j] == entries[i];
      SameArtifact(entries, i, longer, j);
    } else {
      NoDefault(entries, v);
      NoDefault(longer, v);
    }
  }
}

/** `MigrationRegistry`: the migration edges, and the exact check of their chain against a catalog. */
module MigrationRegistries {
  import opened Base
  import opened Trees
  import opened Lifetimes
  import opened VersionCatalogs

  /** How a migration function ends. */
  datatype Verdict = Applied | Failed | Threw

  /** What a migration does to a model it is given: the writes it performs through the model's API, in order,
      and how it ends. Both may depend on everything the model holds. */
  type Migration = Tree -> (seq<Write>, Verdict)

  datatype Edge = Edge(from: UInt32, to: UInt32, apply: Migration)

  type Pair = (UInt32, UInt32)

  ghost function PairOf(edge: Edge): Pair {
    (edge.from, edge.to)
  }

  ghost function Pairs(edges: seq<Edge>): (ps: seq<Pair>)
    ensures |ps| == |edges| && forall i :: 0 <= i < |edges| ==> ps[i] == PairOf(edges[i])
  {
    seq(|edges|, i requires 0 <= i < |edges| => PairOf(edges[i]))
  }

  ghost predicate NoRepeats(ps: seq<Pair>) {
    forall i, j :: 0 <= i < j < |ps| ==> ps[i] != ps[j]
  }

  /** Each registered version with the one after it. */
  ghost function Adjacent(entries: seq<Artifact>): (ps: seq<Pair>)
    ensures |ps| == (if entries == [] then 0 else |entries| - 1)
    ensures forall i :: 0 <= i < |ps| ==> ps[i] == (entries[i].version, entries[i + 1].version)
  {
    seq(if entries == [] then 0 else |entries| - 1,
        i requires 0 <= i < |entries| - 1 => (entries[i].version, entries[i + 1].version))
  }

  /** The registered edges are precisely the adjacent pairs of the catalog, each once. */
  ghost predicate Exact(edges: seq<Edge>, entries: seq<Artifact>) {
    multiset(Pairs(edges)) == multiset(Adjacent(entries))
  }

  lemma {:induction false} OnceEach(ps: seq<Pair>)
    requires NoRepeats(ps)
    ensures forall x :: multiset(ps)[x] == if x in ps then 1 else 0
  {
    if ps != [] {
      var n := |ps| - 1;
      OnceEach(ps[..n]);
      assert ps == ps[..n] + [ps[n]];
      assert forall i :: 0 <= i < n ==> ps[..n][i] != ps[n];
    }
  }

  /** Without repetitions, having the same members is being the same multiset. */
  lemma SameMultiset(a: seq<Pair>, b: seq<Pair>)
    requires NoRepeats(a) && NoRepeats(b)
    ensures multiset(a) == multiset(b) <==> forall x :: x in a <==> x in b
  {
    OnceEach(a);
    OnceEach(b);
    if multiset(a) == multiset(b) {
      forall x
        ensures x in a <==> x in b
      {
        assert multiset(a)[x] == multiset(b)[x];
      }
    }
  }

  /** An edge is adjacent exactly when the catalog says its target follows its source. */
  lemma AdjacentIsNext(entries: seq<Artifact>, p: Pair)
    requires Ascending(entries)
    ensures p in Adjacent(entries) <==> NextOf(entries, p.0) == Ok(p.1)
    ensures p in Adjacent(entries) ==> Registered(entries, p.0) && Registered(entries, p.1)
  {
    RankSplits(entries, p.0);
    var i := Rank(entries, p.0);
    if NextOf(entries, p.0) == Ok(p.1) {
      assert Adjacent(entries)[i] == p;
    }
    if p in Adjacent(entries) {
      var k :| 0 <= k < |Adjacent(entries)| && Adjacent(entries)[k] == p;
      assert entries[k].version == p.0 && entries[k + 1].version == p.1;
      assert k == i;
    }
  }

  class MigrationRegistry {
    var edges: seq<Edge>

    ghost predicate Valid()
      reads this
    {
      NoRepeats(Pairs(edges))
    }

    constructor ()
      ensures Valid() && edges == []
    {
      edges := [];
    }

    /** Position of the first edge for the pair; the edge count when there is none. */
    method Search(from: UInt32, to: UInt32) returns (k: nat)
      ensures k <= |edges|
      ensures forall i :: 0 <= i < k ==> PairOf(edges[i]) != (from, to)
      ensures k < |edges| ==> PairOf(edges[k]) == (from, to)
    {
      k := 0;
      while k < |edges| && !(edges[k].from == from && edges[k].to == to)
        invariant k <= |edges| && forall i :: 0 <= i < k ==> PairOf(edges[i]) != (from, to)
      {
        k := k + 1;
      }
    }

    method RegisterMigration(from: UInt32, to: UInt32, fn: Option<Migration>) returns (r: Result<()>)
      requires Valid()
      modifies this
      ensures Valid()
      ensures r.Ok? <==> fn.Some? && (from, to) !in Pairs(old(edges))
      ensures r.Ok? ==> edges == old(edges) + [Edge(from, to, fn.value)]
      ensures r.Err? ==> edges == old(edges) && r.error == if fn.None? then MigrationFailed else InvalidVersion
    {
      if fn.None? {
        return Err(MigrationFailed);
      }
      var k := Search(from, to);
      if k < |edges| {
        assert Pairs(edges)[k] == (from, to);
        return Err(InvalidVersion);
      }
      edges := edges + [Edge(from, to, fn.value)];
      r := Ok(());
    }

    method FindMigration(from: UInt32, to: UInt32) returns (r: Result<Edge>)
      requires Valid()
      ensures r.Ok? <==> (from, to) in Pairs(edges)
      ensures r.Ok? ==> r.value in edges && PairOf(r.value) == (from, to)
      ensures r.Err? ==> r.error == MissingMigration
      ensures r == FindEdge(edges, from, to)
    {
      var k := Search(from, to);
      FindEdgeAt(edges, from, to, k);
      if k == |edges| {
        return Err(MissingMigration);
      }
      assert Pairs(edges)[k] == (from, to);
      r := Ok(edges[k]);
    }

    /** Succeeds if and only if the edges are exactly the catalog's chain. A stray edge is reported before a gap. */
    method Validate(catalog: VersionCatalog) returns (r: Result<()>)
      requires Valid() && catalog.Valid()
      ensures r.Ok? <==> Exact(edges, catalog.entries)
      ensures r.Err? ==> r.error == if exists x :: x in Pairs(edges) && x !in Adjacent(catalog.entries)
                                    then InvalidVersion else MissingMigration
    {
      hide Ascending, Rank, Registered, NextOf, Pairs, Adjacent;
      AdjacentNoRepeats(catalog.entries);
      SameMultiset(Pairs(edges), Adjacent(catalog.entries));
      var adjacent := EdgesAdjacent(catalog);
      if !adjacent {
        return Err(InvalidVersion);
      }
      var complete := ChainComplete(catalog);
      r := if complete then Ok(()) else Err(MissingMigration);
    }

    /** Whether every edge joins a consecutive pair of the catalog. */
    method EdgesAdjacent(catalog: VersionCatalog) returns (ok: bool)
      requires catalog.Valid()
      ensures ok <==> forall x :: x in Pairs(edges) ==> x in Adjacent(catalog.entries)
    {
      hide Ascending, Rank, Registered, NextOf, Pairs, PairOf, Adjacent;
      for k := 0 to |edges|
        invariant forall i :: 0 <= i < k ==> Pairs(edges)[i] in Adjacent(catalog.entries)
      {
        var edge := edges[k];
        EdgeAdjacent(edges, k, catalog.entries);
        var fromKnown := catalog.Contains(edge.from);
        var toKnown := catalog.Contains(edge.to);
        if !fromKnown || !toKnown {
          return false;
        }
        var next := catalog.NextVersion(edge.from);
        if next.Err? || next.value != edge.to {
          return false;
        }
      }
      ok := true;
    }

    /** Rule 1: every version below the latest has its edge. */
    method ChainComplete(catalog: VersionCatalog) returns (ok: bool)
      requires catalog.Valid()
      ensures ok <==> forall x :: x in Adjacent(catalog.entries) ==> x in Pairs(edges)
    {
      hide Ascending, Pairs, Adjacent, NoRepeats;
      var versions := catalog.Versions();
      ghost var adjacent := Adjacent(catalog.entries);
      var i := 0;
      while i + 1 < |versions|
        invariant i <= |adjacent|
        invariant forall j :: 0 <= j < i ==> adjacent[j] in Pairs(edges)
      {
        var k := Search(versions[i], versions[i + 1]);
        assert adjacent[i] == (versions[i], versions[i + 1]);
        PairFound(edges, versions[i], versions[i + 1], k);
        if k == |edges| {
          assert adjacent[i] in adjacent;
          return false;
        }
        i := i + 1;
      }
      ok := true;
    }
  }

  lemma PairFound(edges: seq<Edge>, from: UInt32, to: UInt32, k: nat)
    requires k <= |edges| && forall i :: 0 <= i < k ==> PairOf(edges[i]) != (from, to)
    requires k < |edges| ==> PairOf(edges[k]) == (from, to)
    ensures (from, to) in Pairs(edges) <==> k < |edges|
  {
    hide Pairs;
    if k < |edges| {
      assert Pairs(edges)[k] == (from, to);
    }
  }

  /** One edge: its pair is consecutive exactly when both ends are registered and the second is the next version. */
  lemma EdgeAdjacent(edges: seq<Edge>, k: nat, entries: seq<Artifact>)
    requires Ascending(entries) && k < |edges|
    ensures |Pairs(edges)| == |edges| && Pairs(edges)[k] in Pairs(edges)
    ensures Pairs(edges)[k] in Adjacent(entries) <==> NextOf(entries, edges[k].from) == Ok(edges[k].to)
    ensures Pairs(edges)[k] in Adjacent(entries) ==>
              Registered(entries, edges[k].from) && Registered(entries, edges[k].to)
  {
    hide Ascending, Rank, Registered, NextOf, Adjacent;
    AdjacentIsNext(entries, PairOf(edges[k]));
  }

  lemma AdjacentNoRepeats(entries: seq<Artifact>)
    requires Ascending(entries)
    ensures NoRepeats(Adjacent(entries))
  {
  }

  /** The first registered edge for a pair. */
  function FindEdge(edges: seq<Edge>, from: UInt32, to: UInt32): Result<Edge> {
    if edges == [] then Err(MissingMigration)
    else if edges[0].from == from && edges[0].to == to then Ok(edges[0])
    else FindEdge(edges[1..], from, to)
  }

  lemma {:induction false} FindEdgeAt(edges: seq<Edge>, from: UInt32, to: UInt32, k: nat)
    requires k <= |edges| && forall i :: 0 <= i < k ==> PairOf(edges[i]) != (from, to)
    requires k < |edges| ==> PairOf(edges[k]) == (from, to)
    ensures FindEdge(edges, from, to) == if k == |edges| then Err(MissingMigration) else Ok(edges[k])
  {
    if k > 0 {
      FindEdgeAt(edges[1..], from, to, k - 1);
    }
  }

  /** Against a validated registry the next edge is always there. */
  lemma ExactHasEdge(edges: seq<Edge>, entries: seq<Artifact>, i: nat)
    requires NoRepeats(Pairs(edges)) && Ascending(entries) && Exact(edges, entries) && i + 1 < |entries|
    ensures NextOf(entries, entries[i].version) == Ok(entries[i + 1].version)
    ensures FindEdge(edges, entries[i].version, entries[i + 1].version).Ok?
    ensures var e := FindEdge(edges, entries[i].version, entries[i + 1].version).value;
            e in edges && PairOf(e) == (entries[i].version, entries[i + 1].version)
  {
    AdjacentNoRepeats(entries);
    SameMultiset(Pairs(edges), Adjacent(entries));
    var p := Adjacent(entries)[i];
    AdjacentIsNext(entries, p);
    assert p in Pairs(edges);
    FirstEdge(edges, p);
  }

  lemma {:induction false} FirstEdge(edges: seq<Edge>, p: Pair)
    requires p in Pairs(edges)
    ensures FindEdge(edges, p.0, p.1).Ok?
    ensures FindEdge(edges, p.0, p.1).value in edges && PairOf(FindEdge(edges, p.0, p.1).value) == p
  {
    var k :| 0 <= k < |edges| && Pairs(edges)[k] == p;
    if PairOf(edges[0]) != p {
      assert Pairs(edges[1..])[k - 1] == p;
      FirstEdge(edges[1..], p);
    }
  }
}

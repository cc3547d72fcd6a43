/** How checkpoints are ranked, and which of them pruning keeps. */
module Ranking {
  import opened Base
  import opened Filenames

  /** A verified checkpoint: the version its document carries, when it was written, and its name. */
  datatype Entry = Entry(version: UInt32, modified: int, name: Text)

  /** Later modification first, then the smaller name. */
  predicate Newer(a: Entry, b: Entry) {
    a.modified > b.modified || (a.modified == b.modified && Precedes(a.name, b.name))
  }

  /** Higher version first, then newer. */
  predicate Higher(a: Entry, b: Entry) {
    a.version > b.version || (a.version == b.version && Newer(a, b))
  }

  type Order = (Entry, Entry) -> bool

  /** A strict order that decides between any two files of different names. */
  ghost predicate Strict(before: Order) {
    && (forall a: Entry, b: Entry, c: Entry :: before(a, b) && before(b, c) ==> before(a, c))
    && (forall a: Entry, b: Entry :: !(before(a, b) && before(b, a)))
    && (forall a: Entry, b: Entry :: a.name != b.name ==> before(a, b) || before(b, a))
  }

  lemma NewerIsStrict()
    ensures Strict(Newer)
  {
    forall a, b, c | Newer(a, b) && Newer(b, c)
      ensures Newer(a, c)
    {
      if a.modified == b.modified == c.modified {
        PrecedesTransitive(a.name, b.name, c.name);
      }
    }
    forall a: Entry, b: Entry
      ensures !(Newer(a, b) && Newer(b, a)) && (a.name != b.name ==> Newer(a, b) || Newer(b, a))
    {
      PrecedesTotal(a.name, b.name);
    }
  }

  lemma HigherIsStrict()
    ensures Strict(Higher)
  {
    NewerIsStrict();
    hide Newer;
    forall a, b, c | Higher(a, b) && Higher(b, c)
      ensures Higher(a, c)
    {
      assert Newer(a, b) && Newer(b, c) ==> Newer(a, c);
    }
    forall a: Entry, b: Entry
      ensures !(Higher(a, b) && Higher(b, a)) && (a.name != b.name ==> Higher(a, b) || Higher(b, a))
    {
      assert !(Newer(a, b) && Newer(b, a)) && (a.name != b.name ==> Newer(a, b) || Newer(b, a));
    }
  }

  // ------------------------------------------------------------------ sorting

  ghost predicate Sorted(before: Order, s: seq<Entry>) {
    forall i, j :: 0 <= i < j < |s| ==> before(s[i], s[j])
  }

  ghost predicate DistinctNames(s: seq<Entry>) {
    forall i, j :: 0 <= i < j < |s| ==> s[i].name != s[j].name
  }

  /** Elements of a list, in any order. */
  function Elements(s: seq<Entry>): set<Entry> {
    set i | 0 <= i < |s| :: s[i]
  }

  /** `std::sort`: the library's algorithm is not modelled; any that sorts gives this list. */
  method Sort(before: Order, s: seq<Entry>) returns (sorted: seq<Entry>)
    requires Strict(before) && DistinctNames(s)
    ensures Sorted(before, sorted) && DistinctNames(sorted) && |sorted| == |s| && Elements(sorted) == Elements(s)
  {
    sorted := [];
    for k := 0 to |s|
      invariant Sorted(before, sorted) && DistinctNames(sorted)
      invariant |sorted| == k && Elements(sorted) == Elements(s[..k])
    {
      var i := 0;
      while i < |sorted| && before(sorted[i], s[k])
        invariant i <= |sorted| && forall j :: 0 <= j < i ==> before(sorted[j], s[k])
      {
        i := i + 1;
      }
      NameIsNew(s, k, sorted);
      InsertAt(before, sorted, i, s[k]);
      assert s[..k + 1] == s[..k] + [s[k]];
      ElementsPush(s[..k], s[k]);
      sorted := sorted[..i] + [s[k]] + sorted[i..];
    }
    assert s[..|s|] == s;
  }

  lemma NameIsNew(s: seq<Entry>, k: nat, sorted: seq<Entry>)
    requires DistinctNames(s) && k < |s| && Elements(sorted) == Elements(s[..k])
    ensures forall j :: 0 <= j < |sorted| ==> sorted[j].name != s[k].name
  {
    forall j | 0 <= j < |sorted|
      ensures sorted[j].name != s[k].name
    {
      assert sorted[j] in Elements(sorted);
      var i :| 0 <= i < |s[..k]| && s[..k][i] == sorted[j];
      assert s[i] == sorted[j];
    }
  }

  lemma ElementsPush(s: seq<Entry>, e: Entry)
    ensures Elements(s + [e]) == Elements(s) + {e}
  {
    forall x | x in Elements(s) + {e}
      ensures x in Elements(s + [e])
    {
      if x in Elements(s) {
        var i :| 0 <= i < |s| && s[i] == x;
        assert (s + [e])[i] == x;
      } else {
        assert (s + [e])[|s|] == x;
      }
    }
  }

  lemma InsertAt(before: Order, s: seq<Entry>, i: nat, e: Entry)
    requires Strict(before) && Sorted(before, s) && DistinctNames(s) && i <= |s|
    requires forall j :: 0 <= j < |s| ==> s[j].name != e.name
    requires forall j :: 0 <= j < i ==> before(s[j], e)
    requires i < |s| ==> !before(s[i], e)
    ensures var t := s[..i] + [e] + s[i..];
            Sorted(before, t) && DistinctNames(t) && Elements(t) == Elements(s) + {e}
  {
    hide Elements;
    var t := s[..i] + [e] + s[i..];
    assert forall j :: 0 <= j < |t| ==> t[j] == if j < i then s[j] else if j == i then e else s[j - 1];
    if i < |s| {
      assert before(e, s[i]);
      assert forall j :: i < j < |s| ==> before(s[i], s[j]);
      assert forall j :: i <= j < |s| ==> before(e, s[j]);
    }
    ElementsInsert(s, i, e);
  }

  lemma ElementsInsert(s: seq<Entry>, i: nat, e: Entry)
    requires i <= |s|
    ensures Elements(s[..i] + [e] + s[i..]) == Elements(s) + {e}
  {
    var t := s[..i] + [e] + s[i..];
    forall x | x in Elements(s) + {e}
      ensures x in Elements(t)
    {
      if x == e {
        assert t[i] == e;
      } else {
        var j :| 0 <= j < |s| && s[j] == x;
        assert t[if j < i then j else j + 1] == x;
      }
    }
    forall x | x in Elements(t)
      ensures x in Elements(s) + {e}
    {
      var j :| 0 <= j < |t| && t[j] == x;
      assert x == if j < i then s[j] else if j == i then e else s[j - 1];
    }
  }

  /** In a sorted list, the entries before a position are exactly those that rank above it. */
  lemma SortedPrefix(before: Order, s: seq<Entry>, i: nat)
    requires Strict(before) && Sorted(before, s) && i < |s|
    ensures (set e | e in Elements(s) && before(e, s[i])) == Elements(s[..i])
  {
    assert forall j :: i < j < |s| ==> before(s[i], s[j]);
    assert forall j :: i <= j < |s| ==> !before(s[j], s[i]);
    forall e | e in Elements(s) && before(e, s[i])
      ensures e in Elements(s[..i])
    {
      var j :| 0 <= j < |s| && s[j] == e;
      assert s[..i][j] == e;
    }
    forall e | e in Elements(s[..i])
      ensures e in Elements(s) && before(e, s[i])
    {
      var j :| 0 <= j < |s[..i]| && s[..i][j] == e;
      assert s[j] == e;
    }
  }

  lemma {:induction false} ElementCount(s: seq<Entry>)
    requires DistinctNames(s)
    ensures |Elements(s)| == |s|
  {
    if s != [] {
      var front, last := s[..|s| - 1], s[|s| - 1];
      assert s == front + [last];
      ElementCount(front);
      ElementsPush(front, last);
      NameIsNew(s, |s| - 1, front);
    }
  }

  // ------------------------------------------------------------------ what pruning keeps

  ghost predicate NamesApart(all: set<Entry>) {
    forall a, b :: a in all && b in all && a.name == b.name ==> a == b
  }

  /** The newest file of its version. */
  ghost predicate IsNewest(all: set<Entry>, e: Entry) {
    e in all && forall f :: f in all && f.version == e.version && f != e ==> Newer(e, f)
  }

  ghost function Newest(all: set<Entry>): set<Entry> {
    set e | e in all && IsNewest(all, e)
  }

  ghost function Versions(all: set<Entry>): set<UInt32> {
    set e | e in all :: e.version
  }

  ghost function Above(all: set<Entry>, e: Entry): set<Entry> {
    set f | f in all && Newer(f, e)
  }

  /** The newest file of each version, while fewer than `retention` of these rank above it. */
  ghost function Kept(all: set<Entry>, retention: nat): set<Entry> {
    set e | e in Newest(all) && |Above(Newest(all), e)| < retention
  }

  lemma {:induction false} NewestOf(all: set<Entry>, v: UInt32) returns (e: Entry)
    requires NamesApart(all) && v in Versions(all)
    ensures IsNewest(all, e) && e in all && e.version == v
    decreases |all|
  {
    NewerIsStrict();
    hide Newer;
    var x :| x in all && x.version == v;
    var rest := all - {x};
    if v in Versions(rest) {
      e := NewestOf(rest, v);
      if Newer(x, e) {
        e := x;
      }
      assert forall f :: f in all ==> f == x || f in rest;
    } else {
      e := x;
      assert forall f :: f in rest ==> f.version in Versions(rest);
      assert forall f :: f in all && f != x ==> f in rest;
    }
  }

  lemma NewestUnique(all: set<Entry>, a: Entry, b: Entry)
    requires IsNewest(all, a) && IsNewest(all, b) && a.version == b.version
    ensures a == b
  {
    NewerIsStrict();
    hide Newer;
  }

  /** One newest file per version. */
  lemma NewestCount(all: set<Entry>)
    requires NamesApart(all)
    ensures |Newest(all)| == |Versions(all)|
    ensures forall a, b :: a in Newest(all) && b in Newest(all) && a.version == b.version ==> a == b
    ensures Versions(Newest(all)) == Versions(all)
  {
    hide Newer, Strict, IsNewest;
    forall v | v in Versions(all)
      ensures v in Versions(Newest(all))
    {
      var e := NewestOf(all, v);
      assert e in Newest(all);
    }
    assert Versions(Newest(all)) == Versions(all);
    forall a, b | a in Newest(all) && b in Newest(all) && a.version == b.version
      ensures a == b
    {
      NewestUnique(all, a, b);
    }
    OnePerVersion(Newest(all));
  }

  lemma {:induction false} OnePerVersion(s: set<Entry>)
    requires forall a, b :: a in s && b in s && a.version == b.version ==> a == b
    ensures |Versions(s)| == |s|
    decreases |s|
  {
    if s == {} {
      assert Versions(s) == {};
    } else {
      var e :| e in s;
      var rest := s - {e};
      OnePerVersion(rest);
      assert Versions(s) == Versions(rest) + {e.version};
      assert e.version !in Versions(rest);
    }
  }

  /** Ranking the newest files from the top, exactly the first `retention` are kept. */
  lemma KeptIsPrefix(all: set<Entry>, ranked: seq<Entry>, retention: nat)
    requires Sorted(Newer, ranked) && DistinctNames(ranked) && Elements(ranked) == Newest(all)
    ensures var n := if retention < |ranked| then retention else |ranked|;
            Kept(all, retention) == Elements(ranked[..n]) && |Kept(all, retention)| == n
  {
    NewerIsStrict();
    hide Newer, IsNewest;
    var n := if retention < |ranked| then retention else |ranked|;
    forall i | 0 <= i < |ranked|
      ensures |Above(Newest(all), ranked[i])| == i
    {
      SortedPrefix(Newer, ranked, i);
      assert Above(Newest(all), ranked[i]) == Elements(ranked[..i]);
      ElementCount(ranked[..i]);
    }
    forall e | e in Kept(all, retention)
      ensures e in Elements(ranked[..n])
    {
      var i :| 0 <= i < |ranked| && ranked[i] == e;
      assert ranked[..n][i] == e;
    }
    forall e | e in Elements(ranked[..n])
      ensures e in Kept(all, retention)
    {
      var i :| 0 <= i < |ranked[..n]| && ranked[..n][i] == e;
      assert ranked[i] == e;
    }
    ElementCount(ranked[..n]);
  }

  /** What pruning promises: as many files as the policy asks for, no version twice, each the newest of its
      version, and each ranked above every newest file that is not kept. */
  lemma KeptFacts(all: set<Entry>, retention: nat)
    requires NamesApart(all)
    ensures Kept(all, retention) <= all
    ensures |Kept(all, retention)| == if retention < |Versions(all)| then retention else |Versions(all)|
    ensures forall a, b :: a in Kept(all, retention) && b in Kept(all, retention) && a.version == b.version ==> a == b
    ensures forall k :: k in Kept(all, retention) ==> IsNewest(all, k)
    ensures forall k, e :: k in Kept(all, retention) && IsNewest(all, e) && e !in Kept(all, retention) ==> Newer(k, e)
  {
    NewestCount(all);
    var ranked := RankAll(Newest(all));
    ElementCount(ranked);
    KeptIsPrefix(all, ranked, retention);
    hide Newer, IsNewest, Kept;
    forall j | 0 <= j < |Kept(all, retention)|
      ensures ranked[j] in Elements(ranked[..|Kept(all, retention)|])
    {
      assert ranked[..|Kept(all, retention)|][j] == ranked[j];
    }
    forall k, e | k in Kept(all, retention) && e in Newest(all) && e !in Kept(all, retention)
      ensures Newer(k, e)
    {
      var n := |Kept(all, retention)|;
      var i :| 0 <= i < |ranked[..n]| && ranked[..n][i] == k;
      var j :| 0 <= j < |ranked| && ranked[j] == e;
      assert ranked[..n][i] == ranked[i];
    }
    KeptWithin(all, retention);
  }

  lemma KeptWithin(all: set<Entry>, retention: nat)
    ensures Kept(all, retention) <= Newest(all) <= all
    ensures forall e :: e in Newest(all) <==> IsNewest(all, e)
  {
  }

  /** Any finite set of files can be ranked. */
  lemma {:induction false} RankAll(all: set<Entry>) returns (ranked: seq<Entry>)
    requires NamesApart(all)
    ensures Sorted(Newer, ranked) && DistinctNames(ranked) && Elements(ranked) == all
    decreases |all|
  {
    NewerIsStrict();
    hide Newer;
    if all == {} {
      ranked := [];
    } else {
      var e :| e in all;
      var rest := RankAll(all - {e});
      assert forall j :: 0 <= j < |rest| ==> rest[j] in Elements(rest);
      var i := 0;
      while i < |rest| && Newer(rest[i], e)
        invariant i <= |rest| && forall j :: 0 <= j < i ==> Newer(rest[j], e)
      {
        i := i + 1;
      }
      InsertAt(Newer, rest, i, e);
      ranked := rest[..i] + [e] + rest[i..];
    }
  }

  /** No earlier, and among files of one time not the one of the larger name. */
  ghost predicate AtLeastAsLate(modified: int, name: Text, modified': int, name': Text) {
    modified >= modified' && (modified == modified' && name != name' ==> exists k: nat :: SmallerAt(name, name', k))
  }

  /** `Newer`, on time stamps and names. */
  lemma NewerIs(a: Entry, b: Entry)
    ensures Newer(a, b) ==> AtLeastAsLate(a.modified, a.name, b.modified, b.name)
    ensures a.name != b.name && AtLeastAsLate(a.modified, a.name, b.modified, b.name) ==> Newer(a, b)
  {
    PrecedesIs(a.name, b.name);
    PrecedesTotal(a.name, b.name);
    hide Precedes, SmallerAt;
  }

  ghost predicate LatestOfVersion(all: set<Entry>, e: Entry) {
    forall f :: f in all && f.version == e.version ==> AtLeastAsLate(e.modified, e.name, f.modified, f.name)
  }

  /** A kept file is no older than any of its version, and no older than the latest of any version that is not kept. */
  lemma KeptAreLatest(all: set<Entry>, retention: nat, k: Entry, e: Entry)
    requires NamesApart(all) && k in Kept(all, retention) && e in all
    requires e.version == k.version || (e !in Kept(all, retention) && LatestOfVersion(all, e))
    ensures AtLeastAsLate(k.modified, k.name, e.modified, e.name)
  {
    KeptFacts(all, retention);
    hide Newer, Kept, AtLeastAsLate;
    NewerIs(k, e);
    if e.version != k.version {
      forall f | f in all && f.version == e.version && f != e
        ensures Newer(e, f)
      {
        NewerIs(e, f);
      }
    }
    SameIsAsLate(k);
  }

  lemma SameIsAsLate(e: Entry)
    ensures AtLeastAsLate(e.modified, e.name, e.modified, e.name)
  {
  }

  /** What has been pruned once stays as it is. */
  lemma KeptTwice(all: set<Entry>, retention: nat)
    requires NamesApart(all)
    ensures Kept(Kept(all, retention), retention) == Kept(all, retention)
  {
    var kept := Kept(all, retention);
    KeptFacts(all, retention);
    KeptWithin(all, retention);
    assert NamesApart(kept);
    forall e | e in kept
      ensures IsNewest(kept, e)
    {
    }
    assert Newest(kept) == kept;
    forall e | e in kept
      ensures |Above(kept, e)| < retention
    {
      assert Above(kept, e) <= Above(Newest(all), e);
      SubsetCount(Above(kept, e), Above(Newest(all), e));
    }
  }

  lemma {:induction false} SubsetCount(a: set<Entry>, b: set<Entry>)
    requires a <= b
    ensures |a| <= |b|
    decreases |a|
  {
    if a != {} {
      var x :| x in a;
      SubsetCount(a - {x}, b - {x});
    }
  }
}

/** Names in the checkpoint directory: which are checkpoints, which are temporary, and how names are ordered. */
module Filenames {
  import opened Base
  import opened Decimals

  // ------------------------------------------------------------------ extensions

  /** Position of the last dot, or the length of the name when it has none. */
  function LastDot(name: Text): (d: nat)
    ensures d <= |name|
    ensures d < |name| ==> name[d] == DOT
    ensures forall i :: 0 <= i < |name| && name[i] == DOT ==> i <= d < |name|
  {
    if name == [] then 0
    else if name[|name| - 1] == DOT then |name| - 1
    else
      var d := LastDot(name[..|name| - 1]);
      if d == |name| - 1 then |name| else d
  }

  /** A dot that starts the name starts no extension, and "." and ".." have none. */
  predicate HasExtension(name: Text) {
    0 < LastDot(name) < |name| && name != [DOT, DOT]
  }

  /** `path::extension()`: from the last dot on. */
  function Extension(name: Text): Text {
    if HasExtension(name) then name[LastDot(name)..] else []
  }

  /** `path::stem()`. */
  function Stem(name: Text): Text {
    if HasExtension(name) then name[..LastDot(name)] else name
  }

  /** What some name's extension can be. */
  predicate IsExtension(extension: Text) {
    extension == [] || (extension[0] == DOT && forall i :: 1 <= i < |extension| ==> extension[i] != DOT)
  }

  lemma ExtensionShape(name: Text)
    ensures IsExtension(Extension(name)) && Stem(name) + Extension(name) == name
  {
  }

  // ------------------------------------------------------------------ checkpoints

  const WIDTH: nat := 10

  function Zeros(n: nat): (t: Text)
    ensures |t| == n && forall i :: 0 <= i < n ==> t[i] == ZERO
  {
    seq(n, _ => ZERO)
  }

  /** `setw(10) << setfill('0')`. */
  function Padded(n: nat): Text {
    var t := Decimal(n);
    if |t| < WIDTH then Zeros(WIDTH - |t|) + t else t
  }

  function CheckpointName(version: UInt32, extension: Text): Text {
    Padded(version) + extension
  }

  predicate IsCheckpointName(name: Text, extension: Text) {
    Extension(name) == extension && |Stem(name)| == WIDTH && AllDigits(Stem(name))
  }

  lemma {:induction false} LeadingZeros(n: nat, t: Text)
    requires AllDigits(t)
    ensures AllDigits(Zeros(n) + t) && ValueOf(Zeros(n) + t) == ValueOf(t)
    decreases |t|, n
  {
    var all := Zeros(n) + t;
    if t != [] {
      LeadingZeros(n, t[..|t| - 1]);
      assert all[..|all| - 1] == Zeros(n) + t[..|t| - 1];
    } else if n > 0 {
      LeadingZeros(n - 1, t);
      assert all[..n - 1] == Zeros(n - 1) + t;
    }
  }

  lemma PaddedIs(version: UInt32)
    ensures |Padded(version)| == WIDTH && AllDigits(Padded(version)) && ValueOf(Padded(version)) == version
  {
    hide Decimal, ValueOf, Pow10;
    TenDigits();
    DecimalWidth(version, WIDTH);
    var t := Decimal(version);
    LeadingZeros(WIDTH - |t|, t);
    assert Zeros(0) + t == t;
  }

  lemma TenDigits()
    ensures Pow10(WIDTH) == 10_000_000_000
  {
    assert Pow10(2) == 100;
    assert Pow10(4) == 10_000;
    assert Pow10(6) == 1_000_000;
    assert Pow10(8) == 100_000_000;
  }

  /** A checkpoint's name is recognised, and tells its version. */
  lemma CheckpointNameIs(version: UInt32, extension: Text)
    requires IsExtension(extension)
    ensures var name := CheckpointName(version, extension);
            IsCheckpointName(name, extension) && ValueOf(Stem(name)) == version
  {
    hide Padded, ValueOf;
    PaddedIs(version);
    StemOf(Padded(version), extension);
  }

  lemma StemOf(stem: Text, extension: Text)
    requires IsExtension(extension) && stem != [] && forall i :: 0 <= i < |stem| ==> stem[i] != DOT
    ensures Stem(stem + extension) == stem && Extension(stem + extension) == extension
  {
    hide LastDot;
    var name := stem + extension;
    if extension == [] {
      assert forall i :: 0 <= i < |name| ==> name[i] != DOT;
    } else {
      assert name[|stem|] == DOT;
      assert forall i :: |stem| < i < |name| ==> name[i] == extension[i - |stem|];
      assert LastDot(name) == |stem|;
      assert name[0] != DOT;
      assert name[..|stem|] == stem && name[|stem|..] == extension;
    }
  }

  /** Checkpoint names are ten digits and the extension. */
  lemma CheckpointNamesAre(name: Text, extension: Text)
    requires IsExtension(extension)
    ensures IsCheckpointName(name, extension) <==> exists digits: Text :: TenDigitName(digits, name, extension)
  {
    hide LastDot, IsExtension;
    ExtensionShape(name);
    if IsCheckpointName(name, extension) {
      assert TenDigitName(Stem(name), name, extension);
    }
    forall digits: Text | TenDigitName(digits, name, extension)
      ensures IsCheckpointName(name, extension)
    {
      StemOf(digits, extension);
    }
  }

  predicate TenDigitName(digits: Text, name: Text, extension: Text) {
    |digits| == 10 && (forall i :: 0 <= i < 10 ==> 0x30 <= digits[i] <= 0x39) && name == digits + extension
  }

  /** Two versions never share a checkpoint. */
  lemma CheckpointNameInjective(v: UInt32, w: UInt32, extension: Text)
    requires IsExtension(extension) && CheckpointName(v, extension) == CheckpointName(w, extension)
    ensures v == w
  {
    CheckpointNameIs(v, extension);
    CheckpointNameIs(w, extension);
  }

  // ------------------------------------------------------------------ temporary files

  /** ".tmp." */
  const TMP: Text := [0x2E, 0x74, 0x6D, 0x70, 0x2E]

  type Sequence = x: int | 0 <= x < 0x1_0000_0000_0000_0000

  /** A sibling of the destination: clock ticks and a process-wide sequence number make it unlikely to exist. */
  function TempName(name: Text, ticks: Int64, sequence: Sequence): Text {
    name + TMP + ShowInt(ticks) + [DOT] + Decimal(sequence)
  }

  ghost predicate IsTempName(temp: Text, name: Text) {
    exists ticks: Int64, sequence: Sequence :: temp == TempName(name, ticks, sequence)
  }

  /** A temporary name has a dot in its stem, so it is never taken for a checkpoint, and it is never the
      destination's own name. */
  lemma TempIsNoCheckpoint(temp: Text, name: Text, extension: Text)
    requires IsTempName(temp, name)
    ensures !IsCheckpointName(temp, extension) && temp != name
  {
    var ticks: Int64, sequence: Sequence :| temp == TempName(name, ticks, sequence);
    hide LastDot, Decimal, ShowInt, IsTempName, TMP, Stem, Extension, TempName;
    TempParts(name, ticks, sequence);
    var front, digits := name + TMP + ShowInt(ticks), Decimal(sequence);
    StemAnyway(front, [DOT] + digits);
    assert front[|name|] == TMP[0];
    assert Stem(temp)[|name|] == DOT;
  }

  lemma TempParts(name: Text, ticks: Int64, sequence: Sequence)
    ensures TempName(name, ticks, sequence) == name + TMP + ShowInt(ticks) + ([DOT] + Decimal(sequence))
    ensures |TMP| == 5 && TMP[0] == DOT && !IsDigit(DOT)
    ensures |TempName(name, ticks, sequence)| > |name|
    ensures IsExtension([DOT] + Decimal(sequence))
  {
    hide Decimal, ShowInt;
    var digits := Decimal(sequence);
    assert forall i :: 1 <= i < |[DOT] + digits| ==> ([DOT] + digits)[i] == digits[i - 1];
  }

  /** Whatever comes before a proper extension is the stem. */
  lemma StemAnyway(stem: Text, extension: Text)
    requires IsExtension(extension) && |extension| >= 2 && stem != []
    ensures Stem(stem + extension) == stem && Extension(stem + extension) == extension
  {
    hide LastDot;
    var name := stem + extension;
    assert name[|stem|] == DOT;
    assert forall i :: |stem| < i < |name| ==> name[i] == extension[i - |stem|];
    assert LastDot(name) == |stem|;
    assert name[..|stem|] == stem && name[|stem|..] == extension;
  }

  // ------------------------------------------------------------------ order

  /** `std::string`'s order: bytewise, a proper prefix first. */
  predicate Precedes(a: Text, b: Text) {
    b != [] && (a == [] || a[0] < b[0] || (a[0] == b[0] && Precedes(a[1..], b[1..])))
  }

  /** `std::string`'s order: after a common prefix of `k` bytes the smaller byte decides, or the shorter text. */
  predicate SmallerAt(a: Text, b: Text, k: nat) {
    k <= |a| && k < |b| && a[..k] == b[..k] && (k == |a| || a[k] < b[k])
  }

  lemma {:induction false} PrecedesIs(a: Text, b: Text)
    ensures Precedes(a, b) <==> exists k: nat :: SmallerAt(a, b, k)
    decreases |a|
  {
    if a == [] || b == [] || a[0] != b[0] {
      assert SmallerAt(a, b, 0) <==> Precedes(a, b);
      assert forall k: nat :: SmallerAt(a, b, k) && k > 0 ==> a[..k][0] == b[..k][0];
    } else {
      PrecedesIs(a[1..], b[1..]);
      forall k: nat | k > 0
        ensures SmallerAt(a, b, k) <==> SmallerAt(a[1..], b[1..], k - 1)
      {
        SmallerBelow(a, b, k);
      }
      if Precedes(a, b) {
        var k: nat :| SmallerAt(a[1..], b[1..], k);
        assert SmallerAt(a, b, k + 1);
      }
    }
  }

  lemma SmallerBelow(a: Text, b: Text, k: nat)
    requires k > 0 && a != [] && b != [] && a[0] == b[0]
    ensures SmallerAt(a, b, k) <==> SmallerAt(a[1..], b[1..], k - 1)
  {
    if k <= |a| && k <= |b| {
      assert a[..k] == [a[0]] + a[1..][..k - 1] && b[..k] == [b[0]] + b[1..][..k - 1];
      assert a[1..][..k - 1] == a[..k][1..] && b[1..][..k - 1] == b[..k][1..];
    }
  }

  lemma {:induction false} PrecedesTotal(a: Text, b: Text)
    ensures a == b || Precedes(a, b) || Precedes(b, a)
    ensures !(Precedes(a, b) && Precedes(b, a)) && !Precedes(a, a)
    decreases |a| + |b|
  {
    if a != [] && b != [] {
      PrecedesTotal(a[1..], b[1..]);
      if a[1..] == b[1..] && a[0] == b[0] {
        assert a == [a[0]] + a[1..] && b == [b[0]] + b[1..];
      }
    }
    if a != [] {
      PrecedesTotal(a[1..], []);
      IrreflexivePrecedes(a);
    }
  }

  lemma {:induction false} IrreflexivePrecedes(a: Text)
    ensures !Precedes(a, a)
  {
    if a != [] {
      IrreflexivePrecedes(a[1..]);
    }
  }

  lemma {:induction false} PrecedesTransitive(a: Text, b: Text, c: Text)
    requires Precedes(a, b) && Precedes(b, c)
    ensures Precedes(a, c)
  {
    if a != [] && a[0] == b[0] == c[0] {
      PrecedesTransitive(a[1..], b[1..], c[1..]);
    }
  }
}

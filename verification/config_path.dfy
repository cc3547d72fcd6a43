/** Paths: `ConfigPath::parse` and the grammar it implements. */
module ConfigPath {
  import opened Base
  import opened Decimals

  const OPEN: Byte := 0x5B
  const CLOSE: Byte := 0x5D

  datatype Segment = Key(key: Text) | Index(index: nat)

  predicate IsReserved(c: Byte) {
    c == DOT || c == OPEN || c == CLOSE
  }

  /** ADR-021: a key the grammar can spell. */
  predicate Addressable(key: Text) {
    key != [] && forall i :: 0 <= i < |key| ==> !IsReserved(key[i])
  }

  // ------------------------------------------------------------------ what parsing means

  /** Length of the longest prefix without reserved bytes. */
  function KeyLength(text: Text): (n: nat)
    ensures n <= |text|
    ensures forall i :: 0 <= i < n ==> !IsReserved(text[i])
    ensures n < |text| ==> IsReserved(text[n])
  {
    if text == [] || IsReserved(text[0]) then 0 else 1 + KeyLength(text[1..])
  }

  function DigitLength(text: Text): (n: nat)
    ensures n <= |text|
    ensures AllDigits(text[..n])
    ensures n < |text| ==> !IsDigit(text[n])
  {
    if text == [] || !IsDigit(text[0]) then 0
    else
      var n := 1 + DigitLength(text[1..]);
      assert forall i :: 1 <= i < n ==> text[..n][i] == text[1..][..n - 1][i - 1];
      n
  }

  function Prepend(head: seq<Segment>, rest: Result<seq<Segment>>): Result<seq<Segment>> {
    match rest
    case Ok(segments) => Ok(head + segments)
    case Err(e) => Err(e)
  }

  /** A segment must start here. */
  function Parse(text: Text): (r: Result<seq<Segment>>)
    ensures r.Ok? ==> r.value != []
    decreases |text|, 0
  {
    var n := KeyLength(text);
    if n == 0 then Err(InvalidPath) else Prepend([Key(text[..n])], ParseTail(text[n..]))
  }

  /** After a key or a "]": more indices, another segment, or the end. */
  function ParseTail(text: Text): Result<seq<Segment>>
    decreases |text|, 1
  {
    if text == [] then Ok([])
    else if text[0] == DOT then Parse(text[1..])
    else if text[0] == OPEN then
      var d := DigitLength(text[1..]);
      if d == 0 || 1 + d == |text| || text[1 + d] != CLOSE || ValueOf(text[1..][..d]) >= TWO_64 then
        Err(InvalidPath)
      else
        Prepend([Index(ValueOf(text[1..][..d]))], ParseTail(text[d + 2..]))
    else Err(InvalidPath)
  }

  lemma PrependNothing(r: Result<seq<Segment>>)
    ensures Prepend([], r) == r
  {
    if r.Ok? {
      assert [] + r.value == r.value;
    }
  }

  lemma PrependTwice(a: seq<Segment>, b: seq<Segment>, r: Result<seq<Segment>>)
    ensures Prepend(a, Prepend(b, r)) == Prepend(a + b, r)
  {
    if r.Ok? {
      assert a + (b + r.value) == a + b + r.value;
    }
  }

  /** The inner scans: move the cursor over key bytes, and over digits. */
  method ScanKey(text: Text, start: nat) returns (pos: nat)
    requires start <= |text|
    ensures start <= pos <= |text|
    ensures pos - start == KeyLength(text[start..])
  {
    pos := start;
    while pos < |text| && !IsReserved(text[pos])
      invariant start <= pos <= |text|
      invariant KeyLength(text[start..]) == pos - start + KeyLength(text[pos..])
    {
      assert text[pos..][1..] == text[pos + 1..];
      pos := pos + 1;
    }
  }

  method ScanDigits(text: Text, start: nat) returns (pos: nat)
    requires start <= |text|
    ensures start <= pos <= |text|
    ensures pos - start == DigitLength(text[start..])
  {
    pos := start;
    while pos < |text| && IsDigit(text[pos])
      invariant start <= pos <= |text|
      invariant DigitLength(text[start..]) == pos - start + DigitLength(text[pos..])
    {
      assert text[pos..][1..] == text[pos + 1..];
      pos := pos + 1;
    }
  }

  /** Consumes `index*` from `start`, or refuses; what is left is a tail that cannot begin with "[". */
  method ScanIndices(text: Text, start: nat, segments: seq<Segment>)
    returns (r: Result<seq<Segment>>, pos: nat)
    requires start <= |text|
    ensures start <= pos <= |text|
    ensures r.Err? ==> r.error == InvalidPath && Prepend(segments, ParseTail(text[start..])) == Err(InvalidPath)
    ensures r.Ok? ==> Prepend(segments, ParseTail(text[start..])) == Prepend(r.value, ParseTail(text[pos..]))
    ensures r.Ok? ==> pos == |text| || text[pos] != OPEN
  {
    hide Parse, ParseTail, DigitLength, ValueOf;
    var found := segments;
    pos := start;
    while pos < |text| && text[pos] == OPEN
      invariant start <= pos <= |text|
      invariant Prepend(segments, ParseTail(text[start..])) == Prepend(found, ParseTail(text[pos..]))
    {
      var digitsStart := pos + 1;
      var digitsEnd := ScanDigits(text, digitsStart);
      IndexAt(text, pos, digitsEnd);
      if digitsEnd == digitsStart {
        return Err(InvalidPath), pos;
      }
      if digitsEnd == |text| || text[digitsEnd] != CLOSE {
        return Err(InvalidPath), pos;
      }
      var index := ValueOf(text[digitsStart..digitsEnd]);
      if index >= TWO_64 {
        return Err(InvalidPath), pos;
      }
      PrependTwice(found, [Index(index)], ParseTail(text[digitsEnd + 1..]));
      found := found + [Index(index)];
      pos := digitsEnd + 1;
    }
    r := Ok(found);
  }

  /** What the tail at an opening bracket means, in terms of where its digits end. */
  lemma IndexAt(text: Text, open: nat, end: nat)
    requires open < |text| && text[open] == OPEN
    requires open < end <= |text| && end - open - 1 == DigitLength(text[open + 1..])
    ensures AllDigits(text[open + 1..end])
    ensures ParseTail(text[open..]) ==
            if end == open + 1 || end == |text| || text[end] != CLOSE || ValueOf(text[open + 1..end]) >= TWO_64 then
              Err(InvalidPath)
            else Prepend([Index(ValueOf(text[open + 1..end]))], ParseTail(text[end + 1..]))
  {
    var tail := text[open..];
    assert tail[1..] == text[open + 1..];
    assert tail[1..][..end - open - 1] == text[open + 1..end];
    if end < |text| {
      assert tail[end - open + 1..] == text[end + 1..];
    }
  }

  /** What a tail means that starts with no bracket. */
  lemma TailAt(text: Text, pos: nat)
    requires pos <= |text| && (pos < |text| ==> text[pos] != OPEN)
    ensures ParseTail(text[pos..]) ==
            if pos == |text| then Ok([]) else if text[pos] == DOT then Parse(text[pos + 1..]) else Err(InvalidPath)
  {
    if pos < |text| {
      assert text[pos..][1..] == text[pos + 1..];
    }
  }

  /** What a segment start means, in terms of where its key ends. */
  lemma KeyAt(text: Text, start: nat, end: nat)
    requires start <= end <= |text| && end - start == KeyLength(text[start..])
    ensures Parse(text[start..]) ==
            if end == start then Err(InvalidPath) else Prepend([Key(text[start..end])], ParseTail(text[end..]))
  {
    assert text[start..][end - start..] == text[end..];
    assert text[start..][..end - start] == text[start..end];
  }

  /** The parser: one cursor moving right, segments appended as they are recognised. */
  method ParsePath(text: Text) returns (r: Result<seq<Segment>>)
    ensures r == Parse(text)
  {
    hide Parse, ParseTail, KeyLength;
    TailAt(text, |text|);
    if text == [] {
      KeyAt(text, 0, 0);
      return Err(InvalidPath);
    }
    var segments: seq<Segment> := [];
    var pos := 0;
    PrependNothing(Parse(text));
    assert text[0..] == text;
    while true
      invariant 0 <= pos <= |text|
      invariant Parse(text) == Prepend(segments, Parse(text[pos..]))
      decreases |text| - pos
    {
      var keyStart := pos;
      pos := ScanKey(text, keyStart);
      KeyAt(text, keyStart, pos);
      if pos == keyStart {
        return Err(InvalidPath);
      }
      PrependTwice(segments, [Key(text[keyStart..pos])], ParseTail(text[pos..]));
      segments := segments + [Key(text[keyStart..pos])];

      var scanned;
      scanned, pos := ScanIndices(text, pos, segments);
      if scanned.Err? {
        return Err(InvalidPath);
      }
      segments := scanned.value;
      TailAt(text, pos);
      if pos == |text| {
        break;
      }
      if text[pos] != DOT {
        return Err(InvalidPath);
      }
      pos := pos + 1;
    }
    assert segments + [] == segments;
    return Ok(segments);
  }
}

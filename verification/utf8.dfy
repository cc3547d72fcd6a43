/** The XML backend's strict UTF-8 decoder, against the encoding of RFC 3629. */
module Utf8 {
  import opened Base

  /** Unicode scalar values: no surrogates, nothing above U+10FFFF. */
  type CodePoint = x: int | 0 <= x <= 0x10FFFF && !(0xD800 <= x <= 0xDFFF)

  /** RFC 3629, section 3. */
  function Encode(c: CodePoint): (t: Text)
    ensures 1 <= |t| <= 4
  {
    if c < 0x80 then [c]
    else if c < 0x800 then [0xC0 + c / 0x40, 0x80 + c % 0x40]
    else if c < 0x10000 then [0xE0 + c / 0x1000, 0x80 + c / 0x40 % 0x40, 0x80 + c % 0x40]
    else [0xF0 + c / 0x40000, 0x80 + c / 0x1000 % 0x40, 0x80 + c / 0x40 % 0x40, 0x80 + c % 0x40]
  }

  predicate Tail(b: Byte) {
    0x80 <= b <= 0xBF
  }

  /** RFC 3629, section 4: `UTF8-char`. */
  predicate Utf8Char(t: Text) {
    || (|t| == 1 && t[0] <= 0x7F)
    || (|t| == 2 && 0xC2 <= t[0] <= 0xDF && Tail(t[1]))
    || (|t| == 3 && Tail(t[2]) &&
        (|| (t[0] == 0xE0 && 0xA0 <= t[1] <= 0xBF)
         || (0xE1 <= t[0] <= 0xEC && Tail(t[1]))
         || (t[0] == 0xED && 0x80 <= t[1] <= 0x9F)
         || (0xEE <= t[0] <= 0xEF && Tail(t[1]))))
    || (|t| == 4 && Tail(t[2]) && Tail(t[3]) &&
        (|| (t[0] == 0xF0 && 0x90 <= t[1] <= 0xBF)
         || (0xF1 <= t[0] <= 0xF3 && Tail(t[1]))
         || (t[0] == 0xF4 && 0x80 <= t[1] <= 0x8F)))
  }

  // ------------------------------------------------------------------ what a byte sequence carries

  /** How long a sequence its first byte announces; 0 for a byte that starts none. */
  function LengthOf(lead: Byte): nat {
    if lead < 0x80 then 1
    else if 0xC0 <= lead < 0xE0 then 2
    else if 0xE0 <= lead < 0xF0 then 3
    else if 0xF0 <= lead < 0xF8 then 4
    else 0
  }

  /** The bits of the first byte that belong to the code point. */
  function Payload(lead: Byte): int {
    if lead < 0x80 then lead as int
    else if lead < 0xE0 then lead as int - 0xC0
    else if lead < 0xF0 then lead as int - 0xE0
    else lead as int - 0xF0
  }

  /** The bits of a later byte. */
  function Bits(tail: Byte): int {
    tail as int - 0x80
  }

  /** The bits of the first `k` bytes. */
  function Gathered(t: Text, k: nat): int
    requires 1 <= k <= |t|
  {
    if k == 1 then Payload(t[0]) else Gathered(t, k - 1) * 0x40 + Bits(t[k - 1])
  }

  /** The least code point that needs `n` bytes. */
  function Least(n: nat): nat {
    if n <= 1 then 0 else if n == 2 then 0x80 else if n == 3 then 0x800 else 0x10000
  }

  /** A sequence as the decoder checks it. */
  predicate WellFormed(t: Text) {
    && t != [] && LengthOf(t[0]) == |t|
    && (forall k :: 1 <= k < |t| ==> Tail(t[k]))
    && var c := Gathered(t, |t|);
       Least(|t|) <= c <= 0x10FFFF && !(0xD800 <= c <= 0xDFFF)
  }

  lemma GatheredIs(t: Text)
    requires t != []
    ensures |t| == 1 ==> Gathered(t, |t|) == Payload(t[0])
    ensures |t| == 2 ==> Gathered(t, |t|) == Payload(t[0]) * 0x40 + Bits(t[1])
    ensures |t| == 3 ==> Gathered(t, |t|) == Payload(t[0]) * 0x1000 + Bits(t[1]) * 0x40 + Bits(t[2])
    ensures |t| == 4 ==>
              Gathered(t, |t|) == Payload(t[0]) * 0x40000 + Bits(t[1]) * 0x1000 + Bits(t[2]) * 0x40 + Bits(t[3])
  {
    hide Payload, Bits;
    if |t| == 3 {
      assert Gathered(t, 2) == Payload(t[0]) * 0x40 + Bits(t[1]);
    } else if |t| == 4 {
      assert Gathered(t, 2) == Payload(t[0]) * 0x40 + Bits(t[1]);
      assert Gathered(t, 3) == Payload(t[0]) * 0x1000 + Bits(t[1]) * 0x40 + Bits(t[2]);
    }
  }

  /** Base-64 digits, low first. */
  lemma Digits(c: nat)
    ensures c == c / 0x1000 * 0x1000 + c / 0x40 % 0x40 * 0x40 + c % 0x40
    ensures c == c / 0x40 * 0x40 + c % 0x40
    ensures c == c / 0x40000 * 0x40000 + c / 0x1000 % 0x40 * 0x1000 + c / 0x40 % 0x40 * 0x40 + c % 0x40
  {
    assert c / 0x1000 == c / 0x40 / 0x40;
    assert c / 0x40000 == c / 0x1000 / 0x40;
  }

  lemma DigitsUnique(w: nat, x: nat, y: nat, z: nat)
    requires x < 0x40 && y < 0x40 && z < 0x40
    ensures var c := w * 0x40000 + x * 0x1000 + y * 0x40 + z;
            c % 0x40 == z && c / 0x40 % 0x40 == y && c / 0x1000 % 0x40 == x && c / 0x40000 == w
            && c / 0x40 == w * 0x1000 + x * 0x40 + y && c / 0x1000 == w * 0x40 + x
  {
    var c := w * 0x40000 + x * 0x1000 + y * 0x40 + z;
    assert c / 0x40 == w * 0x1000 + x * 0x40 + y;
    assert c / 0x1000 == w * 0x40 + x;
  }

  /** The encoding of a code point is well formed and carries it. */
  lemma EncodeIsWellFormed(c: CodePoint)
    ensures WellFormed(Encode(c)) && Gathered(Encode(c), |Encode(c)|) == c
  {
    var t := Encode(c);
    GatheredIs(t);
    Digits(c);
    hide Gathered;
    if c < 0x80 {
    } else if c < 0x800 {
      assert t == [0xC0 + c / 0x40, 0x80 + c % 0x40];
    } else if c < 0x10000 {
      assert t == [0xE0 + c / 0x1000, 0x80 + c / 0x40 % 0x40, 0x80 + c % 0x40];
    } else {
      assert t == [0xF0 + c / 0x40000, 0x80 + c / 0x1000 % 0x40, 0x80 + c / 0x40 % 0x40, 0x80 + c % 0x40];
    }
  }

  lemma Encode2(y: nat, z: nat)
    requires y < 0x20 && z < 0x40 && y * 0x40 + z >= 0x80
    ensures Encode(y * 0x40 + z) == [0xC0 + y, 0x80 + z]
  {
    DigitsUnique(0, 0, y, z);
  }

  lemma Encode3(x: nat, y: nat, z: nat)
    requires x < 0x10 && y < 0x40 && z < 0x40
    requires var c := x * 0x1000 + y * 0x40 + z; c >= 0x800 && !(0xD800 <= c <= 0xDFFF)
    ensures Encode(x * 0x1000 + y * 0x40 + z) == [0xE0 + x, 0x80 + y, 0x80 + z]
  {
    DigitsUnique(0, x, y, z);
  }

  lemma Encode4(w: nat, x: nat, y: nat, z: nat)
    requires w < 8 && x < 0x40 && y < 0x40 && z < 0x40
    requires 0x10000 <= w * 0x40000 + x * 0x1000 + y * 0x40 + z <= 0x10FFFF
    ensures Encode(w * 0x40000 + x * 0x1000 + y * 0x40 + z) == [0xF0 + w, 0x80 + x, 0x80 + y, 0x80 + z]
  {
    DigitsUnique(w, x, y, z);
  }

  /** A well-formed sequence is the encoding of what it carries. */
  lemma WellFormedIsEncode(t: Text)
    requires WellFormed(t)
    ensures Encode(Gathered(t, |t|)) == t
  {
    hide Encode, Gathered, WellFormed, Payload, Bits;
    Announced(t);
    if |t| == 1 {
      WellFormed1(t[0]);
      assert t == [t[0]];
    } else if |t| == 2 {
      WellFormed2(t[0], t[1]);
      assert t == [t[0], t[1]];
    } else if |t| == 3 {
      WellFormed3(t[0], t[1], t[2]);
      assert t == [t[0], t[1], t[2]];
    } else {
      WellFormed4(t[0], t[1], t[2], t[3]);
      assert t == [t[0], t[1], t[2], t[3]];
    }
  }

  lemma Announced(t: Text)
    requires WellFormed(t)
    ensures 1 <= |t| <= 4
  {
    hide Gathered;
  }

  lemma WellFormed1(a: Byte)
    ensures WellFormed([a]) ==> Encode(Gathered([a], 1)) == [a]
  {
    GatheredIs([a]);
  }

  lemma WellFormed2(a: Byte, b: Byte)
    ensures WellFormed([a, b]) ==> Encode(Gathered([a, b], 2)) == [a, b]
  {
    hide Encode, Gathered;
    var t := [a, b];
    GatheredIs(t);
    if WellFormed(t) {
      assert Tail(t[1]);
      Encode2(Payload(a), Bits(b));
    }
  }

  lemma WellFormed3(a: Byte, b: Byte, c: Byte)
    ensures WellFormed([a, b, c]) ==> Encode(Gathered([a, b, c], 3)) == [a, b, c]
  {
    hide Encode, Gathered;
    var t := [a, b, c];
    GatheredIs(t);
    if WellFormed(t) {
      assert Tail(t[1]) && Tail(t[2]);
      Encode3(Payload(a), Bits(b), Bits(c));
    }
  }

  lemma WellFormed4(a: Byte, b: Byte, c: Byte, d: Byte)
    ensures WellFormed([a, b, c, d]) ==> Encode(Gathered([a, b, c, d], 4)) == [a, b, c, d]
  {
    hide Encode, Gathered;
    var t := [a, b, c, d];
    GatheredIs(t);
    if WellFormed(t) {
      assert Tail(t[1]) && Tail(t[2]) && Tail(t[3]);
      Encode4(Payload(a), Bits(b), Bits(c), Bits(d));
    }
  }

  /** The decoder's checks are the standard's grammar. */
  lemma WellFormedIsGrammar(t: Text)
    ensures WellFormed(t) <==> Utf8Char(t)
  {
    if t != [] && LengthOf(t[0]) == |t| {
      GatheredIs(t);
      hide Gathered;
      if |t| == 2 {
        assert WellFormed(t) <==> Tail(t[1]) && t[0] >= 0xC2;
      } else if |t| == 3 {
        assert WellFormed(t) ==> Tail(t[1]) && Tail(t[2]);
      } else if |t| == 4 {
        assert WellFormed(t) ==> Tail(t[1]) && Tail(t[2]) && Tail(t[3]);
      }
    }
  }

  /** The encoded characters are exactly the standard's `UTF8-char` sequences. */
  lemma EncodeIsGrammar(t: Text)
    ensures Utf8Char(t) <==> exists c: CodePoint :: Encode(c) == t
  {
    WellFormedIsGrammar(t);
    if WellFormed(t) {
      WellFormedIsEncode(t);
    }
    forall c: CodePoint | Encode(c) == t
      ensures WellFormed(t)
    {
      EncodeIsWellFormed(c);
    }
  }

  /** No encoding is a proper prefix of another, so a text splits into characters in one way only. */
  lemma PrefixFree(a: CodePoint, b: CodePoint, t: Text)
    requires Encode(a) <= t && Encode(b) <= t
    ensures a == b
  {
    EncodeIsWellFormed(a);
    EncodeIsWellFormed(b);
    assert t[0] == Encode(a)[0] == Encode(b)[0];
    assert Encode(a) == t[..|Encode(a)|] == Encode(b);
  }

  // ------------------------------------------------------------------ the decoder

  /** Decodes the character at `i`, or reports that no character is encoded there. The source masks and shifts;
      on bytes that is the arithmetic below. */
  method Decode(text: Text, i: nat) returns (r: Option<(CodePoint, nat)>)
    requires i < |text|
    ensures r.Some? ==> Encode(r.value.0) <= text[i..] && r.value.1 == i + |Encode(r.value.0)|
    ensures r.None? ==> forall c: CodePoint :: !(Encode(c) <= text[i..])
  {
    hide Encode, WellFormed, Gathered;
    var lead := text[i];
    var length: nat, value: int := 0, 0;
    if lead < 0x80 {
      OneByte(text, i);
      return Some((lead, i + 1));
    } else if 0xC0 <= lead < 0xE0 {
      length, value := 2, lead - 0xC0;
    } else if 0xE0 <= lead < 0xF0 {
      length, value := 3, lead - 0xE0;
    } else if 0xF0 <= lead < 0xF8 {
      length, value := 4, lead - 0xF0;
    }
    if length == 0 || i + length > |text| {
      NothingEncoded(text[i..], length);
      return None;
    }
    ghost var t := text[i..i + length];
    GatheredNext(t, 1);
    for k := 1 to length
      invariant forall m :: 1 <= m < k ==> Tail(t[m])
      invariant value == Gathered(t, k)
    {
      var c := text[i + k];
      if !(0x80 <= c < 0xC0) {
        assert !Tail(t[k]);
        Checks(t);
        Malformed(text[i..], t);
        return None;
      }
      GatheredNext(t, k + 1);
      value := value * 0x40 + (c as int - 0x80);
    }
    var least: seq<int> := [0, 0, 0x80, 0x800, 0x10000];
    Checks(t);
    if value < least[length] || 0xD800 <= value <= 0xDFFF || value > 0x10FFFF {
      Malformed(text[i..], t);
      return None;
    }
    WellFormedIsEncode(t);
    r := Some((value, i + length));
  }

  lemma OneByte(text: Text, i: nat)
    requires i < |text| && text[i] < 0x80
    ensures Encode(text[i]) <= text[i..] && |Encode(text[i])| == 1
  {
  }

  lemma GatheredNext(t: Text, k: nat)
    requires 1 <= k <= |t|
    ensures Gathered(t, k) == if k == 1 then Payload(t[0]) else Gathered(t, k - 1) * 0x40 + Bits(t[k - 1])
  {
  }

  lemma Checks(t: Text)
    requires t != [] && LengthOf(t[0]) == |t|
    ensures WellFormed(t) <==>
            && (forall k :: 1 <= k < |t| ==> Tail(t[k]))
            && Least(|t|) <= Gathered(t, |t|) <= 0x10FFFF && !(0xD800 <= Gathered(t, |t|) <= 0xDFFF)
  {
  }

  /** A text that begins with an encoded character announces its length, and carries nothing else there. */
  lemma StartsWith(c: CodePoint, t: Text)
    requires Encode(c) <= t
    ensures LengthOf(t[0]) == |Encode(c)| && t[..LengthOf(t[0])] == Encode(c) && WellFormed(Encode(c))
  {
    EncodeIsWellFormed(c);
    assert t[0] == Encode(c)[0];
  }

  lemma NothingEncoded(t: Text, length: nat)
    requires t != [] && length == LengthOf(t[0])
    requires length == 0 || length > |t|
    ensures forall c: CodePoint :: !(Encode(c) <= t)
  {
    forall c: CodePoint | Encode(c) <= t
      ensures false
    {
      StartsWith(c, t);
    }
  }

  lemma Malformed(t: Text, front: Text)
    requires front != [] && front <= t && LengthOf(t[0]) == |front| && !WellFormed(front)
    ensures forall c: CodePoint :: !(Encode(c) <= t)
  {
    hide Encode;
    assert t[..|front|] == front;
    forall c: CodePoint | Encode(c) <= t
      ensures false
    {
      StartsWith(c, t);
    }
  }

  // ------------------------------------------------------------------ whole texts

  function EncodeAll(cs: seq<CodePoint>): Text {
    if cs == [] then [] else EncodeAll(cs[..|cs| - 1]) + Encode(cs[|cs| - 1])
  }

  lemma EncodeAllPush(cs: seq<CodePoint>, c: CodePoint)
    ensures EncodeAll(cs + [c]) == EncodeAll(cs) + Encode(c)
  {
    assert (cs + [c])[..|cs|] == cs;
  }

  lemma {:induction false} EncodeAllPrefix(cs: seq<CodePoint>, k: nat)
    requires k <= |cs|
    ensures EncodeAll(cs[..k]) <= EncodeAll(cs)
    ensures k < |cs| ==> EncodeAll(cs[..k]) + Encode(cs[k]) <= EncodeAll(cs)
    decreases |cs|
  {
    if k == |cs| {
      assert cs[..k] == cs;
    } else {
      var front := cs[..|cs| - 1];
      if k == |front| {
        assert cs[..k] == front;
      } else {
        EncodeAllPrefix(front, k);
        assert front[..k] == cs[..k];
      }
    }
  }

  lemma Aligned(a: Text, x: Text, y: Text, whole: Text)
    requires a + x <= whole && a + y <= whole
    ensures |a| <= |whole| && x <= whole[|a|..] && y <= whole[|a|..]
  {
    assert whole[|a|..][..|x|] == (a + x)[|a|..];
    assert whole[|a|..][..|y|] == (a + y)[|a|..];
  }

  lemma EncodeAllLast(cs: seq<CodePoint>)
    requires cs != []
    ensures EncodeAll(cs) == EncodeAll(cs[..|cs| - 1]) + Encode(cs[|cs| - 1])
  {
  }

  /** What has been decoded so far is the beginning of every reading of the text. */
  lemma {:induction false} ReadingIsUnique(done: seq<CodePoint>, cs: seq<CodePoint>)
    requires EncodeAll(done) <= EncodeAll(cs)
    ensures done <= cs
  {
    hide Encode, EncodeAll;
    if done != [] {
      var n := |done| - 1;
      var front := done[..n];
      assert cs[..|cs|] == cs;
      EncodeAllLast(done);
      assert EncodeAll(front) <= EncodeAll(done);
      ReadingIsUnique(front, cs);
      assert cs[..n] == front;
      if n < |cs| {
        EncodeAllPrefix(cs, n);
        Aligned(EncodeAll(front), Encode(cs[n]), Encode(done[n]), EncodeAll(cs));
        PrefixFree(cs[n], done[n], EncodeAll(cs)[|EncodeAll(front)|..]);
      }
    }
  }

  /** The next character of the only reading is the one encoded at the position reached. */
  lemma NextOfReading(done: seq<CodePoint>, cs: seq<CodePoint>, text: Text)
    requires EncodeAll(cs) == text && EncodeAll(done) <= text && |EncodeAll(done)| < |text|
    ensures done < cs && Encode(cs[|done|]) <= text[|EncodeAll(done)|..]
  {
    hide Encode, EncodeAll;
    ReadingIsUnique(done, cs);
    assert done != cs;
    assert cs[..|done|] == done;
    EncodeAllPrefix(cs, |done|);
  }
}

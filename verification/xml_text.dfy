/** Which texts the XML backend reads and writes: names, character data and the version carrier. */
module XmlText {
  import opened Base
  import opened Decimals
  import opened Utf8

  // ------------------------------------------------------------------ the standard's productions

  /** Section 2.2 of XML 1.0: `Char`. */
  predicate XmlChar(c: CodePoint) {
    c == 0x9 || c == 0xA || c == 0xD || 0x20 <= c <= 0xD7FF || 0xE000 <= c <= 0xFFFD || 0x10000 <= c <= 0x10FFFF
  }

  /** Section 2.3 of XML 1.0: `NameStartChar`. */
  predicate NameStartChar(c: CodePoint) {
    || c == 0x3A || 0x41 <= c <= 0x5A || c == 0x5F || 0x61 <= c <= 0x7A
    || 0xC0 <= c <= 0xD6 || 0xD8 <= c <= 0xF6 || 0xF8 <= c <= 0x2FF || 0x370 <= c <= 0x37D || 0x37F <= c <= 0x1FFF
    || 0x200C <= c <= 0x200D || 0x2070 <= c <= 0x218F || 0x2C00 <= c <= 0x2FEF || 0x3001 <= c <= 0xD7FF
    || 0xF900 <= c <= 0xFDCF || 0xFDF0 <= c <= 0xFFFD || 0x10000 <= c <= 0xEFFFF
  }

  /** Section 2.3 of XML 1.0: `NameChar`. */
  predicate NameChar(c: CodePoint) {
    || NameStartChar(c) || c == 0x2D || c == 0x2E || 0x30 <= c <= 0x39 || c == 0xB7
    || 0x300 <= c <= 0x36F || 0x203F <= c <= 0x2040
  }

  const COLON: CodePoint := 0x3A
  const RETURN: CodePoint := 0xD

  /** The `Name` production of section 2.3, without colons. */
  ghost predicate NameOf(cs: seq<CodePoint>) {
    && cs != [] && NameStartChar(cs[0])
    && forall i :: 0 <= i < |cs| ==> NameChar(cs[i]) && cs[i] != COLON
  }

  ghost predicate ElementName(name: Text) {
    exists cs: seq<CodePoint> :: EncodeAll(cs) == name && NameOf(cs)
  }

  /** Characters that survive a conformant parse: a carriage return does not. */
  predicate Carried(c: CodePoint) {
    XmlChar(c) && c != RETURN
  }

  ghost predicate AllCarried(cs: seq<CodePoint>) {
    forall i :: 0 <= i < |cs| ==> Carried(cs[i])
  }

  ghost predicate Representable(text: Text) {
    exists cs: seq<CodePoint> :: EncodeAll(cs) == text && AllCarried(cs)
  }

  // ------------------------------------------------------------------ the backend's checks

  predicate IsNameStartChar(c: CodePoint) {
    || c == 0x5F || 0x41 <= c <= 0x5A || 0x61 <= c <= 0x7A
    || 0xC0 <= c <= 0xD6 || 0xD8 <= c <= 0xF6 || 0xF8 <= c <= 0x2FF || 0x370 <= c <= 0x37D || 0x37F <= c <= 0x1FFF
    || 0x200C <= c <= 0x200D || 0x2070 <= c <= 0x218F || 0x2C00 <= c <= 0x2FEF || 0x3001 <= c <= 0xD7FF
    || 0xF900 <= c <= 0xFDCF || 0xFDF0 <= c <= 0xFFFD || 0x10000 <= c <= 0xEFFFF
  }

  predicate IsNameChar(c: CodePoint) {
    || IsNameStartChar(c) || c == 0x2D || c == 0x2E || 0x30 <= c <= 0x39 || c == 0xB7
    || 0x300 <= c <= 0x36F || 0x203F <= c <= 0x2040
  }

  /** Where a text stops being readable, every reading of it stops. */
  lemma Unreadable(done: seq<CodePoint>, text: Text, i: nat)
    requires i < |text| && EncodeAll(done) == text[..i]
    requires forall c: CodePoint :: !(Encode(c) <= text[i..])
    ensures forall cs: seq<CodePoint> :: EncodeAll(cs) != text
  {
    hide Encode, EncodeAll;
    forall cs: seq<CodePoint> | EncodeAll(cs) == text
      ensures false
    {
      NextOfReading(done, cs, text);
    }
  }

  /** Every reading of the text has `c` where it was decoded. */
  lemma Decoded(done: seq<CodePoint>, c: CodePoint, text: Text, i: nat)
    requires i < |text| && EncodeAll(done) == text[..i] && Encode(c) <= text[i..]
    ensures forall cs: seq<CodePoint> :: EncodeAll(cs) == text ==> |done| < |cs| && cs[|done|] == c
    ensures EncodeAll(done + [c]) == text[..i + |Encode(c)|]
  {
    hide Encode, EncodeAll;
    forall cs: seq<CodePoint> | EncodeAll(cs) == text
      ensures |done| < |cs| && cs[|done|] == c
    {
      NextOfReading(done, cs, text);
      PrefixFree(cs[|done|], c, text[i..]);
    }
    EncodeAllPush(done, c);
    Advance(text, i, Encode(c));
  }

  lemma Advance(text: Text, i: nat, next: Text)
    requires i <= |text| && next <= text[i..]
    ensures i + |next| <= |text| && text[..i] + next == text[..i + |next|]
  {
    assert next == text[i..][..|next|];
  }

  lemma EmptyName()
    ensures !ElementName([])
  {
    forall cs: seq<CodePoint> | EncodeAll(cs) == []
      ensures cs == []
    {
      EncodeNone();
      ReadingIsUnique(cs, []);
    }
  }

  method IsValidElementName(name: Text) returns (ok: bool)
    ensures ok <==> ElementName(name)
  {
    hide Encode, EncodeAll, NameStartChar, NameChar, IsNameStartChar, IsNameChar;
    EncodeNone();
    EmptyName();
    if name == [] {
      return false;
    }
    var i, first := 0, true;
    ghost var done: seq<CodePoint> := [];
    while i < |name|
      invariant i <= |name| && EncodeAll(done) == name[..i]
      invariant first <==> done == []
      invariant done != [] ==> NameOf(done)
      decreases |name| - i
    {
      var c := Decode(name, i);
      if c.None? {
        Unreadable(done, name, i);
        return false;
      }
      Decoded(done, c.value.0, name, i);
      NameCharIs(c.value.0);
      if if first then !IsNameStartChar(c.value.0) else !IsNameChar(c.value.0) {
        return false;
      }
      first, i, done := false, c.value.1, done + [c.value.0];
    }
    assert name[..i] == name;
    ok := true;
  }

  method IsXmlRepresentable(text: Text) returns (ok: bool)
    ensures ok <==> Representable(text)
  {
    hide Encode, EncodeAll;
    EncodeNone();
    var i := 0;
    ghost var done: seq<CodePoint> := [];
    while i < |text|
      invariant i <= |text| && EncodeAll(done) == text[..i]
      invariant AllCarried(done)
      decreases |text| - i
    {
      var c := Decode(text, i);
      if c.None? {
        Unreadable(done, text, i);
        return false;
      }
      Decoded(done, c.value.0, text, i);
      if c.value.0 < 0x20 && c.value.0 != 0x9 && c.value.0 != 0xA {
        return false;
      }
      if c.value.0 == 0xFFFE || c.value.0 == 0xFFFF {
        return false;
      }
      i, done := c.value.1, done + [c.value.0];
    }
    assert text[..i] == text;
    ok := true;
  }

  lemma EncodeNone()
    ensures EncodeAll([]) == []
  {
  }

  /** The backend's two tables are the standard's, less the colon. */
  lemma NameCharIs(c: CodePoint)
    ensures IsNameStartChar(c) <==> NameStartChar(c) && c != COLON
    ensures IsNameChar(c) <==> NameChar(c) && c != COLON
    ensures NameStartChar(c) ==> NameChar(c)
  {
  }

  // ------------------------------------------------------------------ the version carrier

  /** The texts that carry a version. */
  predicate VersionText(text: Text) {
    text != [] && AllDigits(text) && ValueOf(text) < TWO_32
  }

  method ParseVersionCarrier(text: Text) returns (r: Result<UInt32>)
    ensures r == if VersionText(text) then Ok(ValueOf(text)) else Err(InvalidVersion)
  {
    if text == [] {
      return Err(InvalidVersion);
    }
    for k := 0 to |text|
      invariant forall i :: 0 <= i < k ==> IsDigit(text[i])
    {
      if !IsDigit(text[k]) {
        return Err(InvalidVersion);
      }
    }
    var value := ValueOf(text);
    r := if value >= TWO_64 || value >= TWO_32 then Err(InvalidVersion) else Ok(value);
  }
}

/** The documented path grammar, and the proof that the parser accepts exactly what it produces. */
module PathGrammar {
  import opened Base
  import opened Decimals
  import opened ConfigPath

  /** `key` and `index` as the grammar spells them: an index keeps its leading zeros. */
  datatype Token = Name(key: Text) | Subscript(digits: Text)

  /** The terminals one token allows, with the `std::size_t` bound of the last grammar rule. */
  predicate Legal(token: Token) {
    match token
    case Name(key) => Addressable(key)
    case Subscript(digits) => digits != [] && AllDigits(digits) && ValueOf(digits) < TWO_64
  }

  predicate AllLegal(tokens: seq<Token>) {
    forall i :: 0 <= i < |tokens| ==> Legal(tokens[i])
  }

  /** Tokens that follow an earlier one: a name brings its dot, a subscript its brackets. */
  function Spell(tokens: seq<Token>): Text {
    if tokens == [] then []
    else
      (match tokens[0]
       case Name(key) => [DOT] + key
       case Subscript(digits) => [OPEN] + digits + [CLOSE])
      + Spell(tokens[1..])
  }

  /** `path := segment ( "." segment )*`, `segment := key index*`. */
  ghost predicate Derives(tokens: seq<Token>, text: Text) {
    tokens != [] && tokens[0].Name? && AllLegal(tokens) && text == tokens[0].key + Spell(tokens[1..])
  }

  function MeaningOf(token: Token): Segment
    requires Legal(token)
  {
    match token
    case Name(key) => Key(key)
    case Subscript(digits) => Index(ValueOf(digits))
  }

  function Meaning(tokens: seq<Token>): seq<Segment>
    requires AllLegal(tokens)
  {
    if tokens == [] then [] else [MeaningOf(tokens[0])] + Meaning(tokens[1..])
  }

  // ------------------------------------------------------------------ acceptance, both directions

  lemma {:induction false} KeyLengthSplit(key: Text, rest: Text)
    requires forall i :: 0 <= i < |key| ==> !IsReserved(key[i])
    requires rest == [] || IsReserved(rest[0])
    ensures KeyLength(key + rest) == |key|
  {
    if key != [] {
      assert (key + rest)[1..] == key[1..] + rest;
      KeyLengthSplit(key[1..], rest);
    } else {
      assert key + rest == rest;
    }
  }

  lemma {:induction false} DigitLengthSplit(digits: Text, rest: Text)
    requires AllDigits(digits)
    requires rest == [] || !IsDigit(rest[0])
    ensures DigitLength(digits + rest) == |digits|
  {
    if digits != [] {
      assert (digits + rest)[1..] == digits[1..] + rest;
      DigitLengthSplit(digits[1..], rest);
    } else {
      assert digits + rest == rest;
    }
  }

  /** One subscript, whatever follows it. */
  lemma TailIndex(digits: Text, rest: Text)
    requires digits != [] && AllDigits(digits)
    ensures ParseTail([OPEN] + digits + [CLOSE] + rest) ==
            if ValueOf(digits) < TWO_64 then Prepend([Index(ValueOf(digits))], ParseTail(rest)) else Err(InvalidPath)
  {
    var text := [OPEN] + digits + [CLOSE] + rest;
    var after := [CLOSE] + rest;
    assert text[1..] == digits + after;
    DigitLengthSplit(digits, after);
    assert text[1..][..|digits|] == digits;
    assert text[|digits| + 2..] == rest;
  }

  /** A tail that starts with a bracket and parses starts with a subscript. */
  lemma TailIndexInverse(text: Text) returns (digits: Text, rest: Text)
    requires text != [] && text[0] == OPEN && ParseTail(text).Ok?
    ensures text == [OPEN] + digits + [CLOSE] + rest
    ensures Legal(Subscript(digits)) && ParseTail(rest).Ok?
    ensures ParseTail(text).value == [Index(ValueOf(digits))] + ParseTail(rest).value
  {
    var d := DigitLength(text[1..]);
    digits, rest := text[1..][..d], text[d + 2..];
  }

  lemma {:induction false} SegmentComplete(key: Text, tokens: seq<Token>)
    requires Addressable(key) && AllLegal(tokens)
    ensures Parse(key + Spell(tokens)) == Ok([Key(key)] + Meaning(tokens))
    decreases |tokens|, 1
  {
    var text := key + Spell(tokens);
    KeyLengthSplit(key, Spell(tokens));
    assert text[..|key|] == key && text[|key|..] == Spell(tokens);
    TailComplete(tokens);
  }

  lemma {:induction false} TailComplete(tokens: seq<Token>)
    requires AllLegal(tokens)
    ensures ParseTail(Spell(tokens)) == Ok(Meaning(tokens))
    decreases |tokens|, 0
  {
    if tokens != [] {
      var rest := tokens[1..];
      assert Legal(tokens[0]);
      match tokens[0]
      case Name(key) =>
        assert Spell(tokens)[1..] == key + Spell(rest);
        SegmentComplete(key, rest);
      case Subscript(digits) =>
        TailIndex(digits, Spell(rest));
        TailComplete(rest);
    }
  }

  lemma ConsToken(token: Token, rest: seq<Token>)
    requires Legal(token) && AllLegal(rest)
    ensures AllLegal([token] + rest)
    ensures Meaning([token] + rest) == [MeaningOf(token)] + Meaning(rest)
    ensures Spell([token] + rest) ==
            (if token.Name? then [DOT] + token.key else [OPEN] + token.digits + [CLOSE]) + Spell(rest)
  {
    assert ([token] + rest)[1..] == rest;
  }

  lemma {:induction false} SegmentSound(text: Text) returns (tokens: seq<Token>)
    requires Parse(text).Ok?
    ensures Derives(tokens, text) && Meaning(tokens) == Parse(text).value
    decreases |text|, 0
  {
    hide Parse, ParseTail, Spell, Meaning;
    var n := KeyLength(text);
    SegmentShape(text);
    var rest := TailSound(text[n..]);
    ConsToken(Name(text[..n]), rest);
    tokens := [Name(text[..n])] + rest;
    assert tokens[1..] == rest;
    assert text == text[..n] + text[n..];
  }

  lemma SegmentShape(text: Text)
    requires Parse(text).Ok?
    ensures var n := KeyLength(text);
            && Addressable(text[..n])
            && ParseTail(text[n..]).Ok?
            && Parse(text).value == [Key(text[..n])] + ParseTail(text[n..]).value
  {
  }

  lemma {:induction false} TailSound(text: Text) returns (tokens: seq<Token>)
    requires ParseTail(text).Ok?
    ensures AllLegal(tokens) && Spell(tokens) == text && Meaning(tokens) == ParseTail(text).value
    decreases |text|, 1
  {
    hide Parse, ParseTail, Spell, Meaning;
    TailShape(text);
    if text == [] {
      tokens := [];
    } else if text[0] == DOT {
      tokens := SegmentSound(text[1..]);
      ConsToken(tokens[0], tokens[1..]);
      assert tokens == [tokens[0]] + tokens[1..];
      assert text == [DOT] + (tokens[0].key + Spell(tokens[1..]));
    } else {
      var digits, after := TailIndexInverse(text);
      var rest := TailSound(after);
      ConsToken(Subscript(digits), rest);
      tokens := [Subscript(digits)] + rest;
    }
  }

  /** The three ways a tail can go on. */
  lemma TailShape(text: Text)
    requires ParseTail(text).Ok?
    ensures text == [] || text[0] == DOT || text[0] == OPEN
    ensures text == [] ==> ParseTail(text).value == Meaning([]) && Spell([]) == []
    ensures text != [] && text[0] == DOT ==> ParseTail(text) == Parse(text[1..])
  {
  }

  /** The parser accepts exactly the sentences of the grammar, with the meaning their tokens have. */
  lemma ParseAcceptsExactlyTheGrammar(text: Text, segments: seq<Segment>)
    ensures Parse(text) == Ok(segments) <==>
            exists tokens: seq<Token> :: Derives(tokens, text) && Meaning(tokens) == segments
    ensures Parse(text).Err? ==> Parse(text).error == InvalidPath
  {
    if Parse(text).Ok? {
      var tokens := SegmentSound(text);
      assert Derives(tokens, text);
    }
    forall tokens: seq<Token> | Derives(tokens, text)
      ensures Parse(text) == Ok(Meaning(tokens))
    {
      SegmentComplete(tokens[0].key, tokens[1..]);
    }
    ParseErrors(text);
  }

  lemma {:induction false} ParseErrors(text: Text)
    ensures Parse(text).Err? ==> Parse(text).error == InvalidPath
    ensures ParseTail(text).Err? ==> ParseTail(text).error == InvalidPath
    decreases |text|
  {
    var n := KeyLength(text);
    if n > 0 {
      ParseErrors(text[n..]);
    }
    if text != [] {
      ParseErrors(text[1..]);
      var d := DigitLength(text[1..]);
      if 1 + d < |text| {
        ParseErrors(text[d + 2..]);
      }
    }
  }

  // ------------------------------------------------------------------ printing

  /** The segment lists a path can spell: a key first, every key addressable, every index a `std::size_t`. */
  predicate Printable(segments: seq<Segment>) {
    && segments != []
    && segments[0].Key?
    && forall i :: 0 <= i < |segments| ==> SegmentPrintable(segments[i])
  }

  predicate SegmentPrintable(segment: Segment) {
    match segment
    case Key(key) => Addressable(key)
    case Index(index) => index < TWO_64
  }

  function TokenOf(segment: Segment): (token: Token)
    ensures SegmentPrintable(segment) ==> Legal(token) && MeaningOf(token) == segment
  {
    match segment
    case Key(key) => Name(key)
    case Index(index) => Subscript(Decimal(index))
  }

  function TokensOf(segments: seq<Segment>): (tokens: seq<Token>)
    ensures |tokens| == |segments|
    ensures forall i :: 0 <= i < |segments| ==> tokens[i] == TokenOf(segments[i])
  {
    seq(|segments|, i requires 0 <= i < |segments| => TokenOf(segments[i]))
  }

  function Print(segments: seq<Segment>): Text
    requires Printable(segments)
  {
    segments[0].key + Spell(TokensOf(segments[1..]))
  }

  lemma {:induction false} MeaningOfTokens(segments: seq<Segment>)
    requires forall i :: 0 <= i < |segments| ==> SegmentPrintable(segments[i])
    ensures AllLegal(TokensOf(segments)) && Meaning(TokensOf(segments)) == segments
  {
    if segments != [] {
      MeaningOfTokens(segments[1..]);
      assert TokensOf(segments)[1..] == TokensOf(segments[1..]);
      assert segments == [segments[0]] + segments[1..];
    }
  }

  /** Parsing undoes printing, for every segment list a path can name. */
  lemma ParsePrint(segments: seq<Segment>)
    requires Printable(segments)
    ensures Parse(Print(segments)) == Ok(segments)
  {
    MeaningOfTokens(segments[1..]);
    assert SegmentPrintable(segments[0]);
    SegmentComplete(segments[0].key, TokensOf(segments[1..]));
    assert segments == [segments[0]] + segments[1..];
  }

  lemma {:induction false} SpellAppend(tokens: seq<Token>, last: Token)
    ensures Spell(tokens + [last]) == Spell(tokens) + Spell([last])
  {
    if tokens == [] {
      assert tokens + [last] == [last];
    } else {
      assert (tokens + [last])[1..] == tokens[1..] + [last];
      SpellAppend(tokens[1..], last);
    }
  }

  /** The concatenation repair uses: a printed path, a dot and a key print the longer path. */
  lemma PrintChild(segments: seq<Segment>, key: Text)
    requires Printable(segments) && Addressable(key)
    ensures Printable(segments + [Key(key)])
    ensures Print(segments + [Key(key)]) == Print(segments) + [DOT] + key
  {
    var longer := segments + [Key(key)];
    assert longer[1..] == segments[1..] + [Key(key)];
    assert TokensOf(longer[1..]) == TokensOf(segments[1..]) + [Name(key)];
    SpellAppend(TokensOf(segments[1..]), Name(key));
    assert Spell([Name(key)]) == [DOT] + key + Spell([]);
    assert forall i :: 0 <= i < |longer| ==> SegmentPrintable(longer[i]);
  }
}

/** adapters/elasticsearch/ops.go, runnerScript: the shell's five substitutions that put
    a check's text into a JSON request body. */
module JsonEscape {
  import opened Wrappers
  import opened Bytes

  const TAB: Byte := 9
  const RETURN: Byte := 13
  const QUOTE: Byte := 34
  const BACKSLASH: Byte := 92
  const LETTER_N: Byte := 110
  const LETTER_R: Byte := 114
  const LETTER_T: Byte := 116
  const DELETE: Byte := 127

  /** ${s//b/to} */
  function Replace(s: Text, b: Byte, to: Text): Text {
    if s == [] then [] else (if s[0] == b then to else [s[0]]) + Replace(s[1..], b, to)
  }

  /** [[:cntrl:]] of the C locale. */
  predicate Control(b: Byte) {
    b < 32 || b == DELETE
  }

  predicate Encodable(b: Byte) {
    !Control(b) || b == TAB || b == NEWLINE || b == RETURN
  }

  lemma EncodableBytes()
    ensures forall b: Byte :: Encodable(b) <==> (b >= 32 && b != 127) || b == 9 || b == 10 || b == 13
  {
  }

  /** One byte of text inside a JSON string. */
  function EscapedByte(b: Byte): Text {
    if b == BACKSLASH then [BACKSLASH, BACKSLASH]
    else if b == QUOTE then [BACKSLASH, QUOTE]
    else if b == TAB then [BACKSLASH, LETTER_T]
    else if b == NEWLINE then [BACKSLASH, LETTER_N]
    else if b == RETURN then [BACKSLASH, LETTER_R]
    else [b]
  }

  /** One pass over the text. */
  function Escaped(s: Text): Text {
    if s == [] then [] else EscapedByte(s[0]) + Escaped(s[1..])
  }

  /** The script's five, the backslash first. */
  function Substituted(s: Text): Text {
    Replace(Replace(Replace(Replace(Replace(s,
      BACKSLASH, [BACKSLASH, BACKSLASH]),
      QUOTE, [BACKSLASH, QUOTE]),
      TAB, [BACKSLASH, LETTER_T]),
      NEWLINE, [BACKSLASH, LETTER_N]),
      RETURN, [BACKSLASH, LETTER_R])
  }

  /** The escaping of the check text: None where the script refuses it. */
  method EncodeCheck(text: Text) returns (r: Option<Text>)
    ensures r.Some? <==> forall b :: b in text ==> (b >= 32 && b != 127) || b == 9 || b == 10 || b == 13
    ensures r.Some? ==> r.value == Escaped(text)
  {
    var s := text;
    s := Replace(s, BACKSLASH, [BACKSLASH, BACKSLASH]);
    s := Replace(s, QUOTE, [BACKSLASH, QUOTE]);
    s := Replace(s, TAB, [BACKSLASH, LETTER_T]);
    s := Replace(s, NEWLINE, [BACKSLASH, LETTER_N]);
    s := Replace(s, RETURN, [BACKSLASH, LETTER_R]);
    SubstitutedIsEscaped(text);
    ControlsLeft(text);
    EncodableBytes();
    if exists i :: 0 <= i < |s| && Control(s[i]) {
      return None;
    }
    return Some(s);
  }

  lemma {:induction false} ReplaceConcat(s: Text, t: Text, b: Byte, to: Text)
    ensures Replace(s + t, b, to) == Replace(s, b, to) + Replace(t, b, to)
  {
    if s == [] {
      assert s + t == t;
    } else {
      assert (s + t)[1..] == s[1..] + t;
      ReplaceConcat(s[1..], t, b, to);
    }
  }

  lemma ReplaceOne(c: Byte, b: Byte, to: Text)
    ensures Replace([c], b, to) == if c == b then to else [c]
  {
  }

  lemma ReplacePair(c: Byte, d: Byte, b: Byte, to: Text)
    requires c != b && d != b
    ensures Replace([c, d], b, to) == [c, d]
  {
    assert [c, d][1..] == [d];
    ReplaceOne(d, b, to);
  }

  lemma SubstitutedConcat(s: Text, t: Text)
    ensures Substituted(s + t) == Substituted(s) + Substituted(t)
  {
    var a, b := s, t;
    ReplaceConcat(a, b, BACKSLASH, [BACKSLASH, BACKSLASH]);
    a, b := Replace(a, BACKSLASH, [BACKSLASH, BACKSLASH]), Replace(b, BACKSLASH, [BACKSLASH, BACKSLASH]);
    ReplaceConcat(a, b, QUOTE, [BACKSLASH, QUOTE]);
    a, b := Replace(a, QUOTE, [BACKSLASH, QUOTE]), Replace(b, QUOTE, [BACKSLASH, QUOTE]);
    ReplaceConcat(a, b, TAB, [BACKSLASH, LETTER_T]);
    a, b := Replace(a, TAB, [BACKSLASH, LETTER_T]), Replace(b, TAB, [BACKSLASH, LETTER_T]);
    ReplaceConcat(a, b, NEWLINE, [BACKSLASH, LETTER_N]);
    a, b := Replace(a, NEWLINE, [BACKSLASH, LETTER_N]), Replace(b, NEWLINE, [BACKSLASH, LETTER_N]);
    ReplaceConcat(a, b, RETURN, [BACKSLASH, LETTER_R]);
  }

  /** A later substitution leaves an earlier one's pair alone. */
  lemma SubstitutedByte(c: Byte)
    ensures Substituted([c]) == EscapedByte(c)
  {
    ReplaceOne(c, BACKSLASH, [BACKSLASH, BACKSLASH]);
    ReplaceOne(c, QUOTE, [BACKSLASH, QUOTE]);
    ReplaceOne(c, TAB, [BACKSLASH, LETTER_T]);
    ReplaceOne(c, NEWLINE, [BACKSLASH, LETTER_N]);
    ReplaceOne(c, RETURN, [BACKSLASH, LETTER_R]);
    ReplacePair(BACKSLASH, BACKSLASH, QUOTE, [BACKSLASH, QUOTE]);
    ReplacePair(BACKSLASH, BACKSLASH, TAB, [BACKSLASH, LETTER_T]);
    ReplacePair(BACKSLASH, QUOTE, TAB, [BACKSLASH, LETTER_T]);
    ReplacePair(BACKSLASH, BACKSLASH, NEWLINE, [BACKSLASH, LETTER_N]);
    ReplacePair(BACKSLASH, QUOTE, NEWLINE, [BACKSLASH, LETTER_N]);
    ReplacePair(BACKSLASH, LETTER_T, NEWLINE, [BACKSLASH, LETTER_N]);
    ReplacePair(BACKSLASH, BACKSLASH, RETURN, [BACKSLASH, LETTER_R]);
    ReplacePair(BACKSLASH, QUOTE, RETURN, [BACKSLASH, LETTER_R]);
    ReplacePair(BACKSLASH, LETTER_T, RETURN, [BACKSLASH, LETTER_R]);
    ReplacePair(BACKSLASH, LETTER_N, RETURN, [BACKSLASH, LETTER_R]);
  }

  /** Five passes over the whole text come to one pass over its bytes. */
  lemma {:induction false} SubstitutedIsEscaped(s: Text)
    ensures Substituted(s) == Escaped(s)
  {
    if s != [] {
      assert [s[0]] + s[1..] == s;
      SubstitutedConcat([s[0]], s[1..]);
      SubstitutedByte(s[0]);
      SubstitutedIsEscaped(s[1..]);
    }
  }

  /** The control characters left are those the text had beyond the three escaped. */
  lemma {:induction false} ControlsLeft(s: Text)
    ensures (exists i :: 0 <= i < |Escaped(s)| && Control(Escaped(s)[i])) <==> exists b :: b in s && !Encodable(b)
  {
    if s != [] {
      ControlsLeft(s[1..]);
      var one, rest, all := EscapedByte(s[0]), Escaped(s[1..]), Escaped(s);
      assert all == one + rest;
      assert (exists i :: 0 <= i < |one| && Control(one[i])) <==> !Encodable(s[0]) by {
        assert !Encodable(s[0]) ==> one == [s[0]] && Control(one[0]);
        assert Encodable(s[0]) ==> forall i :: 0 <= i < |one| ==> !Control(one[i]);
      }
      assert forall i :: 0 <= i < |rest| ==> all[|one| + i] == rest[i];
      assert forall i :: 0 <= i < |one| ==> all[i] == one[i];
      assert forall b :: b in s <==> b == s[0] || b in s[1..];
    }
  }

  // Reading a JSON string, by section 7 of RFC 8259 (its four-digit escapes, which the
  // script never writes, left out).

  /** The character a two-byte escape stands for. */
  function Meaning(b: Byte): Option<Byte> {
    match b
    case 34 => Some(QUOTE)
    case 92 => Some(BACKSLASH)
    case 47 => Some(SLASH)
    case 98 => Some(8)
    case 102 => Some(12)
    case 110 => Some(NEWLINE)
    case 114 => Some(RETURN)
    case 116 => Some(TAB)
    case _ => None
  }

  datatype StringRead = StringRead(value: Text, rest: Text)

  function Prepend(b: Byte, r: Option<StringRead>): Option<StringRead> {
    match r
    case None => None
    case Some(read) => Some(StringRead([b] + read.value, read.rest))
  }

  /** From behind the opening quote: the string and what follows its closing quote. */
  function ReadString(t: Text): Option<StringRead> {
    if t == [] then None
    else if t[0] == QUOTE then Some(StringRead([], t[1..]))
    else if t[0] == BACKSLASH then
      if |t| > 1 && Meaning(t[1]).Some? then Prepend(Meaning(t[1]).value, ReadString(t[2..])) else None
    else if t[0] < 32 then None
    else Prepend(t[0], ReadString(t[1..]))
  }

  lemma ReadOne(b: Byte, more: Text)
    requires Encodable(b)
    ensures ReadString(EscapedByte(b) + more) == Prepend(b, ReadString(more))
  {
    var one := EscapedByte(b);
    var t := one + more;
    if |one| == 2 {
      assert t[0] == BACKSLASH && t[1] == one[1] && t[2..] == more;
      assert Meaning(one[1]) == Some(b);
    } else {
      assert t[0] == b && t[1..] == more;
    }
  }

  /** The engine reads back the very text that was encoded, whatever follows it. */
  lemma {:induction false} ReadBack(text: Text, rest: Text)
    requires forall b :: b in text ==> Encodable(b)
    ensures ReadString(Escaped(text) + ([QUOTE] + rest)) == Some(StringRead(text, rest))
  {
    if text == [] {
      assert ([QUOTE] + rest)[1..] == rest;
      assert Escaped(text) + ([QUOTE] + rest) == [QUOTE] + rest;
    } else {
      var more := Escaped(text[1..]) + ([QUOTE] + rest);
      assert Escaped(text) + ([QUOTE] + rest) == EscapedByte(text[0]) + more;
      assert [text[0]] + text[1..] == text;
      ReadOne(text[0], more);
      ReadBack(text[1..], rest);
    }
  }

  const BODY_START := Ascii("{\"query\":\"")
  const BODY_END := Ascii("\"}")

  /** What --data-binary sends. */
  function RequestBody(encoded: Text): Text {
    BODY_START + encoded + BODY_END
  }

  lemma BehindTheStart(start: Text, middle: Text, end: Text)
    ensures (start + middle + end)[|start|..] == middle + end
  {
  }

  /** No text can reach past the string it is put in: the body's query is the text and
      nothing but the closing brace follows. */
  lemma BodyHoldsTheText(text: Text)
    requires forall b :: b in text ==> Encodable(b)
    ensures ReadString(RequestBody(Escaped(text))[|BODY_START|..]) == Some(StringRead(text, BODY_END[1..]))
  {
    assert BODY_END[0] == QUOTE;
    assert BODY_END == [QUOTE] + BODY_END[1..];
    BehindTheStart(BODY_START, Escaped(text), BODY_END);
    ReadBack(text, BODY_END[1..]);
  }

  /** The backslash has to go first: escaping the quotes before it lets a lone quote end
      the string. */
  lemma QuotesFirstWouldEndTheString()
    ensures var s := Replace(Replace([QUOTE], QUOTE, [BACKSLASH, QUOTE]), BACKSLASH, [BACKSLASH, BACKSLASH]);
            ReadString(s) == Some(StringRead([BACKSLASH], []))
  {
    ReplaceOne(QUOTE, QUOTE, [BACKSLASH, QUOTE]);
    ReplaceOne(BACKSLASH, BACKSLASH, [BACKSLASH, BACKSLASH]);
    ReplaceOne(QUOTE, BACKSLASH, [BACKSLASH, BACKSLASH]);
    ReplaceConcat([BACKSLASH], [QUOTE], BACKSLASH, [BACKSLASH, BACKSLASH]);
    assert [BACKSLASH] + [QUOTE] == [BACKSLASH, QUOTE];
    var s := Replace([BACKSLASH, QUOTE], BACKSLASH, [BACKSLASH, BACKSLASH]);
    assert s == [BACKSLASH, BACKSLASH, QUOTE];
    assert s[2..] == [QUOTE] && [QUOTE][1..] == [];
    assert ReadString([QUOTE]) == Some(StringRead([], []));
    assert s[0] == BACKSLASH && Meaning(s[1]) == Some(BACKSLASH);
    assert ReadString(s) == Prepend(BACKSLASH, ReadString(s[2..]));
    var none: Text := [];
    assert [BACKSLASH] + none == [BACKSLASH];
  }
}

/** adapters/arangodb/ops.go, shellQuote, against the shell's own reading of words
    (section 2.2 of the Shell Command Language volume of IEEE Std 1003.1). */
module ShellQuote {
  import opened Wrappers
  import opened Bytes

  const SINGLE: Byte := 39
  const BACKSLASH: Byte := 92
  const SPACE: Byte := 32

  /** '\'' : the quotes closed, a quote escaped, the quotes reopened. */
  const ESCAPED_SINGLE: Text := [SINGLE, BACKSLASH, SINGLE, SINGLE]

  /** strings.ReplaceAll(s, "'", `'\''`) */
  function Inside(s: Text): Text {
    if s == [] then [] else (if s[0] == SINGLE then ESCAPED_SINGLE else [s[0]]) + Inside(s[1..])
  }

  /** shellQuote */
  function Quoted(s: Text): Text {
    [SINGLE] + Inside(s) + [SINGLE]
  }

  /** Bytes that mean themselves outside quotes, whatever the shell: letters, digits and
      a few signs. */
  predicate Plain(b: Byte) {
    48 <= b <= 57 || 65 <= b <= 90 || 97 <= b <= 122 || b == 45 || b == 46 || b == 47 || b == 95
  }

  datatype WordRead = WordRead(word: Text, rest: Text)

  /** The rest of the word begun: up to a blank or the end. Anything the shell might give
      another meaning, and a quote left open, is refused. */
  function ReadWord(t: Text, word: Text, quoted: bool): (r: Option<WordRead>)
    ensures r.Some? ==> |r.value.rest| <= |t|
    decreases |t|
  {
    if t == [] then (if quoted then None else Some(WordRead(word, [])))
    else if quoted then
      if t[0] == SINGLE then ReadWord(t[1..], word, false) else ReadWord(t[1..], word + [t[0]], true)
    else if t[0] == SINGLE then ReadWord(t[1..], word, true)
    else if t[0] == BACKSLASH then
      if |t| > 1 && t[1] != NEWLINE then ReadWord(t[2..], word + [t[1]], false) else None
    else if t[0] == SPACE then Some(WordRead(word, t))
    else if Plain(t[0]) then ReadWord(t[1..], word + [t[0]], false)
    else None
  }

  lemma EscapedIsRead(t: Text, word: Text)
    ensures ReadWord(ESCAPED_SINGLE + t, word, true) == ReadWord(t, word + [SINGLE], true)
  {
    var a := ESCAPED_SINGLE + t;
    var b, c := a[1..], a[3..];
    assert a[0] == SINGLE && b[0] == BACKSLASH && b[1] == SINGLE && b[2..] == c;
    assert c[0] == SINGLE && c[1..] == t;
    assert ReadWord(a, word, true) == ReadWord(b, word, false);
    assert ReadWord(b, word, false) == ReadWord(c, word + [SINGLE], false);
  }

  lemma {:induction false} InsideIsRead(s: Text, rest: Text, word: Text)
    ensures ReadWord(Inside(s) + ([SINGLE] + rest), word, true) == ReadWord(rest, word + s, false)
    decreases |s|
  {
    if s == [] {
      var t := Inside(s) + ([SINGLE] + rest);
      assert t[0] == SINGLE && t[1..] == rest && word + s == word;
    } else {
      var more := Inside(s[1..]) + ([SINGLE] + rest);
      assert word + [s[0]] + s[1..] == word + s;
      InsideIsRead(s[1..], rest, word + [s[0]]);
      if s[0] == SINGLE {
        assert Inside(s) + ([SINGLE] + rest) == ESCAPED_SINGLE + more;
        EscapedIsRead(more, word);
      } else {
        var t := Inside(s) + ([SINGLE] + rest);
        assert t[0] == s[0] && t[1..] == more;
      }
    }
  }

  /** The shell reads a quoted argument as that argument: one whole word, whatever bytes
      are in it, at the end of a command or with more words behind it. */
  lemma QuotedIsOneWord(s: Text, rest: Text)
    requires rest == [] || rest[0] == SPACE
    ensures ReadWord(Quoted(s) + rest, [], false) == Some(WordRead(s, rest))
  {
    var t := Quoted(s) + rest;
    assert t[0] == SINGLE && t[1..] == Inside(s) + ([SINGLE] + rest);
    InsideIsRead(s, rest, []);
    assert [] + s == s;
  }

  /** A command's words, one space between two. */
  function ReadWords(t: Text): Option<seq<Text>>
    decreases |t|
  {
    match ReadWord(t, [], false)
    case None => None
    case Some(r) =>
      if r.rest == [] then Some([r.word])
      else
        match ReadWords(r.rest[1..])
        case None => None
        case Some(words) => Some([r.word] + words)
  }

  function Command(args: seq<Text>): Text
    requires args != []
  {
    if |args| == 1 then Quoted(args[0]) else Quoted(args[0]) + ([SPACE] + Command(args[1..]))
  }

  /** Every argument vector survives being quoted, joined and read by the shell. */
  lemma {:induction false} CommandRoundTrip(args: seq<Text>)
    requires args != []
    ensures ReadWords(Command(args)) == Some(args)
  {
    if |args| == 1 {
      QuotedIsOneWord(args[0], []);
      assert Quoted(args[0]) + [] == Quoted(args[0]);
      assert [args[0]] == args;
    } else {
      var rest := [SPACE] + Command(args[1..]);
      QuotedIsOneWord(args[0], rest);
      assert rest[1..] == Command(args[1..]);
      CommandRoundTrip(args[1..]);
      assert [args[0]] + args[1..] == args;
    }
  }
}

/** adapters/couchdb/sniff.go, batchLines: the batches counted before the transfer. */
module CouchBatches {
  import opened Bytes
  import opened Paths
  import opened CouchLines

  /** White space only, or nothing. */
  predicate Blank(t: Text) {
    t == [] || (SpaceAt(t) > 0 && Blank(t[SpaceAt(t)..]))
  }

  lemma {:induction false} BlankIsTrimmedLeft(t: Text)
    ensures TrimLeft(t) == [] <==> Blank(t)
  {
    if SpaceAt(t) > 0 {
      BlankIsTrimmedLeft(t[SpaceAt(t)..]);
    }
  }

  lemma SpaceStays(t: Text, more: Text)
    requires SpaceAt(t) > 0
    ensures SpaceAt(t + more) == SpaceAt(t)
  {
  }

  /** Text that trims away from its end begins with white space. */
  lemma {:induction false} TrimmedRightBegins(t: Text)
    requires t != [] && TrimRight(t) == []
    ensures SpaceAt(t) > 0
  {
    var init, last := t[..|t| - SpaceBefore(t)], t[|t| - SpaceBefore(t)..];
    assert t == init + last;
    if init != [] {
      TrimmedRightBegins(init);
      SpaceStays(init, last);
    }
  }

  lemma BlankTrims(t: Text)
    ensures TrimSpace(t) == [] <==> Blank(t)
  {
    BlankIsTrimmedLeft(t);
    if TrimLeft(t) != [] && TrimRight(TrimLeft(t)) == [] {
      TrimmedRightBegins(TrimLeft(t));
    }
  }

  /** A newline is white space of its own, and no part of any other. */
  lemma {:induction false} BlankNewline(body: Text)
    ensures Blank(body + [NEWLINE]) <==> Blank(body)
  {
    if body == [] {
      assert body + [NEWLINE] == [NEWLINE];
      assert [NEWLINE][1..] == [];
    } else {
      var n := SpaceAt(body);
      assert SpaceAt(body + [NEWLINE]) == n;
      if n > 0 {
        BlankNewline(body[n..]);
        assert (body + [NEWLINE])[n..] == body[n..] + [NEWLINE];
      }
    }
  }

  // A file as lines.

  function Segments(file: Text): (r: seq<Text>)
    ensures r != []
  {
    Split(NEWLINE, file)
  }

  /** The lines a newline ends. */
  function Lines(file: Text): seq<Text> {
    var all := Segments(file);
    all[..|all| - 1]
  }

  /** What follows the last newline. */
  function Tail(file: Text): Text {
    var all := Segments(file);
    all[|all| - 1]
  }

  lemma NextLine(t: Text)
    ensures var line := FirstLine(t);
            if Terminated(line) then Segments(t) == [line[..|line| - 1]] + Segments(t[|line|..])
            else line == t && Segments(t) == [t]
  {
    var line := FirstLine(t);
    FirstLineEnds(t);
    if Terminated(line) {
      var body, rest := line[..|line| - 1], t[|line|..];
      assert t == body + [NEWLINE] + rest;
      SplitAtSep(NEWLINE, body, rest);
    } else {
      SplitOne(NEWLINE, t);
    }
  }

  lemma {:induction false} FirstLineEnds(t: Text)
    ensures var line := FirstLine(t);
            if Terminated(line) then NEWLINE !in line[..|line| - 1] else line == t && NEWLINE !in t
  {
    if t != [] && t[0] != NEWLINE {
      FirstLineEnds(t[1..]);
      var line, more := FirstLine(t), FirstLine(t[1..]);
      assert t == [t[0]] + t[1..];
      if more != [] {
        assert line[..|line| - 1] == [t[0]] + more[..|more| - 1];
      }
    }
  }

  /** The batches among complete lines: all of them but the header, blank ones aside. */
  function Count(lines: seq<Text>): nat {
    if lines == [] then 0
    else Count(lines[..|lines| - 1]) + if |lines| > 1 && !Blank(lines[|lines| - 1]) then 1 else 0
  }

  datatype Scan = Counted(batches: nat) | TornTail(batches: nat) | LineTooLong

  ghost predicate TooLong(file: Text) {
    (exists line :: line in Lines(file) && |line| + 1 > MAX_LINE_BYTES) || |Tail(file)| > MAX_LINE_BYTES
  }

  /** classifyLine */
  method ClassifyLine(line: Text) returns (counts: bool, torn: bool)
    ensures counts <==> Terminated(line) && !Blank(line)
    ensures torn <==> !Terminated(line) && !Blank(line)
  {
    if |line| == 0 {
      return false, false;
    }
    BlankTrims(line);
    if TrimSpace(line) == [] {
      return false, false;
    }
    if line[|line| - 1] != NEWLINE {
      return false, true;
    }
    return true, false;
  }

  lemma BlankBody(line: Text)
    requires Terminated(line)
    ensures Blank(line) <==> Blank(line[..|line| - 1])
  {
    assert line == line[..|line| - 1] + [NEWLINE];
    BlankNewline(line[..|line| - 1]);
  }

  lemma CountNext(done: seq<Text>, body: Text)
    ensures Count(done + [body]) == Count(done) + if done != [] && !Blank(body) then 1 else 0
  {
    assert (done + [body])[..|done|] == done;
  }

  /** Where the scan stands: the lines read and what is unread. */
  ghost predicate Scanned(file: Text, done: seq<Text>, unread: Text) {
    Segments(file) == done + Segments(unread) && forall line :: line in done ==> |line| + 1 <= MAX_LINE_BYTES
  }

  lemma OneLineMore(file: Text, done: seq<Text>, body: Text, rest: seq<Text>)
    requires rest != [] && Segments(file) == done + ([body] + rest)
    requires (forall line :: line in done ==> |line| + 1 <= MAX_LINE_BYTES)
    ensures Segments(file) == (done + [body]) + rest
    ensures |body| + 1 > MAX_LINE_BYTES ==> TooLong(file)
    ensures |body| + 1 <= MAX_LINE_BYTES ==> forall line :: line in done + [body] ==> |line| + 1 <= MAX_LINE_BYTES
  {
    assert done + ([body] + rest) == (done + [body]) + rest;
    assert Lines(file)[|done|] == body;
    assert forall l :: l in done + [body] <==> l in done || l == body;
  }

  lemma LastSegment(file: Text, done: seq<Text>, tail: Text)
    requires Segments(file) == done + [tail]
    ensures Lines(file) == done && Tail(file) == tail
  {
  }

  lemma ScanEnds(file: Text, done: seq<Text>, unread: Text)
    requires Scanned(file, done, unread) && !Terminated(FirstLine(unread))
    ensures FirstLine(unread) == unread && Lines(file) == done && Tail(file) == unread
  {
    NextLine(unread);
    LastSegment(file, done, unread);
  }

  lemma ScanGoesOn(file: Text, done: seq<Text>, unread: Text)
    requires Scanned(file, done, unread) && Terminated(FirstLine(unread))
    ensures var line := FirstLine(unread);
            if |line| > MAX_LINE_BYTES then TooLong(file) else Scanned(file, done + [line[..|line| - 1]], unread[|line|..])
  {
    var line := FirstLine(unread);
    NextLine(unread);
    OneLineMore(file, done, line[..|line| - 1], Segments(unread[|line|..]));
  }

  /** The scan's state: where it stands, what it counted, whether it met a line yet. */
  ghost predicate Counting(file: Text, done: seq<Text>, unread: Text, batches: nat, first: bool) {
    Scanned(file, done, unread) && batches == Count(done) && (first <==> done == [])
  }

  lemma CountingNext(file: Text, done: seq<Text>, unread: Text, batches: nat, first: bool)
    requires Counting(file, done, unread, batches, first) && |FirstLine(unread)| <= MAX_LINE_BYTES
    requires Terminated(FirstLine(unread))
    ensures var line := FirstLine(unread);
            Counting(file, done + [line[..|line| - 1]], unread[|line|..],
                     if !Blank(line) && !first then batches + 1 else batches, false)
  {
    var line := FirstLine(unread);
    ScanGoesOn(file, done, unread);
    BlankBody(line);
    CountNext(done, line[..|line| - 1]);
  }

  lemma CountingEnds(file: Text, done: seq<Text>, unread: Text, batches: nat, first: bool)
    requires Counting(file, done, unread, batches, first)
    ensures |FirstLine(unread)| > MAX_LINE_BYTES ==> TooLong(file)
    ensures |FirstLine(unread)| <= MAX_LINE_BYTES && !Terminated(FirstLine(unread)) ==>
              !TooLong(file) && Tail(file) == FirstLine(unread) && batches == Count(Lines(file))
  {
    if Terminated(FirstLine(unread)) {
      ScanGoesOn(file, done, unread);
    } else {
      ScanEnds(file, done, unread);
    }
  }

  lemma CountingStarts(file: Text)
    ensures Counting(file, [], file, 0, true)
  {
    assert [] + Segments(file) == Segments(file);
  }

  /** batchLines, through a buffer of any size. */
  method BatchLines(file: Text, bufferSize: nat) returns (r: Scan)
    requires bufferSize > 0
    ensures r == LineTooLong <==> TooLong(file)
    ensures !TooLong(file) ==> r == if Blank(Tail(file)) then Counted(Count(Lines(file))) else TornTail(Count(Lines(file)))
  {
    var br := new Reader(file, bufferSize);
    var batches: nat, first := 0, true;
    ghost var done: seq<Text> := [];
    CountingStarts(file);
    while true
      invariant Counting(file, done, br.unread, batches, first)
      decreases |br.unread|
    {
      ghost var before := br.unread;
      CountingEnds(file, done, before, batches, first);
      var line, eof := br.ReadCappedLine(MAX_LINE_BYTES);
      if line.None? {
        return LineTooLong;
      }
      var counts, torn := ClassifyLine(line.value);
      if torn {
        return TornTail(batches);
      }
      if !eof {
        CountingNext(file, done, before, batches, first);
      }
      if counts && !first {
        batches := batches + 1;
      }
      if |line.value| > 0 {
        first := false;
      }
      if eof {
        return Counted(batches);
      }
      done := done + [line.value[..|line.value| - 1]];
      assert br.unread == before[|line.value|..];
    }
  }
}

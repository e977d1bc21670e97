/** adapters/couchdb/ops.go, replayScript: the loop that posts a couchbackup file, and
    what makes its count the one taken beforehand. */
module CouchReplay {
  import opened Bytes
  import opened Ordering
  import opened Paths
  import opened CouchBatches

  /** What the shell's read makes of a line: everything but NUL bytes. */
  function ShellLine(line: Text): Text {
    if line == [] then []
    else ShellLine(line[..|line| - 1]) + if line[|line| - 1] == NUL then [] else [line[|line| - 1]]
  }

  /** The lines the loop does not skip as empty. */
  function NonEmpty(lines: seq<Text>): seq<Text> {
    if lines == [] then []
    else
      var line := ShellLine(lines[|lines| - 1]);
      NonEmpty(lines[..|lines| - 1]) + if line == [] then [] else [line]
  }

  /** Every batch of the file, in order: the first non-empty line is the header. */
  function Batches(lines: seq<Text>): seq<Text> {
    var found := NonEmpty(lines);
    if found == [] then [] else found[1..]
  }

  function Shown(line: Text): seq<Text> {
    if ShellLine(line) == [] then [] else [ShellLine(line)]
  }

  lemma NonEmptySnoc(lines: seq<Text>, last: Text)
    ensures NonEmpty(lines + [last]) == NonEmpty(lines) + Shown(last)
  {
    assert (lines + [last])[..|lines|] == lines;
  }

  lemma NonEmptyFrontNext(first: Text, init: seq<Text>, last: Text)
    requires NonEmpty([first] + init) == Shown(first) + NonEmpty(init)
    ensures NonEmpty([first] + (init + [last])) == Shown(first) + NonEmpty(init + [last])
  {
    ConcatAssociates([first], init, [last]);
    NonEmptySnoc([first] + init, last);
    NonEmptySnoc(init, last);
    ConcatAssociates(Shown(first), NonEmpty(init), Shown(last));
  }

  lemma {:induction false} NonEmptyFront(first: Text, rest: seq<Text>)
    ensures NonEmpty([first] + rest) == Shown(first) + NonEmpty(rest)
  {
    if rest == [] {
      NonEmptySnoc([], first);
      assert [] + [first] == [first] + rest;
    } else {
      var init, last := rest[..|rest| - 1], rest[|rest| - 1];
      assert rest == init + [last];
      NonEmptyFront(first, init);
      NonEmptyFrontNext(first, init, last);
    }
  }

  lemma NonEmptyFromFront(lines: seq<Text>)
    requires lines != []
    ensures NonEmpty(lines) == Shown(lines[0]) + NonEmpty(lines[1..])
  {
    NonEmptyFront(lines[0], lines[1..]);
    assert lines == [lines[0]] + lines[1..];
  }

  /** What the loop has still to post. */
  function ToPost(lines: seq<Text>, first: bool): seq<Text> {
    if first then Batches(lines) else NonEmpty(lines)
  }

  /** What was posted and what is left make up the batches. */
  ghost predicate Halfway(lines: seq<Text>, i: nat, first: bool, posted: seq<Text>) {
    i <= |lines| && posted + ToPost(lines[i..], first) == Batches(lines)
  }

  lemma ToPostStep(lines: seq<Text>, i: nat, first: bool)
    requires i < |lines|
    ensures var line, rest := ShellLine(lines[i]), lines[i + 1..];
            ToPost(lines[i..], first) ==
            if line == [] then ToPost(rest, first) else if first then ToPost(rest, false) else [line] + ToPost(rest, false)
  {
    var left, rest := lines[i..], lines[i + 1..];
    NonEmptyFromFront(left);
    assert left[1..] == rest && left[0] == lines[i];
    if first && ShellLine(lines[i]) != [] {
      assert NonEmpty(left)[1..] == NonEmpty(rest);
    }
  }

  lemma MoveOne(before: seq<Text>, line: Text, rest: seq<Text>, all: seq<Text>)
    requires before + ([line] + rest) == all
    ensures (before + [line]) + rest == all && |before| < |all| && before + [line] <= all
  {
    assert before + ([line] + rest) == (before + [line]) + rest;
  }

  lemma HalfwayStep(lines: seq<Text>, i: nat, first: bool, posted: seq<Text>)
    requires i < |lines| && Halfway(lines, i, first, posted)
    ensures var line := ShellLine(lines[i]);
            if line == [] then Halfway(lines, i + 1, first, posted)
            else if first then Halfway(lines, i + 1, false, posted)
            else Halfway(lines, i + 1, false, posted + [line]) && |posted| < |Batches(lines)| && posted + [line] <= Batches(lines)
  {
    ToPostStep(lines, i, first);
    var line, rest := ShellLine(lines[i]), ToPost(lines[i + 1..], false);
    if line != [] && !first {
      MoveOne(posted, line, rest, Batches(lines));
    }
  }

  lemma HalfwayEnds(lines: seq<Text>, first: bool, posted: seq<Text>)
    ensures Halfway(lines, 0, true, [])
    ensures Halfway(lines, |lines|, first, posted) ==> posted == Batches(lines)
  {
    assert lines[0..] == lines && lines[|lines|..] == [];
  }

  /** The loop: it stops behind the first post the engine refuses. */
  method PostAll(lines: seq<Text>, refused: set<nat>) returns (ok: bool, posted: seq<Text>)
    ensures posted <= Batches(lines)
    ensures ok <==> forall k :: 0 <= k < |Batches(lines)| ==> k !in refused
    ensures ok ==> posted == Batches(lines)
    ensures !ok ==> posted != [] && |posted| - 1 in refused && forall k :: 0 <= k < |posted| - 1 ==> k !in refused
  {
    posted := [];
    var n: nat, first := 0, true;
    HalfwayEnds(lines, first, posted);
    for i := 0 to |lines|
      invariant n == |posted| && Halfway(lines, i, first, posted)
      invariant forall k :: 0 <= k < n ==> k !in refused
    {
      HalfwayStep(lines, i, first, posted);
      var line := ShellLine(lines[i]);
      if |line| == 0 {
        continue;
      }
      if first {
        first := false;
        continue;
      }
      posted := posted + [line];
      if n in refused {
        return false, posted;
      }
      n := n + 1;
    }
    HalfwayEnds(lines, first, posted);
    return true, posted;
  }

  /** replayScript: created says whether the database could be made, refused which posts
      the engine would not take. An unterminated last line is never read. */
  method Replay(file: Text, want: nat, created: bool, refused: set<nat>) returns (exit: int, posted: seq<Text>)
    ensures posted <= Batches(Lines(file))
    ensures exit == 0 <==>
            created && |Batches(Lines(file))| == want && forall k :: 0 <= k < |Batches(Lines(file))| ==> k !in refused
    ensures exit == 0 ==> posted == Batches(Lines(file))
    ensures exit == 0 || exit == 1
    ensures !created ==> posted == []
    ensures created && posted != Batches(Lines(file)) ==>
              posted != [] && |posted| - 1 in refused && forall k :: 0 <= k < |posted| - 1 ==> k !in refused
  {
    posted := [];
    if !created {
      return 1, posted;
    }
    var ok;
    ok, posted := PostAll(Lines(file), refused);
    if !ok {
      return 1, posted;
    }
    if |posted| != want {
      return 1, posted;
    }
    return 0, posted;
  }

  /** To the shell this line is empty exactly when it is blank to the scan. */
  predicate SeenAlike(line: Text) {
    ShellLine(line) == [] <==> Blank(line)
  }

  /** The batches counted, as the shell sees them. */
  function CountedBatches(lines: seq<Text>): (r: seq<Text>)
    ensures |r| == Count(lines)
  {
    if lines == [] then []
    else
      var last := lines[|lines| - 1];
      CountedBatches(lines[..|lines| - 1]) + if |lines| > 1 && !Blank(last) then [ShellLine(last)] else []
  }

  /** Below a header, the batches posted are the batches counted when every line looks
      alike to both. */
  lemma {:induction false} PostsWhatWasCounted(lines: seq<Text>)
    requires lines != [] ==> ShellLine(lines[0]) != []
    requires forall i :: 1 <= i < |lines| ==> SeenAlike(lines[i])
    ensures Batches(lines) == CountedBatches(lines)
    ensures NonEmpty(lines) == [] <==> lines == []
  {
    if lines != [] {
      var init := lines[..|lines| - 1];
      assert forall i :: 0 <= i < |init| ==> init[i] == lines[i];
      PostsWhatWasCounted(init);
      assert |lines| > 1 ==> SeenAlike(lines[|lines| - 1]);
    }
  }

  lemma ShellSnoc(line: Text, last: Byte)
    ensures ShellLine(line + [last]) == ShellLine(line) + if last == NUL then [] else [last]
  {
    assert (line + [last])[..|line|] == line;
  }

  lemma {:induction false} NoNulIsKept(line: Text)
    requires NUL !in line
    ensures ShellLine(line) == line
  {
    if line != [] {
      var init, last := line[..|line| - 1], line[|line| - 1];
      assert line == init + [last];
      NoNulIsKept(init);
      ShellSnoc(init, last);
    }
  }

  /** Without NUL bytes the loop posts no fewer batches than were counted, and as many
      exactly when no line below the header is blank without being empty. */
  lemma {:induction false} PostsNoFewer(lines: seq<Text>)
    requires lines != [] ==> lines[0] != []
    requires forall i :: 0 <= i < |lines| ==> NUL !in lines[i]
    ensures |Batches(lines)| >= Count(lines)
    ensures |Batches(lines)| == Count(lines) <==> forall i :: 1 <= i < |lines| && Blank(lines[i]) ==> lines[i] == []
    ensures NonEmpty(lines) == [] <==> lines == []
  {
    if lines != [] {
      var init, last := lines[..|lines| - 1], lines[|lines| - 1];
      assert forall i :: 0 <= i < |init| ==> init[i] == lines[i];
      PostsNoFewer(init);
      NoNulIsKept(last);
      assert Blank([]);
    }
  }

  /** The lines below the header that are posted without being counted. */
  function Uncounted(lines: seq<Text>): nat {
    if lines == [] then 0
    else
      var last := lines[|lines| - 1];
      Uncounted(lines[..|lines| - 1]) + if |lines| > 1 && ShellLine(last) != [] && Blank(last) then 1 else 0
  }

  /** Those that are counted without being posted: NUL bytes, which the shell drops, and
      nothing else. */
  function Unposted(lines: seq<Text>): nat {
    if lines == [] then 0
    else
      var last := lines[|lines| - 1];
      Unposted(lines[..|lines| - 1]) + if |lines| > 1 && ShellLine(last) == [] && !Blank(last) then 1 else 0
  }

  /** How far the two counts are apart, whatever bytes the lines hold. */
  lemma {:induction false} CountsApart(lines: seq<Text>)
    requires lines != [] ==> ShellLine(lines[0]) != []
    ensures |Batches(lines)| + Unposted(lines) == Count(lines) + Uncounted(lines)
    ensures NonEmpty(lines) == [] <==> lines == []
  {
    if lines != [] {
      var init := lines[..|lines| - 1];
      assert init != [] ==> init[0] == lines[0];
      CountsApart(init);
    }
  }

  // What the scan and the loop owe each other.

  const OPEN_BRACE: Byte := 123
  const TOOL_NAME := Ascii("\"@cloudant/couchbackup\"")
  const HEAD_MAX: nat := 4096

  predicate Contains(t: Text, part: Text) {
    exists i :: 0 <= i <= |t| && HasPrefix(t[i..], part)
  }

  function Head(file: Text): Text {
    if |file| <= HEAD_MAX then file else file[..HEAD_MAX]
  }

  /** hasBackupSignature */
  predicate HasSignature(head: Text) {
    var line := Segments(head)[0];
    HasPrefix(TrimSpace(line), [OPEN_BRACE]) && Contains(line, TOOL_NAME)
  }

  lemma {:induction false} TrimmedLeftBehind(t: Text) returns (k: nat)
    ensures k <= |t| && Blank(t[..k]) && TrimLeft(t) == t[k..]
  {
    var n := SpaceAt(t);
    if n == 0 {
      k := 0;
    } else {
      var more := TrimmedLeftBehind(t[n..]);
      k := n + more;
      assert t[..k][n..] == t[n..][..more];
      assert SpaceAt(t[..k]) == n;
    }
  }

  lemma {:induction false} TrimsUpTo(t: Text, k: nat)
    requires k <= |t| && Blank(t[..k]) && SpaceAt(t[k..]) == 0
    ensures TrimLeft(t) == t[k..]
  {
    if k > 0 {
      var n := SpaceAt(t[..k]);
      assert t == t[..k] + t[k..];
      SpaceStays(t[..k], t[k..]);
      assert t[n..][..k - n] == t[..k][n..];
      assert t[n..][k - n..] == t[k..];
      TrimsUpTo(t[n..], k - n);
    }
  }

  lemma BraceIsNoSpace(t: Text)
    requires t != [] && t[0] == OPEN_BRACE
    ensures SpaceAt(t) == 0 && HasPrefix(TrimRight(t), [OPEN_BRACE])
  {
    if TrimRight(t) == [] {
      TrimmedRightBegins(t);
    } else {
      assert TrimRight(t)[0] == t[0];
    }
  }

  lemma OpensWithBrace(line: Text)
    ensures HasPrefix(TrimSpace(line), [OPEN_BRACE]) <==> exists k :: BraceAt(line, k)
  {
    if HasPrefix(TrimSpace(line), [OPEN_BRACE]) {
      var k := TrimmedLeftBehind(line);
      assert TrimSpace(line)[0] == TrimLeft(line)[0] == line[k];
      assert BraceAt(line, k);
    }
    if k :| BraceAt(line, k) {
      BraceIsNoSpace(line[k..]);
      TrimsUpTo(line, k);
    }
  }

  ghost predicate BraceAt(line: Text, k: int) {
    0 <= k < |line| && Blank(line[..k]) && line[k] == 123
  }

  /** A head is signed exactly when its first line opens, white space aside, with a brace
      and names the tool. */
  lemma SignedIff(head: Text)
    ensures HasSignature(head) <==>
            var line := Segments(head)[0];
            && (exists k :: BraceAt(line, k))
            && exists i :: 0 <= i <= |line| && Ascii("\"@cloudant/couchbackup\"") <= line[i..]
  {
    OpensWithBrace(Segments(head)[0]);
  }

  /** White space is made of ASCII white space and of bytes beyond ASCII. */
  lemma {:induction false} BlankBytes(t: Text, b: Byte)
    requires Blank(t) && b in t
    ensures IsSpace(b) || b >= 128
  {
    var n := SpaceAt(t);
    assert t == t[..n] + t[n..];
    if b in t[n..] {
      BlankBytes(t[n..], b);
    }
  }

  lemma {:induction false} FirstSegmentGrows(t: Text, k: nat)
    requires k <= |t|
    ensures Segments(t[..k])[0] <= Segments(t)[0]
  {
    if k > 0 {
      assert t[..k][1..] == t[1..][..k - 1];
      FirstSegmentGrows(t[1..], k - 1);
      if t[0] != NEWLINE {
        assert Segments(t)[0] == [t[0]] + Segments(t[1..])[0];
        assert Segments(t[..k])[0] == [t[0]] + Segments(t[1..][..k - 1])[0];
      }
    } else {
      assert Segments(t[..0])[0] == [];
    }
  }

  lemma {:induction false} ShellKeeps(line: Text, b: Byte)
    requires b in line && b != NUL
    ensures b in ShellLine(line)
  {
    if line[|line| - 1] != b {
      assert line == line[..|line| - 1] + [line[|line| - 1]];
      ShellKeeps(line[..|line| - 1], b);
    }
  }

  lemma BraceIsSeen(line: Text)
    requires OPEN_BRACE in line
    ensures !Blank(line) && ShellLine(line) != []
  {
    ShellKeeps(line, OPEN_BRACE);
    if Blank(line) {
      BlankBytes(line, OPEN_BRACE);
    }
  }

  lemma SignedHasBrace(head: Text)
    requires HasSignature(head)
    ensures OPEN_BRACE in Segments(head)[0]
  {
    var line := Segments(head)[0];
    assert TrimSpace(line)[0] == OPEN_BRACE;
    TrimmedIsIn(line, OPEN_BRACE);
  }

  /** A file that opens with the header line opens with a line neither side skips. */
  lemma HeaderIsSeen(file: Text)
    requires HasSignature(Head(file))
    ensures !Blank(Segments(file)[0]) && ShellLine(Segments(file)[0]) != []
  {
    var line, first := Segments(Head(file))[0], Segments(file)[0];
    if |file| > HEAD_MAX {
      FirstSegmentGrows(file, HEAD_MAX);
    }
    SignedHasBrace(Head(file));
    assert OPEN_BRACE in first by {
      var i :| 0 <= i < |line| && line[i] == OPEN_BRACE;
      assert first[i] == line[i];
    }
    BraceIsSeen(first);
  }

  /** The restore is held to the count taken before it. In any file with the header line
      the loop posts as many batches as the scan counted exactly when as many lines are
      posted uncounted as are counted unposted; it posts the very batches counted, in
      order, when every line below the header is empty to the shell exactly where it is
      blank to the scan; and in a file without NUL bytes the counts agree exactly when no
      complete line below the header is blank without being empty. */
  lemma RestoreIsHeldToTheCount(file: Text, batches: nat)
    requires HasSignature(Head(file)) && !TooLong(file)
    requires Blank(Tail(file)) && batches == Count(Lines(file)) // what BatchLines counted
    ensures |Batches(Lines(file))| == batches <==> Uncounted(Lines(file)) == Unposted(Lines(file))
    ensures (forall i :: 1 <= i < |Lines(file)| ==> SeenAlike(Lines(file)[i])) ==>
              Batches(Lines(file)) == CountedBatches(Lines(file)) && |Batches(Lines(file))| == batches
    ensures (forall i :: 0 <= i < |Lines(file)| ==> NUL !in Lines(file)[i]) ==>
              (|Batches(Lines(file))| == batches <==>
               forall i :: 1 <= i < |Lines(file)| && Blank(Lines(file)[i]) ==> Lines(file)[i] == [])
  {
    HeaderIsSeen(file);
    var lines := Lines(file);
    assert lines != [] ==> lines[0] == Segments(file)[0];
    assert ShellLine([]) == [];
    CountsApart(lines);
    if forall i :: 1 <= i < |lines| ==> SeenAlike(lines[i]) {
      PostsWhatWasCounted(lines);
    }
    if forall i :: 0 <= i < |lines| ==> NUL !in lines[i] {
      PostsNoFewer(lines);
    }
  }

  lemma TwoLines(header: Text, line: Text)
    requires NEWLINE !in header && NEWLINE !in line
    ensures Lines(header + [NEWLINE] + (line + [NEWLINE])) == [header, line]
  {
    var none: Text := [];
    assert line + [NEWLINE] == line + [NEWLINE] + none;
    SplitAtSep(NEWLINE, header, line + [NEWLINE]);
    SplitAtSep(NEWLINE, line, none);
    assert Segments(header + [NEWLINE] + (line + [NEWLINE])) == [header, line, none];
  }

  /** A line of white space below the header makes the loop post a batch nobody counted. */
  lemma BlankLineIsPostedUncounted(header: Text, blank: Text)
    requires NEWLINE !in header && NUL !in header && header != []
    requires NEWLINE !in blank && blank != [] && Blank(blank)
    ensures var lines := Lines(header + [NEWLINE] + (blank + [NEWLINE]));
            Count(lines) == 0 && |Batches(lines)| == 1
  {
    TwoLines(header, blank);
    var lines := [header, blank];
    assert Count(lines[..1]) == 0;
    if NUL in blank {
      BlankBytes(blank, NUL);
    }
    NoNulIsKept(header);
    NoNulIsKept(blank);
    NonEmptyFromFront(lines);
    assert lines[1..] == [blank];
    NonEmptyFromFront([blank]);
  }

  /** One such line is a space, another a no-break space, U+00A0. */
  lemma OneSpaceIsBlank()
    ensures var space: Text, noBreak: Text := [32], [0xC2, 0xA0]; Blank(space) && Blank(noBreak)
  {
    assert [32][1..] == [] && [0xC2, 0xA0][2..] == [];
  }
}

/** Separated text: slash-separated names, newline-separated lines. */
module Paths {
  import opened Bytes

  /** strings.Split(t, string(sep)) */
  function Split(sep: Byte, t: Text): (segments: seq<Text>)
    ensures segments != []
  {
    if t == [] then [[]]
    else
      var rest := Split(sep, t[1..]);
      if t[0] == sep then [[]] + rest else [[t[0]] + rest[0]] + rest[1..]
  }

  /** strings.Join(segments, string(sep)) */
  function Join(sep: Byte, segments: seq<Text>): Text {
    if segments == [] then []
    else if |segments| == 1 then segments[0]
    else segments[0] + [sep] + Join(sep, segments[1..])
  }

  lemma {:induction false} SplitOne(sep: Byte, s: Text)
    requires sep !in s
    ensures Split(sep, s) == [s]
  {
    if s != [] {
      SplitOne(sep, s[1..]);
      assert [s[0]] + s[1..] == s;
    }
  }

  lemma {:induction false} SplitAtSep(sep: Byte, s: Text, rest: Text)
    requires sep !in s
    ensures Split(sep, s + [sep] + rest) == [s] + Split(sep, rest)
  {
    var t := s + [sep] + rest;
    if s == [] {
      assert t[1..] == rest;
    } else {
      assert t[1..] == s[1..] + [sep] + rest;
      SplitAtSep(sep, s[1..], rest);
      assert [s[0]] + s[1..] == s;
    }
  }

  lemma {:induction false} SplitJoin(sep: Byte, segments: seq<Text>)
    requires segments != []
    requires forall s :: s in segments ==> sep !in s
    ensures Split(sep, Join(sep, segments)) == segments
  {
    if |segments| == 1 {
      SplitOne(sep, segments[0]);
    } else {
      SplitAtSep(sep, segments[0], Join(sep, segments[1..]));
      SplitJoin(sep, segments[1..]);
    }
  }

  /** A joined path ends with its last segment. */
  lemma {:induction false} JoinEnds(sep: Byte, segments: seq<Text>)
    requires segments != [] && segments[|segments| - 1] != []
    ensures Join(sep, segments) != []
    ensures Join(sep, segments)[|Join(sep, segments)| - 1] == segments[|segments| - 1][|segments[|segments| - 1]| - 1]
  {
    if |segments| > 1 {
      assert segments[1..][|segments| - 2] == segments[|segments| - 1];
      JoinEnds(sep, segments[1..]);
    }
  }

  /** A joined path of several segments begins with its first and a separator. */
  lemma JoinBegins(sep: Byte, segments: seq<Text>)
    requires |segments| > 1
    ensures |Join(sep, segments)| > |segments[0]|
    ensures Join(sep, segments)[..|segments[0]|] == segments[0] && Join(sep, segments)[|segments[0]|] == sep
  {
  }
}

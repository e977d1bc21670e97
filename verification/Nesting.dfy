/** Nested loops that append: where an element of the inner sequences ends up. */
module Nesting {
  import opened Ordering

  function Flatten<T>(ss: seq<seq<T>>): seq<T> {
    if ss == [] then [] else Flatten(ss[..|ss| - 1]) + ss[|ss| - 1]
  }

  /** Where the i-th of the sequences begins. */
  function Start<T>(ss: seq<seq<T>>, i: nat): nat
    requires i <= |ss|
  {
    |Flatten(ss[..i])|
  }

  lemma StartNext<T>(ss: seq<seq<T>>, i: nat)
    requires i < |ss|
    ensures Flatten(ss[..i + 1]) == Flatten(ss[..i]) + ss[i]
    ensures Start(ss, i + 1) == Start(ss, i) + |ss[i]|
  {
    assert ss[..i + 1][..i] == ss[..i];
  }

  /** One more round of a loop that appends what f makes of each element. */
  lemma FlattenMapNext<S, T>(f: S -> seq<T>, s: seq<S>, i: nat)
    requires i < |s|
    ensures Flatten(Map(f, s[..i + 1])) == Flatten(Map(f, s[..i])) + f(s[i])
  {
    assert s[..i + 1][..i] == s[..i];
    MapSnoc(f, s[..i + 1]);
  }

  lemma {:induction false} FlattenGrows<T>(ss: seq<seq<T>>, i: nat, j: nat)
    requires i <= j <= |ss|
    ensures Flatten(ss[..i]) <= Flatten(ss[..j])
    ensures i < j ==> Start(ss, i) + |ss[i]| <= Start(ss, j)
    decreases j - i
  {
    if i < j {
      StartNext(ss, i);
      FlattenGrows(ss, i + 1, j);
    }
  }

  /** The x-th element of the i-th sequence. */
  lemma FlattenAt<T>(ss: seq<seq<T>>, i: nat, x: nat)
    requires i < |ss| && x < |ss[i]|
    ensures Start(ss, i) + x < |Flatten(ss)| && Flatten(ss)[Start(ss, i) + x] == ss[i][x]
  {
    StartNext(ss, i);
    FlattenGrows(ss, i + 1, |ss|);
    assert ss[..|ss|] == ss;
  }

  /** Every element comes from one of them. */
  lemma {:induction false} FlattenFrom<T>(ss: seq<seq<T>>, y: nat) returns (i: nat, x: nat)
    requires y < |Flatten(ss)|
    ensures i < |ss| && x < |ss[i]| && y == Start(ss, i) + x
  {
    var n := |ss| - 1;
    if y < |Flatten(ss[..n])| {
      i, x := FlattenFrom(ss[..n], y);
      assert ss[..n][..i] == ss[..i];
    } else {
      i, x := n, y - |Flatten(ss[..n])|;
    }
  }
}

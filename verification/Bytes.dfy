/** Go strings: immutable byte sequences, compared bytewise. */
module Bytes {
  type Byte = x: int | 0 <= x < 256
  type Text = seq<Byte>

  const NUL: Byte := 0
  const NEWLINE: Byte := 10
  const DOT: Byte := 46
  const SLASH: Byte := 47
  const UPPER_L: Byte := 76

  function AsciiByte(c: char): Byte {
    if c as int < 128 then c as int else 63
  }

  /** The bytes of an ASCII literal. */
  function Ascii(s: string): (t: Text)
    ensures |t| == |s|
    ensures forall i :: 0 <= i < |s| ==> t[i] == AsciiByte(s[i])
  {
    seq(|s|, i requires 0 <= i < |s| => AsciiByte(s[i]))
  }

  predicate HasSuffix(t: Text, suffix: Text) {
    |suffix| <= |t| && t[|t| - |suffix|..] == suffix
  }

  /** strings.TrimSuffix */
  function TrimSuffix(t: Text, suffix: Text): (r: Text)
    ensures HasSuffix(t, suffix) ==> r + suffix == t
    ensures !HasSuffix(t, suffix) ==> r == t
  {
    if HasSuffix(t, suffix) then t[..|t| - |suffix|] else t
  }

  predicate HasPrefix(t: Text, prefix: Text) {
    prefix <= t
  }

  /** strings.TrimPrefix */
  function TrimPrefix(t: Text, prefix: Text): (r: Text)
    ensures HasPrefix(t, prefix) ==> prefix + r == t
    ensures !HasPrefix(t, prefix) ==> r == t
  {
    if HasPrefix(t, prefix) then t[|prefix|..] else t
  }

  /** The ASCII white space of the unicode package. */
  predicate IsSpace(b: Byte) {
    9 <= b <= 13 || b == 32
  }

  /** Its white space of three bytes in UTF-8: U+1680, U+2000 to U+200A, U+2028, U+2029,
      U+202F, U+205F and U+3000. */
  predicate IsWideSpace(a: Byte, b: Byte, c: Byte) {
    || (a == 0xE1 && b == 0x9A && c == 0x80)
    || (a == 0xE2 && b == 0x80 && (0x80 <= c <= 0x8A || 0xA8 <= c <= 0xA9 || c == 0xAF))
    || (a == 0xE2 && b == 0x81 && c == 0x9F)
    || (a == 0xE3 && b == 0x80 && c == 0x80)
  }

  /** The bytes of the white space a text begins with, none if it does not; U+0085 and
      U+00A0 take two. */
  function SpaceAt(t: Text): (n: nat)
    ensures n <= |t|
  {
    if t != [] && IsSpace(t[0]) then 1
    else if |t| >= 2 && t[0] == 0xC2 && (t[1] == 0x85 || t[1] == 0xA0) then 2
    else if |t| >= 3 && IsWideSpace(t[0], t[1], t[2]) then 3
    else 0
  }

  /** The bytes of the white space a text ends with. */
  function SpaceBefore(t: Text): (n: nat)
    ensures n <= |t|
  {
    if t != [] && IsSpace(t[|t| - 1]) then 1
    else if |t| >= 2 && SpaceAt(t[|t| - 2..]) == 2 then 2
    else if |t| >= 3 && SpaceAt(t[|t| - 3..]) == 3 then 3
    else 0
  }

  function TrimLeft(t: Text): (r: Text)
    ensures SpaceAt(r) == 0
    ensures |r| <= |t|
  {
    if SpaceAt(t) == 0 then t else TrimLeft(t[SpaceAt(t)..])
  }

  function TrimRight(t: Text): (r: Text)
    ensures SpaceBefore(r) == 0
    ensures r <= t
  {
    if SpaceBefore(t) == 0 then t else TrimRight(t[..|t| - SpaceBefore(t)])
  }

  /** strings.TrimSpace: what it leaves has no white space at either end. */
  function TrimSpace(t: Text): (r: Text)
    ensures SpaceAt(r) == 0 && SpaceBefore(r) == 0
  {
    TrimRight(TrimLeft(t))
  }

  lemma {:induction false} TrimmedLeftIsIn(t: Text, b: Byte)
    requires b in TrimLeft(t)
    ensures b in t
  {
    if SpaceAt(t) > 0 {
      TrimmedLeftIsIn(t[SpaceAt(t)..], b);
    }
  }

  lemma TrimmedIsIn(t: Text, b: Byte)
    requires b in TrimSpace(t)
    ensures b in t
  {
    TrimmedLeftIsIn(t, b);
  }

  predicate Padding(t: Text) {
    forall i :: 0 <= i < |t| ==> IsSpace(t[i])
  }

  lemma TrimLeftOne(b: Byte, t: Text)
    requires IsSpace(b)
    ensures TrimLeft([b] + t) == TrimLeft(t)
  {
    assert ([b] + t)[1..] == t;
  }

  lemma TrimRightOne(t: Text, b: Byte)
    requires IsSpace(b)
    ensures TrimRight(t + [b]) == TrimRight(t)
  {
    assert (t + [b])[..|t|] == t;
  }

  lemma {:induction false} TrimPaddingBefore(before: Text, t: Text)
    requires Padding(before)
    ensures TrimLeft(before + t) == TrimLeft(t)
  {
    if before == [] {
      assert before + t == t;
    } else {
      var first, rest := before[0], before[1..];
      assert before + t == [first] + (rest + t);
      TrimLeftOne(first, rest + t);
      TrimPaddingBefore(rest, t);
    }
  }

  lemma {:induction false} TrimPaddingBehind(t: Text, after: Text)
    requires Padding(after)
    ensures TrimRight(t + after) == TrimRight(t)
  {
    if after == [] {
      assert t + after == t;
    } else {
      var init, last := after[..|after| - 1], after[|after| - 1];
      assert t + after == (t + init) + [last];
      TrimRightOne(t + init, last);
      TrimPaddingBehind(t, init);
    }
  }

  lemma NoSpaceWithPadding(t: Text, after: Text)
    requires t != [] && SpaceAt(t) == 0 && (after == [] || after[0] < 128)
    ensures SpaceAt(t + after) == 0
  {
    var all := t + after;
    assert all[0] == t[0];
    assert |t| > 1 ==> all[1] == t[1];
    assert |t| > 2 ==> all[2] == t[2];
    assert |t| < 3 && after != [] ==> all[|t|] == after[0];
  }

  /** ASCII white space around text is trimmed off, whatever is inside it. */
  lemma TrimPadding(before: Text, t: Text, after: Text)
    requires Padding(before) && Padding(after)
    requires t != [] && SpaceAt(t) == 0 && SpaceBefore(t) == 0
    ensures TrimSpace(before + (t + after)) == t
  {
    var padded := t + after;
    NoSpaceWithPadding(t, after);
    TrimPaddingBefore(before, padded);
    assert TrimLeft(before + padded) == padded;
    TrimPaddingBehind(t, after);
  }

  /** The white space of the unicode package, by code point. */
  predicate SpacePoint(point: int) {
    || 9 <= point <= 13 || point == 32 || point == 0x85 || point == 0xA0 || point == 0x1680
    || 0x2000 <= point <= 0x200A || point == 0x2028 || point == 0x2029 || point == 0x202F || point == 0x205F
    || point == 0x3000
  }

  /** A character of one, two or three bytes in UTF-8 is white space exactly when its code
      point is. */
  lemma SpacesByPoint(t: Text)
    ensures t != [] && t[0] < 0x80 ==> SpaceAt(t) == if SpacePoint(t[0]) then 1 else 0
    ensures |t| > 1 && 0xC2 <= t[0] < 0xE0 && 0x80 <= t[1] < 0xC0 ==>
              SpaceAt(t) == if SpacePoint((t[0] as int - 0xC0) * 0x40 + (t[1] as int - 0x80)) then 2 else 0
    ensures |t| > 2 && 0xE1 <= t[0] < 0xF0 && 0x80 <= t[1] < 0xC0 && 0x80 <= t[2] < 0xC0 ==>
              SpaceAt(t) == if SpacePoint((t[0] as int - 0xE0) * 0x1000 + (t[1] as int - 0x80) * 0x40 + (t[2] as int - 0x80)) then 3 else 0
  {
  }

  lemma SuffixOfConcat(p: Text, suffix: Text)
    ensures HasSuffix(p + suffix, suffix) && TrimSuffix(p + suffix, suffix) == p
  {
    assert (p + suffix)[|p|..] == suffix;
    assert (p + suffix)[..|p|] == p;
  }

  /** Bytewise lexicographic order, Go's `<` on strings. */
  predicate Less(a: Text, b: Text) {
    if b == [] then false
    else if a == [] then true
    else if a[0] != b[0] then a[0] < b[0]
    else Less(a[1..], b[1..])
  }

  /** Text is less at the first byte that differs, or when it ends before one does. */
  lemma {:induction false} LessAt(a: Text, b: Text)
    ensures Less(a, b) <==> a < b || exists k :: DiffersAt(a, b, k) && a[k] < b[k]
  {
    if a != [] && b != [] && a[0] == b[0] {
      LessAt(a[1..], b[1..]);
      assert a == [a[0]] + a[1..] && b == [b[0]] + b[1..];
      if k :| DiffersAt(a[1..], b[1..], k) && a[1..][k] < b[1..][k] {
        assert forall i :: 1 <= i <= k ==> a[i] == a[1..][i - 1] && b[i] == b[1..][i - 1];
        assert DiffersAt(a, b, k + 1);
      }
      if k :| DiffersAt(a, b, k) && a[k] < b[k] {
        assert forall i :: 0 <= i < k ==> a[1..][i] == a[i + 1] && b[1..][i] == b[i + 1];
        assert DiffersAt(a[1..], b[1..], k - 1);
      }
    } else if a != [] && b != [] {
      assert DiffersAt(a, b, 0);
    }
  }

  ghost predicate DiffersAt(a: Text, b: Text, k: int) {
    0 <= k < |a| && k < |b| && a[k] != b[k] && forall i :: 0 <= i < k ==> a[i] == b[i]
  }

  lemma {:induction false} LessIrreflexive(a: Text)
    ensures !Less(a, a)
  {
    if a != [] { LessIrreflexive(a[1..]); }
  }

  lemma {:induction false} LessConnected(a: Text, b: Text)
    ensures a == b || Less(a, b) || Less(b, a)
  {
    if a != [] && b != [] && a[0] == b[0] {
      LessConnected(a[1..], b[1..]);
      assert a == [a[0]] + a[1..] && b == [b[0]] + b[1..];
    }
  }

  lemma {:induction false} LessTransitive(a: Text, b: Text, c: Text)
    requires Less(a, b) && Less(b, c)
    ensures Less(a, c)
  {
    if a != [] && a[0] == b[0] && b[0] == c[0] {
      LessTransitive(a[1..], b[1..], c[1..]);
    }
  }

  lemma LessAsymmetric(a: Text, b: Text)
    requires Less(a, b)
    ensures !Less(b, a)
  {
    if Less(b, a) {
      LessTransitive(a, b, a);
      LessIrreflexive(a);
    }
  }

  /** strconv.Itoa and the %d verb on a size: decimal digits, no sign, no
      leading zero. */
  function Decimal(n: nat): (t: Text)
    ensures t != []
    ensures forall i :: 0 <= i < |t| ==> 48 <= t[i] < 58
    ensures n > 0 ==> t[0] != 48
  {
    if n < 10 then [48 + n] else Decimal(n / 10) + [48 + n % 10]
  }

  /** The number a run of digits denotes. */
  function DecimalValue(t: Text): int {
    if t == [] then 0 else 10 * DecimalValue(t[..|t| - 1]) + (t[|t| - 1] as int - 48)
  }

  lemma {:induction false} DecimalRoundTrip(n: nat)
    ensures DecimalValue(Decimal(n)) == n
  {
    if n < 10 {
      assert Decimal(n)[..0] == [];
    } else {
      DecimalRoundTrip(n / 10);
      assert Decimal(n)[..|Decimal(n)| - 1] == Decimal(n / 10);
    }
  }
}

/** adapters/cassandra/source.go, hashEntry and dirChecksum: the bytes a tree feeds to
    the hash that names it. The hash itself is not modelled; what is proved is that
    different trees feed it different bytes. */
module HashStream {
  import opened Wrappers
  import opened Bytes

  datatype Hashed =
    | HashedFile(path: Text, content: Text)
    | HashedLink(path: Text, target: Text)

  /** A path of a file system: no NUL in it. */
  predicate Framable(e: Hashed) {
    NUL !in e.path && (e.HashedLink? ==> NUL !in e.target)
  }

  /** hashEntry's framing. */
  function Framed(e: Hashed): Text {
    match e
    case HashedFile(path, content) => path + [NUL] + (Decimal(|content|) + [NUL] + content)
    case HashedLink(path, target) => path + [NUL] + ([UPPER_L] + target + [NUL])
  }

  function Stream(entries: seq<Hashed>): Text {
    if entries == [] then [] else Framed(entries[0]) + Stream(entries[1..])
  }

  lemma {:induction false} StreamConcat(a: seq<Hashed>, b: seq<Hashed>)
    ensures Stream(a + b) == Stream(a) + Stream(b)
  {
    if a == [] {
      assert a + b == b;
    } else {
      assert (a + b)[1..] == a[1..] + b;
      StreamConcat(a[1..], b);
    }
  }

  // Reading a stream back.

  /** What is before the first NUL, and what is after it. */
  datatype Parts = Parts(before: Text, after: Text)

  function Cut(t: Text): (r: Option<Parts>)
    ensures r.Some? ==> |r.value.before| + |r.value.after| < |t|
  {
    if t == [] then None
    else if t[0] == NUL then Some(Parts([], t[1..]))
    else
      match Cut(t[1..])
      case None => None
      case Some(r) => Some(Parts([t[0]] + r.before, r.after))
  }

  lemma {:induction false} CutAt(before: Text, after: Text)
    requires NUL !in before
    ensures Cut(before + [NUL] + after) == Some(Parts(before, after))
  {
    var t := before + [NUL] + after;
    if before == [] {
      assert t[1..] == after;
    } else {
      assert t[1..] == before[1..] + [NUL] + after;
      CutAt(before[1..], after);
      assert [before[0]] + before[1..] == before;
    }
  }

  /** One entry and the rest of the stream. */
  datatype Read = Read(entry: Hashed, rest: Text)

  function ReadBody(path: Text, t: Text): (r: Option<Read>)
    ensures r.Some? ==> |r.value.rest| <= |t|
  {
    if t != [] && t[0] == UPPER_L then
      match Cut(t[1..])
      case None => None
      case Some(link) => Some(Read(HashedLink(path, link.before), link.after))
    else
      match Cut(t)
      case None => None
      case Some(sized) =>
        var size := DecimalValue(sized.before);
        if 0 <= size <= |sized.after| then Some(Read(HashedFile(path, sized.after[..size]), sized.after[size..])) else None
  }

  function ReadEntry(t: Text): (r: Option<Read>)
    ensures r.Some? ==> |r.value.rest| < |t|
  {
    match Cut(t)
    case None => None
    case Some(named) => ReadBody(named.before, named.after)
  }

  /** The decoder: the entries of a stream. */
  function Entries(t: Text): Option<seq<Hashed>>
    decreases |t|
  {
    if t == [] then Some([])
    else
      match ReadEntry(t)
      case None => None
      case Some(r) =>
        match Entries(r.rest)
        case None => None
        case Some(others) => Some([r.entry] + others)
  }

  lemma ReadBackLink(path: Text, target: Text, rest: Text)
    requires NUL !in target
    ensures ReadBody(path, [UPPER_L] + target + [NUL] + rest) == Some(Read(HashedLink(path, target), rest))
  {
    var t := [UPPER_L] + target + [NUL] + rest;
    assert t[1..] == target + [NUL] + rest;
    CutAt(target, rest);
  }

  lemma ReadBackFile(path: Text, content: Text, rest: Text)
    ensures ReadBody(path, Decimal(|content|) + [NUL] + (content + rest)) == Some(Read(HashedFile(path, content), rest))
  {
    var size := Decimal(|content|);
    assert size[0] != UPPER_L;
    assert NUL !in size;
    CutAt(size, content + rest);
    DecimalRoundTrip(|content|);
    assert (content + rest)[..|content|] == content && (content + rest)[|content|..] == rest;
  }

  lemma ReadBack(e: Hashed, rest: Text)
    requires Framable(e)
    ensures ReadEntry(Framed(e) + rest) == Some(Read(e, rest))
  {
    match e
    case HashedFile(path, content) =>
      assert Framed(e) + rest == path + [NUL] + (Decimal(|content|) + [NUL] + (content + rest));
      CutAt(path, Decimal(|content|) + [NUL] + (content + rest));
      ReadBackFile(path, content, rest);
    case HashedLink(path, target) =>
      assert Framed(e) + rest == path + [NUL] + ([UPPER_L] + target + [NUL] + rest);
      CutAt(path, [UPPER_L] + target + [NUL] + rest);
      ReadBackLink(path, target, rest);
  }

  lemma EntriesStep(t: Text, e: Hashed, rest: Text, others: seq<Hashed>)
    requires ReadEntry(t) == Some(Read(e, rest)) && Entries(rest) == Some(others)
    ensures Entries(t) == Some([e] + others)
  {
  }

  lemma StreamBegins(e: Hashed, rest: seq<Hashed>)
    ensures Stream([e] + rest) == Framed(e) + Stream(rest)
  {
    assert ([e] + rest)[1..] == rest;
  }

  lemma RoundTripStep(e: Hashed, rest: seq<Hashed>)
    requires Framable(e) && Entries(Stream(rest)) == Some(rest)
    ensures Entries(Stream([e] + rest)) == Some([e] + rest)
  {
    ReadBack(e, Stream(rest));
    EntriesStep(Framed(e) + Stream(rest), e, Stream(rest), rest);
    StreamBegins(e, rest);
  }

  lemma NothingRoundTrips()
    ensures Entries(Stream([])) == Some([])
  {
  }

  /** The decoder recovers every list of entries from its stream. */
  lemma {:induction false} StreamRoundTrip(entries: seq<Hashed>)
    requires forall i :: 0 <= i < |entries| ==> Framable(entries[i])
    ensures Entries(Stream(entries)) == Some(entries)
  {
    if entries == [] {
      NothingRoundTrips();
    } else {
      var e, rest := entries[0], entries[1..];
      assert entries == [e] + rest;
      StreamRoundTrip(rest);
      RoundTripStep(e, rest);
    }
  }

  /** Different lists of entries feed the hash different bytes. */
  lemma StreamInjective(a: seq<Hashed>, b: seq<Hashed>)
    requires forall i :: 0 <= i < |a| ==> Framable(a[i])
    requires forall i :: 0 <= i < |b| ==> Framable(b[i])
    requires Stream(a) == Stream(b)
    ensures a == b
  {
    StreamRoundTrip(a);
    StreamRoundTrip(b);
  }

  // The walk that feeds it.

  /** What filepath.WalkDir hands over, in its order. */
  datatype Walked =
    | WalkedFile(rel: Text, content: Text)
    | WalkedLink(rel: Text, target: Text)
    | WalkedOther(rel: Text)

  function NamedBy(w: Walked): seq<Hashed> {
    match w
    case WalkedFile(rel, content) => [HashedFile(rel, content)]
    case WalkedLink(rel, target) => [HashedLink(rel, target)]
    case WalkedOther(_) => []
  }

  /** What of a tree names it: its files and links, with their contents and targets. */
  function Named(walk: seq<Walked>): seq<Hashed> {
    if walk == [] then [] else Named(walk[..|walk| - 1]) + NamedBy(walk[|walk| - 1])
  }

  function ContentBytes(entries: seq<Hashed>): nat {
    if entries == [] then 0
    else
      ContentBytes(entries[..|entries| - 1]) +
      match entries[|entries| - 1]
      case HashedFile(_, content) => |content|
      case HashedLink(_, _) => 0
  }

  lemma OneMore(entries: seq<Hashed>, e: Hashed)
    ensures Stream(entries + [e]) == Stream(entries) + Framed(e)
    ensures ContentBytes(entries + [e]) == ContentBytes(entries) + if e.HashedFile? then |e.content| else 0
    ensures entries == [] ==> entries + [e] == [e]
  {
    StreamConcat(entries, [e]);
    assert [e][1..] == [];
    assert Stream([e]) == Framed(e);
    assert (entries + [e])[..|entries|] == entries;
  }

  datatype Measured = Measured(hashed: Text, sizeBytes: nat)

  predicate AnyFile(walk: seq<Walked>) {
    exists i :: 0 <= i < |walk| && walk[i].WalkedFile?
  }

  lemma AnyFileSnoc(walk: seq<Walked>, w: Walked)
    ensures AnyFile(walk + [w]) <==> AnyFile(walk) || w.WalkedFile?
  {
    if AnyFile(walk) {
      var i :| 0 <= i < |walk| && walk[i].WalkedFile?;
      assert (walk + [w])[i].WalkedFile?;
    }
    assert (walk + [w])[|walk|] == w;
  }

  /** The hash, with the running totals of hashEntry's caller. */
  class Hasher {
    var fed: Text
    var total: nat
    var files: nat

    constructor ()
      ensures fed == [] && total == 0 && files == 0
    {
      fed, total, files := [], 0, 0;
    }

    /** hashEntry */
    method HashEntry(w: Walked)
      modifies this
      ensures fed == old(fed) + Stream(NamedBy(w))
      ensures total == old(total) + ContentBytes(NamedBy(w))
      ensures files == old(files) + if w.WalkedFile? then 1 else 0
    {
      match w {
        case WalkedFile(rel, content) =>
          OneMore([], HashedFile(rel, content));
          total := total + |content|;
          files := files + 1;
          fed := fed + Framed(HashedFile(rel, content));
        case WalkedLink(rel, target) =>
          OneMore([], HashedLink(rel, target));
          fed := fed + Framed(HashedLink(rel, target));
        case WalkedOther(_) =>
      }
    }
  }

  lemma Feeds(fed: seq<Hashed>, w: Walked)
    ensures Stream(fed + NamedBy(w)) == Stream(fed) + Stream(NamedBy(w))
    ensures ContentBytes(fed + NamedBy(w)) == ContentBytes(fed) + ContentBytes(NamedBy(w))
  {
    StreamConcat(fed, NamedBy(w));
    if NamedBy(w) == [] {
      assert fed + [] == fed;
    } else {
      OneMore(fed, NamedBy(w)[0]);
      OneMore([], NamedBy(w)[0]);
    }
  }

  lemma OneMoreWalked(walk: seq<Walked>, i: nat)
    requires i < |walk|
    ensures Stream(Named(walk[..i + 1])) == Stream(Named(walk[..i])) + Stream(NamedBy(walk[i]))
    ensures ContentBytes(Named(walk[..i + 1])) == ContentBytes(Named(walk[..i])) + ContentBytes(NamedBy(walk[i]))
    ensures AnyFile(walk[..i + 1]) <==> AnyFile(walk[..i]) || walk[i].WalkedFile?
  {
    assert walk[..i + 1] == walk[..i] + [walk[i]];
    assert walk[..i + 1][..i] == walk[..i];
    AnyFileSnoc(walk[..i], walk[i]);
    Feeds(Named(walk[..i]), walk[i]);
  }

  /** dirChecksum: a tree without a file is refused. */
  method DirChecksum(walk: seq<Walked>) returns (r: Option<Measured>)
    ensures r.Some? <==> AnyFile(walk)
    ensures r.Some? ==> r.value == Measured(Stream(Named(walk)), ContentBytes(Named(walk)))
  {
    var h := new Hasher();
    for i := 0 to |walk|
      invariant h.fed == Stream(Named(walk[..i])) && h.total == ContentBytes(Named(walk[..i]))
      invariant h.files > 0 <==> AnyFile(walk[..i])
    {
      OneMoreWalked(walk, i);
      h.HashEntry(walk[i]);
    }
    assert walk[..|walk|] == walk;
    return if h.files == 0 then None else Some(Measured(h.fed, h.total));
  }

  lemma {:induction false} NamedFramable(walk: seq<Walked>)
    requires forall i :: 0 <= i < |walk| ==> NUL !in walk[i].rel && (walk[i].WalkedLink? ==> NUL !in walk[i].target)
    ensures forall i :: 0 <= i < |Named(walk)| ==> Framable(Named(walk)[i])
  {
    if walk != [] {
      NamedFramable(walk[..|walk| - 1]);
    }
  }

  /** Any change to a file's content or name, or to a link, changes what is hashed. */
  lemma WalksHashApart(a: seq<Walked>, b: seq<Walked>)
    requires forall i :: 0 <= i < |a| ==> NUL !in a[i].rel && (a[i].WalkedLink? ==> NUL !in a[i].target)
    requires forall i :: 0 <= i < |b| ==> NUL !in b[i].rel && (b[i].WalkedLink? ==> NUL !in b[i].target)
    ensures Stream(Named(a)) == Stream(Named(b)) <==> Named(a) == Named(b)
  {
    NamedFramable(a);
    NamedFramable(b);
    if Stream(Named(a)) == Stream(Named(b)) {
      StreamInjective(Named(a), Named(b));
    }
  }
}

/** adapters/couchdb/sniff.go: reading a couchbackup file line by line, through a buffer
    of any size, and counting its batches. */
module CouchLines {
  import opened Wrappers
  import opened Bytes

  const MAX_LINE_BYTES: nat := 0x400_0000

  /** The first line, its terminator included, or everything when there is none. */
  function FirstLine(t: Text): (line: Text)
    ensures line <= t
    ensures t != [] ==> line != []
  {
    if t == [] then [] else if t[0] == NEWLINE then [NEWLINE] else [t[0]] + FirstLine(t[1..])
  }

  predicate Terminated(line: Text) {
    line != [] && line[|line| - 1] == NEWLINE
  }

  datatype SliceEnd = AtNewline | BufferFull | AtEof

  lemma {:induction false} FirstLineAt(t: Text, k: nat)
    requires k <= |t| && NEWLINE !in t[..k]
    ensures FirstLine(t) == t[..k] + FirstLine(t[k..])
  {
    if k > 0 {
      assert t[0] == t[..k][0];
      assert t[..k] == [t[0]] + t[1..][..k - 1];
      assert t[1..][k - 1..] == t[k..];
      FirstLineAt(t[1..], k - 1);
    } else {
      assert t[0..] == t;
    }
  }

  /** bufio.Reader, as far as ReadSlice uses it: what is unread, and how much fits. */
  class Reader {
    var unread: Text
    const size: nat

    ghost predicate Valid() {
      size > 0
    }

    constructor (contents: Text, size: nat)
      requires size > 0
      ensures Valid() && unread == contents && this.size == size
    {
      this.unread, this.size := contents, size;
    }

    /** ReadSlice('\n') */
    method ReadSlice() returns (chunk: Text, end: SliceEnd)
      requires Valid()
      modifies this
      ensures old(unread) == chunk + unread
      ensures end == AtNewline ==> Terminated(chunk) && NEWLINE !in chunk[..|chunk| - 1]
      ensures end != AtNewline ==> NEWLINE !in chunk
      ensures end == BufferFull ==> chunk != []
      ensures end == AtEof ==> unread == []
    {
      var k := 0;
      while k < size && k < |unread| && unread[k] != NEWLINE
        invariant k <= size && k <= |unread| && NEWLINE !in unread[..k]
      {
        assert unread[..k + 1] == unread[..k] + [unread[k]];
        k := k + 1;
      }
      if k == size {
        chunk, end := unread[..k], BufferFull;
      } else if k == |unread| {
        chunk, end := unread, AtEof;
      } else {
        chunk, end := unread[..k + 1], AtNewline;
        assert chunk[..|chunk| - 1] == unread[..k];
      }
      unread := unread[|chunk|..];
    }

    /** One more chunk of the line read so far. */
    method ReadMore(read: Text, ghost start: Text) returns (more: Text, end: SliceEnd)
      requires Valid() && start == read + unread && NEWLINE !in read
      modifies this
      ensures start == more + unread && |more| <= |FirstLine(start)|
      ensures end == BufferFull ==> NEWLINE !in more && |unread| < |old(unread)|
      ensures end != BufferFull ==> more == FirstLine(start) && (end == AtEof <==> !Terminated(more))
    {
      var chunk;
      chunk, end := ReadSlice();
      assert start == (read + chunk) + unread;
      LineSoFar(start, read, chunk, unread, end);
      more := read + chunk;
      assert end == AtNewline ==> more[|more| - 1] == chunk[|chunk| - 1];
    }

    /** readCappedLine: the next line whatever the buffer's size, refused exactly when it
        is longer than max. */
    method ReadCappedLine(max: nat) returns (line: Option<Text>, eof: bool)
      requires Valid()
      modifies this
      ensures line.Some? <==> |FirstLine(old(unread))| <= max
      ensures line.Some? ==> line.value == FirstLine(old(unread)) && old(unread) == line.value + unread
      ensures line.Some? ==> (eof <==> !Terminated(line.value))
    {
      ghost var start := unread;
      var read: Text, end := [], BufferFull;
      while end == BufferFull
        invariant start == read + unread && |read| <= max
        invariant end == BufferFull ==> NEWLINE !in read
        invariant end != BufferFull ==> read == FirstLine(start) && (end == AtEof <==> !Terminated(read))
        decreases if end == BufferFull then 1 else 0, |unread|
      {
        read, end := ReadMore(read, start);
        if |read| > max {
          return None, false;
        }
      }
      return Some(read), end == AtEof;
    }
  }

  /** What one more chunk says of the line being read. */
  lemma LineSoFar(start: Text, read: Text, chunk: Text, unread: Text, end: SliceEnd)
    requires start == (read + chunk) + unread && NEWLINE !in read
    requires end == AtNewline ==> Terminated(chunk) && NEWLINE !in chunk[..|chunk| - 1]
    requires end != AtNewline ==> NEWLINE !in chunk
    requires end == AtEof ==> unread == []
    ensures |read + chunk| <= |FirstLine(start)|
    ensures end == AtNewline ==> FirstLine(start) == read + chunk
    ensures end == AtEof ==> FirstLine(start) == read + chunk && !Terminated(read + chunk)
  {
    var all := read + chunk;
    if end == AtNewline {
      assert start[..|all| - 1] == read + chunk[..|chunk| - 1];
      FirstLineAt(start, |all| - 1);
      assert start[|all| - 1..][0] == NEWLINE;
      assert all == all[..|all| - 1] + [NEWLINE];
    } else {
      assert start[..|all|] == all;
      FirstLineAt(start, |all|);
      assert all != [] ==> all[|all| - 1] in all;
    }
  }
}

/** adapters/firebird/source.go, readBackupClock: the scan of a gbak header for the clock
    stamped into it. */
module Firebird {
  import opened Wrappers
  import opened Bytes

  const HEADER_MAGIC: Text := [0, 2]
  const CLOCK_TAG: Byte := 1
  const CLOCK_LEN: nat := 24
  const SCAN_BYTES: nat := 4096

  /** One record: a tag and at most 255 bytes of data. */
  datatype Record = Record(tag: Byte, data: Text)

  /** A clock is tagged so, of the documented width, and parses; which texts do is
      arbitrary. */
  predicate IsClock(parses: Text -> bool, r: Record) {
    r.tag == CLOCK_TAG && |r.data| == CLOCK_LEN && parses(r.data)
  }

  function Size(t: Text): nat
    requires |t| > 1
  {
    t[1]
  }

  /** The scan from here to the end of what was read. */
  function Scan(parses: Text -> bool, t: Text): Option<Text>
    decreases |t|
  {
    if |t| < 2 || |t| < 2 + Size(t) then None
    else
      var r := Record(t[0], t[2..2 + Size(t)]);
      if IsClock(parses, r) then Some(r.data) else Scan(parses, t[2 + Size(t)..])
  }

  /** What was read of the file. */
  function Head(file: Text): Text {
    if |file| <= SCAN_BYTES then file else file[..SCAN_BYTES]
  }

  function ClockOf(parses: Text -> bool, file: Text): Option<Text> {
    var head := Head(file);
    if |head| < 2 || head[..2] != HEADER_MAGIC then None else Scan(parses, head[2..])
  }

  /** The record at an offset decides, or the scan goes on behind it. */
  lemma ScanAt(parses: Text -> bool, t: Text, i: nat)
    requires i <= |t|
    ensures Scan(parses, t[i..]) ==
            if i + 2 > |t| || i + 2 + t[i + 1] as int > |t| then None
            else
              var behind := i + 2 + t[i + 1] as int;
              var r := Record(t[i], t[i + 2..behind]);
              if IsClock(parses, r) then Some(r.data) else Scan(parses, t[behind..])
  {
    var left := t[i..];
    if i + 2 <= |t| {
      assert left[0] == t[i] && left[1] == t[i + 1];
      if i + 2 + Size(left) <= |t| {
        assert left[2..2 + Size(left)] == t[i + 2..i + 2 + Size(left)];
        assert left[2 + Size(left)..] == t[i + 2 + Size(left)..];
      }
    }
  }

  /** The loop of readBackupClock, over the buffer it read. */
  method ScanBuffer(parses: Text -> bool, head: array<Byte>) returns (clock: Option<Text>)
    requires head.Length >= 2
    ensures clock == Scan(parses, head[2..])
  {
    var i := 2;
    ghost var t := head[..];
    assert head[2..] == t[2..];
    while i + 2 <= head.Length
      invariant 2 <= i <= head.Length
      invariant Scan(parses, t[i..]) == Scan(parses, t[2..])
      decreases head.Length - i
    {
      var tag, size := head[i], head[i + 1] as int;
      ScanAt(parses, t, i);
      if i + 2 + size > head.Length {
        break;
      }
      var data := head[i + 2..i + 2 + size];
      assert data == t[i + 2..i + 2 + size];
      if tag == CLOCK_TAG && size == CLOCK_LEN {
        if parses(data) {
          return Some(data);
        }
      }
      i := i + 2 + size;
    }
    ScanAt(parses, t, i);
    return None;
  }

  /** readBackupClock */
  method ReadBackupClock(parses: Text -> bool, file: Text) returns (clock: Option<Text>)
    ensures clock == ClockOf(parses, file)
  {
    var read := Head(file);
    var head := new Byte[|read|](i requires 0 <= i < |read| => read[i]);
    assert head[..] == read;
    if head.Length < 2 || head[0] != 0 || head[1] != 2 {
      assert |read| >= 2 ==> read[..2] == [read[0], read[1]];
      return None;
    }
    assert read[..2] == [read[0], read[1]];
    assert head[2..] == read[2..];
    clock := ScanBuffer(parses, head);
  }

  // The other way: what gbak writes.

  predicate Writable(r: Record) {
    |r.data| < 256
  }

  function Printed(r: Record): Text
    requires Writable(r)
  {
    [r.tag, |r.data|] + r.data
  }

  ghost predicate AllWritable(records: seq<Record>) {
    forall i :: 0 <= i < |records| ==> Writable(records[i])
  }

  ghost function Print(records: seq<Record>): Text
    requires AllWritable(records)
  {
    if records == [] then [] else Printed(records[0]) + Print(records[1..])
  }

  ghost function FirstClock(parses: Text -> bool, records: seq<Record>): Option<Text> {
    if records == [] then None
    else if IsClock(parses, records[0]) then Some(records[0].data)
    else FirstClock(parses, records[1..])
  }

  lemma ScanOne(parses: Text -> bool, r: Record, rest: Text)
    requires Writable(r)
    ensures Scan(parses, Printed(r) + rest) == if IsClock(parses, r) then Some(r.data) else Scan(parses, rest)
  {
    var t := Printed(r) + rest;
    assert t[0] == r.tag && t[1] == |r.data|;
    assert t[2..2 + |r.data|] == r.data;
    assert t[2 + |r.data|..] == rest;
  }

  /** Scanning printed records gives the first clock among them, whatever follows; with
      none among them it goes on with what follows. */
  lemma {:induction false} ScanOfPrinted(parses: Text -> bool, records: seq<Record>, rest: Text)
    requires AllWritable(records)
    ensures Scan(parses, Print(records) + rest) ==
            match FirstClock(parses, records) case Some(c) => Some(c) case None => Scan(parses, rest)
  {
    if records == [] {
      assert Print(records) + rest == rest;
    } else {
      assert Print(records) + rest == Printed(records[0]) + (Print(records[1..]) + rest);
      ScanOne(parses, records[0], Print(records[1..]) + rest);
      ScanOfPrinted(parses, records[1..], rest);
    }
  }

  /** What the window shows behind text that fits in it. */
  lemma WindowShows(marker: Text, printed: Text, rest: Text)
    requires |marker| == 2 && 2 + |printed| <= SCAN_BYTES
    ensures var head := Head(marker + (printed + rest));
            |head| >= 2 + |printed| && head[..2] == marker && head[2..] == printed + head[2 + |printed|..]
  {
  }

  lemma ClockBehindMarker(parses: Text -> bool, records: seq<Record>, rest: Text)
    requires AllWritable(records) && 2 + |Print(records)| <= SCAN_BYTES
    ensures var head := Head(HEADER_MAGIC + (Print(records) + rest));
            |head| >= 2 + |Print(records)| &&
            ClockOf(parses, HEADER_MAGIC + (Print(records) + rest)) ==
            match FirstClock(parses, records) case Some(c) => Some(c) case None => Scan(parses, head[2 + |Print(records)|..])
  {
    var head := Head(HEADER_MAGIC + (Print(records) + rest));
    WindowShows(HEADER_MAGIC, Print(records), rest);
    ScanOfPrinted(parses, records, head[2 + |Print(records)|..]);
  }

  /** A file that opens with the marker and these records, all within the window: the
      first clock is found, and nothing behind it can change that; a file of nothing else
      has no other. */
  lemma ClockInWindow(parses: Text -> bool, records: seq<Record>, rest: Text)
    requires AllWritable(records) && 2 + |Print(records)| <= SCAN_BYTES
    ensures FirstClock(parses, records).Some? ==>
              ClockOf(parses, HEADER_MAGIC + (Print(records) + rest)) == FirstClock(parses, records)
    ensures ClockOf(parses, HEADER_MAGIC + Print(records)) == FirstClock(parses, records)
  {
    var none: Text := [];
    ClockBehindMarker(parses, records, rest);
    ClockBehindMarker(parses, records, none);
    assert Print(records) + none == Print(records);
    assert Head(HEADER_MAGIC + Print(records))[2 + |Print(records)|..] == none;
  }

  /** The first clock is the data of the first record tagged 1, of 24 bytes, that parses. */
  lemma {:induction false} FirstClockIs(parses: Text -> bool, records: seq<Record>, clock: Text)
    ensures FirstClock(parses, records) == Some(clock) <==> exists k :: FirstClockAt(parses, records, k) && records[k].data == clock
  {
    if records != [] {
      FirstClockIs(parses, records[1..], clock);
      if k :| FirstClockAt(parses, records[1..], k) && records[1..][k].data == clock && !IsClock(parses, records[0]) {
        assert forall j :: 1 <= j < |records| ==> records[1..][j - 1] == records[j];
        assert FirstClockAt(parses, records, k + 1);
      }
      if k :| FirstClockAt(parses, records, k) && records[k].data == clock && k > 0 {
        assert forall j :: 0 <= j < |records| - 1 ==> records[1..][j] == records[j + 1];
        assert FirstClockAt(parses, records[1..], k - 1);
      }
      if IsClock(parses, records[0]) {
        assert FirstClockAt(parses, records, 0);
      }
    }
  }

  ghost predicate FirstClockAt(parses: Text -> bool, records: seq<Record>, k: int) {
    && 0 <= k < |records|
    && records[k].tag == 1 && |records[k].data| == 24 && parses(records[k].data)
    && forall j :: 0 <= j < k ==> !(records[j].tag == 1 && |records[j].data| == 24 && parses(records[j].data))
  }

  ghost predicate LeadsTo(parses: Text -> bool, t: Text, records: seq<Record>, rest: Text, clock: Text) {
    AllWritable(records) && t == Print(records) + rest && FirstClock(parses, records) == Some(clock)
  }

  lemma OneRecordMore(parses: Text -> bool, r: Record, behind: Text, records: seq<Record>, rest: Text, clock: Text)
    requires Writable(r) && !IsClock(parses, r) && LeadsTo(parses, behind, records, rest, clock)
    ensures LeadsTo(parses, Printed(r) + behind, [r] + records, rest, clock)
  {
    var more := [r] + records;
    assert more[1..] == records;
    assert Print(more) + rest == Printed(r) + (Print(records) + rest);
  }

  lemma OneClock(parses: Text -> bool, r: Record, behind: Text)
    requires Writable(r) && IsClock(parses, r)
    ensures LeadsTo(parses, Printed(r) + behind, [r], behind, r.data)
  {
    assert [r][1..] == [];
    assert Print([r]) == Printed(r);
  }

  lemma {:induction false} FoundLeads(parses: Text -> bool, t: Text, clock: Text) returns (records: seq<Record>, rest: Text)
    requires Scan(parses, t) == Some(clock)
    ensures LeadsTo(parses, t, records, rest, clock)
    decreases |t|
  {
    var r, behind := Record(t[0], t[2..2 + Size(t)]), t[2 + Size(t)..];
    assert t == Printed(r) + behind;
    if IsClock(parses, r) {
      OneClock(parses, r, behind);
      records, rest := [r], behind;
    } else {
      records, rest := FoundLeads(parses, behind, clock);
      OneRecordMore(parses, r, behind, records, rest, clock);
      records := [r] + records;
    }
  }

  /** And a clock found is one: what was scanned is records followed by anything, that
      clock the first among them. */
  lemma FoundIsFirst(parses: Text -> bool, t: Text, clock: Text)
    ensures Scan(parses, t) == Some(clock) <==> exists records, rest :: LeadsTo(parses, t, records, rest, clock)
  {
    if records, rest :| LeadsTo(parses, t, records, rest, clock) {
      ScanOfPrinted(parses, records, rest);
    }
    if Scan(parses, t) == Some(clock) {
      var records, rest := FoundLeads(parses, t, clock);
    }
  }

  /** A file states a clock exactly when it opens with the marker and the clock is the
      first among the records behind it, within the first 4096 bytes. */
  lemma ClockStated(parses: Text -> bool, file: Text, clock: Text)
    ensures ClockOf(parses, file) == Some(clock) <==>
            && |file| >= 2 && file[0] == 0 && file[1] == 2
            && var window := if |file| <= 4096 then file[2..] else file[2..4096];
               exists records, rest :: LeadsTo(parses, window, records, rest, clock)
  {
    var head := Head(file);
    if |file| >= 2 {
      assert head[..2] == [file[0], file[1]];
      assert head[2..] == if |file| <= 4096 then file[2..] else file[2..4096];
      FoundIsFirst(parses, head[2..], clock);
    }
  }
}

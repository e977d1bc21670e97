/** How an archive walk ends, read off the entries alone: the first entry that ends it
    decides, and an archive with none is judged by the files it lists. */
module CassandraEnds {
  import opened Wrappers
  import opened Bytes
  import opened Ordering
  import opened CassandraFacts
  import opened CassandraCensus
  import opened CassandraArchive
  import opened CassandraBudget
  import opened CassandraPieces

  predicate LiveName(name: Text) {
    name == Ascii("snapshots") || name == Ascii("backups")
  }

  /** Named like a live directory's own, where a table's subdirectories would be. */
  predicate Marked(e: Entry) {
    (|e.segments| > 2 && LiveName(e.segments[2])) || (|e.segments| > 3 && LiveName(e.segments[3]))
  }

  predicate IsFile(e: Entry) {
    e.regular && e.segments != []
  }

  /** What keeping a file costs: its name, and up to a mebibyte of a body that is kept. */
  function Cost(e: Entry): Kept {
    if !IsFile(e) then Kept(0, 0)
    else
      var name := |e.segments[|e.segments| - 1]|;
      if MetaName(e.segments[|e.segments| - 1])
      then Kept(2, name + if e.body.length <= 0x10_0000 then e.body.length else 0x10_0000)
      else Kept(1, name)
  }

  function Costs(entries: seq<Entry>): Kept {
    if entries == [] then Kept(0, 0)
    else
      var most, last := Costs(entries[..|entries| - 1]), Cost(entries[|entries| - 1]);
      Kept(most.entries + last.entries, most.bytes + last.bytes)
  }

  /** At most 200000 entries and 64 MiB. */
  predicate Within(k: Kept) {
    k.entries <= 200_000 && k.bytes <= 0x400_0000
  }

  /** A file at neither accepted depth, or at another than a file before it. */
  ghost predicate Stray(before: seq<Entry>, e: Entry) {
    || (|e.segments| != 3 && |e.segments| != 4)
    || exists m :: 0 <= m < |before| && IsFile(before[m]) && |before[m].segments| != |e.segments|
  }

  datatype End = Refusal(verdict: Verdict) | Silence

  /** Whether an entry ends the walk, and how, behind these others. */
  ghost function EndOf(before: seq<Entry>, e: Entry): Option<End> {
    if Marked(e) then Some(Refusal(LiveData))
    else if !IsFile(e) then None
    else if Stray(before, e) then Some(Silence)
    else
      var kept, name := Costs(before), e.segments[|e.segments| - 1];
      if !Within(Kept(kept.entries + 1, kept.bytes + |name|)) then Some(Refusal(TooMuchKept))
      else if MustRead(name) && !e.readable then Some(Silence)
      else if !Within(Kept(kept.entries + Cost(e).entries, kept.bytes + Cost(e).bytes)) then Some(Refusal(TooMuchKept))
      else None
  }

  ghost predicate NoEnd(entries: seq<Entry>) {
    forall n :: 0 <= n < |entries| ==> EndOf(entries[..n], entries[n]).None?
  }

  ghost predicate FirstEnd(entries: seq<Entry>, n: int) {
    0 <= n < |entries| && NoEnd(entries[..n]) && EndOf(entries[..n], entries[n]).Some?
  }

  function Outcome(end: End): WalkOutcome {
    match end
    case Refusal(v) => Refuse(v)
    case Silence => GiveUp
  }

  // The walk does that.

  /** Where a walk stands that went on through these entries. */
  ghost predicate Stands(entries: seq<Entry>, st: WalkState) {
    && st.kept == Costs(entries) && -1 <= st.depthBase <= 1
    && (st.sawEntry <==> exists i :: 0 <= i < |entries| && entries[i].segments != [])
    && (st.depthBase == -1 <==> forall i :: 0 <= i < |entries| ==> !IsFile(entries[i]))
    && (forall i :: 0 <= i < |entries| && IsFile(entries[i]) ==> |entries[i].segments| == st.depthBase + 3)
    && (st.tables == map[] <==> st.depthBase == -1)
    && (forall ref :: ref in st.tables ==> st.tables[ref].liveMarker == [])
  }

  lemma MarkedIsMarker(e: Entry)
    ensures Marked(e) <==> TarLiveMarker(e.segments) != []
  {
    if |e.segments| > 2 { MarkerNames(e.segments[2]); }
    if |e.segments| > 3 { MarkerNames(e.segments[3]); }
  }

  lemma CostIsCharge(k: Kept, e: Entry)
    requires IsFile(e)
    ensures FileCharge(k, Base(e), e.body) == Kept(k.entries + Cost(e).entries, k.bytes + Cost(e).bytes)
  {
    BodiesByName(Base(e));
  }

  /** The costs of an archive are what the budget counts. */
  lemma {:induction false} CostsAreCharges(entries: seq<Entry>)
    ensures Costs(entries) == TotalCharge(entries) && (Within(Costs(entries)) <==> Affordable(TotalCharge(entries)))
  {
    if entries != [] {
      var init, e := entries[..|entries| - 1], entries[|entries| - 1];
      CostsAreCharges(init);
      TotalChargeSnoc(entries);
      if IsFile(e) {
        CostIsCharge(Kept(0, 0), e);
      }
    }
  }

  lemma CostsSnoc(entries: seq<Entry>, e: Entry)
    ensures Costs(entries + [e]) == Kept(Costs(entries).entries + Cost(e).entries, Costs(entries).bytes + Cost(e).bytes)
  {
    assert (entries + [e])[..|entries|] == entries;
  }

  lemma StandsPast(entries: seq<Entry>, st: WalkState, e: Entry)
    requires Stands(entries, st) && !IsFile(e)
    ensures Stands(entries + [e], st.(sawEntry := st.sawEntry || e.segments != []))
  {
    var more := entries + [e];
    CostsSnoc(entries, e);
    assert more[|entries|] == e && forall i :: 0 <= i < |entries| ==> more[i] == entries[i];
    if st.sawEntry {
      var i :| 0 <= i < |entries| && entries[i].segments != [];
      assert more[i].segments != [];
    }
  }

  lemma StandsFiled(entries: seq<Entry>, st: WalkState, e: Entry, now: WalkState)
    requires Stands(entries, st) && IsFile(e) && !Stray(entries, e)
    requires now.kept == FileCharge(st.kept, Base(e), e.body) && now.sawEntry && now.depthBase == |e.segments| - 3
    requires now.tables != map[] && forall ref :: ref in now.tables ==> now.tables[ref].liveMarker == []
    ensures Stands(entries + [e], now)
  {
    var more := entries + [e];
    CostsSnoc(entries, e);
    CostIsCharge(st.kept, e);
    assert more[|entries|] == e && forall i :: 0 <= i < |entries| ==> more[i] == entries[i];
  }

  lemma StrayGivesUp(entries: seq<Entry>, st: WalkState, e: Entry)
    requires Stands(entries, st) && IsFile(e)
    ensures Stray(entries, e) <==>
            (st.depthBase != -1 && |e.segments| - 3 != st.depthBase) || |e.segments| - 3 < 0 || |e.segments| - 3 > 1
  {
    if st.depthBase != -1 {
      var i :| 0 <= i < |entries| && IsFile(entries[i]);
      assert |entries[i].segments| == st.depthBase + 3;
    }
  }

  lemma FileEnds(entries: seq<Entry>, st: WalkState, e: Entry)
    requires Stands(entries, st) && IsFile(e) && !Marked(e)
    ensures match EndOf(entries, e)
            case None => WalkFile(st, e).Continue? && Stands(entries + [e], WalkFile(st, e).state)
            case Some(end) => WalkFile(st, e) == Outcome(end)
  {
    StrayGivesUp(entries, st, e);
    BodiesByName(Base(e));
    CostIsCharge(st.kept, e);
    if EndOf(entries, e).None? {
      var out := WalkFile(st, e);
      var ref := TableRef(e.segments[|e.segments| - 3], e.segments[|e.segments| - 2]);
      assert ref in out.state.tables;
      RecordKeepsMarker(FactsAt(st.tables, ref), Base(e), e.body, []);
      StandsFiled(entries, st, e, out.state);
    }
  }

  lemma EntryEnds(entries: seq<Entry>, st: WalkState, e: Entry)
    requires Stands(entries, st)
    ensures match EndOf(entries, e)
            case None => WalkEntry(st, e).Continue? && Stands(entries + [e], WalkEntry(st, e).state)
            case Some(end) => WalkEntry(st, e) == Outcome(end)
  {
    MarkedIsMarker(e);
    if !Marked(e) {
      if IsFile(e) {
        FileEnds(entries, st, e);
      } else {
        StandsPast(entries, st, e);
      }
    }
  }

  ghost predicate GoesOn(entries: seq<Entry>) {
    WalkAll(entries).Continue? && Stands(entries, WalkAll(entries).state)
  }

  lemma OneMoreGoesOn(entries: seq<Entry>, e: Entry)
    requires GoesOn(entries) && EndOf(entries, e).None?
    ensures GoesOn(entries + [e])
  {
    assert (entries + [e])[..|entries|] == entries;
    EntryEnds(entries, WalkAll(entries).state, e);
  }

  lemma {:induction false} WalkGoesOn(entries: seq<Entry>)
    requires NoEnd(entries)
    ensures GoesOn(entries)
  {
    if entries != [] {
      var init, e := entries[..|entries| - 1], entries[|entries| - 1];
      assert forall n :: 0 <= n < |init| ==> init[..n] == entries[..n];
      WalkGoesOn(init);
      OneMoreGoesOn(init, e);
      assert entries == init + [e];
    }
  }

  lemma WalkStops(entries: seq<Entry>, n: nat)
    requires FirstEnd(entries, n)
    ensures WalkAll(entries) == Outcome(EndOf(entries[..n], entries[n]).value)
  {
    WalkGoesOn(entries[..n]);
    var st := WalkAll(entries[..n]).state;
    EntryEnds(entries[..n], st, entries[n]);
    WalkOneMore(entries, n, st, WalkEntry(st, entries[n]));
    StopSticks(entries, n + 1);
  }

  lemma FindEnd(entries: seq<Entry>) returns (n: nat)
    requires !NoEnd(entries)
    ensures FirstEnd(entries, n)
  {
    n := 0;
    while EndOf(entries[..n], entries[n]).None?
      invariant n < |entries| && NoEnd(entries[..n])
      decreases |entries| - n
    {
      NoEndNext(entries, n);
      n := n + 1;
      assert entries[..|entries|] == entries;
    }
  }

  lemma NoEndNext(entries: seq<Entry>, n: nat)
    requires n < |entries| && NoEnd(entries[..n]) && EndOf(entries[..n], entries[n]).None?
    ensures NoEnd(entries[..n + 1])
  {
    var less, more := entries[..n], entries[..n + 1];
    forall k | 0 <= k < |more| ensures EndOf(more[..k], more[k]).None? {
      assert more[..k] == entries[..k];
      assert k < n ==> less[..k] == entries[..k] && less[k] == entries[k];
    }
  }

  /** What the walk over a stream may answer, read off its entries. */
  ghost predicate Owed(entries: seq<Entry>, clean: bool, r: TarResult) {
    if !NoEnd(entries) then
      forall n :: FirstEnd(entries, n) ==>
        match EndOf(entries[..n], entries[n]).value
        case Refusal(v) => r == Refused(v)
        case Silence => r == Silent
    else if !clean || forall i :: 0 <= i < |entries| ==> entries[i].segments == [] then r == Silent
    else if forall i :: 0 <= i < |entries| ==> !IsFile(entries[i]) then r == Refused(EmptySnapshot)
    else !r.Silent? && (r.Refused? ==> OfATable(r.verdict))
  }

  /** What a table can be refused for. */
  predicate OfATable(v: Verdict) {
    v != LiveData && v != TooMuchKept && v != Unreadable && v != EmptySnapshot
  }

  /** A stream is passed over in silence, refused, or judged by its tables exactly as its
      first ending entry says: silently at a file of another depth or one that cannot be
      read, refused for a marker or for what is kept, and without an ending entry by what
      the stream held at all. */
  lemma WalkTarEnds(stream: TarStream, r: TarResult)
    requires TarVerdict(stream, r)
    ensures Owed(Map(Named, stream.entries), stream.clean, r)
  {
    var entries := Map(Named, stream.entries);
    if NoEnd(entries) {
      WalkGoesOn(entries);
      var tables := WalkAll(entries).state.tables;
      if tables != map[] && r.Refused? && RefusalOf(tables, r.verdict) {
        TableRefusals(tables, r.verdict);
      }
    } else {
      forall n | FirstEnd(entries, n)
        ensures match EndOf(entries[..n], entries[n]).value
                case Refusal(v) => r == Refused(v)
                case Silence => r == Silent
      {
        WalkStops(entries, n);
      }
    }
  }

  lemma TableRefusals(tables: map<TableRef, Facts>, v: Verdict)
    requires tables != map[] && RefusalOf(tables, v) && forall ref :: ref in tables ==> tables[ref].liveMarker == []
    ensures OfATable(v)
  {
  }

  /** A file of another depth, or one that must be read and cannot be, leaves the verdict
      to others. */
  lemma StrayIsSilent(stream: TarStream, n: nat, r: TarResult)
    requires TarVerdict(stream, r) && n < |stream.entries|
    requires var entries := Map(Named, stream.entries);
             && NoEnd(entries[..n]) && IsFile(entries[n]) && !Marked(entries[n])
             && (Stray(entries[..n], entries[n]) || EndOf(entries[..n], entries[n]) == Some(Silence))
    ensures r == Silent
  {
    WalkStops(Map(Named, stream.entries), n);
  }

  // An archive without an ending entry.

  /** No two files are listed for one table under one name. */
  ghost predicate FilesOnce(entries: seq<Entry>) {
    forall i, j :: 0 <= i < j < |entries| && IsFile(entries[i]) && IsFile(entries[j]) && |entries[i].segments| == |entries[j].segments| >= 3 ==>
      entries[i].segments[|entries[i].segments| - 3..] != entries[j].segments[|entries[j].segments| - 3..]
  }

  /** What the archive lists, table by table: a file's last three segments are its
      keyspace, its table and its name. */
  ghost predicate ListsFiles(entries: seq<Entry>, snapshot: map<TableRef, map<Text, Body>>) {
    && (forall i :: 0 <= i < |entries| && IsFile(entries[i]) ==> HoldsFile(snapshot, entries[i]))
    && (forall ref :: ref in snapshot ==> snapshot[ref] != map[])
    && (forall ref, name :: ref in snapshot && name in snapshot[ref] ==> ListedAs(entries, ref, name, snapshot[ref][name]))
  }

  ghost predicate HoldsFile(snapshot: map<TableRef, map<Text, Body>>, e: Entry) {
    var n := |e.segments|;
    && n >= 3
    && var ref := TableRef(e.segments[n - 3], e.segments[n - 2]);
       ref in snapshot && e.segments[n - 1] in snapshot[ref] && snapshot[ref][e.segments[n - 1]] == e.body
  }

  ghost predicate ListedAs(entries: seq<Entry>, ref: TableRef, name: Text, body: Body) {
    exists i :: 0 <= i < |entries| && IsFile(entries[i]) && |entries[i].segments| >= 3 && entries[i].body == body &&
                entries[i].segments[|entries[i].segments| - 3..] == [ref.keyspace, ref.table, name]
  }

  lemma PieceIsFile(depth: nat, e: Entry)
    requires depth <= 1 && IsFile(e) && |e.segments| == depth + 3
    ensures PieceOf(depth, e) == Filing(TableRef(e.segments[|e.segments| - 3], e.segments[|e.segments| - 2]), Base(e), e.body)
    ensures e.segments[|e.segments| - 3..] == [PieceOf(depth, e).ref.keyspace, PieceOf(depth, e).ref.table, Base(e)]
  {
  }

  lemma FilesOnceFilings(depth: nat, entries: seq<Entry>)
    requires depth <= 1 && FilesOnce(entries)
    requires forall i :: 0 <= i < |entries| && IsFile(entries[i]) ==> |entries[i].segments| == depth + 3
    ensures DistinctFilings(Pieces(depth, entries))
  {
    var pieces := Pieces(depth, entries);
    forall i, j | 0 <= i < j < |pieces| && pieces[i].Filing? && pieces[j].Filing?
      ensures pieces[i].ref != pieces[j].ref || pieces[i].base != pieces[j].base
    {
      PieceIsFile(depth, entries[i]);
      PieceIsFile(depth, entries[j]);
    }
  }

  lemma CollectListsFiles(depth: nat, entries: seq<Entry>)
    requires depth <= 1 && DistinctFilings(Pieces(depth, entries))
    requires forall i :: 0 <= i < |entries| && IsFile(entries[i]) ==> |entries[i].segments| == depth + 3
    ensures ListsFiles(entries, Collect(Pieces(depth, entries)))
  {
    var pieces := Pieces(depth, entries);
    var snapshot := Collect(pieces);
    CollectHolds(pieces);
    forall i | 0 <= i < |entries| && IsFile(entries[i]) ensures HoldsFile(snapshot, entries[i]) {
      PieceIsFile(depth, entries[i]);
      assert pieces[i] in pieces;
    }
    forall ref | ref in snapshot ensures snapshot[ref] != map[] {
      CollectFrom(pieces, ref);
    }
    forall ref, name | ref in snapshot && name in snapshot[ref] ensures ListedAs(entries, ref, name, snapshot[ref][name]) {
      CollectFrom(pieces, ref);
      assert Filing(ref, name, snapshot[ref][name]) in pieces;
      var i :| 0 <= i < |pieces| && pieces[i] == Filing(ref, name, snapshot[ref][name]);
      PieceIsFile(depth, entries[i]);
    }
  }

  /** What is answered for a table by its names and files. */
  ghost function RefOnFiles(ref: TableRef, files: map<Text, Body>): Option<Verdict> {
    if !NameAccepted(ref.keyspace) then JudgeName(ref.keyspace)
    else if !NameAccepted(ref.table) then JudgeName(ref.table)
    else FilesVerdict(files)
  }

  lemma CleanWalkStates(entries: seq<Entry>) returns (snapshot: map<TableRef, map<Text, Body>>)
    requires NoEnd(entries) && FilesOnce(entries) && exists i :: 0 <= i < |entries| && IsFile(entries[i])
    ensures WalkAll(entries).Continue? && WalkAll(entries).state.sawEntry && WalkAll(entries).state.tables != map[]
    ensures ListsFiles(entries, snapshot) && StatesAll(WalkAll(entries).state.tables, snapshot)
  {
    WalkGoesOn(entries);
    var depth := WalkAll(entries).state.depthBase;
    ContinueFits(entries);
    FilesOnceFilings(depth, entries);
    WalkOfFitting(depth, entries);
    CollectAnyDepth(depth, Pieces(depth, entries));
    CollectListsFiles(depth, entries);
    snapshot := Collect(Pieces(depth, entries));
  }

  /** An archive without an ending entry that lists each file once is judged by those
      files: listed with their census when every table is fit, refused for one that is
      not. */
  lemma CleanArchiveJudged(stream: TarStream, r: TarResult) returns (snapshot: map<TableRef, map<Text, Body>>)
    requires TarVerdict(stream, r) && stream.clean
    requires NoEnd(Map(Named, stream.entries)) && FilesOnce(Map(Named, stream.entries))
    requires exists i :: 0 <= i < |stream.entries| && IsFile(Map(Named, stream.entries)[i])
    ensures ListsFiles(Map(Named, stream.entries), snapshot)
    ensures r.Listed? <==> SnapshotAccepted(snapshot)
    ensures r.Listed? ==> CensusOf(r.census, snapshot)
    ensures !r.Listed? ==> r.Refused? && exists ref :: ref in snapshot && RefOnFiles(ref, snapshot[ref]) == Some(r.verdict)
  {
    snapshot := CleanWalkStates(Map(Named, stream.entries));
    var tables := WalkAll(Map(Named, stream.entries)).state.tables;
    FactsJudgeFiles(tables, snapshot);
    if r.Listed? {
      CensusOfFiles(r.census, tables, snapshot);
    } else {
      RefusedOnFiles(tables, snapshot, r.verdict);
    }
  }

  lemma RefusedOnFiles(tables: map<TableRef, Facts>, snapshot: map<TableRef, map<Text, Body>>, v: Verdict)
    requires StatesAll(tables, snapshot) && tables != map[] && RefusalOf(tables, v)
    ensures exists ref :: ref in snapshot && RefOnFiles(ref, snapshot[ref]) == Some(v)
  {
    var ref :| ref in tables && RefVerdict(ref, tables[ref]) == Some(v);
    assert States(tables[ref], snapshot[ref]);
    VerdictOnFiles(tables[ref], snapshot[ref]);
    assert RefOnFiles(ref, snapshot[ref]) == Some(v);
  }
}

/** The directory walk and the archive walk judge one collected snapshot alike. */
module CassandraAgree {
  import opened Wrappers
  import opened Bytes
  import opened Paths
  import opened Ordering
  import opened CassandraFacts
  import opened CassandraCensus
  import opened CassandraTree
  import opened CassandraArchive
  import opened CassandraBudget
  import opened CassandraPieces

  type Snapshot = map<TableRef, map<Text, Body>>

  /** The two accepted layouts: keyspaces at the root, or below one directory. */
  datatype Layout = Bare | Wrapped(wrap: Text)

  function Depth(l: Layout): nat {
    if l.Bare? then 0 else 1
  }

  function SegmentsOf(l: Layout, ref: TableRef, name: Text): seq<Text> {
    match l
    case Bare => [ref.keyspace, ref.table, name]
    case Wrapped(wrap) => [wrap, ref.keyspace, ref.table, name]
  }

  /** A name a file system can hold. */
  predicate NameShape(name: Text) {
    name != [] && name != [DOT] && SLASH !in name
  }

  ghost predicate NamesShaped(l: Layout, snapshot: Snapshot) {
    && (l.Wrapped? ==> NameShape(l.wrap))
    && (forall ref :: ref in snapshot ==> NameShape(ref.keyspace) && NameShape(ref.table))
    && (forall ref, name :: ref in snapshot && name in snapshot[ref] ==> NameShape(name))
  }

  /** What an archive entry lists: one file of the snapshot, or a directory or other
      special entry. */
  datatype Item = FileItem(ref: TableRef, name: Text) | OtherItem

  predicate HeaderOf(l: Layout, item: Item, header: Text)
    requires item.FileItem?
  {
    var path := Join(SLASH, SegmentsOf(l, item.ref, item.name));
    header == path || header == [DOT, SLASH] + path
  }

  ghost predicate ListsItem(l: Layout, snapshot: Snapshot, item: Item, e: TarEntry) {
    match item
    case OtherItem => !e.regular
    case FileItem(ref, name) =>
      && e.regular && e.readable && HeaderOf(l, item, e.name)
      && ref in snapshot && name in snapshot[ref] && e.body == snapshot[ref][name]
  }

  /** The archive lists exactly the snapshot's files, each once, in any order and
      with or without a leading "./", among any directory and special entries. */
  ghost predicate Lists(l: Layout, snapshot: Snapshot, items: seq<Item>, archive: seq<TarEntry>) {
    && |items| == |archive|
    && (forall i :: 0 <= i < |items| ==> ListsItem(l, snapshot, items[i], archive[i]))
    && (forall i, j :: 0 <= i < j < |items| && items[i].FileItem? ==> items[i] != items[j])
    && (forall ref, name :: ref in snapshot && name in snapshot[ref] ==> FileItem(ref, name) in items)
  }

  /** No entry of the archive is named, at the two depths the archive walk looks at,
      like what only a live data directory holds. */
  ghost predicate NoMarkers(entries: seq<Entry>) {
    forall i :: 0 <= i < |entries| ==> TarLiveMarker(entries[i].segments) == []
  }

  // Header names split back into the segments they were joined from.

  lemma PathHasNoSlashAtEnd(segments: seq<Text>)
    requires segments != [] && NameShape(segments[|segments| - 1])
    ensures Join(SLASH, segments) != [] && !HasSuffix(Join(SLASH, segments), [SLASH])
  {
    var path, last := Join(SLASH, segments), segments[|segments| - 1];
    JoinEnds(SLASH, segments);
    assert last[|last| - 1] in last;
    assert path[|path| - 1..] == [path[|path| - 1]];
  }

  lemma PathHasNoDotInFront(segments: seq<Text>)
    requires |segments| > 1 && NameShape(segments[0])
    ensures !HasPrefix(Join(SLASH, segments), [DOT, SLASH])
  {
    var path, first := Join(SLASH, segments), segments[0];
    JoinBegins(SLASH, segments);
    assert path[0] == path[..|first|][0] == first[0];
    if |first| == 1 {
      assert first == [first[0]];
    } else {
      assert path[1] == path[..|first|][1] == first[1];
      assert first[1] in first;
    }
  }

  lemma HeaderSplits(segments: seq<Text>, header: Text)
    requires |segments| > 1 && forall s :: s in segments ==> NameShape(s)
    requires header == Join(SLASH, segments) || header == [DOT, SLASH] + Join(SLASH, segments)
    ensures SplitTarName(header) == segments
  {
    var path := Join(SLASH, segments);
    assert segments[0] in segments && segments[|segments| - 1] in segments;
    PathHasNoSlashAtEnd(segments);
    PathHasNoDotInFront(segments);
    SplitJoin(SLASH, segments);
    if header == path {
      assert TrimPrefix(TrimSuffix(path, [SLASH]), [DOT, SLASH]) == path;
    } else {
      assert HasSuffix(header, [SLASH]) ==> HasSuffix(path, [SLASH]) by {
        assert header[|header| - 1..] == path[|path| - 1..];
      }
      assert header[..2] == [DOT, SLASH];
      assert TrimSuffix(header, [SLASH]) == header;
      assert TrimPrefix(header, [DOT, SLASH]) == path;
    }
  }

  lemma PathIsNotDotted(segments: seq<Text>)
    requires segments != [] && forall s :: s in segments ==> NameShape(s)
    ensures !HasPrefix(Join(SLASH, segments), [DOT, SLASH])
  {
    assert segments[0] in segments;
    if |segments| > 1 {
      PathHasNoDotInFront(segments);
    }
    assert |segments[0]| > 1 ==> segments[0][1] in segments[0];
  }

  /** A directory's header, with its slash at the end, splits into its path. */
  lemma DirHeaderSplits(segments: seq<Text>, header: Text)
    requires segments != [] && forall s :: s in segments ==> NameShape(s)
    requires header == Join(SLASH, segments) + [SLASH] || header == [DOT, SLASH] + Join(SLASH, segments) + [SLASH]
    ensures SplitTarName(header) == segments
  {
    var path := Join(SLASH, segments);
    assert segments[|segments| - 1] in segments;
    PathHasNoSlashAtEnd(segments);
    PathIsNotDotted(segments);
    SplitJoin(SLASH, segments);
    SuffixOfConcat(path, [SLASH]);
    SuffixOfConcat([DOT, SLASH] + path, [SLASH]);
    assert ([DOT, SLASH] + path)[2..] == path;
  }

  /** The root of an archive, as tar spells it, is one segment; nothing and a slash are
      none. */
  lemma RootSplits()
    ensures SplitTarName(Ascii("./")) == [Ascii(".")] && SplitTarName(Ascii("/")) == [] && SplitTarName([]) == []
  {
    assert Ascii("./") == Ascii(".") + [SLASH] && Ascii("/") == [] + [SLASH];
    SuffixOfConcat(Ascii("."), [SLASH]);
    SuffixOfConcat([], [SLASH]);
    SplitOne(SLASH, Ascii("."));
  }

  function ItemPiece(snapshot: Snapshot, item: Item, nameless: bool): Piece
    requires item.FileItem? ==> item.ref in snapshot && item.name in snapshot[item.ref]
  {
    match item
    case FileItem(ref, name) => Filing(ref, name, snapshot[ref][name])
    case OtherItem => if nameless then Nameless else Beside
  }

  lemma ListedSegments(l: Layout, snapshot: Snapshot, item: Item, e: TarEntry)
    requires NamesShaped(l, snapshot) && ListsItem(l, snapshot, item, e) && item.FileItem?
    ensures SplitTarName(e.name) == SegmentsOf(l, item.ref, item.name)
  {
    HeaderSplits(SegmentsOf(l, item.ref, item.name), e.name);
  }

  lemma ListedPiece(l: Layout, snapshot: Snapshot, item: Item, e: TarEntry)
    requires NamesShaped(l, snapshot) && ListsItem(l, snapshot, item, e) && TarLiveMarker(SplitTarName(e.name)) == []
    ensures Fits(Depth(l), Named(e))
    ensures PieceOf(Depth(l), Named(e)) == ItemPiece(snapshot, item, SplitTarName(e.name) == [])
  {
    if item.FileItem? {
      ListedSegments(l, snapshot, item, e);
    }
  }

  /** The files listed, as the walk files them. */
  ghost predicate ListedAsPieces(snapshot: Snapshot, pieces: seq<Piece>) {
    && DistinctFilings(pieces)
    && (forall p :: p in pieces && p.Filing? ==>
          p.ref in snapshot && p.base in snapshot[p.ref] && p.body == snapshot[p.ref][p.base])
    && (forall ref, name :: ref in snapshot && name in snapshot[ref] ==> Filing(ref, name, snapshot[ref][name]) in pieces)
  }

  /** Up to the first marker, the entries fit the layout's depth and list no file twice. */
  lemma ListedFit(l: Layout, snapshot: Snapshot, items: seq<Item>, archive: seq<TarEntry>, n: nat)
    requires NamesShaped(l, snapshot) && Lists(l, snapshot, items, archive)
    requires n <= |archive| && NoMarkers(Map(Named, archive[..n]))
    ensures AllFit(Depth(l), Map(Named, archive[..n]))
    ensures DistinctFilings(Pieces(Depth(l), Map(Named, archive[..n])))
    ensures forall i :: 0 <= i < n ==>
              Pieces(Depth(l), Map(Named, archive[..n]))[i] == ItemPiece(snapshot, items[i], SplitTarName(archive[i].name) == [])
  {
    var entries := archive[..n];
    var pieces := Pieces(Depth(l), Map(Named, entries));
    forall i | 0 <= i < n
      ensures Fits(Depth(l), Map(Named, entries)[i])
      ensures pieces[i] == ItemPiece(snapshot, items[i], SplitTarName(archive[i].name) == [])
    {
      assert TarLiveMarker(Map(Named, entries)[i].segments) == [];
      ListedPiece(l, snapshot, items[i], entries[i]);
    }
  }

  lemma ListedPieces(l: Layout, snapshot: Snapshot, items: seq<Item>, archive: seq<TarEntry>)
    requires NamesShaped(l, snapshot) && NoMarkers(Map(Named, archive)) && Lists(l, snapshot, items, archive)
    ensures AllFit(Depth(l), Map(Named, archive))
    ensures ListedAsPieces(snapshot, Pieces(Depth(l), Map(Named, archive)))
  {
    assert archive[..|archive|] == archive;
    ListedFit(l, snapshot, items, archive, |archive|);
    var pieces := Pieces(Depth(l), Map(Named, archive));
    forall ref, name | ref in snapshot && name in snapshot[ref]
      ensures Filing(ref, name, snapshot[ref][name]) in pieces
    {
      var i :| 0 <= i < |items| && items[i] == FileItem(ref, name);
      assert pieces[i] in pieces;
    }
  }

  lemma CollectHasListed(snapshot: Snapshot, pieces: seq<Piece>, ref: TableRef)
    requires ListedAsPieces(snapshot, pieces) && ref in snapshot && snapshot[ref] != map[]
    ensures ref in Collect(pieces)
    ensures forall name :: name in snapshot[ref] ==>
              name in Collect(pieces)[ref] && Collect(pieces)[ref][name] == snapshot[ref][name]
  {
    CollectHolds(pieces);
    var some :| some in snapshot[ref];
    assert Filing(ref, some, snapshot[ref][some]) in pieces;
    forall name | name in snapshot[ref]
      ensures name in Collect(pieces)[ref] && Collect(pieces)[ref][name] == snapshot[ref][name]
    {
      assert Filing(ref, name, snapshot[ref][name]) in pieces;
    }
  }

  lemma CollectIsListed(snapshot: Snapshot, pieces: seq<Piece>, ref: TableRef)
    requires ListedAsPieces(snapshot, pieces) && ref in Collect(pieces)
    ensures ref in snapshot && forall name :: name in Collect(pieces)[ref] ==> name in snapshot[ref]
  {
    CollectFrom(pieces, ref);
    var got := Collect(pieces)[ref];
    var some :| some in got;
    assert Filing(ref, some, got[some]) in pieces;
    forall name | name in got ensures name in snapshot[ref] {
      assert Filing(ref, name, got[name]) in pieces;
    }
  }

  lemma CollectRef(snapshot: Snapshot, pieces: seq<Piece>, ref: TableRef)
    requires ListedAsPieces(snapshot, pieces) && ref in Collect(pieces) && ref in snapshot && snapshot[ref] != map[]
    ensures Collect(pieces)[ref] == snapshot[ref]
  {
    CollectHasListed(snapshot, pieces, ref);
    CollectIsListed(snapshot, pieces, ref);
    assert forall name :: name in Collect(pieces)[ref] <==> name in snapshot[ref];
  }

  /** Listed files collect to the snapshot they are the files of. */
  lemma CollectListed(snapshot: Snapshot, pieces: seq<Piece>)
    requires ListedAsPieces(snapshot, pieces)
    requires forall ref :: ref in snapshot ==> snapshot[ref] != map[]
    ensures Collect(pieces) == snapshot
  {
    var got := Collect(pieces);
    forall ref ensures ref in got <==> ref in snapshot {
      if ref in snapshot { CollectHasListed(snapshot, pieces, ref); }
      if ref in got { CollectIsListed(snapshot, pieces, ref); }
    }
    forall ref | ref in got ensures got[ref] == snapshot[ref] {
      CollectRef(snapshot, pieces, ref);
    }
  }

  lemma ListedIsSeen(snapshot: Snapshot, pieces: seq<Piece>, ref: TableRef)
    requires ListedAsPieces(snapshot, pieces) && ref in snapshot && snapshot[ref] != map[]
    ensures SawEntry(pieces)
  {
    var name :| name in snapshot[ref];
    assert Filing(ref, name, snapshot[ref][name]) in pieces;
  }

  /** The walk over a listing archive gathers the snapshot's facts, or runs out of
      budget. */
  lemma WalkOfListing(l: Layout, snapshot: Snapshot, items: seq<Item>, archive: seq<TarEntry>)
    requires NamesShaped(l, snapshot) && NoMarkers(Map(Named, archive)) && Lists(l, snapshot, items, archive)
    requires snapshot != map[] && forall ref :: ref in snapshot ==> snapshot[ref] != map[]
    ensures var out := WalkAll(Map(Named, archive));
            if Affordable(TotalCharge(Map(Named, archive)))
            then out.Continue? && out.state.sawEntry && StatesAll(out.state.tables, snapshot)
            else out == Refuse(TooMuchKept)
  {
    var entries := Map(Named, archive);
    var pieces := Pieces(Depth(l), entries);
    ListedPieces(l, snapshot, items, archive);
    WalkOfFitting(Depth(l), entries);
    CollectListed(snapshot, pieces);
    CollectAnyDepth(Depth(l), pieces);
    SnapSaw(Depth(l), pieces);
    var ref :| ref in snapshot;
    ListedIsSeen(snapshot, pieces, ref);
  }

  /** The first marker of an archive that has one. */
  lemma FirstMarker(entries: seq<Entry>) returns (n: nat)
    requires !NoMarkers(entries)
    ensures n < |entries| && NoMarkers(entries[..n]) && TarLiveMarker(entries[n].segments) != []
  {
    n := 0;
    while TarLiveMarker(entries[n].segments) == []
      invariant n < |entries|
      invariant forall i :: 0 <= i < n ==> TarLiveMarker(entries[i].segments) == []
      decreases |entries| - n
    {
      assert n + 1 == |entries| ==> NoMarkers(entries);
      n := n + 1;
    }
  }

  lemma PrefixIsCheaper(entries: seq<Entry>, n: nat)
    requires n <= |entries| && Affordable(TotalCharge(entries))
    ensures Affordable(TotalCharge(entries[..n]))
  {
    var charges := Map(ChargeOf, entries);
    assert charges == charges[..n] + charges[n..];
    TotalConcat(charges[..n], charges[n..]);
    assert Map(ChargeOf, entries[..n]) == charges[..n];
  }

  lemma MarkerStep(st: WalkState, e: Entry)
    requires TarLiveMarker(e.segments) != []
    ensures WalkEntry(st, e) == Refuse(LiveData)
  {
  }

  function Stopped(out: WalkOutcome): WalkOutcome {
    if out.Continue? then Refuse(LiveData) else out
  }

  /** A marker stops a walk that was still going on. */
  lemma {:induction false} MarkerStops(entries: seq<Entry>, n: nat)
    requires n < |entries| && TarLiveMarker(entries[n].segments) != []
    ensures WalkAll(entries) == Stopped(WalkAll(entries[..n]))
  {
    var init, last := entries[..|entries| - 1], entries[|entries| - 1];
    if n == |init| {
      assert init == entries[..n];
      if WalkAll(init).Continue? {
        MarkerStep(WalkAll(init).state, last);
      }
    } else {
      assert init[n] == entries[n] && init[..n] == entries[..n];
      MarkerStops(init, n);
    }
  }

  /** A marker anywhere in a listing archive ends the walk: as live data, unless the
      budget ran out before it. */
  lemma LiveNamesEndWalk(l: Layout, snapshot: Snapshot, items: seq<Item>, archive: seq<TarEntry>)
    requires NamesShaped(l, snapshot) && Lists(l, snapshot, items, archive) && !NoMarkers(Map(Named, archive))
    ensures var out := WalkAll(Map(Named, archive));
            && (out == Refuse(LiveData) || out == Refuse(TooMuchKept))
            && (Affordable(TotalCharge(Map(Named, archive))) ==> out == Refuse(LiveData))
  {
    var entries := Map(Named, archive);
    var n := FirstMarker(entries);
    assert Map(Named, archive[..n]) == entries[..n];
    ListedFit(l, snapshot, items, archive, n);
    WalkOfFitting(Depth(l), entries[..n]);
    if Affordable(TotalCharge(entries)) {
      PrefixIsCheaper(entries, n);
    }
    MarkerStops(entries, n);
  }

  lemma {:induction false} FileMapOfSome(files: seq<File>)
    requires files != []
    ensures FileMap(files) != map[]
  {
    assert files[|files| - 1].name in FileMap(files);
  }

  lemma SnapshotOfSome(tree: Tree)
    requires FlatTree(tree)
    ensures SnapshotOf(tree) != map[]
    ensures forall ref :: ref in SnapshotOf(tree) ==> SnapshotOf(tree)[ref] != map[]
  {
    FlatTreeDirs(tree);
    var some :| some in TreeDirs(tree);
    assert some in SnapshotOf(tree);
    forall ref | ref in SnapshotOf(tree) ensures SnapshotOf(tree)[ref] != map[] {
      FileMapOfSome(RegularFiles(TreeDirs(tree)[ref]));
    }
  }

  lemma SameSnapshotSameVerdict(tree: Tree, tables: map<TableRef, Facts>)
    requires FlatTree(tree) && StatesAll(tables, SnapshotOf(tree))
    ensures AllAccepted(tables) <==> TreeAccepted(tree)
    ensures tables == FactsOfDirs(TreeDirs(tree))
  {
    FactsJudgeFiles(tables, SnapshotOf(tree));
    FlatTreeJudged(tree);
    FlatTreeStates(tree);
    StatesAllUnique(tables, FactsOfDirs(TreeDirs(tree)), SnapshotOf(tree));
  }

  /** Whatever either walk may report: on one collected snapshot the archive walk
      accepts exactly when the directory walk does, the archive is within budget and no
      entry of it, file or directory, is named like a live directory's markers; then both
      hand on the same census. An archive over budget is refused as that, one with a
      marker within budget as live data. */
  lemma TreeAndArchiveAgree(tree: Tree, fromTree: Result<Census, Verdict>,
                            l: Layout, items: seq<Item>, archive: seq<TarEntry>, fromTar: TarResult)
    requires FlatTree(tree) && TreeVerdict(tree, fromTree)
    requires NamesShaped(l, SnapshotOf(tree)) && Lists(l, SnapshotOf(tree), items, archive)
    requires TarVerdict(TarStream(archive, true), fromTar)
    ensures fromTar.Listed? <==>
            && fromTree.Ok?
            && Affordable(TotalCharge(Map(Named, archive)))
            && NoMarkers(Map(Named, archive))
    ensures fromTar.Listed? ==> fromTar.census == fromTree.value
    ensures NoMarkers(Map(Named, archive)) && !Affordable(TotalCharge(Map(Named, archive))) ==> fromTar == Refused(TooMuchKept)
    ensures !NoMarkers(Map(Named, archive)) && Affordable(TotalCharge(Map(Named, archive))) ==> fromTar == Refused(LiveData)
  {
    SnapshotOfSome(tree);
    if NoMarkers(Map(Named, archive)) {
      WalkOfListing(l, SnapshotOf(tree), items, archive);
      var out := WalkAll(Map(Named, archive));
      if out.Continue? {
        SameSnapshotSameVerdict(tree, out.state.tables);
        if fromTar.Listed? {
          CensusUnique(fromTar.census, fromTree.value, out.state.tables);
        }
      }
    } else {
      LiveNamesEndWalk(l, SnapshotOf(tree), items, archive);
    }
  }

  // Where the walks part.

  /** A name sits where the archive walk looks for a live directory's markers: a file's
      under either layout, a table's under a wrapping directory. */
  ghost predicate LiveNamed(l: Layout, snapshot: Snapshot) {
    exists ref, name :: ref in snapshot && name in snapshot[ref] && (LiveMarker(name) || (l.Wrapped? && LiveMarker(ref.table)))
  }

  /** What `tar` adds to the files: the directories above them. */
  ghost predicate OnlyDirsBeside(l: Layout, snapshot: Snapshot, items: seq<Item>, archive: seq<TarEntry>)
    requires |items| == |archive|
  {
    forall i :: 0 <= i < |items| && items[i].OtherItem? ==>
      || |SplitTarName(archive[i].name)| <= 2
      || exists ref, name :: ref in snapshot && name in snapshot[ref] && SplitTarName(archive[i].name) < SegmentsOf(l, ref, name)
  }

  lemma FileMarkers(l: Layout, ref: TableRef, name: Text)
    ensures TarLiveMarker(SegmentsOf(l, ref, name)) != [] <==> LiveMarker(name) || (l.Wrapped? && LiveMarker(ref.table))
  {
    assert LiveMarkerAt(0) != [] && LiveMarkerAt(1) != [];
    assert !LiveMarker([]);
  }

  lemma DirMarkers(l: Layout, ref: TableRef, name: Text, above: seq<Text>)
    requires above < SegmentsOf(l, ref, name) && TarLiveMarker(above) != []
    ensures TarLiveMarker(SegmentsOf(l, ref, name)) != []
  {
    var all := SegmentsOf(l, ref, name);
    assert forall k :: 0 <= k < |above| ==> above[k] == all[k];
    FileMarkers(l, ref, name);
  }

  /** For an archive of the files and the directories above them, the condition can be
      read off the snapshot's names. */
  lemma MarkersAreLiveNames(l: Layout, snapshot: Snapshot, items: seq<Item>, archive: seq<TarEntry>)
    requires NamesShaped(l, snapshot) && Lists(l, snapshot, items, archive) && OnlyDirsBeside(l, snapshot, items, archive)
    ensures NoMarkers(Map(Named, archive)) <==> !LiveNamed(l, snapshot)
  {
    if LiveNamed(l, snapshot) {
      var ref, name :| ref in snapshot && name in snapshot[ref] && (LiveMarker(name) || (l.Wrapped? && LiveMarker(ref.table)));
      var i :| 0 <= i < |items| && items[i] == FileItem(ref, name);
      ListedSegments(l, snapshot, items[i], archive[i]);
      FileMarkers(l, ref, name);
      assert TarLiveMarker(Map(Named, archive)[i].segments) != [];
    } else {
      forall i | 0 <= i < |archive| ensures TarLiveMarker(Map(Named, archive)[i].segments) == [] {
        NoMarkerAt(l, snapshot, items, archive, i);
      }
    }
  }

  lemma NoMarkerAt(l: Layout, snapshot: Snapshot, items: seq<Item>, archive: seq<TarEntry>, i: nat)
    requires NamesShaped(l, snapshot) && Lists(l, snapshot, items, archive) && OnlyDirsBeside(l, snapshot, items, archive)
    requires !LiveNamed(l, snapshot) && i < |archive|
    ensures TarLiveMarker(SplitTarName(archive[i].name)) == []
  {
    var segments := SplitTarName(archive[i].name);
    match items[i]
    case FileItem(ref, name) =>
      ListedSegments(l, snapshot, items[i], archive[i]);
      FileMarkers(l, ref, name);
    case OtherItem =>
      if |segments| > 2 && TarLiveMarker(segments) != [] {
        var ref, name :| ref in snapshot && name in snapshot[ref] && segments < SegmentsOf(l, ref, name);
        DirMarkers(l, ref, name, segments);
        FileMarkers(l, ref, name);
      }
  }

  function OneFileTree(ref: TableRef, name: Text, body: Body): Tree {
    [KeyspaceDir(ref.keyspace, [TableDir(ref.table, [RegularFile(name, body, true)])])]
  }

  lemma OneFileDirs(ref: TableRef, name: Text, body: Body)
    ensures TreeDirs(OneFileTree(ref, name, body)) == map[ref := [RegularFile(name, body, true)]]
  {
    var entries := [RegularFile(name, body, true)];
    var tables := [TableDir(ref.table, entries)];
    var none: map<TableRef, seq<DirEntry>> := map[];
    assert tables[..0] == [];
    assert KeyspaceDirs(none, ref.keyspace, []) == none;
    assert KeyspaceDirs(none, ref.keyspace, tables) == none[ref := entries];
    var tree := OneFileTree(ref, name, body);
    assert tree[..0] == [] && TreeDirs([]) == none;
  }

  lemma OneFileMap(name: Text, body: Body)
    ensures RegularFiles([RegularFile(name, body, true)]) == [File(name, body)]
    ensures FileMap([File(name, body)]) == map[name := body]
  {
    var entries, files := [RegularFile(name, body, true)], [File(name, body)];
    var none: map<Text, Body> := map[];
    assert entries[..0] == [] && files[..0] == [];
    assert FileMap([]) == none;
    assert FileMap(files) == none[name := body];
  }

  lemma OneFileSnapshot(ref: TableRef, name: Text, body: Body)
    ensures SnapshotOf(OneFileTree(ref, name, body)) == map[ref := map[name := body]]
  {
    OneFileDirs(ref, name, body);
    OneFileMap(name, body);
  }

  lemma OneFileFlat(ref: TableRef, name: Text, body: Body)
    ensures FlatTree(OneFileTree(ref, name, body))
  {
    OneFileMap(name, body);
  }

  lemma TwoSegments(a: Text, b: Text)
    requires NameShape(a) && NameShape(b)
    ensures TarLiveMarker(SplitTarName(a + [SLASH] + b + [SLASH])) == []
  {
    assert [a, b][1..] == [b];
    assert Join(SLASH, [a, b]) == a + [SLASH] + b;
    SuffixOfConcat(a + [SLASH] + b, [SLASH]);
    PathHasNoDotInFront([a, b]);
    SplitJoin(SLASH, [a, b]);
  }

  lemma OneFileListed(ref: TableRef, name: Text, body: Body, dir: TarEntry, file: TarEntry)
    requires NameShape(ref.keyspace) && NameShape(ref.table) && NameShape(name)
    requires !dir.regular && dir.name == ref.keyspace + [SLASH] + ref.table + [SLASH]
    requires file.regular && file.readable && file.body == body && file.name == Join(SLASH, [ref.keyspace, ref.table, name])
    ensures Lists(Bare, map[ref := map[name := body]], [OtherItem, FileItem(ref, name)], [dir, file])
  {
    TwoSegments(ref.keyspace, ref.table);
    var items, archive := [OtherItem, FileItem(ref, name)], [dir, file];
    var snapshot: Snapshot := map[ref := map[name := body]];
    assert ListsItem(Bare, snapshot, items[0], archive[0]);
    assert HeaderOf(Bare, items[1], archive[1].name);
    assert ListsItem(Bare, snapshot, items[1], archive[1]);
    assert items[1] in items;
  }

  /** A tree of one file, and the archive `tar` makes of it, for every fit name: the
      agreement is about something. */
  lemma SmallestSnapshot(ref: TableRef, name: Text, body: Body)
    requires NameShape(ref.keyspace) && NameShape(ref.table) && NameShape(name)
    ensures var tree := OneFileTree(ref, name, body);
            var dir := TarEntry(ref.keyspace + [SLASH] + ref.table + [SLASH], false, body, true);
            var file := TarEntry(Join(SLASH, [ref.keyspace, ref.table, name]), true, body, true);
            && FlatTree(tree) && NamesShaped(Bare, SnapshotOf(tree))
            && Lists(Bare, SnapshotOf(tree), [OtherItem, FileItem(ref, name)], [dir, file])
  {
    OneFileFlat(ref, name, body);
    OneFileSnapshot(ref, name, body);
    OneFileListed(ref, name, body,
                  TarEntry(ref.keyspace + [SLASH] + ref.table + [SLASH], false, body, true),
                  TarEntry(Join(SLASH, [ref.keyspace, ref.table, name]), true, body, true));
  }
}

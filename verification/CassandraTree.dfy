/** adapters/cassandra/meta.go: the directory walk over a collected snapshot,
    keyspaces first, tables second. */
module CassandraTree {
  import opened Wrappers
  import opened Bytes
  import opened Ordering
  import opened CassandraFacts
  import opened CassandraCensus

  // What os.ReadDir lists, level by level.
  datatype DirEntry =
    | RegularFile(name: Text, body: Body, readable: bool)
    | Subdirectory(name: Text)
    | SpecialFile(name: Text)

  datatype TableEntry =
    | TableDir(name: Text, entries: seq<DirEntry>)
    | StrayInKeyspace(name: Text)

  datatype KeyspaceEntry =
    | KeyspaceDir(name: Text, tables: seq<TableEntry>)
    | StrayInRoot(name: Text)

  type Tree = seq<KeyspaceEntry>

  function DirEntryFacts(f: Facts, e: DirEntry): Facts {
    match e
    case RegularFile(name, body, _) => Record(f, name, body)
    case Subdirectory(name) => if LiveMarker(name) then f.(liveMarker := name) else f
    case SpecialFile(_) => f
  }

  /** tableFactsFromDir */
  function DirFacts(entries: seq<DirEntry>): Facts {
    if entries == [] then NO_FACTS
    else DirEntryFacts(DirFacts(entries[..|entries| - 1]), entries[|entries| - 1])
  }

  predicate EntryReadable(e: DirEntry) {
    e.RegularFile? && TouchesBody(e.name) ==> e.readable
  }

  predicate DirReadable(entries: seq<DirEntry>) {
    forall i {:trigger EntryReadable(entries[i])} :: 0 <= i < |entries| ==> EntryReadable(entries[i])
  }

  /** The body of tableFactsFromDir's loop. */
  method RecordDirEntry(facts: TableFacts, e: DirEntry) returns (ok: bool)
    modifies facts
    ensures ok <==> EntryReadable(e)
    ensures ok ==> facts.View() == DirEntryFacts(old(facts.View()), e)
  {
    match e {
      case RegularFile(name, body, readable) =>
        var outcome := facts.RecordEntry(name, body, readable, null);
        return outcome == Recorded;
      case Subdirectory(name) =>
        if LiveMarker(name) {
          facts.liveMarker := name;
        }
        return true;
      case SpecialFile(_) =>
        return true;
    }
  }

  /** The k-th step of a run of the loop below. */
  ghost predicate StepAt(states: seq<Facts>, entries: seq<DirEntry>, k: nat)
    requires k + 1 < |states| && k < |entries|
  {
    states[k + 1] == DirEntryFacts(states[k], entries[k])
  }

  lemma {:induction false} StepsGather(states: seq<Facts>, entries: seq<DirEntry>)
    requires |states| == |entries| + 1 && states[0] == NO_FACTS
    requires forall k {:trigger StepAt(states, entries, k)} :: 0 <= k < |entries| ==> StepAt(states, entries, k)
    ensures states[|entries|] == DirFacts(entries)
  {
    if entries != [] {
      var n := |entries| - 1;
      var before, init := states[..n + 1], entries[..n];
      forall k {:trigger StepAt(before, init, k)} | 0 <= k < n ensures StepAt(before, init, k) {
        assert StepAt(states, entries, k);
      }
      StepsGather(before, init);
      assert StepAt(states, entries, n);
    }
  }

  lemma StepMore(states: seq<Facts>, entries: seq<DirEntry>, i: nat, next: Facts)
    requires i < |entries| && |states| == i + 1
    requires forall k {:trigger StepAt(states, entries, k)} :: 0 <= k < i ==> StepAt(states, entries, k)
    requires next == DirEntryFacts(states[i], entries[i])
    ensures forall k {:trigger StepAt(states + [next], entries, k)} :: 0 <= k < i + 1 ==> StepAt(states + [next], entries, k)
  {
    forall k | 0 <= k < i ensures StepAt(states + [next], entries, k) {
      assert StepAt(states, entries, k);
    }
  }

  method TableFactsFromDir(entries: seq<DirEntry>) returns (facts: TableFacts, ok: bool)
    ensures fresh(facts)
    ensures ok <==> DirReadable(entries)
    ensures ok ==> facts.View() == DirFacts(entries)
  {
    facts := new TableFacts();
    ghost var states := [facts.View()];
    for i := 0 to |entries|
      invariant fresh(facts)
      invariant forall k {:trigger EntryReadable(entries[k])} :: 0 <= k < i ==> EntryReadable(entries[k])
      invariant |states| == i + 1 && states[0] == NO_FACTS && states[i] == facts.View()
      invariant forall k {:trigger StepAt(states, entries, k)} :: 0 <= k < i ==> StepAt(states, entries, k)
    {
      ok := RecordDirEntry(facts, entries[i]);
      if !ok {
        return;
      }
      StepMore(states, entries, i, facts.View());
      states := states + [facts.View()];
    }
    StepsGather(states, entries);
    ok := true;
  }

  // What the walk makes of a table directory, over its entries themselves.

  function RegularFiles(entries: seq<DirEntry>): seq<File> {
    if entries == [] then []
    else
      var files := RegularFiles(entries[..|entries| - 1]);
      match entries[|entries| - 1]
      case RegularFile(name, body, _) => files + [File(name, body)]
      case _ => files
  }

  /** A subdirectory that only a live data directory holds is among them. */
  ghost predicate HoldsMarker(entries: seq<DirEntry>) {
    Subdirectory(Ascii("snapshots")) in entries || Subdirectory(Ascii("backups")) in entries
  }

  ghost predicate FilesReadable(entries: seq<DirEntry>) {
    forall k :: 0 <= k < |entries| && entries[k].RegularFile? && MustRead(entries[k].name) ==> entries[k].readable
  }

  lemma MarkedNext(entries: seq<DirEntry>, e: DirEntry)
    ensures HoldsMarker(entries + [e]) <==> HoldsMarker(entries) || (e.Subdirectory? && LiveMarker(e.name))
  {
    MarkerNames(e.name);
    assert forall x :: x in entries + [e] <==> x in entries || x == e;
  }

  lemma RegularFilesSnoc(entries: seq<DirEntry>, e: DirEntry)
    ensures RegularFiles(entries + [e]) ==
            if e.RegularFile? then RegularFiles(entries) + [File(e.name, e.body)] else RegularFiles(entries)
  {
    assert (entries + [e])[..|entries|] == entries;
  }

  lemma RecordAllSnoc(files: seq<File>, f: File)
    ensures RecordAll(files + [f]) == Record(RecordAll(files), f.name, f.body)
  {
    assert (files + [f])[..|files|] == files;
  }

  lemma DirFactsNext(entries: seq<DirEntry>, e: DirEntry)
    requires DirFacts(entries).(liveMarker := []) == RecordAll(RegularFiles(entries))
    requires DirFacts(entries).liveMarker != [] <==> HoldsMarker(entries)
    ensures var f := DirEntryFacts(DirFacts(entries), e);
            && f.(liveMarker := []) == RecordAll(RegularFiles(entries + [e]))
            && (f.liveMarker != [] <==> HoldsMarker(entries + [e]))
  {
    MarkedNext(entries, e);
    RegularFilesSnoc(entries, e);
    match e
    case RegularFile(name, body, _) =>
      RecordAllSnoc(RegularFiles(entries), File(name, body));
      RecordKeepsMarker(DirFacts(entries), name, body, []);
    case Subdirectory(name) => MarkerNames(name);
    case SpecialFile(_) =>
  }

  /** Only regular files are recorded, and a live marker exactly when one is there. */
  lemma {:induction false} DirFactsAre(entries: seq<DirEntry>)
    ensures DirFacts(entries).(liveMarker := []) == RecordAll(RegularFiles(entries))
    ensures DirFacts(entries).liveMarker != [] <==> HoldsMarker(entries)
  {
    if entries != [] {
      var init, e := entries[..|entries| - 1], entries[|entries| - 1];
      DirFactsAre(init);
      DirFactsNext(init, e);
      assert entries == init + [e];
    }
  }

  lemma {:induction false} RegularFilesAre(entries: seq<DirEntry>, f: File)
    ensures f in RegularFiles(entries) <==> exists k :: 0 <= k < |entries| && entries[k].RegularFile? && File(entries[k].name, entries[k].body) == f
  {
    if entries != [] {
      var init := entries[..|entries| - 1];
      RegularFilesAre(init, f);
      if k :| 0 <= k < |init| && init[k].RegularFile? && File(init[k].name, init[k].body) == f {
        assert entries[k] == init[k];
      }
      if k :| 0 <= k < |entries| && entries[k].RegularFile? && File(entries[k].name, entries[k].body) == f {
        assert k < |init| ==> init[k] == entries[k];
      }
    }
  }

  lemma ReadableAre(entries: seq<DirEntry>)
    ensures DirReadable(entries) <==> FilesReadable(entries)
  {
    forall k | 0 <= k < |entries|
      ensures EntryReadable(entries[k]) <==> (entries[k].RegularFile? && MustRead(entries[k].name) ==> entries[k].readable)
    {
      BodiesByName(entries[k].name);
    }
  }

  ghost predicate TableDirAccepted(tb: TableEntry) {
    tb.TableDir? ==> NameAccepted(tb.name) && DirReadable(tb.entries) && TableAccepted(DirFacts(tb.entries))
  }

  ghost predicate KeyspaceAccepted(ks: KeyspaceEntry) {
    ks.KeyspaceDir? ==> NameAccepted(ks.name) && forall i {:trigger TableDirAccepted(ks.tables[i])} :: 0 <= i < |ks.tables| ==> TableDirAccepted(ks.tables[i])
  }

  /** What is answered for one entry of a keyspace directory. */
  ghost function TableDirVerdict(tb: TableEntry): (v: Option<Verdict>)
    ensures v.None? <==> TableDirAccepted(tb)
  {
    if !tb.TableDir? then None
    else if !NameAccepted(tb.name) then JudgeName(tb.name)
    else if !DirReadable(tb.entries) then Some(Unreadable)
    else TableVerdict(DirFacts(tb.entries))
  }

  ghost predicate FirstUnfitTable(tables: seq<TableEntry>, j: int) {
    && 0 <= j < |tables| && !TableDirAccepted(tables[j])
    && forall k {:trigger TableDirAccepted(tables[k])} :: 0 <= k < j ==> TableDirAccepted(tables[k])
  }

  /** The first unfit table names the refusal. */
  ghost predicate TablesRefused(tables: seq<TableEntry>, v: Verdict) {
    exists j :: FirstUnfitTable(tables, j) && TableDirVerdict(tables[j]) == Some(v)
  }

  ghost predicate KeyspaceRefused(ks: KeyspaceEntry, v: Verdict) {
    ks.KeyspaceDir? && if NameAccepted(ks.name) then TablesRefused(ks.tables, v) else JudgeName(ks.name) == Some(v)
  }

  ghost predicate FirstUnfitKeyspace(tree: Tree, i: int) {
    && 0 <= i < |tree| && !KeyspaceAccepted(tree[i])
    && forall k {:trigger KeyspaceAccepted(tree[k])} :: 0 <= k < i ==> KeyspaceAccepted(tree[k])
  }

  /** The first unfit keyspace does, and else there is no table. */
  ghost predicate TreeRefused(tree: Tree, v: Verdict) {
    if forall i {:trigger KeyspaceAccepted(tree[i])} :: 0 <= i < |tree| ==> KeyspaceAccepted(tree[i]) then v == EmptySnapshot
    else exists i :: FirstUnfitKeyspace(tree, i) && KeyspaceRefused(tree[i], v)
  }

  /** The table directories below one keyspace, added to those met before. */
  function KeyspaceDirs(met: map<TableRef, seq<DirEntry>>, keyspace: Text, tables: seq<TableEntry>): map<TableRef, seq<DirEntry>> {
    if tables == [] then met
    else
      var dirs := KeyspaceDirs(met, keyspace, tables[..|tables| - 1]);
      match tables[|tables| - 1]
      case TableDir(name, entries) => dirs[TableRef(keyspace, name) := entries]
      case StrayInKeyspace(_) => dirs
  }

  /** Every table directory of the tree. */
  function TreeDirs(tree: Tree): map<TableRef, seq<DirEntry>> {
    if tree == [] then map[]
    else
      var dirs := TreeDirs(tree[..|tree| - 1]);
      match tree[|tree| - 1]
      case KeyspaceDir(name, tables) => KeyspaceDirs(dirs, name, tables)
      case StrayInRoot(_) => dirs
  }

  function FactsOfDirs(dirs: map<TableRef, seq<DirEntry>>): map<TableRef, Facts> {
    map ref | ref in dirs :: DirFacts(dirs[ref])
  }

  /** A directory never lists one name twice. */
  ghost predicate DistinctTables(tables: seq<TableEntry>) {
    forall i, j :: 0 <= i < j < |tables| && tables[i].TableDir? && tables[j].TableDir? ==> tables[i].name != tables[j].name
  }

  ghost predicate DistinctTree(tree: Tree) {
    && (forall i, j :: 0 <= i < j < |tree| && tree[i].KeyspaceDir? && tree[j].KeyspaceDir? ==> tree[i].name != tree[j].name)
    && (forall i :: 0 <= i < |tree| && tree[i].KeyspaceDir? ==> DistinctTables(tree[i].tables))
  }

  lemma {:induction false} KeyspaceDirsDomain(met: map<TableRef, seq<DirEntry>>, keyspace: Text, tables: seq<TableEntry>)
    ensures forall ref :: ref in KeyspaceDirs(met, keyspace, tables) ==>
              ref in met || (ref.keyspace == keyspace && exists i :: 0 <= i < |tables| && tables[i].TableDir? && tables[i].name == ref.table)
  {
    if tables != [] {
      var init := tables[..|tables| - 1];
      KeyspaceDirsDomain(met, keyspace, init);
      forall ref | ref in KeyspaceDirs(met, keyspace, tables) && ref !in met
        ensures ref.keyspace == keyspace && exists i :: 0 <= i < |tables| && tables[i].TableDir? && tables[i].name == ref.table
      {
        if ref in KeyspaceDirs(met, keyspace, init) {
          var i :| 0 <= i < |init| && init[i].TableDir? && init[i].name == ref.table;
          assert tables[i] == init[i];
        }
      }
    }
  }

  lemma {:induction false} TreeDirsDomain(tree: Tree)
    ensures forall ref :: ref in TreeDirs(tree) ==> exists i :: 0 <= i < |tree| && tree[i].KeyspaceDir? && tree[i].name == ref.keyspace
  {
    if tree != [] {
      var init, last := tree[..|tree| - 1], tree[|tree| - 1];
      TreeDirsDomain(init);
      if last.KeyspaceDir? {
        KeyspaceDirsDomain(TreeDirs(init), last.name, last.tables);
      }
      forall ref | ref in TreeDirs(tree)
        ensures exists i :: 0 <= i < |tree| && tree[i].KeyspaceDir? && tree[i].name == ref.keyspace
      {
        if ref in TreeDirs(init) {
          var i :| 0 <= i < |init| && init[i].KeyspaceDir? && init[i].name == ref.keyspace;
          assert tree[i] == init[i];
        } else {
          assert tree[|tree| - 1] == last;
        }
      }
    }
  }

  /** A table met next, in a keyspace met next, is new. */
  lemma NextTableIsNew(tree: Tree, i: nat, j: nat)
    requires DistinctTree(tree) && i < |tree| && tree[i].KeyspaceDir?
    requires j < |tree[i].tables| && tree[i].tables[j].TableDir?
    ensures TableRef(tree[i].name, tree[i].tables[j].name) !in KeyspaceDirs(TreeDirs(tree[..i]), tree[i].name, tree[i].tables[..j])
  {
    TreeDirsDomain(tree[..i]);
    KeyspaceDirsDomain(TreeDirs(tree[..i]), tree[i].name, tree[i].tables[..j]);
    assert DistinctTables(tree[i].tables);
  }

  /** The census of everything before the i-th keyspace and of its first j entries. */
  ghost predicate GathersTo(tree: Tree, i: nat, j: nat, census: Census)
    requires i < |tree| && tree[i].KeyspaceDir? && j <= |tree[i].tables|
  {
    Gathers(census, FactsOfDirs(KeyspaceDirs(TreeDirs(tree[..i]), tree[i].name, tree[i].tables[..j])))
  }

  lemma NextTableGathers(tree: Tree, i: nat, j: nat, census: Census)
    requires DistinctTree(tree) && i < |tree| && tree[i].KeyspaceDir?
    requires j < |tree[i].tables| && tree[i].tables[j].TableDir?
    requires GathersTo(tree, i, j, census)
    ensures var ref := TableRef(tree[i].name, tree[i].tables[j].name);
            GathersTo(tree, i, j + 1, WithTable(census, ref, DirFacts(tree[i].tables[j].entries)))
  {
    var tables := tree[i].tables;
    assert tables[..j + 1][..j] == tables[..j];
    NextTableIsNew(tree, i, j);
    var before := KeyspaceDirs(TreeDirs(tree[..i]), tree[i].name, tables[..j]);
    var ref, f := TableRef(tree[i].name, tables[j].name), DirFacts(tables[j].entries);
    GathersOneMore(census, FactsOfDirs(before), ref, f);
    assert FactsOfDirs(before[ref := tables[j].entries]) == FactsOfDirs(before)[ref := f];
  }

  ghost predicate TreeAccepted(tree: Tree) {
    && (forall i {:trigger KeyspaceAccepted(tree[i])} :: 0 <= i < |tree| ==> KeyspaceAccepted(tree[i]))
    && TreeDirs(tree) != map[]
  }

  /** The body of inspectKeyspaceDir's loop: one table directory. */
  method InspectTableDir(tb: TableEntry) returns (f: Facts, verdict: Option<Verdict>)
    requires tb.TableDir?
    ensures verdict == TableDirVerdict(tb)
    ensures verdict.None? ==> f == DirFacts(tb.entries)
    ensures verdict == Some(LiveData) <==> NameAccepted(tb.name) && FilesReadable(tb.entries) && HoldsMarker(tb.entries)
  {
    ReadableAre(tb.entries);
    DirFactsAre(tb.entries);
    f := NO_FACTS;
    verdict := JudgeName(tb.name);
    if verdict.Some? {
      return;
    }
    var facts, ok := TableFactsFromDir(tb.entries);
    if !ok {
      return f, Some(Unreadable);
    }
    f := facts.View();
    verdict := JudgeTable(f);
  }

  lemma GathersEnds(tree: Tree, i: nat, census: Census)
    requires i < |tree| && tree[i].KeyspaceDir?
    ensures Gathers(census, FactsOfDirs(TreeDirs(tree[..i]))) <==> GathersTo(tree, i, 0, census)
    ensures GathersTo(tree, i, |tree[i].tables|, census) <==> Gathers(census, FactsOfDirs(TreeDirs(tree[..i + 1])))
  {
    var tables := tree[i].tables;
    assert tree[..i + 1][..i] == tree[..i];
    assert tables[..0] == [] && tables[..|tables|] == tables;
  }

  lemma StrayGathers(tree: Tree, i: nat, j: nat, census: Census)
    requires i < |tree| && tree[i].KeyspaceDir? && j < |tree[i].tables| && !tree[i].tables[j].TableDir?
    requires GathersTo(tree, i, j, census)
    ensures GathersTo(tree, i, j + 1, census)
  {
    assert tree[i].tables[..j + 1][..j] == tree[i].tables[..j];
  }

  /** The body of inspectKeyspaceDir's loop. */
  method InspectTableEntry(tree: Tree, i: nat, j: nat, census: Census) returns (out: Result<Census, Verdict>)
    requires DistinctTree(tree) && i < |tree| && tree[i].KeyspaceDir? && j < |tree[i].tables|
    requires GathersTo(tree, i, j, census)
    ensures out.Ok? <==> TableDirAccepted(tree[i].tables[j])
    ensures out.Err? ==> TableDirVerdict(tree[i].tables[j]) == Some(out.error)
    ensures out.Ok? ==> GathersTo(tree, i, j + 1, out.value)
  {
    var table := tree[i].tables[j];
    if !table.TableDir? {
      StrayGathers(tree, i, j, census);
      return Ok(census);
    }
    var facts, verdict := InspectTableDir(table);
    if verdict.Some? {
      return Err(verdict.value);
    }
    NextTableGathers(tree, i, j, census);
    return Ok(WithTable(census, TableRef(tree[i].name, table.name), facts));
  }

  /** inspectKeyspaceDir, for the keyspace at position i of the tree. */
  method InspectKeyspaceDir(tree: Tree, i: nat, census: Census) returns (out: Result<Census, Verdict>)
    requires DistinctTree(tree) && i < |tree| && tree[i].KeyspaceDir?
    requires Gathers(census, FactsOfDirs(TreeDirs(tree[..i])))
    ensures out.Ok? <==>
            forall j {:trigger TableDirAccepted(tree[i].tables[j])} :: 0 <= j < |tree[i].tables| ==> TableDirAccepted(tree[i].tables[j])
    ensures out.Ok? ==> Gathers(out.value, FactsOfDirs(TreeDirs(tree[..i + 1])))
    ensures out.Err? ==> TablesRefused(tree[i].tables, out.error)
  {
    out := Ok(census);
    GathersEnds(tree, i, census);
    for j := 0 to |tree[i].tables|
      invariant forall k {:trigger TableDirAccepted(tree[i].tables[k])} :: 0 <= k < j ==> TableDirAccepted(tree[i].tables[k])
      invariant out.Ok? && GathersTo(tree, i, j, out.value)
    {
      out := InspectTableEntry(tree, i, j, out.value);
      if out.Err? {
        assert FirstUnfitTable(tree[i].tables, j);
        return;
      }
    }
    GathersEnds(tree, i, out.value);
  }

  /** Accepted exactly when every directory of the tree is, and then with the tree's
      census; otherwise refused for the first that is not. */
  ghost predicate TreeVerdict(tree: Tree, out: Result<Census, Verdict>) {
    && (out.Ok? <==> TreeAccepted(tree))
    && (out.Ok? ==> IsCensus(out.value, FactsOfDirs(TreeDirs(tree))))
    && (out.Err? ==> TreeRefused(tree, out.error))
  }

  lemma StrayInRootGathers(tree: Tree, i: nat, census: Census)
    requires i < |tree| && !tree[i].KeyspaceDir? && Gathers(census, FactsOfDirs(TreeDirs(tree[..i])))
    ensures Gathers(census, FactsOfDirs(TreeDirs(tree[..i + 1])))
  {
    assert tree[..i + 1][..i] == tree[..i];
  }

  /** The body of inspectSnapshotTree's loop. */
  method InspectKeyspaceEntry(tree: Tree, i: nat, census: Census) returns (out: Result<Census, Verdict>)
    requires DistinctTree(tree) && i < |tree| && Gathers(census, FactsOfDirs(TreeDirs(tree[..i])))
    ensures out.Ok? <==> KeyspaceAccepted(tree[i])
    ensures out.Err? ==> KeyspaceRefused(tree[i], out.error)
    ensures out.Ok? ==> Gathers(out.value, FactsOfDirs(TreeDirs(tree[..i + 1])))
  {
    if !tree[i].KeyspaceDir? {
      StrayInRootGathers(tree, i, census);
      return Ok(census);
    }
    var unfit := JudgeName(tree[i].name);
    if unfit.Some? {
      return Err(unfit.value);
    }
    out := InspectKeyspaceDir(tree, i, census);
  }

  lemma CensusOfTree(tree: Tree, census: Census)
    requires Gathers(census, FactsOfDirs(TreeDirs(tree)))
    ensures TreeDirs(tree) == map[] <==> census.tables == []
    ensures IsCensus(census.(tables := Sort(RefLess, census.tables)), FactsOfDirs(TreeDirs(tree)))
  {
    SortedCensus(census, FactsOfDirs(TreeDirs(tree)));
    if census.tables != [] {
      assert census.tables[0] in FactsOfDirs(TreeDirs(tree));
    }
    if TreeDirs(tree) != map[] {
      var ref :| ref in TreeDirs(tree);
      assert ref in FactsOfDirs(TreeDirs(tree));
    }
  }

  /** The end of inspectSnapshotTree: a tree without a table is refused. */
  method FinishTree(tree: Tree, census: Census) returns (out: Result<Census, Verdict>)
    requires forall i {:trigger KeyspaceAccepted(tree[i])} :: 0 <= i < |tree| ==> KeyspaceAccepted(tree[i])
    requires Gathers(census, FactsOfDirs(TreeDirs(tree)))
    ensures TreeVerdict(tree, out)
  {
    CensusOfTree(tree, census);
    if |census.tables| == 0 {
      return Err(EmptySnapshot);
    }
    return Ok(census.(tables := Sort(RefLess, census.tables)));
  }

  /** inspectSnapshotTree */
  method InspectSnapshotTree(tree: Tree) returns (out: Result<Census, Verdict>)
    requires DistinctTree(tree)
    ensures TreeVerdict(tree, out)
  {
    out := Ok(Census([], 0));
    for i := 0 to |tree|
      invariant forall k {:trigger KeyspaceAccepted(tree[k])} :: 0 <= k < i ==> KeyspaceAccepted(tree[k])
      invariant out.Ok? && Gathers(out.value, FactsOfDirs(TreeDirs(tree[..i])))
    {
      out := InspectKeyspaceEntry(tree, i, out.value);
      if out.Err? {
        assert FirstUnfitKeyspace(tree, i);
        return;
      }
    }
    assert tree[..|tree|] == tree;
    out := FinishTree(tree, out.value);
  }

  // The collected snapshots the archive comparison is about.

  /** A flat table directory: readable regular files only, at least one, no name
      twice. */
  ghost predicate FlatTable(entries: seq<DirEntry>) {
    && entries != []
    && (forall i :: 0 <= i < |entries| ==> entries[i].RegularFile? && entries[i].readable)
    && DistinctNames(RegularFiles(entries))
  }

  /** A collected snapshot: nothing outside the table directories, no empty keyspace
      directory. */
  ghost predicate FlatTree(tree: Tree) {
    && tree != []
    && DistinctTree(tree)
    && (forall i :: 0 <= i < |tree| ==> tree[i].KeyspaceDir? && tree[i].tables != [])
    && (forall i, j :: 0 <= i < |tree| && 0 <= j < |tree[i].tables| ==>
          tree[i].tables[j].TableDir? && FlatTable(tree[i].tables[j].entries))
  }

  /** What one table directory is answered: for its name, for a file that cannot be read,
      as live data for either subdirectory, and else what its files deserve, whatever else
      it holds. */
  lemma TableDirJudged(tb: TableEntry)
    requires tb.TableDir? && DistinctNames(RegularFiles(tb.entries))
    ensures TableDirVerdict(tb) ==
            if !NameAccepted(tb.name) then JudgeName(tb.name)
            else if !FilesReadable(tb.entries) then Some(Unreadable)
            else if HoldsMarker(tb.entries) then Some(LiveData)
            else FilesVerdict(FileMap(RegularFiles(tb.entries)))
  {
    ReadableAre(tb.entries);
    DirFactsAre(tb.entries);
    RecordAllStates(RegularFiles(tb.entries));
    if !HoldsMarker(tb.entries) {
      assert DirFacts(tb.entries) == RecordAll(RegularFiles(tb.entries));
      VerdictOnFiles(DirFacts(tb.entries), FileMap(RegularFiles(tb.entries)));
    }
  }

  lemma {:induction false} KeyspaceDirsHold(met: map<TableRef, seq<DirEntry>>, keyspace: Text, tables: seq<TableEntry>)
    requires DistinctTables(tables)
    requires forall ref :: ref in met ==> ref.keyspace != keyspace
    ensures forall ref :: ref in met ==> ref in KeyspaceDirs(met, keyspace, tables) && KeyspaceDirs(met, keyspace, tables)[ref] == met[ref]
    ensures forall i :: 0 <= i < |tables| && tables[i].TableDir? ==>
              var ref := TableRef(keyspace, tables[i].name);
              ref in KeyspaceDirs(met, keyspace, tables) && KeyspaceDirs(met, keyspace, tables)[ref] == tables[i].entries
  {
    if tables != [] {
      var init, last := tables[..|tables| - 1], tables[|tables| - 1];
      KeyspaceDirsHold(met, keyspace, init);
      forall i | 0 <= i < |tables| && tables[i].TableDir?
        ensures var ref := TableRef(keyspace, tables[i].name);
                ref in KeyspaceDirs(met, keyspace, tables) && KeyspaceDirs(met, keyspace, tables)[ref] == tables[i].entries
      {
        if i < |init| { assert tables[i] == init[i]; }
      }
    }
  }

  /** Every table directory of the tree is found under its own name. */
  lemma {:induction false} TreeDirsHold(tree: Tree)
    requires DistinctTree(tree)
    ensures forall i, j :: 0 <= i < |tree| && tree[i].KeyspaceDir? && 0 <= j < |tree[i].tables| && tree[i].tables[j].TableDir? ==>
              var ref := TableRef(tree[i].name, tree[i].tables[j].name);
              ref in TreeDirs(tree) && TreeDirs(tree)[ref] == tree[i].tables[j].entries
  {
    if tree != [] {
      var init, last := tree[..|tree| - 1], tree[|tree| - 1];
      TreeDirsHold(init);
      TreeDirsDomain(init);
      if last.KeyspaceDir? {
        KeyspaceDirsHold(TreeDirs(init), last.name, last.tables);
      }
      forall i, j | 0 <= i < |tree| && tree[i].KeyspaceDir? && 0 <= j < |tree[i].tables| && tree[i].tables[j].TableDir?
        ensures var ref := TableRef(tree[i].name, tree[i].tables[j].name);
                ref in TreeDirs(tree) && TreeDirs(tree)[ref] == tree[i].tables[j].entries
      {
        if i < |init| { assert tree[i] == init[i]; }
      }
    }
  }

  lemma {:induction false} TreeDirsFrom(tree: Tree, ref: TableRef)
    requires ref in TreeDirs(tree)
    ensures exists i, j :: 0 <= i < |tree| && tree[i].KeyspaceDir? && 0 <= j < |tree[i].tables| &&
                           tree[i].tables[j] == TableDir(ref.table, TreeDirs(tree)[ref]) && tree[i].name == ref.keyspace
  {
    var init, last := tree[..|tree| - 1], tree[|tree| - 1];
    if last.KeyspaceDir? && KeyspaceDirFrom(TreeDirs(init), last.name, last.tables, ref) {
      var j :| 0 <= j < |last.tables| && last.tables[j] == TableDir(ref.table, TreeDirs(tree)[ref]);
      assert tree[|tree| - 1].tables[j] == last.tables[j];
    } else {
      if last.KeyspaceDir? { KeyspaceDirsFrom(TreeDirs(init), last.name, last.tables, ref); }
      TreeDirsFrom(init, ref);
      var i, j :| 0 <= i < |init| && init[i].KeyspaceDir? && 0 <= j < |init[i].tables| &&
                  init[i].tables[j] == TableDir(ref.table, TreeDirs(init)[ref]) && init[i].name == ref.keyspace;
      assert tree[i] == init[i];
    }
  }

  ghost predicate KeyspaceDirFrom(met: map<TableRef, seq<DirEntry>>, keyspace: Text, tables: seq<TableEntry>, ref: TableRef) {
    var dirs := KeyspaceDirs(met, keyspace, tables);
    ref in dirs && ref.keyspace == keyspace && exists j :: 0 <= j < |tables| && tables[j] == TableDir(ref.table, dirs[ref])
  }

  lemma {:induction false} KeyspaceDirsFrom(met: map<TableRef, seq<DirEntry>>, keyspace: Text, tables: seq<TableEntry>, ref: TableRef)
    requires ref in KeyspaceDirs(met, keyspace, tables)
    ensures KeyspaceDirFrom(met, keyspace, tables, ref) || (ref in met && met[ref] == KeyspaceDirs(met, keyspace, tables)[ref])
  {
    if tables != [] {
      var init, last := tables[..|tables| - 1], tables[|tables| - 1];
      if last.TableDir? && TableRef(keyspace, last.name) == ref {
        assert tables[|tables| - 1] == TableDir(ref.table, KeyspaceDirs(met, keyspace, tables)[ref]);
      } else {
        KeyspaceDirsFrom(met, keyspace, init, ref);
        if KeyspaceDirFrom(met, keyspace, init, ref) {
          var j :| 0 <= j < |init| && init[j] == TableDir(ref.table, KeyspaceDirs(met, keyspace, init)[ref]);
          assert tables[j] == init[j];
        }
      }
    }
  }

  /** What the tree's table directories hold. */
  function SnapshotOf(tree: Tree): map<TableRef, map<Text, Body>> {
    map ref | ref in TreeDirs(tree) :: FileMap(RegularFiles(TreeDirs(tree)[ref]))
  }

  lemma FlatTreeDirs(tree: Tree)
    requires FlatTree(tree)
    ensures TreeDirs(tree) != map[]
    ensures forall ref :: ref in TreeDirs(tree) ==> FlatTable(TreeDirs(tree)[ref])
  {
    TreeDirsHold(tree);
    assert TableRef(tree[0].name, tree[0].tables[0].name) in TreeDirs(tree);
    forall ref | ref in TreeDirs(tree) ensures FlatTable(TreeDirs(tree)[ref]) {
      TreeDirsFrom(tree, ref);
    }
  }

  ghost predicate IsTableAt(tree: Tree, i: int, j: int) {
    0 <= i < |tree| && tree[i].KeyspaceDir? && 0 <= j < |tree[i].tables| && tree[i].tables[j].TableDir?
  }

  /** No directory lists a file twice. */
  ghost predicate FilesListedOnce(tree: Tree) {
    forall i, j :: IsTableAt(tree, i, j) ==> DistinctNames(RegularFiles(tree[i].tables[j].entries))
  }

  ghost predicate TreeReadable(tree: Tree) {
    forall i, j :: IsTableAt(tree, i, j) ==> FilesReadable(tree[i].tables[j].entries)
  }

  /** Some table directory holds a live marker. */
  ghost predicate LiveTree(tree: Tree) {
    exists i, j :: IsTableAt(tree, i, j) && HoldsMarker(tree[i].tables[j].entries)
  }

  /** Every keyspace directory has a fit name, even one without tables. */
  ghost predicate KeyspacesFit(tree: Tree) {
    forall i :: 0 <= i < |tree| && tree[i].KeyspaceDir? ==> NameAccepted(tree[i].name)
  }

  /** The snapshot of a tree is its regular files, table by table. */
  lemma SnapshotHolds(tree: Tree, ref: TableRef, name: Text, body: Body)
    requires DistinctTree(tree) && FilesListedOnce(tree)
    ensures (ref in SnapshotOf(tree) && name in SnapshotOf(tree)[ref] && SnapshotOf(tree)[ref][name] == body) <==>
            exists i, j, k :: IsFileAt(tree, i, j, k, ref, name, body)
    ensures ref in SnapshotOf(tree) <==> exists i, j :: IsTableAt(tree, i, j) && TableRef(tree[i].name, tree[i].tables[j].name) == ref
  {
    TreeDirsHold(tree);
    if ref in SnapshotOf(tree) {
      TreeDirsFrom(tree, ref);
      var i, j :| 0 <= i < |tree| && tree[i].KeyspaceDir? && 0 <= j < |tree[i].tables| &&
                  tree[i].tables[j] == TableDir(ref.table, TreeDirs(tree)[ref]) && tree[i].name == ref.keyspace;
      assert IsTableAt(tree, i, j);
      var files := RegularFiles(TreeDirs(tree)[ref]);
      FileMapIs(files, name, body);
      RegularFilesAre(TreeDirs(tree)[ref], File(name, body));
      if k :| 0 <= k < |TreeDirs(tree)[ref]| && TreeDirs(tree)[ref][k].RegularFile? &&
              File(TreeDirs(tree)[ref][k].name, TreeDirs(tree)[ref][k].body) == File(name, body) {
        assert IsFileAt(tree, i, j, k, ref, name, body);
      }
    }
    if i, j, k :| IsFileAt(tree, i, j, k, ref, name, body) {
      RegularFilesAre(tree[i].tables[j].entries, File(name, body));
    }
  }

  ghost predicate IsFileAt(tree: Tree, i: int, j: int, k: int, ref: TableRef, name: Text, body: Body) {
    && IsTableAt(tree, i, j) && TableRef(tree[i].name, tree[i].tables[j].name) == ref
    && 0 <= k < |tree[i].tables[j].entries| && tree[i].tables[j].entries[k].RegularFile?
    && tree[i].tables[j].entries[k].name == name && tree[i].tables[j].entries[k].body == body
  }

  lemma FileMapIs(files: seq<File>, name: Text, body: Body)
    requires DistinctNames(files)
    ensures (name in FileMap(files) && FileMap(files)[name] == body) <==> File(name, body) in files
  {
    FileMapHolds(files);
    FileMapDomain(files);
  }

  lemma UnmarkedStates(tree: Tree)
    requires DistinctTree(tree) && FilesListedOnce(tree) && !LiveTree(tree)
    ensures StatesAll(FactsOfDirs(TreeDirs(tree)), SnapshotOf(tree))
  {
    var dirs := TreeDirs(tree);
    forall ref | ref in dirs
      ensures States(DirFacts(dirs[ref]), FileMap(RegularFiles(dirs[ref])))
    {
      TreeDirsFrom(tree, ref);
      var i, j :| 0 <= i < |tree| && tree[i].KeyspaceDir? && 0 <= j < |tree[i].tables| &&
                  tree[i].tables[j] == TableDir(ref.table, dirs[ref]) && tree[i].name == ref.keyspace;
      assert IsTableAt(tree, i, j);
      DirFactsAre(dirs[ref]);
      RecordAllStates(RegularFiles(dirs[ref]));
      assert DirFacts(dirs[ref]) == RecordAll(RegularFiles(dirs[ref]));
    }
  }

  lemma TablesAcceptedMeansTree(tree: Tree)
    requires DistinctTree(tree) && KeyspacesFit(tree) && TreeReadable(tree) && AllAccepted(FactsOfDirs(TreeDirs(tree)))
    ensures TreeAccepted(tree)
  {
    TreeDirsHold(tree);
    var tables := FactsOfDirs(TreeDirs(tree));
    forall i, j | IsTableAt(tree, i, j) ensures TableDirAccepted(tree[i].tables[j]) {
      var ref := TableRef(tree[i].name, tree[i].tables[j].name);
      assert ref in TreeDirs(tree) && ref in tables && RefAccepted(ref, tables[ref]);
      ReadableAre(tree[i].tables[j].entries);
    }
    forall i | 0 <= i < |tree| ensures KeyspaceAccepted(tree[i]) {
      forall j | tree[i].KeyspaceDir? && 0 <= j < |tree[i].tables| ensures TableDirAccepted(tree[i].tables[j]) {
        assert tree[i].tables[j].TableDir? ==> IsTableAt(tree, i, j);
      }
    }
  }

  lemma TreeAcceptedMeansTables(tree: Tree)
    requires TreeAccepted(tree)
    ensures AllAccepted(FactsOfDirs(TreeDirs(tree)))
  {
    var dirs := TreeDirs(tree);
    var tables := FactsOfDirs(dirs);
    var some :| some in dirs;
    assert some in tables;
    forall ref | ref in tables ensures RefAccepted(ref, tables[ref]) {
      TreeDirsFrom(tree, ref);
      var i, j :| 0 <= i < |tree| && tree[i].KeyspaceDir? && 0 <= j < |tree[i].tables| &&
                  tree[i].tables[j] == TableDir(ref.table, dirs[ref]) && tree[i].name == ref.keyspace;
      assert KeyspaceAccepted(tree[i]) && TableDirAccepted(tree[i].tables[j]);
    }
  }

  lemma AcceptedTables(tree: Tree)
    requires TreeAccepted(tree)
    ensures KeyspacesFit(tree) && TreeReadable(tree) && !LiveTree(tree)
  {
    forall i | 0 <= i < |tree| && tree[i].KeyspaceDir? ensures NameAccepted(tree[i].name) {
      assert KeyspaceAccepted(tree[i]);
    }
    forall i, j | IsTableAt(tree, i, j)
      ensures FilesReadable(tree[i].tables[j].entries) && !HoldsMarker(tree[i].tables[j].entries)
    {
      assert KeyspaceAccepted(tree[i]) && TableDirAccepted(tree[i].tables[j]);
      ReadableAre(tree[i].tables[j].entries);
      DirFactsAre(tree[i].tables[j].entries);
    }
  }

  lemma AcceptedIffFit(tree: Tree)
    requires DistinctTree(tree) && FilesListedOnce(tree)
    ensures TreeAccepted(tree) <==>
            KeyspacesFit(tree) && TreeReadable(tree) && !LiveTree(tree) && SnapshotAccepted(SnapshotOf(tree))
  {
    if TreeAccepted(tree) {
      AcceptedTables(tree);
      TreeAcceptedMeansTables(tree);
    }
    if !LiveTree(tree) {
      UnmarkedStates(tree);
      FactsJudgeFiles(FactsOfDirs(TreeDirs(tree)), SnapshotOf(tree));
      if KeyspacesFit(tree) && TreeReadable(tree) && SnapshotAccepted(SnapshotOf(tree)) {
        TablesAcceptedMeansTree(tree);
      }
    }
  }

  /** Whatever the directory walk may report of a tree: it is accepted exactly when every
      keyspace has a fit name, every file that must be is readable, no table directory
      holds a live marker, and the regular files are those of a fit snapshot; then the
      census is the files'. Other subdirectories, special files and strays change
      nothing. */
  lemma TreeJudgesFiles(tree: Tree, out: Result<Census, Verdict>)
    requires DistinctTree(tree) && FilesListedOnce(tree) && TreeVerdict(tree, out)
    ensures out.Ok? <==>
            KeyspacesFit(tree) && TreeReadable(tree) && !LiveTree(tree) && SnapshotAccepted(SnapshotOf(tree))
    ensures out.Ok? ==> CensusOf(out.value, SnapshotOf(tree))
  {
    AcceptedIffFit(tree);
    if out.Ok? {
      UnmarkedStates(tree);
      CensusOfFiles(out.value, FactsOfDirs(TreeDirs(tree)), SnapshotOf(tree));
    }
  }

  lemma FlatTreeIsPlain(tree: Tree)
    requires FlatTree(tree)
    ensures FilesListedOnce(tree) && TreeReadable(tree) && !LiveTree(tree)
  {
    forall i, j | IsTableAt(tree, i, j)
      ensures DistinctNames(RegularFiles(tree[i].tables[j].entries)) && FilesReadable(tree[i].tables[j].entries)
      ensures !HoldsMarker(tree[i].tables[j].entries)
    {
      assert FlatTable(tree[i].tables[j].entries);
    }
  }

  lemma FlatTreeStates(tree: Tree)
    requires FlatTree(tree)
    ensures StatesAll(FactsOfDirs(TreeDirs(tree)), SnapshotOf(tree))
  {
    FlatTreeIsPlain(tree);
    UnmarkedStates(tree);
  }

  /** For a collected snapshot the directory walk judges the files themselves, table
      by table. */
  lemma FlatTreeJudged(tree: Tree)
    requires FlatTree(tree)
    ensures TreeAccepted(tree) <==> SnapshotAccepted(SnapshotOf(tree))
  {
    FlatTreeIsPlain(tree);
    AcceptedIffFit(tree);
    if SnapshotAccepted(SnapshotOf(tree)) {
      TreeDirsHold(tree);
      forall i | 0 <= i < |tree| && tree[i].KeyspaceDir? ensures NameAccepted(tree[i].name) {
        assert IsTableAt(tree, i, 0) && TableRef(tree[i].name, tree[i].tables[0].name) in SnapshotOf(tree);
      }
    }
  }
}

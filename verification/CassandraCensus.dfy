/** adapters/cassandra/meta.go: the budget one archive walk may keep, the mutable
    facts both walks fill, and the census both hand on. */
module CassandraCensus {
  import opened Wrappers
  import opened Bytes
  import opened Ordering
  import opened CassandraFacts

  const KEPT_MAX_BYTES: nat := 0x400_0000
  const KEPT_MAX_ENTRIES: nat := 200000

  datatype Kept = Kept(entries: nat, bytes: nat)

  function Charged(k: Kept, n: nat): Kept {
    Kept(k.entries + 1, k.bytes + n)
  }

  predicate Affordable(k: Kept) {
    k.entries <= KEPT_MAX_ENTRIES && k.bytes <= KEPT_MAX_BYTES
  }

  /** retention */
  class Retention {
    var entries: nat
    var bytes: nat

    ghost function View(): Kept
      reads this
    {
      Kept(entries, bytes)
    }

    constructor ()
      ensures View() == Kept(0, 0)
    {
      entries, bytes := 0, 0;
    }

    /** take */
    method Take(n: nat) returns (ok: bool)
      modifies this
      ensures View() == Charged(old(View()), n)
      ensures ok <==> Affordable(View())
    {
      entries := entries + 1;
      bytes := bytes + n;
      ok := entries <= KEPT_MAX_ENTRIES && bytes <= KEPT_MAX_BYTES;
    }
  }

  datatype RecordOutcome = Recorded | ReadFailed | OverBudget

  /** tableFacts, with the fields recordEntry updates in place. */
  class TableFacts {
    var hasSchema: bool
    var manifestOK: bool
    var manifest: Manifest
    var createdMs: int
    var entries: set<Text>
    var tocs: map<Text, seq<Text>>
    var digests: map<Text, int>
    var dataCRC: map<Text, int>
    var liveMarker: Text

    function View(): Facts
      reads this
    {
      Facts(hasSchema, manifestOK, manifest, createdMs, entries, tocs, digests, dataCRC, liveMarker)
    }

    /** newTableFacts */
    constructor ()
      ensures View() == NO_FACTS
    {
      hasSchema, manifestOK, manifest, createdMs := false, false, NO_MANIFEST, 0;
      entries, tocs, digests, dataCRC, liveMarker := {}, map[], map[], map[], [];
    }

    method RecordManifestIn(body: Body)
      modifies this
      ensures View() == RecordManifest(old(View()), body)
    {
      match body.manifest {
        case None => return;
        case Some(m) =>
          manifestOK := true;
          manifest := m;
          match m.createdMs {
            case Some(ms) => if PlausibleEpochMs(ms) { createdMs := ms; }
            case None =>
          }
      }
    }

    /** recordEntry. The content callback of the archive walk charges the body it
        returns; the directory walk's has no budget, which kept == null says. */
    method RecordEntry(name: Text, body: Body, readable: bool, kept: Retention?) returns (out: RecordOutcome)
      modifies this, kept
      ensures out == ReadFailed <==> TouchesBody(name) && !readable
      ensures out == OverBudget <==>
              KeepsBody(name) && readable && kept != null && !Affordable(Charged(old(kept.View()), CappedLength(body)))
      ensures out == Recorded ==> View() == Record(old(View()), name, body)
      ensures kept != null && out == Recorded ==>
              kept.View() == if KeepsBody(name) then Charged(old(kept.View()), CappedLength(body)) else old(kept.View())
    {
      entries := entries + {name};
      var kind := KindOf(name);
      if kind.SchemaFile? {
        hasSchema := true;
        return Recorded;
      }
      if kind.DataFile? {
        if !readable {
          return ReadFailed;
        }
        dataCRC := dataCRC[PrefixOf(name, DataFile) := body.crc];
        return Recorded;
      }
      if kind.OtherFile? {
        return Recorded;
      }
      if !readable {
        return ReadFailed;
      }
      if kept != null {
        var ok := kept.Take(CappedLength(body));
        if !ok {
          return OverBudget;
        }
      }
      match kind {
        case ManifestFile => RecordManifestIn(body);
        case TocFile => tocs := tocs[PrefixOf(name, TocFile) := body.toc];
        case DigestFile =>
          match body.digest {
            case Some(v) => digests := digests[PrefixOf(name, DigestFile) := v];
            case None =>
          }
      }
      return Recorded;
    }
  }

  /** sortTables orders by keyspace, then by table. */
  predicate RefLess(a: TableRef, b: TableRef) {
    if a.keyspace != b.keyspace then Less(a.keyspace, b.keyspace) else Less(a.table, b.table)
  }

  lemma RefLessIsStrictTotal()
    ensures StrictTotal(RefLess)
  {
    TextLessIsStrictTotal();
    forall a, b, c | RefLess(a, b) && RefLess(b, c) ensures RefLess(a, c) {
      if a.keyspace == c.keyspace && a.keyspace != b.keyspace {
        LessAsymmetric(a.keyspace, b.keyspace);
      } else if a.keyspace != b.keyspace && b.keyspace != c.keyspace {
        LessTransitive(a.keyspace, b.keyspace, c.keyspace);
      } else if a.keyspace == b.keyspace == c.keyspace {
        LessTransitive(a.table, b.table, c.table);
      }
    }
    forall a ensures !RefLess(a, a) { LessIrreflexive(a.table); }
    forall a, b ensures a == b || RefLess(a, b) || RefLess(b, a) {
      LessConnected(a.keyspace, b.keyspace);
      LessConnected(a.table, b.table);
    }
  }

  /** snapshotCensus */
  datatype Census = Census(tables: seq<TableRef>, maxCreatedMs: int)

  /** The census has met exactly these tables, each once, and holds their newest
      instant. */
  ghost predicate Gathers(c: Census, tables: map<TableRef, Facts>) {
    && Distinct(c.tables)
    && (forall ref :: ref in c.tables <==> ref in tables)
    && c.maxCreatedMs >= 0
    && (forall ref :: ref in tables ==> tables[ref].createdMs <= c.maxCreatedMs)
    && (c.maxCreatedMs != 0 ==> exists ref :: ref in tables && tables[ref].createdMs == c.maxCreatedMs)
  }

  ghost predicate IsCensus(c: Census, tables: map<TableRef, Facts>) {
    Gathers(c, tables) && Sorted(RefLess, c.tables)
  }

  /** One set of tables has one census. */
  lemma CensusUnique(a: Census, b: Census, tables: map<TableRef, Facts>)
    requires IsCensus(a, tables) && IsCensus(b, tables)
    ensures a == b
  {
    RefLessIsStrictTotal();
    DistinctSameElements(a.tables, b.tables);
    SortedUnique(RefLess, a.tables, b.tables);
  }

  /** Keyspaces ascend, and within one of them tables do. */
  ghost predicate InPathOrder(tables: seq<TableRef>) {
    forall i, j :: 0 <= i < j < |tables| ==>
      || Less(tables[i].keyspace, tables[j].keyspace)
      || (tables[i].keyspace == tables[j].keyspace && Less(tables[i].table, tables[j].table))
  }

  lemma SortedInPathOrder(tables: seq<TableRef>)
    requires Distinct(tables) && Sorted(RefLess, tables)
    ensures InPathOrder(tables)
  {
    RefLessIsStrictTotal();
    forall i, j | 0 <= i < j < |tables|
      ensures || Less(tables[i].keyspace, tables[j].keyspace)
              || (tables[i].keyspace == tables[j].keyspace && Less(tables[i].table, tables[j].table))
    {
      assert RefLess(tables[i], tables[j]);
    }
  }

  /** The tables a snapshot holds, in the order of their paths, and the newest instant
      any of them states. */
  ghost predicate CensusOf(c: Census, snapshot: map<TableRef, map<Text, Body>>) {
    && InPathOrder(c.tables)
    && (forall ref :: ref in c.tables <==> ref in snapshot)
    && c.maxCreatedMs >= 0
    && (forall ref :: ref in snapshot ==> StatedInstant(snapshot[ref]) <= c.maxCreatedMs)
    && (c.maxCreatedMs != 0 ==> exists ref :: ref in snapshot && StatedInstant(snapshot[ref]) == c.maxCreatedMs)
  }

  function WithTable(c: Census, ref: TableRef, f: Facts): Census {
    Census(c.tables + [ref], if f.createdMs > c.maxCreatedMs then f.createdMs else c.maxCreatedMs)
  }

  lemma GathersOneMore(c: Census, tables: map<TableRef, Facts>, ref: TableRef, f: Facts)
    requires Gathers(c, tables) && ref !in tables
    ensures Gathers(WithTable(c, ref, f), tables[ref := f])
  {
    var more := WithTable(c, ref, f);
    if c.maxCreatedMs != 0 {
      var was :| was in tables && tables[was].createdMs == c.maxCreatedMs;
      assert was in tables[ref := f];
    }
    assert tables[ref := f][ref].createdMs == f.createdMs;
    forall r ensures r in more.tables <==> r in tables[ref := f] {
      assert r in more.tables <==> r in c.tables || r == ref;
    }
  }

  lemma SortedCensus(c: Census, tables: map<TableRef, Facts>)
    requires Gathers(c, tables)
    ensures IsCensus(c.(tables := Sort(RefLess, c.tables)), tables)
  {
    RefLessIsStrictTotal();
    SortOfDistinct(RefLess, c.tables);
  }

  ghost predicate RefAccepted(ref: TableRef, f: Facts) {
    NameAccepted(ref.keyspace) && NameAccepted(ref.table) && TableAccepted(f)
  }

  /** What is answered for one table: its names first. */
  ghost function RefVerdict(ref: TableRef, f: Facts): (v: Option<Verdict>)
    ensures v.None? <==> RefAccepted(ref, f)
  {
    if !NameAccepted(ref.keyspace) then JudgeName(ref.keyspace)
    else if !NameAccepted(ref.table) then JudgeName(ref.table)
    else TableVerdict(f)
  }

  /** The tables' facts are those of a snapshot holding exactly these files. */
  ghost predicate StatesAll(tables: map<TableRef, Facts>, snapshot: map<TableRef, map<Text, Body>>) {
    && (forall ref :: ref in tables <==> ref in snapshot)
    && (forall ref {:trigger States(tables[ref], snapshot[ref])} :: ref in tables ==> States(tables[ref], snapshot[ref]))
  }

  /** The census of gathered facts is the census of the files. */
  lemma CensusOfFiles(c: Census, tables: map<TableRef, Facts>, snapshot: map<TableRef, map<Text, Body>>)
    requires StatesAll(tables, snapshot) && IsCensus(c, tables)
    ensures CensusOf(c, snapshot)
  {
    SortedInPathOrder(c.tables);
    forall ref | ref in snapshot ensures tables[ref].createdMs == StatedInstant(snapshot[ref]) {
      assert States(tables[ref], snapshot[ref]);
    }
    if c.maxCreatedMs != 0 {
      var ref :| ref in tables && tables[ref].createdMs == c.maxCreatedMs;
      assert ref in snapshot;
    }
  }

  lemma StatesAllUnique(a: map<TableRef, Facts>, b: map<TableRef, Facts>, snapshot: map<TableRef, map<Text, Body>>)
    requires StatesAll(a, snapshot) && StatesAll(b, snapshot)
    ensures a == b
  {
    forall ref | ref in a ensures a[ref] == b[ref] {
      assert States(a[ref], snapshot[ref]) && States(b[ref], snapshot[ref]);
      StatesUnique(a[ref], b[ref], snapshot[ref]);
    }
  }

  /** What a snapshot's own files have to say for it to be restored. */
  ghost predicate SnapshotAccepted(snapshot: map<TableRef, map<Text, Body>>) {
    && snapshot != map[]
    && forall ref :: ref in snapshot ==> NameAccepted(ref.keyspace) && NameAccepted(ref.table) && Whole(snapshot[ref])
  }

  lemma FactsJudgeFiles(tables: map<TableRef, Facts>, snapshot: map<TableRef, map<Text, Body>>)
    requires StatesAll(tables, snapshot)
    ensures AllAccepted(tables) <==> SnapshotAccepted(snapshot)
  {
    forall ref | ref in tables ensures TableAccepted(tables[ref]) <==> Whole(snapshot[ref]) {
      assert States(tables[ref], snapshot[ref]);
      AcceptedIffWhole(tables[ref], snapshot[ref]);
    }
    assert tables == map[] <==> snapshot == map[] by {
      assert tables.Keys == snapshot.Keys;
    }
  }

  ghost predicate AllAccepted(tables: map<TableRef, Facts>) {
    tables != map[] && forall ref :: ref in tables ==> RefAccepted(ref, tables[ref])
  }
}

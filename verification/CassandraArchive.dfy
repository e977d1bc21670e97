/** adapters/cassandra/meta.go: the one-pass walk over a tar archive of a snapshot,
    which learns its layout from the first file and pays for what it keeps. */
module CassandraArchive {
  import opened Wrappers
  import opened Bytes
  import opened Paths
  import opened Ordering
  import opened CassandraFacts
  import opened CassandraCensus

  /** One entry of the stream: its header name, whether it is a regular file, its
      body, and whether the stream can be read to the body's end. */
  datatype TarEntry = TarEntry(name: Text, regular: bool, body: Body, readable: bool)

  /** The stream: its entries, and whether it ends in io.EOF or in an error. */
  datatype TarStream = TarStream(entries: seq<TarEntry>, clean: bool)

  datatype TarResult = Listed(census: Census) | Refused(verdict: Verdict) | Silent

  function SplitTarName(name: Text): seq<Text> {
    var trimmed := TrimPrefix(TrimSuffix(name, [SLASH]), [DOT, SLASH]);
    if trimmed == [] then [] else Split(SLASH, trimmed)
  }

  function TarLiveMarker(segments: seq<Text>): Text {
    if |segments| > 2 && LiveMarker(segments[2]) then segments[2]
    else if |segments| > 3 && LiveMarker(segments[3]) then segments[3]
    else []
  }

  /** An entry with its name split: what the walk decides by. */
  datatype Entry = Entry(segments: seq<Text>, regular: bool, body: Body, readable: bool)

  function Named(e: TarEntry): Entry {
    Entry(SplitTarName(e.name), e.regular, e.body, e.readable)
  }

  // The walk as a function of the entries read so far.

  datatype WalkState = WalkState(tables: map<TableRef, Facts>, sawEntry: bool, depthBase: int, kept: Kept)

  const WALK_START := WalkState(map[], false, -1, Kept(0, 0))

  datatype WalkOutcome = Continue(state: WalkState) | Refuse(verdict: Verdict) | GiveUp

  /** What recordEntry charges for a file: its name, and its body when kept. */
  function FileCharge(k: Kept, base: Text, body: Body): Kept {
    if KeepsBody(base) then Charged(Charged(k, |base|), CappedLength(body)) else Charged(k, |base|)
  }

  /** How filing one file ends: the name is paid for, then the body is read, then
      it is paid for. */
  function FileOutcome(k: Kept, base: Text, e: Entry): RecordOutcome {
    if !Affordable(Charged(k, |base|)) then OverBudget
    else if TouchesBody(base) && !e.readable then ReadFailed
    else if !Affordable(FileCharge(k, base, e.body)) then OverBudget
    else Recorded
  }

  function FactsAt(tables: map<TableRef, Facts>, ref: TableRef): Facts {
    if ref in tables then tables[ref] else NO_FACTS
  }

  function Filed(tables: map<TableRef, Facts>, ref: TableRef, base: Text, body: Body): map<TableRef, Facts> {
    tables[ref := Record(FactsAt(tables, ref), base, body)]
  }

  function WalkFile(st: WalkState, e: Entry): WalkOutcome
    requires e.segments != []
  {
    var segments := e.segments;
    var base, depth := segments[|segments| - 1], |segments| - 3;
    if (st.depthBase != -1 && depth != st.depthBase) || depth < 0 || depth > 1 then GiveUp
    else
      match FileOutcome(st.kept, base, e)
      case OverBudget => Refuse(TooMuchKept)
      case ReadFailed => GiveUp
      case Recorded =>
        var ref := TableRef(segments[depth], segments[depth + 1]);
        Continue(WalkState(Filed(st.tables, ref, base, e.body), true, depth, FileCharge(st.kept, base, e.body)))
  }

  function WalkEntry(st: WalkState, e: Entry): WalkOutcome {
    if e.segments == [] then Continue(st)
    else if TarLiveMarker(e.segments) != [] then Refuse(LiveData)
    else if !e.regular then Continue(st.(sawEntry := true))
    else WalkFile(st, e)
  }

  function WalkAll(entries: seq<Entry>): WalkOutcome {
    if entries == [] then Continue(WALK_START)
    else
      match WalkAll(entries[..|entries| - 1])
      case Continue(st) => WalkEntry(st, entries[|entries| - 1])
      case Refuse(v) => Refuse(v)
      case GiveUp => GiveUp
  }

  /** Once the walk has stopped, later entries change nothing. */
  lemma {:induction false} StopSticks(entries: seq<Entry>, i: nat)
    requires i <= |entries| && !WalkAll(entries[..i]).Continue?
    ensures WalkAll(entries) == WalkAll(entries[..i])
  {
    if i < |entries| {
      assert entries[..|entries| - 1][..i] == entries[..i];
      StopSticks(entries[..|entries| - 1], i);
    } else {
      assert entries[..i] == entries;
    }
  }

  lemma WalkOneMore(entries: seq<Entry>, n: nat, st: WalkState, out: WalkOutcome)
    requires n < |entries| && WalkAll(entries[..n]) == Continue(st) && WalkEntry(st, entries[n]) == out
    ensures WalkAll(entries[..n + 1]) == out
  {
    var more := entries[..n + 1];
    assert more[..n] == entries[..n] && more[n] == entries[n];
  }

  /** What the archive walk may report, given where the stream took it. Which
      failing table the refusal names depends on map order. */
  ghost predicate TarVerdict(stream: TarStream, r: TarResult) {
    match WalkAll(Map(Named, stream.entries))
    case Refuse(v) => r == Refused(v)
    case GiveUp => r == Silent
    case Continue(st) =>
      if !stream.clean || !st.sawEntry then r == Silent
      else if AllAccepted(st.tables) then r.Listed? && IsCensus(r.census, st.tables)
      else r.Refused? && RefusalOf(st.tables, r.verdict)
  }

  /** Why these tables are refused: there is none, or this is the answer for one. */
  ghost predicate RefusalOf(tables: map<TableRef, Facts>, v: Verdict) {
    if tables == map[] then v == EmptySnapshot
    else exists ref :: ref in tables && RefVerdict(ref, tables[ref]) == Some(v)
  }

  /** The body of judgeTarTables' loop: one table's names and facts. */
  method JudgeRef(ref: TableRef, f: Facts) returns (verdict: Option<Verdict>)
    ensures verdict == RefVerdict(ref, f)
  {
    verdict := JudgeName(ref.keyspace);
    if verdict.None? {
      verdict := JudgeName(ref.table);
    }
    if verdict.None? {
      verdict := JudgeTable(f);
    }
  }

  /** judgeTarTables, the map taken in whatever order it comes. */
  method JudgeTarTables(tables: map<TableRef, Facts>) returns (r: TarResult)
    ensures AllAccepted(tables) ==> r.Listed? && IsCensus(r.census, tables)
    ensures !AllAccepted(tables) ==> r.Refused? && RefusalOf(tables, r.verdict)
  {
    var census := Census([], 0);
    var pending := tables.Keys;
    ghost var done: map<TableRef, Facts> := map[];
    while pending != {}
      invariant pending <= tables.Keys
      invariant forall ref :: ref in done <==> ref in tables && ref !in pending
      invariant forall ref :: ref in done ==> done[ref] == tables[ref] && RefAccepted(ref, tables[ref])
      invariant Gathers(census, done)
      decreases |pending|
    {
      var ref :| ref in pending;
      var verdict := JudgeRef(ref, tables[ref]);
      if verdict.Some? {
        return Refused(verdict.value);
      }
      GathersOneMore(census, done, ref, tables[ref]);
      census := WithTable(census, ref, tables[ref]);
      done := done[ref := tables[ref]];
      pending := pending - {ref};
    }
    assert done == tables;
    r := FinishCensus(census, tables);
  }

  /** The end of judgeTarTables: an archive without a table is refused. */
  method FinishCensus(census: Census, tables: map<TableRef, Facts>) returns (r: TarResult)
    requires Gathers(census, tables)
    ensures tables == map[] ==> r == Refused(EmptySnapshot)
    ensures tables != map[] ==> r.Listed? && IsCensus(r.census, tables)
  {
    if |census.tables| == 0 {
      assert forall ref :: ref !in tables;
      return Refused(EmptySnapshot);
    }
    assert census.tables[0] in tables;
    SortedCensus(census, tables);
    return Listed(census.(tables := Sort(RefLess, census.tables)));
  }

  lemma RefiledTwice(m: map<TableRef, Facts>, ref: TableRef, a: Facts, b: Facts)
    ensures m[ref := a][ref := b] == m[ref := b]
  {
  }

  /** tarWalkState */
  class TarWalk {
    var tables: map<TableRef, TableFacts>
    var sawEntry: bool
    var depthBase: int
    const kept: Retention
    ghost var filed: map<TableRef, Facts> // what tables holds
    ghost var repr: set<TableFacts> // the objects it holds it in

    /** No two tables share one set of facts. */
    ghost predicate Valid()
      reads this, repr
    {
      && (forall ref :: ref in tables ==> tables[ref] in repr)
      && (forall a, b :: a in tables && b in tables && a != b ==> tables[a] != tables[b])
      && (forall ref :: ref in filed <==> ref in tables)
      && (forall ref :: ref in tables ==> tables[ref].View() == filed[ref])
    }

    ghost function View(): WalkState
      reads this, kept
    {
      WalkState(filed, sawEntry, depthBase, kept.View())
    }

    constructor ()
      ensures Valid() && View() == WALK_START
      ensures fresh(kept) && repr == {}
    {
      tables, filed, repr, sawEntry, depthBase := map[], map[], {}, false, -1;
      kept := new Retention();
    }

    /** recordTarEntry */
    method RecordTarEntry(facts: TableFacts, base: Text, e: Entry) returns (out: RecordOutcome)
      modifies facts, kept
      ensures out == FileOutcome(old(kept.View()), base, e)
      ensures out == Recorded ==> facts.View() == Record(old(facts.View()), base, e.body)
      ensures out == Recorded ==> kept.View() == FileCharge(old(kept.View()), base, e.body)
    {
      var ok := kept.Take(|base|);
      if !ok {
        return OverBudget;
      }
      out := facts.RecordEntry(base, e.body, e.readable, kept);
    }

    /** The facts filed under ref, newly made when there are none. */
    method FactsFor(ref: TableRef) returns (facts: TableFacts)
      requires Valid()
      modifies this`tables, this`filed, this`repr
      ensures Valid() && fresh(repr - old(repr))
      ensures ref in tables && tables[ref] == facts
      ensures filed == old(filed)[ref := FactsAt(old(filed), ref)]
    {
      if ref in tables {
        return tables[ref];
      }
      facts := new TableFacts();
      tables := tables[ref := facts];
      filed := filed[ref := NO_FACTS];
      repr := repr + {facts};
    }

    /** recordTarEntry, on the facts filed under ref. */
    method RecordUnder(ref: TableRef, base: Text, e: Entry) returns (out: RecordOutcome)
      requires Valid() && ref in tables
      modifies this`filed, repr, kept
      ensures out == FileOutcome(old(kept.View()), base, e)
      ensures out == Recorded ==> Valid() && filed == old(filed)[ref := Record(old(filed)[ref], base, e.body)]
      ensures out == Recorded ==> kept.View() == FileCharge(old(kept.View()), base, e.body)
    {
      out := RecordTarEntry(tables[ref], base, e);
      if out == Recorded {
        filed := filed[ref := tables[ref].View()];
      }
    }

    /** The file is filed under ref and paid for. */
    method FileEntry(ref: TableRef, base: Text, e: Entry) returns (out: RecordOutcome)
      requires Valid()
      modifies this`tables, this`filed, this`repr, repr, kept
      ensures fresh(repr - old(repr))
      ensures out == FileOutcome(old(kept.View()), base, e)
      ensures out == Recorded ==> Valid() && filed == Filed(old(filed), ref, base, e.body)
      ensures out == Recorded ==> kept.View() == FileCharge(old(kept.View()), base, e.body)
    {
      ghost var was := filed;
      var facts := FactsFor(ref);
      out := RecordUnder(ref, base, e);
      if out == Recorded {
        RefiledTwice(was, ref, FactsAt(was, ref), filed[ref]);
      }
    }

    /** The second half of walkTarEntry: a regular file at some depth. */
    method WalkRegularFile(e: Entry) returns (verdict: Option<Verdict>, ok: bool)
      requires Valid() && e.segments != []
      modifies this, repr, kept
      ensures fresh(repr - old(repr)) && sawEntry == old(sawEntry)
      ensures match WalkFile(old(View()), e)
              case Continue(st) => verdict.None? && ok && View().(sawEntry := true) == st && Valid()
              case Refuse(v) => verdict == Some(v) && ok
              case GiveUp => verdict.None? && !ok
    {
      var segments := e.segments;
      var base, refSegments := segments[|segments| - 1], segments[..|segments| - 1];
      if depthBase == -1 {
        depthBase := |refSegments| - 2;
      }
      if |refSegments| - 2 != depthBase || depthBase < 0 || depthBase > 1 {
        return None, false;
      }
      var outcome := FileEntry(TableRef(refSegments[depthBase], refSegments[depthBase + 1]), base, e);
      match outcome {
        case OverBudget => return Some(TooMuchKept), true;
        case ReadFailed => return None, false;
        case Recorded => return None, true;
      }
    }

    /** walkTarEntry, its entry's name split. */
    method WalkNamed(named: Entry) returns (verdict: Option<Verdict>, ok: bool)
      requires Valid()
      modifies this, repr, kept
      ensures fresh(repr - old(repr))
      ensures match WalkEntry(old(View()), named)
              case Continue(st) => verdict.None? && ok && View() == st && Valid()
              case Refuse(v) => verdict == Some(v) && ok
              case GiveUp => verdict.None? && !ok
    {
      var segments := named.segments;
      if |segments| == 0 {
        return None, true;
      }
      sawEntry := true;
      if TarLiveMarker(segments) != [] {
        return Some(LiveData), true;
      }
      if !named.regular {
        return None, true;
      }
      verdict, ok := WalkRegularFile(named);
    }

    /** walkTarEntry: the verdict, if any, and whether the walk goes on. */
    method WalkTarEntry(e: TarEntry) returns (verdict: Option<Verdict>, ok: bool)
      requires Valid()
      modifies this, repr, kept
      ensures fresh(repr - old(repr))
      ensures match WalkEntry(old(View()), Named(e))
              case Continue(st) => verdict.None? && ok && View() == st && Valid()
              case Refuse(v) => verdict == Some(v) && ok
              case GiveUp => verdict.None? && !ok
    {
      verdict, ok := WalkNamed(Named(e));
    }

    /** walkTar's loop over the stream. */
    method WalkEntries(entries: seq<TarEntry>) returns (verdict: Option<Verdict>, ok: bool)
      requires Valid() && View() == WALK_START
      modifies this, repr, kept
      ensures match WalkAll(Map(Named, entries))
              case Continue(st) => verdict.None? && ok && View() == st && Valid()
              case Refuse(v) => verdict == Some(v) && ok
              case GiveUp => verdict.None? && !ok
    {
      ghost var named := Map(Named, entries);
      assert named[..0] == [];
      for i := 0 to |entries|
        invariant fresh(repr - old(repr)) && Valid()
        invariant WalkAll(named[..i]) == Continue(View())
      {
        ghost var st := View();
        verdict, ok := WalkTarEntry(entries[i]);
        WalkOneMore(named, i, st, WalkEntry(st, named[i]));
        if verdict.Some? || !ok {
          StopSticks(named, i + 1);
          return;
        }
      }
      assert named[..|entries|] == named;
      return None, true;
    }

    method Judge() returns (r: TarResult)
      requires Valid()
      ensures AllAccepted(filed) ==> r.Listed? && IsCensus(r.census, filed)
      ensures !AllAccepted(filed) ==> r.Refused? && RefusalOf(filed, r.verdict)
    {
      var judged := map ref | ref in tables :: tables[ref].View();
      assert judged == filed;
      r := JudgeTarTables(judged);
    }
  }

  /** walkTar */
  method WalkTar(stream: TarStream) returns (r: TarResult)
    ensures TarVerdict(stream, r)
  {
    var walk := new TarWalk();
    var verdict, ok := walk.WalkEntries(stream.entries);
    if verdict.Some? {
      return Refused(verdict.value);
    }
    if !ok || !stream.clean || !walk.sawEntry {
      return Silent;
    }
    r := walk.Judge();
  }
}

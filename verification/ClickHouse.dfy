/** adapters/clickhouse/retention.go: a restore in two passes around a lock, while the
    engine's TTL merges may run between any two of its steps. */
module ClickHouse {
  import opened Wrappers

  type Name = string

  /** A row, and the instant its table's TTL clause gives it up, where there is one. */
  datatype Row = Row(payload: int, expires: Option<int>)

  type Rows = multiset<Row>

  type Archive = map<Name, Rows>

  datatype Table = Table(rows: Rows, locked: bool)

  datatype Statement = RestoreStructure | StopMerges | RestoreData | CountTables

  const NOT_RESTORED_EXIT: nat := 91
  const PIN_REFUSED_EXIT: nat := 92
  const EMPTY_RESTORE_EXIT: nat := 93

  /** restoreStatements, in the order restoreScript runs them. */
  const RESTORE_SCRIPT := [RestoreStructure, StopMerges, RestoreData, CountTables]

  /** The server beside a script: the statements done, those left (the first of them
      running), what the running restore has yet to write, and the exit code. */
  datatype State = State(
    now: int,
    tables: map<Name, Table>,
    done: seq<Statement>,
    todo: seq<Statement>,
    pending: Archive,
    exit: Option<nat>)

  datatype Event =
    | Tick(delay: nat)
    | Merge(name: Name, gone: Rows, made: Rows) // expired rows dropped, rolled up or blanked
    | Create(name: Name)                        // one table of the structure pass
    | Attach(name: Name, part: Rows)            // some rows of one table of the data pass
    | Answer                                    // the statement did what it says
    | NoStatusWord                              // the client succeeded without RESTORED
    | Fail(code: nat)                           // the client failed, whatever was done so far

  predicate Expired(r: Row, now: int) {
    r.expires.Some? && r.expires.value <= now
  }

  function Pending(archive: Archive, todo: seq<Statement>): Archive {
    if todo != [] && (todo[0].RestoreStructure? || todo[0].RestoreData?) then archive else map[]
  }

  /** The sandbox starts empty. */
  function Start(archive: Archive, script: seq<Statement>): State {
    State(0, map[], [], script, Pending(archive, script), None)
  }

  predicate Running(s: State, statement: Statement) {
    s.exit.None? && s.todo != [] && s.todo[0] == statement
  }

  predicate Restoring(s: State) {
    Running(s, RestoreStructure) || Running(s, RestoreData)
  }

  predicate Enabled(s: State, e: Event) {
    match e
    case Tick(_) => true
    case Merge(name, gone, made) =>
      && name in s.tables && !s.tables[name].locked
      && gone <= s.tables[name].rows && |made| <= |gone|
      && (forall r :: r in gone ==> Expired(r, s.now))
    case Create(name) => Running(s, RestoreStructure) && name in s.pending
    case Attach(name, part) => Running(s, RestoreData) && name in s.pending && part <= s.pending[name]
    case Answer => s.exit.None? && s.todo != [] && (Restoring(s) ==> s.pending == map[])
    case NoStatusWord => Restoring(s)
    case Fail(code) =>
      && s.exit.None? && s.todo != []
      // the client's own codes are engine error codes, none of which is one of these
      && code != 0 && code != NOT_RESTORED_EXIT && code != PIN_REFUSED_EXIT && code != EMPTY_RESTORE_EXIT
  }

  function Locked(tables: map<Name, Table>): map<Name, Table> {
    map name | name in tables :: tables[name].(locked := true)
  }

  /** A table is created unlocked, and only when it is not there yet. */
  function WithRows(tables: map<Name, Table>, name: Name, part: Rows): map<Name, Table> {
    tables[name := if name in tables then Table(tables[name].rows + part, tables[name].locked) else Table(part, false)]
  }

  function Remaining(pending: Archive, name: Name, part: Rows): Archive
    requires name in pending
  {
    if pending[name] - part == multiset{} then pending - {name} else pending[name := pending[name] - part]
  }

  /** The running statement is answered: the script goes on, or ends. */
  function Answered(archive: Archive, s: State): State
    requires s.todo != []
  {
    if s.todo[0].CountTables? && s.tables == map[] then s.(exit := Some(EMPTY_RESTORE_EXIT))
    else
      State(s.now,
            if s.todo[0].StopMerges? then Locked(s.tables) else s.tables,
            s.done + [s.todo[0]],
            s.todo[1..],
            Pending(archive, s.todo[1..]),
            if |s.todo| == 1 then Some(0) else None)
  }

  function Apply(archive: Archive, s: State, e: Event): State
    requires Enabled(s, e)
  {
    match e
    case Tick(delay) => s.(now := s.now + delay)
    case Merge(name, gone, made) => s.(tables := s.tables[name := Table(s.tables[name].rows - gone + made, false)])
    case Create(name) => s.(tables := WithRows(s.tables, name, multiset{}), pending := s.pending - {name})
    case Attach(name, part) =>
      s.(tables := WithRows(s.tables, name, part), pending := Remaining(s.pending, name, part))
    case Answer => Answered(archive, s)
    case NoStatusWord => s.(exit := Some(NOT_RESTORED_EXIT))
    case Fail(code) => s.(exit := Some(if s.todo[0].StopMerges? then PIN_REFUSED_EXIT else code))
  }

  /** The state a run of events leads to, if every one of them could happen. */
  function After(archive: Archive, s: State, events: seq<Event>): Option<State> {
    if events == [] then Some(s)
    else
      match After(archive, s, events[..|events| - 1])
      case None => None
      case Some(t) =>
        var e := events[|events| - 1];
        if Enabled(t, e) then Some(Apply(archive, t, e)) else None
  }

  ghost predicate Reachable(archive: Archive, script: seq<Statement>, s: State) {
    exists events :: After(archive, Start(archive, script), events) == Some(s)
  }

  /** The server holds every archived table with exactly its archived rows, and nothing
      else. */
  ghost predicate HoldsArchive(tables: map<Name, Table>, archive: Archive) {
    && (forall name :: name in tables <==> name in archive)
    && (forall name :: name in archive ==> tables[name].rows == archive[name])
  }

  /** A lock was issued after a structure pass. */
  predicate PinnedInTime(done: seq<Statement>) {
    exists i, j :: 0 <= i < j < |done| && done[i] == RestoreStructure && done[j] == StopMerges
  }

  /** A census comes before any structure pass. */
  predicate CountedEarly(done: seq<Statement>) {
    exists k :: 0 <= k < |done| && done[k] == CountTables && RestoreStructure !in done[..k]
  }

  lemma PinnedInTimeSnoc(done: seq<Statement>, next: Statement)
    ensures PinnedInTime(done + [next]) <==> PinnedInTime(done) || (next == StopMerges && RestoreStructure in done)
  {
    var more := done + [next];
    if PinnedInTime(more) && !PinnedInTime(done) {
      var i, j :| 0 <= i < j < |more| && more[i] == RestoreStructure && more[j] == StopMerges;
      assert done[i] == RestoreStructure;
      assert j == |done|;
    }
    if PinnedInTime(done) {
      var i, j :| 0 <= i < j < |done| && done[i] == RestoreStructure && done[j] == StopMerges;
      assert more[i] == RestoreStructure && more[j] == StopMerges;
    }
    if next == StopMerges && RestoreStructure in done {
      var i :| 0 <= i < |done| && done[i] == RestoreStructure;
      assert more[i] == RestoreStructure && more[|done|] == StopMerges;
    }
  }

  // Safety of scripts that lock in time.

  /** Tables are the archive's; all there once a structure pass is done, all locked
      once a lock followed it. */
  ghost predicate Prepared(archive: Archive, s: State) {
    && (forall name :: name in s.tables ==> name in archive)
    && (forall name :: name in s.pending ==> name in archive)
    && (RestoreStructure in s.done ==> forall name :: name in archive ==> name in s.tables)
    && (PinnedInTime(s.done) ==> forall name :: name in s.tables ==> s.tables[name].locked)
    && (Running(s, RestoreStructure) ==> forall name :: name in archive ==> name in s.tables || name in s.pending)
  }

  function Left(pending: Archive, name: Name): Rows {
    if name in pending then pending[name] else multiset{}
  }

  /** Rows come from the data pass alone, and none is lost once the lock holds. */
  ghost predicate Conserved(archive: Archive, s: State) {
    && (RestoreData in s.done ==> forall name :: name in s.tables && name in archive ==> s.tables[name].rows == archive[name])
    && (Running(s, RestoreData) ==>
          forall name :: name in s.tables && name in archive ==> s.tables[name].rows + Left(s.pending, name) == archive[name])
    && (s.exit.None? && RestoreData !in s.done && !Running(s, RestoreData) ==>
          forall name :: name in s.tables ==> s.tables[name].rows == multiset{})
  }

  /** The script the state is a state of: one data pass, locked in time. */
  ghost predicate OnScript(before: seq<Statement>, after: seq<Statement>, s: State) {
    && PinnedInTime(before) && RestoreData !in before && RestoreData !in after
    && s.done + s.todo == before + [RestoreData] + after
  }

  lemma PinnedHasStructure(done: seq<Statement>)
    requires PinnedInTime(done)
    ensures RestoreStructure in done
  {
  }

  /** Where the data pass stands, read off the statements done. */
  lemma DataPassAt(before: seq<Statement>, after: seq<Statement>, s: State)
    requires OnScript(before, after, s)
    ensures RestoreData in s.done <==> |s.done| > |before|
    ensures s.todo != [] && s.todo[0] == RestoreData <==> |s.done| == |before|
    ensures |s.done| >= |before| ==> PinnedInTime(s.done)
  {
    var script := before + [RestoreData] + after;
    assert forall i :: 0 <= i < |s.done| ==> s.done[i] == script[i];
    assert s.todo != [] ==> s.todo[0] == script[|s.done|];
    assert forall i :: |before| < i < |script| ==> script[i] == after[i - |before| - 1];
    assert script[|before|] == RestoreData;
    assert forall i :: 0 <= i < |before| ==> script[i] == before[i];
    if |s.done| >= |before| {
      var i, j :| 0 <= i < j < |before| && before[i] == RestoreStructure && before[j] == StopMerges;
      assert s.done[i] == RestoreStructure && s.done[j] == StopMerges;
    }
  }

  ghost predicate Safe(before: seq<Statement>, after: seq<Statement>, archive: Archive, s: State) {
    OnScript(before, after, s) && Prepared(archive, s) && Conserved(archive, s)
  }

  lemma MergeIsSafe(before: seq<Statement>, after: seq<Statement>, archive: Archive, s: State, e: Event)
    requires Safe(before, after, archive, s) && e.Merge? && Enabled(s, e)
    ensures Safe(before, after, archive, Apply(archive, s, e))
  {
    DataPassAt(before, after, s);
    if s.exit.None? {
      assert e.gone == multiset{} && e.made == multiset{};
    }
  }

  lemma CreateIsSafe(before: seq<Statement>, after: seq<Statement>, archive: Archive, s: State, e: Event)
    requires Safe(before, after, archive, s) && e.Create? && Enabled(s, e)
    ensures Safe(before, after, archive, Apply(archive, s, e))
  {
    if PinnedInTime(s.done) { PinnedHasStructure(s.done); }
    DataPassAt(before, after, s);
  }

  lemma AttachConserves(pending: Archive, name: Name, part: Rows)
    requires name in pending && part <= pending[name]
    ensures forall rows: Rows :: (rows + part) + Left(Remaining(pending, name, part), name) == rows + pending[name]
    ensures forall other :: other != name ==> Left(Remaining(pending, name, part), other) == Left(pending, other)
    ensures forall other :: other in Remaining(pending, name, part) ==> other in pending
  {
    assert part + Left(Remaining(pending, name, part), name) == pending[name];
  }

  lemma AttachIsPrepared(archive: Archive, s: State, e: Event)
    requires Prepared(archive, s) && e.Attach? && Enabled(s, e) && PinnedInTime(s.done)
    ensures Prepared(archive, Apply(archive, s, e)) && e.name in s.tables
  {
    PinnedHasStructure(s.done);
    AttachConserves(s.pending, e.name, e.part);
  }

  lemma AttachIsConserved(archive: Archive, s: State, e: Event)
    requires Conserved(archive, s) && e.Attach? && Enabled(s, e) && e.name in s.tables && RestoreData !in s.done
    requires forall name :: name in s.tables ==> name in archive
    ensures Conserved(archive, Apply(archive, s, e))
  {
    AttachConserves(s.pending, e.name, e.part);
    assert s.tables[e.name].rows + Left(s.pending, e.name) == archive[e.name];
  }

  lemma AttachIsSafe(before: seq<Statement>, after: seq<Statement>, archive: Archive, s: State, e: Event)
    requires Safe(before, after, archive, s) && e.Attach? && Enabled(s, e)
    ensures Safe(before, after, archive, Apply(archive, s, e))
  {
    DataPassAt(before, after, s);
    AttachIsPrepared(archive, s, e);
    AttachIsConserved(archive, s, e);
  }

  lemma AnswerIsSafe(before: seq<Statement>, after: seq<Statement>, archive: Archive, s: State)
    requires Safe(before, after, archive, s) && Enabled(s, Answer)
    ensures Safe(before, after, archive, Apply(archive, s, Answer))
  {
    var t := Apply(archive, s, Answer);
    if t.done != s.done {
      PinnedInTimeSnoc(s.done, s.todo[0]);
      DataPassAt(before, after, s);
      assert t.done + t.todo == s.done + s.todo;
      DataPassAt(before, after, t);
      AnswerConserves(archive, s, t);
    }
  }

  lemma AnswerConserves(archive: Archive, s: State, t: State)
    requires Conserved(archive, s) && Prepared(archive, s) && Enabled(s, Answer) && t == Answered(archive, s)
    requires t.done == s.done + [s.todo[0]]
    requires RestoreData in s.done ==> s.todo[0] != RestoreData
    requires RestoreData in t.done ==> t.todo == [] || t.todo[0] != RestoreData
    ensures Conserved(archive, t)
  {
    assert RestoreData in t.done <==> RestoreData in s.done || s.todo[0] == RestoreData;
    assert forall name :: name in t.tables <==> name in s.tables;
    assert forall name :: name in t.tables ==> t.tables[name].rows == s.tables[name].rows;
  }

  lemma StepIsSafe(before: seq<Statement>, after: seq<Statement>, archive: Archive, s: State, e: Event)
    requires Safe(before, after, archive, s) && Enabled(s, e)
    ensures Safe(before, after, archive, Apply(archive, s, e))
  {
    match e
    case Merge(_, _, _) => MergeIsSafe(before, after, archive, s, e);
    case Create(_) => CreateIsSafe(before, after, archive, s, e);
    case Attach(_, _) => AttachIsSafe(before, after, archive, s, e);
    case Answer => AnswerIsSafe(before, after, archive, s);
    case _ => DataPassAt(before, after, s);
  }

  lemma {:induction false} RunIsSafe(before: seq<Statement>, after: seq<Statement>, archive: Archive, events: seq<Event>)
    requires PinnedInTime(before) && RestoreData !in before && RestoreData !in after
    requires After(archive, Start(archive, before + [RestoreData] + after), events).Some?
    ensures Safe(before, after, archive, After(archive, Start(archive, before + [RestoreData] + after), events).value)
  {
    var start := Start(archive, before + [RestoreData] + after);
    if events == [] {
      assert start.done + start.todo == start.todo;
      DataPassAt(before, after, start);
    } else {
      var init, e := events[..|events| - 1], events[|events| - 1];
      RunIsSafe(before, after, archive, init);
      StepIsSafe(before, after, archive, After(archive, start, init).value, e);
    }
  }

  /** Whether a script keeps an archive whole: in every state any run of it reaches once
      the data pass is done, through whatever merges, answers and failures, the server
      holds exactly the archive. */
  ghost predicate Keeps(script: seq<Statement>, archive: Archive) {
    forall s :: Reachable(archive, script, s) && RestoreData in s.done ==> HoldsArchive(s.tables, archive)
  }

  lemma PinnedKeeps(before: seq<Statement>, after: seq<Statement>, archive: Archive)
    requires RestoreData !in before && RestoreData !in after && PinnedInTime(before)
    ensures Keeps(before + [RestoreData] + after, archive)
  {
    var script := before + [RestoreData] + after;
    forall s | Reachable(archive, script, s) && RestoreData in s.done ensures HoldsArchive(s.tables, archive) {
      var events :| After(archive, Start(archive, script), events) == Some(s);
      RunIsSafe(before, after, archive, events);
      DataPassAt(before, after, s);
      PinnedHasStructure(s.done);
    }
  }

  // Scripts that do not lock in time lose rows.

  lemma ReachStep(archive: Archive, script: seq<Statement>, s: State, e: Event)
    requires Reachable(archive, script, s) && Enabled(s, e)
    ensures Reachable(archive, script, Apply(archive, s, e))
  {
    var events :| After(archive, Start(archive, script), events) == Some(s);
    assert (events + [e])[..|events|] == events;
    assert After(archive, Start(archive, script), events + [e]) == Some(Apply(archive, s, e));
  }

  const ONE_TABLE: Name := "t"

  const OUTLIVED := Row(0, Some(0))

  /** A backup of one table holding one row past its time to live. */
  const OUTLIVED_ARCHIVE: Archive := map[ONE_TABLE := multiset{OUTLIVED}]

  /** Where a script stands once its first statements ran with no merge between them. */
  function QuietTables(done: seq<Statement>): map<Name, Table> {
    if RestoreStructure in done then map[ONE_TABLE := Table(multiset{}, PinnedInTime(done))] else map[]
  }

  function QuietState(script: seq<Statement>, k: nat): State
    requires k <= |script|
  {
    State(0, QuietTables(script[..k]), script[..k], script[k..], Pending(OUTLIVED_ARCHIVE, script[k..]), None)
  }

  lemma QuietCreate(done: seq<Statement>)
    ensures WithRows(QuietTables(done), ONE_TABLE, multiset{}) == QuietTables(done + [RestoreStructure])
  {
    PinnedInTimeSnoc(done, RestoreStructure);
    assert RestoreStructure in done + [RestoreStructure];
    if RestoreStructure in done {
      var none: Rows := multiset{};
      assert none + none == none;
      assert WithRows(QuietTables(done), ONE_TABLE, none)[ONE_TABLE] == Table(none, PinnedInTime(done));
    } else if PinnedInTime(done) {
      PinnedHasStructure(done);
    }
  }

  lemma QuietLock(done: seq<Statement>)
    ensures Locked(QuietTables(done)) == QuietTables(done + [StopMerges])
  {
    PinnedInTimeSnoc(done, StopMerges);
    assert RestoreStructure in done + [StopMerges] <==> RestoreStructure in done;
  }

  /** A census passes once a structure pass made the one table. */
  lemma QuietCount(done: seq<Statement>)
    requires RestoreStructure in done
    ensures QuietTables(done) != map[] && QuietTables(done + [CountTables]) == QuietTables(done)
  {
    PinnedInTimeSnoc(done, CountTables);
    assert ONE_TABLE in QuietTables(done);
  }

  lemma QuietStep(script: seq<Statement>, k: nat)
    requires k + 1 < |script| && script[k] != RestoreData && (script[k] == CountTables ==> RestoreStructure in script[..k])
    requires Reachable(OUTLIVED_ARCHIVE, script, QuietState(script, k))
    ensures Reachable(OUTLIVED_ARCHIVE, script, QuietState(script, k + 1))
  {
    var s := QuietState(script, k);
    assert script[..k + 1] == script[..k] + [script[k]];
    assert script[k..][1..] == script[k + 1..];
    QuietCreate(script[..k]);
    QuietLock(script[..k]);
    if script[k] == CountTables {
      QuietCount(script[..k]);
    }
    if script[k] == RestoreStructure {
      ReachStep(OUTLIVED_ARCHIVE, script, s, Create(ONE_TABLE));
      s := Apply(OUTLIVED_ARCHIVE, s, Create(ONE_TABLE));
      assert s.pending == map[];
    }
    ReachStep(OUTLIVED_ARCHIVE, script, s, Answer);
  }

  lemma QuietPrefix(done: seq<Statement>, k: nat)
    requires k < |done| && RestoreData !in done && !CountedEarly(done)
    ensures RestoreData !in done[..k] && !CountedEarly(done[..k])
    ensures done[k] != RestoreData && (done[k] == CountTables ==> RestoreStructure in done[..k])
  {
    assert forall i :: 0 <= i < k ==> done[..k][i] == done[i] && done[..k][..i] == done[..i];
  }

  lemma {:induction false} QuietRun(script: seq<Statement>, k: nat)
    requires k < |script|
    requires RestoreData !in script[..k] && !CountedEarly(script[..k])
    ensures Reachable(OUTLIVED_ARCHIVE, script, QuietState(script, k))
  {
    if k == 0 {
      assert script[0..] == script;
      assert After(OUTLIVED_ARCHIVE, Start(OUTLIVED_ARCHIVE, script), []) == Some(QuietState(script, 0));
    } else {
      QuietPrefix(script[..k], k - 1);
      assert script[..k][..k - 1] == script[..k - 1] && script[..k][k - 1] == script[k - 1];
      QuietRun(script, k - 1);
      QuietStep(script, k - 1);
    }
  }

  lemma UnpinnedLoses(before: seq<Statement>, after: seq<Statement>)
    requires RestoreData !in before && !CountedEarly(before) && !PinnedInTime(before)
    ensures !Keeps(before + [RestoreData] + after, OUTLIVED_ARCHIVE)
  {
    var script, k := before + [RestoreData] + after, |before|;
    var s := QuietState(script, k);
    assert script[..k] == before;
    QuietRun(script, k);
    ReachStep(OUTLIVED_ARCHIVE, script, s, Attach(ONE_TABLE, multiset{OUTLIVED}));
    var attached := Apply(OUTLIVED_ARCHIVE, s, Attach(ONE_TABLE, multiset{OUTLIVED}));
    assert attached.pending == map[];
    ReachStep(OUTLIVED_ARCHIVE, script, attached, Answer);
    var done := Apply(OUTLIVED_ARCHIVE, attached, Answer);
    assert !done.tables[ONE_TABLE].locked && done.tables[ONE_TABLE].rows == multiset{OUTLIVED};
    ReachStep(OUTLIVED_ARCHIVE, script, done, Merge(ONE_TABLE, multiset{OUTLIVED}, multiset{}));
    var lost := Apply(OUTLIVED_ARCHIVE, done, Merge(ONE_TABLE, multiset{OUTLIVED}, multiset{}));
    assert lost.tables[ONE_TABLE].rows == multiset{};
    assert RestoreData in lost.done;
  }

  // A census before any structure pass ends the script.

  /** Until then there is no table, and the census is not passed. */
  ghost predicate Barren(script: seq<Statement>, k: nat, s: State) {
    && s.done + s.todo == script && |s.done| <= k && s.tables == map[]
  }

  lemma BarrenStep(script: seq<Statement>, k: nat, archive: Archive, s: State, e: Event)
    requires k < |script| && script[k] == CountTables && RestoreStructure !in script[..k] && RestoreData !in script[..k]
    requires Barren(script, k, s) && Enabled(s, e)
    ensures Barren(script, k, Apply(archive, s, e))
  {
    assert s.todo != [] ==> s.todo[0] == script[|s.done|];
    assert |s.done| < k ==> script[|s.done|] in script[..k];
    var t := Apply(archive, s, e);
    if e.Answer? && t.done != s.done {
      assert t.done + t.todo == s.done + s.todo;
    }
  }

  lemma {:induction false} BarrenRun(script: seq<Statement>, k: nat, archive: Archive, events: seq<Event>)
    requires k < |script| && script[k] == CountTables && RestoreStructure !in script[..k] && RestoreData !in script[..k]
    requires After(archive, Start(archive, script), events).Some?
    ensures Barren(script, k, After(archive, Start(archive, script), events).value)
  {
    if events == [] {
      assert Start(archive, script).done + script == script;
    } else {
      var init, e := events[..|events| - 1], events[|events| - 1];
      BarrenRun(script, k, archive, init);
      BarrenStep(script, k, archive, After(archive, Start(archive, script), init).value, e);
    }
  }

  /** Such a script never comes to its data pass. */
  lemma CountedEarlyKeeps(before: seq<Statement>, after: seq<Statement>, archive: Archive)
    requires RestoreData !in before && CountedEarly(before)
    ensures Keeps(before + [RestoreData] + after, archive)
  {
    var script := before + [RestoreData] + after;
    var k :| 0 <= k < |before| && before[k] == CountTables && RestoreStructure !in before[..k];
    assert script[..k] == before[..k] && script[k] == before[k];
    forall s | Reachable(archive, script, s) ensures RestoreData !in s.done {
      var events :| After(archive, Start(archive, script), events) == Some(s);
      BarrenRun(script, k, archive, events);
      assert forall i :: 0 <= i < |s.done| ==> s.done[i] == script[i] && script[i] == before[i];
    }
  }

  /** Of all scripts with one data pass, whatever comes before and after it, exactly those
      keep every archive whole that run a structure pass and a lock after it before the
      data pass, or count tables before any structure pass and so never restore one. */
  lemma KeepsIffPinnedInTime(before: seq<Statement>, after: seq<Statement>)
    requires RestoreData !in before && RestoreData !in after
    ensures (forall archive :: Keeps(before + [RestoreData] + after, archive)) <==> PinnedInTime(before) || CountedEarly(before)
  {
    if PinnedInTime(before) {
      forall archive ensures Keeps(before + [RestoreData] + after, archive) {
        PinnedKeeps(before, after, archive);
      }
    } else if CountedEarly(before) {
      forall archive ensures Keeps(before + [RestoreData] + after, archive) {
        CountedEarlyKeeps(before, after, archive);
      }
    } else {
      UnpinnedLoses(before, after);
    }
  }

  // The adapter's own script.

  /** How an exit code relates to what the run did. */
  ghost predicate ExitTells(s: State) {
    && (s.exit == Some(0) ==> s.todo == [] && s.tables != map[])
    && (s.todo == [] ==> s.exit == Some(0))
    && (s.exit == Some(EMPTY_RESTORE_EXIT) ==> Running(s.(exit := None), CountTables) && s.tables == map[])
    && (s.exit == Some(PIN_REFUSED_EXIT) ==> Running(s.(exit := None), StopMerges))
    && (s.exit == Some(NOT_RESTORED_EXIT) ==> Restoring(s.(exit := None)))
    && s.done + s.todo == RESTORE_SCRIPT
  }

  lemma ExitStep(archive: Archive, s: State, e: Event)
    requires ExitTells(s) && Enabled(s, e)
    ensures ExitTells(Apply(archive, s, e))
  {
    var t := Apply(archive, s, e);
    if e.Answer? && t.done != s.done {
      assert t.done + t.todo == s.done + s.todo;
      assert |s.todo| == 1 ==> s.todo[0] == (s.done + s.todo)[3];
    }
  }

  lemma {:induction false} ExitCodes(archive: Archive, events: seq<Event>)
    requires After(archive, Start(archive, RESTORE_SCRIPT), events).Some?
    ensures ExitTells(After(archive, Start(archive, RESTORE_SCRIPT), events).value)
  {
    if events != [] {
      var init, e := events[..|events| - 1], events[|events| - 1];
      ExitCodes(archive, init);
      ExitStep(archive, After(archive, Start(archive, RESTORE_SCRIPT), init).value, e);
    }
  }

  /** The exit code tells how the last statement ended: 91 for a restore without its
      status word, 92 for a lock that was refused, 93 for a count of nothing, 0 for one of
      something, and any other is the failing client's own. */
  lemma ExitTold(archive: Archive, s: State, e: Event)
    requires s.exit.None? && Enabled(s, e)
    ensures var exit := Apply(archive, s, e).exit;
            match e
            case Fail(code) => exit == Some(if s.todo[0] == StopMerges then 92 else code)
            case NoStatusWord => exit == Some(91)
            case Answer => exit ==
              if s.todo[0] == CountTables && s.tables == map[] then Some(93) else if |s.todo| == 1 then Some(0) else None
            case _ => exit == None
  {
  }

  lemma ScriptKeeps(archive: Archive)
    ensures Keeps(RESTORE_SCRIPT, archive)
  {
    var before, after := [RestoreStructure, StopMerges], [CountTables];
    assert RESTORE_SCRIPT == before + [RestoreData] + after;
    assert before[0] == RestoreStructure && before[1] == StopMerges;
    PinnedKeeps(before, after, archive);
  }

  /** How far the script is, read off what runs and what is done. */
  lemma ScriptStands(s: State)
    requires s.done + s.todo == RESTORE_SCRIPT
    ensures s.todo == [] ==> RestoreData in s.done
    ensures s.todo != [] && s.todo[0] == CountTables ==> RestoreData in s.done
    ensures s.todo != [] && s.todo[0] == StopMerges ==> s.done == [RestoreStructure]
  {
    assert s.todo != [] ==> (s.done + s.todo)[|s.done|] == s.todo[0];
    assert |s.done| >= 3 ==> (s.done + s.todo)[2] == s.done[2];
    assert |s.done| == 1 ==> (s.done + s.todo)[0] == s.done[0];
  }

  lemma EmptyOnlyAlike(tables: map<Name, Table>, archive: Archive)
    requires HoldsArchive(tables, archive)
    ensures tables == map[] <==> archive == map[]
  {
    if tables != map[] {
      var name :| name in tables;
      assert name in archive;
    }
    if archive != map[] {
      var name :| name in archive;
      assert name in tables;
    }
  }

  /** Every run of the adapter's script, through whatever merges and answers: once the
      data pass is done, and for as long as the server lives, it holds exactly the
      archive; exit 0 means so and that the archive held a table; the census refuses
      only an archive without one. */
  lemma RestoreKeepsArchive(archive: Archive, s: State)
    requires Reachable(archive, RESTORE_SCRIPT, s)
    ensures RestoreData in s.done ==> HoldsArchive(s.tables, archive)
    ensures s.exit == Some(0) ==> HoldsArchive(s.tables, archive) && archive != map[]
    ensures s.exit == Some(EMPTY_RESTORE_EXIT) ==> archive == map[]
    ensures s.exit == Some(PIN_REFUSED_EXIT) ==> s.done == [RestoreStructure]
  {
    var events :| After(archive, Start(archive, RESTORE_SCRIPT), events) == Some(s);
    ExitCodes(archive, events);
    ScriptKeeps(archive);
    ScriptStands(s);
    if RestoreData in s.done {
      EmptyOnlyAlike(s.tables, archive);
    }
  }
}

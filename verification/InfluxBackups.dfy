/** adapters/influxdb/source.go and selection.go: which backup directory of several is
    restored, and that the manifest it restores is the one it was ranked by. */
module InfluxBackups {
  import opened Wrappers
  import opened Bytes
  import opened Nesting
  import opened InfluxChoice

  datatype Policy = NewestFirst | OldestFirst | AtRandom

  /** The newest instant any of the names states. */
  ghost predicate RankOf(clock: Clock, names: seq<Text>, rank: Option<int>) {
    match rank
    case None => forall name :: name in names ==> Instant(clock, name).None?
    case Some(ts) =>
      && (exists name :: name in names && Instant(clock, name) == Some(ts))
      && (forall name :: name in names && Instant(clock, name).Some? ==> Instant(clock, name).value <= ts)
  }

  /** The newest instant any manifest of the directory states. */
  ghost predicate RankIn(clock: Clock, entries: seq<DirEntry>, rank: Option<int>) {
    match rank
    case None => forall name :: ListsManifest(entries, name) ==> Instant(clock, name).None?
    case Some(ts) =>
      && (exists name :: ListsManifest(entries, name) && Instant(clock, name) == Some(ts))
      && (forall name :: ListsManifest(entries, name) && Instant(clock, name).Some? ==> Instant(clock, name).value <= ts)
  }

  lemma RankOverEntries(clock: Clock, entries: seq<DirEntry>)
    ensures forall rank :: RankIn(clock, entries, rank) <==> RankOf(clock, ManifestNames(entries), rank)
  {
    ManifestNamesListed(entries);
  }

  lemma RankOneMore(clock: Clock, names: seq<Text>, rank: Option<int>, name: Text)
    requires RankOf(clock, names, rank)
    ensures var ts := Instant(clock, name);
            RankOf(clock, names + [name], if ts.Some? && (rank.None? || ts.value > rank.value) then ts else rank)
  {
    assert forall n :: n in names + [name] <==> n in names || n == name;
  }

  /** newestStemIn */
  method NewestStemIn(clock: Clock, entries: seq<DirEntry>) returns (newest: Option<int>)
    ensures RankIn(clock, entries, newest)
  {
    newest := None;
    for i := 0 to |entries|
      invariant RankOf(clock, ManifestNames(entries[..i]), newest)
    {
      var e := entries[i];
      FlattenMapNext(ManifestsOf, entries, i);
      if !e.regular || !HasSuffix(e.name, MANIFEST_SUFFIX) {
        assert ManifestNames(entries[..i + 1]) == ManifestNames(entries[..i]);
        continue;
      }
      RankOneMore(clock, ManifestNames(entries[..i]), newest, e.name);
      var ts := Instant(clock, e.name);
      if ts.Some? && (newest.None? || ts.value > newest.value) {
        newest := ts;
      }
    }
    assert entries[..|entries|] == entries;
    RankOverEntries(clock, entries);
  }

  /** The manifest a directory is restored by carries exactly the instant the directory
      was ranked by. */
  lemma ChosenCarriesRank(clock: Clock, names: seq<Text>, r: Result<Text, Refusal>, rank: Option<int>)
    requires Chosen(clock, names, r) && RankOf(clock, names, rank)
    requires r.Ok? && rank.Some?
    ensures Instant(clock, r.value) == rank
  {
    var name :| name in names && Instant(clock, name) == rank;
    if |names| > 1 && name != r.value {
      assert Newer(Dated(clock, r.value), Dated(clock, name));
    }
  }

  // chooseBackupIn.

  datatype Subentry =
    | Subdirectory(name: Text, entries: seq<DirEntry>)
    | OtherEntry(name: Text)

  /** The candidates' order is Newer on their directory names; precedes turns it
      around. */
  predicate Older(a: DatedName, b: DatedName) {
    if a.ts != b.ts then a.ts < b.ts else Less(a.name, b.name)
  }

  lemma OlderIsNewerTurnedAround(a: DatedName, b: DatedName)
    ensures Older(a, b) <==> Newer(b, a)
  {
  }

  ghost predicate IsCandidate(clock: Clock, subs: seq<Subentry>, c: DatedName) {
    exists i :: 0 <= i < |subs| && subs[i].Subdirectory? && subs[i].name == c.name &&
                RankIn(clock, subs[i].entries, Some(c.ts))
  }

  /** What pick may answer. */
  ghost predicate Picked(policy: Policy, candidates: seq<DatedName>, c: DatedName) {
    && c in candidates
    && match policy
       case NewestFirst => forall o :: o in candidates ==> o == c || Newer(c, o)
       case OldestFirst => forall o :: o in candidates ==> o == c || Older(c, o)
       case AtRandom => true
  }

  predicate Wins(policy: Policy, a: DatedName, b: DatedName) {
    if policy == OldestFirst then Older(a, b) else Newer(a, b)
  }

  /** pick */
  method Pick(policy: Policy, candidates: seq<DatedName>) returns (best: DatedName)
    requires candidates != []
    ensures Picked(policy, candidates, best)
  {
    if policy == AtRandom {
      var index :| 0 <= index < |candidates|;
      return candidates[index];
    }
    NewerIsStrictTotal();
    best := candidates[0];
    for i := 1 to |candidates|
      invariant Picked(policy, candidates[..i], best)
    {
      var c := candidates[i];
      assert forall x :: x in candidates[..i + 1] <==> x in candidates[..i] || x == c;
      OlderIsNewerTurnedAround(c, best);
      if Wins(policy, c, best) {
        assert forall o :: o in candidates[..i] ==> Older(best, o) == Newer(o, best) && Older(c, o) == Newer(o, c);
        best := c;
      }
    }
    assert candidates[..|candidates|] == candidates;
  }

  /** The policy's choice among the directories a manifest dates. */
  ghost predicate PickedIn(clock: Clock, subs: seq<Subentry>, policy: Policy, c: DatedName) {
    && IsCandidate(clock, subs, c)
    && match policy
       case NewestFirst =>
         forall o :: IsCandidate(clock, subs, o) ==> o.ts < c.ts || (o.ts == c.ts && (o == c || Less(o.name, c.name)))
       case OldestFirst =>
         forall o :: IsCandidate(clock, subs, o) ==> c.ts < o.ts || (o.ts == c.ts && (o == c || Less(c.name, o.name)))
       case AtRandom => true
  }

  /** The loop of chooseBackupIn: directories no manifest dates are passed over. */
  method Candidates(clock: Clock, subs: seq<Subentry>) returns (candidates: seq<DatedName>)
    ensures forall c :: c in candidates <==> IsCandidate(clock, subs, c)
  {
    candidates := [];
    for i := 0 to |subs|
      invariant forall c :: c in candidates <==> IsCandidate(clock, subs[..i], c)
    {
      ghost var before := candidates;
      if subs[i].Subdirectory? {
        var ts := NewestStemIn(clock, subs[i].entries);
        if ts.Some? {
          candidates := candidates + [DatedName(subs[i].name, ts.value)];
        }
        RankUnique(clock, subs[i].entries, ts);
      }
      CandidateOneMore(clock, subs, i, before, candidates);
    }
    assert subs[..|subs|] == subs;
  }

  /** chooseBackupIn */
  method ChooseBackupIn(clock: Clock, subs: seq<Subentry>, policy: Policy) returns (r: Option<Text>)
    ensures r.None? <==> forall c :: !IsCandidate(clock, subs, c)
    ensures r.Some? ==> exists c :: PickedIn(clock, subs, policy, c) && r.value == c.name
  {
    var candidates := Candidates(clock, subs);
    if |candidates| == 0 {
      return None;
    }
    assert candidates[0] in candidates;
    var c := Pick(policy, candidates);
    assert PickedIn(clock, subs, policy, c);
    return Some(c.name);
  }

  lemma RankUnique(clock: Clock, entries: seq<DirEntry>, rank: Option<int>)
    requires RankIn(clock, entries, rank)
    ensures forall ts :: RankIn(clock, entries, Some(ts)) <==> rank == Some(ts)
  {
  }

  lemma CandidateOneMore(clock: Clock, subs: seq<Subentry>, i: nat, before: seq<DatedName>, met: seq<DatedName>)
    requires i < |subs|
    requires forall c :: c in before <==> IsCandidate(clock, subs[..i], c)
    requires forall c :: c in met <==>
               c in before || (subs[i].Subdirectory? && subs[i].name == c.name && RankIn(clock, subs[i].entries, Some(c.ts)))
    ensures forall c :: c in met <==> IsCandidate(clock, subs[..i + 1], c)
  {
    forall c ensures c in met <==> IsCandidate(clock, subs[..i + 1], c) {
      assert forall k :: 0 <= k < i ==> subs[..i + 1][k] == subs[..i][k];
      assert subs[..i + 1][i] == subs[i];
    }
  }

  /** A directory never lists one name twice. */
  ghost predicate DistinctSubs(subs: seq<Subentry>) {
    forall i, j :: 0 <= i < j < |subs| ==> subs[i].name != subs[j].name
  }

  lemma RankExists(clock: Clock, entries: seq<DirEntry>) returns (rank: Option<int>)
    ensures RankIn(clock, entries, rank)
  {
    rank := None;
    for i := 0 to |entries|
      invariant RankOf(clock, ManifestNames(entries[..i]), rank)
    {
      FlattenMapNext(ManifestsOf, entries, i);
      if ManifestsOf(entries[i]) == [] {
        assert ManifestNames(entries[..i + 1]) == ManifestNames(entries[..i]);
      } else {
        RankOneMore(clock, ManifestNames(entries[..i]), rank, entries[i].name);
        var ts := Instant(clock, entries[i].name);
        rank := if ts.Some? && (rank.None? || ts.value > rank.value) then ts else rank;
      }
    }
    assert entries[..|entries|] == entries;
    RankOverEntries(clock, entries);
  }

  /** The j-th entry is a directory holding this dated manifest. */
  ghost predicate HoldsDated(clock: Clock, subs: seq<Subentry>, j: int, name: Text) {
    && 0 <= j < |subs| && subs[j].Subdirectory?
    && ListsManifest(subs[j].entries, name) && Instant(clock, name).Some?
  }

  /** Every directory with a dated manifest competes. */
  lemma DatedDirCompetes(clock: Clock, subs: seq<Subentry>, j: nat, name: Text) returns (c: DatedName)
    requires HoldsDated(clock, subs, j, name)
    ensures IsCandidate(clock, subs, c) && Instant(clock, name).value <= c.ts
    ensures RankIn(clock, subs[j].entries, Some(c.ts))
  {
    var rank := RankExists(clock, subs[j].entries);
    c := DatedName(subs[j].name, rank.value);
  }

  lemma RivalLoses(clock: Clock, subs: seq<Subentry>, policy: Policy, c: DatedName, j: nat, name: Text) returns (rival: DatedName)
    requires PickedIn(clock, subs, policy, c) && HoldsDated(clock, subs, j, name)
    ensures Instant(clock, name).value <= rival.ts && RankIn(clock, subs[j].entries, Some(rival.ts))
    ensures policy == NewestFirst ==> rival.ts <= c.ts
    ensures policy == OldestFirst ==> c.ts <= rival.ts
  {
    rival := DatedDirCompetes(clock, subs, j, name);
  }

  lemma PickedIsRanked(clock: Clock, subs: seq<Subentry>, c: DatedName, i: nat)
    requires DistinctSubs(subs) && IsCandidate(clock, subs, c)
    requires i < |subs| && subs[i].Subdirectory? && subs[i].name == c.name
    ensures RankIn(clock, subs[i].entries, Some(c.ts))
  {
  }

  /** The directory picked by name, once its own manifest is chosen: the instant restored
      is the one it was ranked by; under "newest" no dated manifest anywhere is newer,
      under "oldest" every other directory with a dated manifest holds one no older. */
  lemma RestoresTheExtreme(clock: Clock, subs: seq<Subentry>, policy: Policy, c: DatedName,
                           i: nat, r: Result<Text, Refusal>)
    requires DistinctSubs(subs) && PickedIn(clock, subs, policy, c)
    requires i < |subs| && subs[i].Subdirectory? && subs[i].name == c.name
    requires Chosen(clock, ManifestNames(subs[i].entries), r) && r.Ok?
    ensures Instant(clock, r.value) == Some(c.ts)
    ensures policy == NewestFirst ==>
              forall j, name :: HoldsDated(clock, subs, j, name) ==> Instant(clock, name).value <= c.ts
    ensures policy == OldestFirst ==>
              forall j, name :: HoldsDated(clock, subs, j, name) ==>
                exists newest :: HoldsDated(clock, subs, j, newest) && c.ts <= Instant(clock, newest).value
  {
    PickedIsRanked(clock, subs, c, i);
    RankOverEntries(clock, subs[i].entries);
    ChosenCarriesRank(clock, ManifestNames(subs[i].entries), r, Some(c.ts));
    forall j, name | HoldsDated(clock, subs, j, name)
      ensures policy == NewestFirst ==> Instant(clock, name).value <= c.ts
      ensures policy == OldestFirst ==> exists newest :: HoldsDated(clock, subs, j, newest) && c.ts <= Instant(clock, newest).value
    {
      var rival := RivalLoses(clock, subs, policy, c, j, name);
      var newest :| ListsManifest(subs[j].entries, newest) && Instant(clock, newest) == Some(rival.ts);
      assert HoldsDated(clock, subs, j, newest);
    }
  }
}

/** adapters/cassandra/selection.go and the candidates of adapters/cassandra/source.go:
    which of a directory of snapshot trees a drill restores. */
module Selection {
  import opened Wrappers
  import opened Bytes
  import opened Ordering
  import opened CassandraCensus
  import opened CassandraTree

  datatype Policy = Newest | Oldest | Random

  function PolicyWord(p: Policy): Text {
    Ascii(match p case Newest => "newest" case Oldest => "oldest" case Random => "random")
  }

  datatype PolicyRefusal = KindHasNoChoice | NoSuchPolicy

  const SNAPSHOT_DIR_KIND := Ascii("cassandra_snapshot_dir")

  /** backupSelection: nothing declared means newest; what is declared has to mean
      something to the kind, and be one of the three words. */
  method BackupSelection(kind: Text, raw: Text) returns (r: Result<Policy, PolicyRefusal>)
    ensures raw == [] ==> r == Ok(Newest)
    ensures raw != [] && kind != Ascii("cassandra_snapshot_dir") ==> r == Err(KindHasNoChoice)
    ensures raw != [] && kind == Ascii("cassandra_snapshot_dir") ==>
              r == if raw == Ascii("newest") then Ok(Newest)
                   else if raw == Ascii("oldest") then Ok(Oldest)
                   else if raw == Ascii("random") then Ok(Random)
                   else Err(NoSuchPolicy)
  {
    if raw == [] {
      return Ok(Newest);
    }
    if kind != SNAPSHOT_DIR_KIND {
      return Err(KindHasNoChoice);
    }
    if raw == PolicyWord(Newest) {
      return Ok(Newest);
    }
    if raw == PolicyWord(Oldest) {
      return Ok(Oldest);
    }
    if raw == PolicyWord(Random) {
      return Ok(Random);
    }
    return Err(NoSuchPolicy);
  }

  /** treeCandidate */
  datatype Candidate = Candidate(name: Text, maxCreatedMs: int, mtime: int)

  predicate Dated(c: Candidate) {
    c.maxCreatedMs != 0
  }

  /** beats */
  predicate Beats(c: Candidate, o: Candidate) {
    if Dated(c) != Dated(o) then Dated(c)
    else if c.maxCreatedMs != o.maxCreatedMs then c.maxCreatedMs > o.maxCreatedMs
    else if c.mtime != o.mtime then c.mtime > o.mtime
    else Less(o.name, c.name)
  }

  /** precedes */
  predicate Precedes(c: Candidate, o: Candidate) {
    if Dated(c) != Dated(o) then Dated(c)
    else if c.maxCreatedMs != o.maxCreatedMs then c.maxCreatedMs < o.maxCreatedMs
    else if c.mtime != o.mtime then c.mtime < o.mtime
    else Less(c.name, o.name)
  }

  /** Oldest is newest turned around between two dated or two undated candidates, and
      the same thing between a dated and an undated one. */
  lemma OldestTurnsNewestAround(a: Candidate, b: Candidate)
    ensures Dated(a) == Dated(b) ==> (Precedes(a, b) <==> Beats(b, a))
    ensures Dated(a) != Dated(b) ==> (Precedes(a, b) <==> Beats(a, b)) && (Beats(a, b) <==> Dated(a))
  {
  }

  lemma BeatsIsStrictTotal()
    ensures StrictTotal(Beats)
  {
    TextLessIsStrictTotal();
    forall a, b, c | Beats(a, b) && Beats(b, c) ensures Beats(a, c) {
      if a.maxCreatedMs == b.maxCreatedMs == c.maxCreatedMs && a.mtime == b.mtime == c.mtime {
        LessTransitive(c.name, b.name, a.name);
      }
    }
    forall a ensures !Beats(a, a) { LessIrreflexive(a.name); }
    forall a, b ensures a == b || Beats(a, b) || Beats(b, a) { LessConnected(a.name, b.name); }
  }

  lemma PrecedesIsStrictTotal()
    ensures StrictTotal(Precedes)
  {
    TextLessIsStrictTotal();
    forall a, b, c | Precedes(a, b) && Precedes(b, c) ensures Precedes(a, c) {
      if a.maxCreatedMs == b.maxCreatedMs == c.maxCreatedMs && a.mtime == b.mtime == c.mtime {
        LessTransitive(a.name, b.name, c.name);
      }
    }
    forall a ensures !Precedes(a, a) { LessIrreflexive(a.name); }
    forall a, b ensures a == b || Precedes(a, b) || Precedes(b, a) { LessConnected(a.name, b.name); }
  }

  /** The one candidate that wins against all others. */
  ghost predicate IsBest(wins: (Candidate, Candidate) -> bool, candidates: seq<Candidate>, best: Candidate) {
    best in candidates && forall c :: c in candidates ==> c == best || wins(best, c)
  }

  /** The loop of pick. */
  method Best(wins: (Candidate, Candidate) -> bool, candidates: seq<Candidate>) returns (best: Candidate)
    requires candidates != [] && StrictTotal(wins)
    ensures IsBest(wins, candidates, best)
  {
    best := candidates[0];
    for i := 1 to |candidates|
      invariant IsBest(wins, candidates[..i], best)
    {
      var c := candidates[i];
      assert forall x :: x in candidates[..i + 1] <==> x in candidates[..i] || x == c;
      if wins(c, best) {
        best := c;
      }
    }
    assert candidates[..|candidates|] == candidates;
  }

  /** The dated candidates, where there are any. */
  ghost predicate InPool(candidates: seq<Candidate>, c: Candidate) {
    c in candidates && ((exists d :: d in candidates && Dated(d)) ==> Dated(c))
  }

  /** datable */
  method Datable(candidates: seq<Candidate>) returns (pool: seq<Candidate>)
    requires candidates != []
    ensures pool != [] && forall c :: c in pool <==> InPool(candidates, c)
  {
    var dated: seq<Candidate> := [];
    for i := 0 to |candidates|
      invariant forall c :: c in dated <==> c in candidates[..i] && Dated(c)
    {
      assert forall x :: x in candidates[..i + 1] <==> x in candidates[..i] || x == candidates[i];
      if candidates[i].maxCreatedMs != 0 {
        dated := dated + [candidates[i]];
      }
    }
    assert candidates[..|candidates|] == candidates;
    if |dated| == 0 {
      return candidates;
    }
    assert dated[0] in dated;
    return dated;
  }

  /** No candidate ranks later: undated ones rank before all dated ones. */
  ghost predicate Latest(candidates: seq<Candidate>, best: Candidate) {
    && best in candidates
    && forall c :: c in candidates ==>
         || (c.maxCreatedMs == 0 && best.maxCreatedMs != 0)
         || ((c.maxCreatedMs == 0 <==> best.maxCreatedMs == 0)
             && (c.maxCreatedMs < best.maxCreatedMs
                 || (c.maxCreatedMs == best.maxCreatedMs
                     && (c.mtime < best.mtime || (c.mtime == best.mtime && (c == best || Less(c.name, best.name)))))))
  }

  /** No candidate ranks earlier, and still undated ones rank behind all dated ones. */
  ghost predicate Earliest(candidates: seq<Candidate>, best: Candidate) {
    && best in candidates
    && forall c :: c in candidates ==>
         || (c.maxCreatedMs == 0 && best.maxCreatedMs != 0)
         || ((c.maxCreatedMs == 0 <==> best.maxCreatedMs == 0)
             && (best.maxCreatedMs < c.maxCreatedMs
                 || (c.maxCreatedMs == best.maxCreatedMs
                     && (best.mtime < c.mtime || (c.mtime == best.mtime && (c == best || Less(best.name, c.name)))))))
  }

  lemma BestRanks(candidates: seq<Candidate>, best: Candidate)
    ensures IsBest(Beats, candidates, best) <==> Latest(candidates, best)
    ensures IsBest(Precedes, candidates, best) <==> Earliest(candidates, best)
  {
  }

  /** What pick may answer. */
  ghost predicate Picked(policy: Policy, candidates: seq<Candidate>, c: Candidate) {
    match policy
    case Newest => Latest(candidates, c)
    case Oldest => Earliest(candidates, c)
    case Random => InPool(candidates, c)
  }

  /** pick, the random index any one below the pool's length. */
  method Pick(policy: Policy, candidates: seq<Candidate>) returns (c: Candidate)
    requires candidates != []
    ensures Picked(policy, candidates, c)
  {
    BeatsIsStrictTotal();
    PrecedesIsStrictTotal();
    match policy {
      case Random =>
        var pool := Datable(candidates);
        var index :| 0 <= index < |pool|;
        c := pool[index];
      case Newest =>
        c := Best(Beats, candidates);
        BestRanks(candidates, c);
      case Oldest =>
        c := Best(Precedes, candidates);
        BestRanks(candidates, c);
    }
  }

  lemma BestUnique(wins: (Candidate, Candidate) -> bool, candidates: seq<Candidate>, shuffled: seq<Candidate>, a: Candidate, b: Candidate)
    requires StrictTotal(wins) && multiset(candidates) == multiset(shuffled)
    requires IsBest(wins, candidates, a) && IsBest(wins, shuffled, b)
    ensures a == b
  {
    SameMembers(candidates, shuffled);
    assert wins(a, b) && wins(b, a) ==> wins(a, a);
  }

  /** Listing order is immaterial to a policy that ranks, and every policy prefers a
      candidate that can be dated. */
  lemma PickedOnce(policy: Policy, candidates: seq<Candidate>, shuffled: seq<Candidate>, a: Candidate, b: Candidate)
    requires multiset(candidates) == multiset(shuffled)
    requires Picked(policy, candidates, a) && Picked(policy, shuffled, b)
    ensures policy != Random ==> a == b
    ensures Dated(a) <==> exists d :: d in candidates && Dated(d)
    ensures Dated(a) == Dated(b)
  {
    BeatsIsStrictTotal();
    PrecedesIsStrictTotal();
    SameMembers(candidates, shuffled);
    BestRanks(candidates, a);
    BestRanks(shuffled, b);
    if policy == Newest {
      BestUnique(Beats, candidates, shuffled, a, b);
    }
    if policy == Oldest {
      BestUnique(Precedes, candidates, shuffled, a, b);
    }
    assert policy == Newest ==> forall d :: d in candidates && Dated(d) ==> Dated(a) || Beats(a, d);
    assert policy == Oldest ==> forall d :: d in candidates && Dated(d) ==> Dated(a) || Precedes(a, d);
  }

  // chooseTreeIn, over what each subdirectory's own files state.

  datatype Subentry =
    | Subtree(name: Text, tree: Tree, mtime: int)
    | OtherEntry(name: Text)

  /** A subtree competes as its census dates it, undated where it is refused. */
  ghost predicate Represents(c: Candidate, e: Subentry) {
    && e.Subtree? && c.name == e.name && c.mtime == e.mtime
    && exists out :: TreeVerdict(e.tree, out) && c.maxCreatedMs == if out.Ok? then out.value.maxCreatedMs else 0
  }

  function Subtrees(entries: seq<Subentry>): (r: seq<Subentry>)
    ensures forall e :: e in r <==> e.Subtree? && e in entries
  {
    if entries == [] then []
    else
      assert entries == entries[..|entries| - 1] + [entries[|entries| - 1]];
      Subtrees(entries[..|entries| - 1]) + if entries[|entries| - 1].Subtree? then [entries[|entries| - 1]] else []
  }

  lemma SubtreesSnoc(entries: seq<Subentry>, i: nat)
    requires i < |entries|
    ensures Subtrees(entries[..i + 1]) == Subtrees(entries[..i]) + if entries[i].Subtree? then [entries[i]] else []
  {
    assert entries[..i + 1][..i] == entries[..i];
  }

  /** One candidate a subtree, in the order listed. */
  ghost predicate Compete(subtrees: seq<Subentry>, candidates: seq<Candidate>) {
    |candidates| == |subtrees| && forall i :: 0 <= i < |subtrees| ==> Represents(candidates[i], subtrees[i])
  }

  /** The body of chooseTreeIn's loop. */
  method CandidateOf(e: Subentry) returns (c: Candidate)
    requires e.Subtree? && DistinctTree(e.tree)
    ensures Represents(c, e)
  {
    var out := InspectSnapshotTree(e.tree);
    c := Candidate(e.name, if out.Ok? then out.value.maxCreatedMs else 0, e.mtime);
  }

  /** The policy's choice among the subtrees as they date themselves. */
  ghost predicate TreeChosen(entries: seq<Subentry>, policy: Policy, name: Text) {
    exists candidates, c :: Compete(Subtrees(entries), candidates) && Picked(policy, candidates, c) && name == c.name
  }

  method ChooseTreeIn(entries: seq<Subentry>, policy: Policy) returns (r: Option<Text>)
    requires forall i :: 0 <= i < |entries| && entries[i].Subtree? ==> DistinctTree(entries[i].tree)
    ensures r.Some? <==> Subtrees(entries) != []
    ensures r.Some? ==> TreeChosen(entries, policy, r.value)
  {
    var candidates: seq<Candidate> := [];
    for i := 0 to |entries|
      invariant Compete(Subtrees(entries[..i]), candidates)
    {
      SubtreesSnoc(entries, i);
      if entries[i].Subtree? {
        var c := CandidateOf(entries[i]);
        candidates := candidates + [c];
      }
    }
    assert entries[..|entries|] == entries;
    if |candidates| == 0 {
      return None;
    }
    var c := Pick(policy, candidates);
    return Some(c.name);
  }

  /** A subtree competes as one candidate. */
  lemma RepresentedOnce(a: Candidate, b: Candidate, e: Subentry)
    requires Represents(a, e) && Represents(b, e)
    ensures a == b
  {
    var x :| TreeVerdict(e.tree, x) && a.maxCreatedMs == if x.Ok? then x.value.maxCreatedMs else 0;
    var y :| TreeVerdict(e.tree, y) && b.maxCreatedMs == if y.Ok? then y.value.maxCreatedMs else 0;
    if x.Ok? {
      CensusUnique(x.value, y.value, FactsOfDirs(TreeDirs(e.tree)));
    }
  }

  lemma CompeteOnce(subtrees: seq<Subentry>, a: seq<Candidate>, b: seq<Candidate>)
    requires Compete(subtrees, a) && Compete(subtrees, b)
    ensures a == b
  {
    forall i | 0 <= i < |subtrees| ensures a[i] == b[i] {
      RepresentedOnce(a[i], b[i], subtrees[i]);
    }
  }

  /** A ranking policy has one answer for a directory: what the trees state and their
      directory times and names decide it, nothing else. */
  lemma TreeChosenOnce(entries: seq<Subentry>, policy: Policy, a: Text, b: Text)
    requires policy != Random && TreeChosen(entries, policy, a) && TreeChosen(entries, policy, b)
    ensures a == b
  {
    var m, x :| Compete(Subtrees(entries), m) && Picked(policy, m, x) && a == x.name;
    var n, y :| Compete(Subtrees(entries), n) && Picked(policy, n, y) && b == y.name;
    CompeteOnce(Subtrees(entries), m, n);
    PickedOnce(policy, m, n, x, y);
  }
}

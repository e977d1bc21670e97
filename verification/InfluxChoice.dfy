/** adapters/influxdb/source.go: which manifest of a backup directory or archive is
    restored, and which backup directory of several. */
module InfluxChoice {
  import opened Wrappers
  import opened Bytes
  import opened Nesting
  import opened Ordering

  const MANIFEST_SUFFIX := Ascii(".manifest")

  predicate IsManifest(name: Text) {
    HasSuffix(name, MANIFEST_SUFFIX)
  }

  /** The instants of the stems time.Parse can read; which those are is arbitrary. */
  type Clock = map<Text, int>

  function Instant(clock: Clock, name: Text): Option<int> {
    var stem := TrimSuffix(name, MANIFEST_SUFFIX);
    if stem in clock then Some(clock[stem]) else None
  }

  datatype DirEntry = DirEntry(name: Text, regular: bool)

  datatype Refusal = NoManifest | Undecidable

  function ManifestsOf(e: DirEntry): seq<Text> {
    if e.regular && IsManifest(e.name) then [e.name] else []
  }

  /** The manifest names a directory lists. */
  function ManifestNames(entries: seq<DirEntry>): seq<Text> {
    Flatten(Map(ManifestsOf, entries))
  }

  // The same, over the directory itself.

  predicate IsManifestFile(e: DirEntry) {
    e.regular && HasSuffix(e.name, Ascii(".manifest"))
  }

  ghost predicate ListsManifest(entries: seq<DirEntry>, name: Text) {
    exists i :: 0 <= i < |entries| && IsManifestFile(entries[i]) && entries[i].name == name
  }

  /** Where the list of names has an entry's. */
  function NameOffset(entries: seq<DirEntry>, i: nat): nat
    requires i < |entries|
  {
    Start(Map(ManifestsOf, entries), i)
  }

  lemma ManifestIsNamed(entries: seq<DirEntry>, i: nat)
    requires i < |entries| && IsManifestFile(entries[i])
    ensures NameOffset(entries, i) < |ManifestNames(entries)| && ManifestNames(entries)[NameOffset(entries, i)] == entries[i].name
  {
    FlattenAt(Map(ManifestsOf, entries), i, 0);
  }

  /** The names stand in the order of the listing. */
  lemma ManifestsInOrder(entries: seq<DirEntry>, i: nat, j: nat)
    requires i < j < |entries| && IsManifestFile(entries[i])
    ensures NameOffset(entries, i) < NameOffset(entries, j)
  {
    FlattenGrows(Map(ManifestsOf, entries), i, j);
  }

  lemma NameHasManifest(entries: seq<DirEntry>, y: nat) returns (i: nat)
    requires y < |ManifestNames(entries)|
    ensures i < |entries| && IsManifestFile(entries[i]) && NameOffset(entries, i) == y && ManifestNames(entries)[y] == entries[i].name
  {
    var x;
    i, x := FlattenFrom(Map(ManifestsOf, entries), y);
    FlattenAt(Map(ManifestsOf, entries), i, x);
  }

  lemma ManifestNamesListed(entries: seq<DirEntry>)
    ensures forall name :: name in ManifestNames(entries) <==> ListsManifest(entries, name)
  {
    forall name ensures name in ManifestNames(entries) <==> ListsManifest(entries, name) {
      if name in ManifestNames(entries) {
        var y :| 0 <= y < |ManifestNames(entries)| && ManifestNames(entries)[y] == name;
        var i := NameHasManifest(entries, y);
      }
      if ListsManifest(entries, name) {
        var i :| 0 <= i < |entries| && IsManifestFile(entries[i]) && entries[i].name == name;
        ManifestIsNamed(entries, i);
      }
    }
  }

  /** A listing without repeats names no manifest twice. */
  lemma ManifestNamesDistinct(entries: seq<DirEntry>)
    requires forall i, j :: 0 <= i < j < |entries| ==> entries[i].name != entries[j].name
    ensures Distinct(ManifestNames(entries))
  {
    forall y, z | 0 <= y < z < |ManifestNames(entries)| ensures ManifestNames(entries)[y] != ManifestNames(entries)[z] {
      var i := NameHasManifest(entries, y);
      var j := NameHasManifest(entries, z);
      assert i != j;
    }
  }

  /** An instant is read off what stands before the suffix. */
  lemma InstantOfStem(clock: Clock, stem: Text)
    ensures Instant(clock, stem + Ascii(".manifest")) == if stem in clock then Some(clock[stem]) else None
  {
    SuffixOfConcat(stem, MANIFEST_SUFFIX);
  }

  datatype DatedName = DatedName(name: Text, ts: int)

  /** Newest first, ties to the larger name: how chooseManifest sorts. */
  predicate Newer(a: DatedName, b: DatedName) {
    if a.ts != b.ts then a.ts > b.ts else Less(b.name, a.name)
  }

  lemma NewerIsStrictTotal()
    ensures StrictTotal(Newer)
  {
    TextLessIsStrictTotal();
    forall a, b, c | Newer(a, b) && Newer(b, c) ensures Newer(a, c) {
      if a.ts == b.ts == c.ts {
        LessTransitive(c.name, b.name, a.name);
      }
    }
    forall a ensures !Newer(a, a) { LessIrreflexive(a.name); }
    forall a, b ensures a == b || Newer(a, b) || Newer(b, a) { LessConnected(a.name, b.name); }
  }

  ghost predicate AllDated(clock: Clock, names: seq<Text>) {
    forall name :: name in names ==> Instant(clock, name).Some?
  }

  function Dated(clock: Clock, name: Text): DatedName
    requires Instant(clock, name).Some?
  {
    DatedName(name, Instant(clock, name).value)
  }

  /** Dated no later than best, and on a tie of no larger name. */
  ghost predicate Outdated(clock: Clock, entry: Text, best: Text) {
    && Instant(clock, entry).Some? && Instant(clock, best).Some?
    && (Instant(clock, entry).value < Instant(clock, best).value ||
        (Instant(clock, entry) == Instant(clock, best) && (entry == best || Less(entry, best))))
  }

  /** best is dated, and newer than every other of the names. */
  ghost predicate IsNewest(clock: Clock, names: seq<Text>, best: Text) {
    && best in names
    && AllDated(clock, names)
    && forall name :: name in names ==> Outdated(clock, name, best)
  }

  /** The choice both choosers owe: a lone manifest whatever it is called, the newest of
      several when every one of them can be dated. */
  ghost predicate Chosen(clock: Clock, names: seq<Text>, r: Result<Text, Refusal>) {
    if |names| == 0 then r == Err(NoManifest)
    else if |names| == 1 then r == Ok(names[0])
    else if AllDated(clock, names) then r.Ok? && IsNewest(clock, names, r.value)
    else r == Err(Undecidable)
  }

  ghost predicate OnlyManifest(entries: seq<DirEntry>, i: int) {
    && 0 <= i < |entries| && IsManifestFile(entries[i])
    && forall j :: 0 <= j < |entries| && IsManifestFile(entries[j]) ==> j == i
  }

  /** The choice, over the directory itself. */
  ghost predicate ChosenIn(clock: Clock, entries: seq<DirEntry>, r: Result<Text, Refusal>) {
    if forall name :: !ListsManifest(entries, name) then r == Err(NoManifest)
    else if exists i :: OnlyManifest(entries, i) then r.Ok? && forall i :: OnlyManifest(entries, i) ==> r.value == entries[i].name
    else if forall name :: ListsManifest(entries, name) ==> Instant(clock, name).Some? then
      r.Ok? && ListsManifest(entries, r.value) && forall name :: ListsManifest(entries, name) ==> Outdated(clock, name, r.value)
    else r == Err(Undecidable)
  }

  lemma LoneNameIsOnly(entries: seq<DirEntry>) returns (i: nat)
    requires |ManifestNames(entries)| == 1
    ensures OnlyManifest(entries, i)
  {
    i := NameHasManifest(entries, 0);
    forall j | 0 <= j < |entries| && IsManifestFile(entries[j]) ensures j == i {
      ManifestIsNamed(entries, j);
      if j < i {
        ManifestsInOrder(entries, j, i);
      } else if i < j {
        ManifestsInOrder(entries, i, j);
      }
    }
  }

  lemma OnlyIsLoneName(entries: seq<DirEntry>, i: nat)
    requires OnlyManifest(entries, i)
    ensures ManifestNames(entries) == [entries[i].name]
  {
    ManifestIsNamed(entries, i);
    var first := NameHasManifest(entries, 0);
    assert first == i;
    if |ManifestNames(entries)| > 1 {
      var second := NameHasManifest(entries, 1);
    }
  }

  lemma NoManifestListed(entries: seq<DirEntry>)
    ensures ManifestNames(entries) == [] <==> forall name :: !ListsManifest(entries, name)
  {
    ManifestNamesListed(entries);
    if ManifestNames(entries) != [] {
      assert ManifestNames(entries)[0] in ManifestNames(entries);
    }
  }

  /** These are the names of the manifest files, and as many. */
  ghost predicate AreNames(entries: seq<DirEntry>, names: seq<Text>) {
    && (forall name :: name in names <==> ListsManifest(entries, name))
    && (names == [] <==> forall name :: !ListsManifest(entries, name))
    && (|names| == 1 ==> exists i :: OnlyManifest(entries, i))
    && (forall i :: OnlyManifest(entries, i) ==> |names| == 1 && names[0] == entries[i].name)
  }

  lemma ManifestNamesAre(entries: seq<DirEntry>)
    ensures AreNames(entries, ManifestNames(entries))
  {
    ManifestNamesListed(entries);
    NoManifestListed(entries);
    if |ManifestNames(entries)| == 1 {
      var i := LoneNameIsOnly(entries);
    }
    forall i | OnlyManifest(entries, i) ensures ManifestNames(entries) == [entries[i].name] {
      OnlyIsLoneName(entries, i);
    }
  }

  lemma ChosenOverEntries(clock: Clock, entries: seq<DirEntry>, names: seq<Text>, r: Result<Text, Refusal>)
    requires AreNames(entries, names) && Chosen(clock, names, r)
    ensures ChosenIn(clock, entries, r)
  {
  }

  /** chooseManifest's loop: every name with its instant, or none of them. */
  method DateAll(clock: Clock, names: seq<Text>) returns (backups: Option<seq<DatedName>>)
    ensures backups.Some? <==> AllDated(clock, names)
    ensures backups.Some? ==>
              |backups.value| == |names| && forall i :: 0 <= i < |names| ==> backups.value[i] == Dated(clock, names[i])
  {
    var dated: seq<DatedName> := [];
    for i := 0 to |names|
      invariant |dated| == i
      invariant forall k :: 0 <= k < i ==> Instant(clock, names[k]).Some? && dated[k] == Dated(clock, names[k])
    {
      var ts := Instant(clock, names[i]);
      if ts.None? {
        return None;
      }
      dated := dated + [DatedName(names[i], ts.value)];
    }
    return Some(dated);
  }

  lemma FirstIsNewest(clock: Clock, names: seq<Text>, backups: seq<DatedName>)
    requires names != [] && AllDated(clock, names) && |backups| == |names|
    requires forall i :: 0 <= i < |names| ==> backups[i] == Dated(clock, names[i])
    ensures |Sort(Newer, backups)| > 0 && IsNewest(clock, names, Sort(Newer, backups)[0].name)
  {
    var sorted := Sort(Newer, backups);
    NewerIsStrictTotal();
    SortSorts(Newer, backups);
    SameMembers(sorted, backups);
    assert backups[0] in sorted;
    assert sorted[0] in backups;
    forall name | name in names && name != sorted[0].name
      ensures Newer(Dated(clock, sorted[0].name), Dated(clock, name))
    {
      var i :| 0 <= i < |names| && names[i] == name;
      assert backups[i] in sorted;
      assert !Newer(backups[i], sorted[0]);
    }
  }

  /** The second half of chooseManifest: sort newest first, take the first. */
  method ChooseNamed(clock: Clock, names: seq<Text>) returns (r: Result<Text, Refusal>)
    ensures Chosen(clock, names, r)
  {
    if |names| == 0 {
      return Err(NoManifest);
    }
    if |names| == 1 {
      return Ok(names[0]);
    }
    var backups := DateAll(clock, names);
    if backups.None? {
      return Err(Undecidable);
    }
    FirstIsNewest(clock, names, backups.value);
    return Ok(Sort(Newer, backups.value)[0].name);
  }

  /** chooseManifest: the regular files of the suffix, whatever else is there. */
  method ChooseManifest(clock: Clock, entries: seq<DirEntry>) returns (r: Result<Text, Refusal>)
    ensures Chosen(clock, ManifestNames(entries), r) && ChosenIn(clock, entries, r)
  {
    var names: seq<Text> := [];
    for i := 0 to |entries|
      invariant names == ManifestNames(entries[..i])
    {
      FlattenMapNext(ManifestsOf, entries, i);
      if entries[i].regular && HasSuffix(entries[i].name, MANIFEST_SUFFIX) {
        names := names + [entries[i].name];
      }
    }
    assert entries[..|entries|] == entries;
    r := ChooseNamed(clock, names);
    ManifestNamesAre(entries);
    ChosenOverEntries(clock, entries, names, r);
  }

  lemma OutdatedTransitive(clock: Clock, a: Text, b: Text, c: Text)
    requires Outdated(clock, a, b) && Outdated(clock, b, c)
    ensures Outdated(clock, a, c)
  {
    if Less(a, b) && Less(b, c) {
      LessTransitive(a, b, c);
    }
  }

  lemma OneNameMore(clock: Clock, names: seq<Text>, best: Text, name: Text)
    requires names != [] ==> IsNewest(clock, names, best)
    requires Instant(clock, name).Some?
    ensures var x := Dated(clock, name);
            IsNewest(clock, names + [name], if names == [] || Newer(x, Dated(clock, best)) then name else best)
  {
    assert forall n :: n in names + [name] <==> n in names || n == name;
    if names != [] {
      if Newer(Dated(clock, name), Dated(clock, best)) {
        forall n | n in names ensures Outdated(clock, n, name) {
          OutdatedTransitive(clock, n, best, name);
        }
      } else {
        LessConnected(name, best);
      }
    }
  }

  /** chooseTarManifest's loop, over names sorted upwards: the newest so far, ties to the
      later name. */
  method ScanNewest(clock: Clock, names: seq<Text>) returns (r: Result<Text, Refusal>)
    requires names != [] && forall name :: name in names ==> IsManifest(name)
    ensures if AllDated(clock, names) then r.Ok? && IsNewest(clock, names, r.value) else r == Err(Undecidable)
  {
    var best, bestTS: int := [], 0;
    for i := 0 to |names|
      invariant forall k :: 0 <= k < i ==> Instant(clock, names[k]).Some?
      invariant best == [] <==> i == 0
      invariant i > 0 ==> IsNewest(clock, names[..i], best) && Instant(clock, best) == Some(bestTS)
    {
      var name := names[i];
      assert names[..i + 1] == names[..i] + [name];
      assert IsManifest(name) && |MANIFEST_SUFFIX| > 0;
      var ts := Instant(clock, name);
      if ts.None? {
        assert name in names;
        return Err(Undecidable);
      }
      OneNameMore(clock, names[..i], best, name);
      if best == [] || ts.value > bestTS || (ts.value == bestTS && Less(best, name)) {
        best, bestTS := name, ts.value;
      }
    }
    assert names[..|names|] == names;
    return Ok(best);
  }

  /** The choice owed for these names, listed once each in some order. */
  ghost predicate ChosenOf(clock: Clock, manifests: map<Text, seq<Byte>>, r: Result<Text, Refusal>) {
    exists names :: Lists(names, manifests) && Chosen(clock, names, r)
  }

  ghost predicate Lists(names: seq<Text>, manifests: map<Text, seq<Byte>>) {
    Distinct(names) && forall name :: name in names <==> name in manifests
  }

  /** The keys of a Go map, in whatever order they come. */
  method KeysOf(manifests: map<Text, seq<Byte>>) returns (keys: seq<Text>)
    ensures Lists(keys, manifests)
  {
    var pending := manifests.Keys;
    keys := [];
    while pending != {}
      invariant pending <= manifests.Keys && Distinct(keys)
      invariant forall name :: name in keys <==> name in manifests && name !in pending
      decreases |pending|
    {
      var name :| name in pending;
      keys := keys + [name];
      pending := pending - {name};
    }
  }

  /** chooseTarManifest: the map's keys, sorted upwards, scanned. */
  method ChooseTarManifest(clock: Clock, manifests: map<Text, seq<Byte>>) returns (r: Result<Text, Refusal>)
    requires forall name :: name in manifests ==> IsManifest(name)
    ensures ChosenOf(clock, manifests, r)
  {
    var keys := KeysOf(manifests);
    TextLessIsStrictTotal();
    SortOfDistinct(Less, keys);
    var names := Sort(Less, keys);
    assert Lists(names, manifests);
    if |names| == 0 {
      r := Err(NoManifest);
    } else if |names| == 1 {
      r := Ok(names[0]);
    } else {
      r := ScanNewest(clock, names);
    }
    assert Chosen(clock, names, r);
  }

  lemma NewestUnique(clock: Clock, names: seq<Text>, a: Text, b: Text)
    requires IsNewest(clock, names, a) && IsNewest(clock, names, b)
    ensures a == b
  {
    NewerIsStrictTotal();
    var x, y := Dated(clock, a), Dated(clock, b);
    assert Newer(x, y) && Newer(y, x) ==> Newer(x, x);
  }

  lemma ChosenOnce(clock: Clock, a: seq<Text>, b: seq<Text>, x: Result<Text, Refusal>, y: Result<Text, Refusal>)
    requires Distinct(a) && Distinct(b) && forall name :: name in a <==> name in b
    requires Chosen(clock, a, x) && Chosen(clock, b, y)
    ensures x == y
  {
    DistinctSameElements(a, b);
    assert |a| == |multiset(a)| == |b|;
    if |a| == 1 {
      assert a[0] in b;
    }
    if AllDated(clock, a) && |a| > 1 {
      NewestUnique(clock, a, x.value, y.value);
    }
  }

  /** One set of manifests, one choice: sorting a directory's listing and scanning an
      archive's map agree on the name or both refuse, whatever order either came in. */
  lemma ChoosersAgree(clock: Clock, entries: seq<DirEntry>, manifests: map<Text, seq<Byte>>,
                      fromDir: Result<Text, Refusal>, fromTar: Result<Text, Refusal>)
    requires Lists(ManifestNames(entries), manifests)
    requires Chosen(clock, ManifestNames(entries), fromDir) && ChosenOf(clock, manifests, fromTar)
    ensures fromDir == fromTar
  {
    var names :| Lists(names, manifests) && Chosen(clock, names, fromTar);
    ChosenOnce(clock, ManifestNames(entries), names, fromDir, fromTar);
  }
}

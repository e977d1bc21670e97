/** adapters/cassandra/meta.go, first half: what one table of a snapshot states
    about itself, and the verdict on it.

    JSON, RFC 3339, TOC line splitting, integer parsing and CRC-32 are library calls
    whose results a file body carries with it, unconstrained. */
module CassandraFacts {
  import opened Wrappers
  import opened Bytes

  datatype TableRef = TableRef(keyspace: Text, table: Text)

  /** A readable manifest.json: the Data files it lists, and the instant it states,
      where RFC 3339 can read one. */
  datatype Manifest = Manifest(files: seq<Text>, createdMs: Option<int>)

  const NO_MANIFEST := Manifest([], None)

  /** A file body, as far as the libraries see it: its length, the readings of its
      first metaMaxBytes bytes (as JSON, as a list of TOC lines, as an unsigned
      decimal), and the CRC-32 of all of it. The readings are arbitrary. */
  datatype Body = Body(length: nat, manifest: Option<Manifest>, toc: seq<Text>, digest: Option<int>, crc: int)

  datatype Verdict =
    | LiveData
    | NoSchema
    | MissingComponent
    | MissingListedFile
    | DigestMismatch
    | SystemKeyspace
    | BadIdentifier
    | EmptySnapshot
    | TooMuchKept
    | Unreadable

  const MANIFEST_NAME := Ascii("manifest.json")
  const SCHEMA_NAME := Ascii("schema.cql")
  const TOC_SUFFIX := Ascii("-TOC.txt")
  const DIGEST_SUFFIX := Ascii("-Digest.crc32")
  const DATA_SUFFIX := Ascii("-Data.db")
  const TOC_TXT := Ascii("TOC.txt")
  const HYPHEN := Ascii("-")

  const META_MAX_BYTES: nat := 0x10_0000

  /** What io.LimitReader(…, metaMaxBytes) lets through. */
  function CappedLength(body: Body): nat {
    if body.length <= META_MAX_BYTES then body.length else META_MAX_BYTES
  }

  const LIVE_MARKERS := 2

  function LiveMarkerAt(i: nat): Text {
    Ascii(if i == 0 then "snapshots" else "backups")
  }

  predicate LiveMarker(name: Text) {
    exists i: nat :: i < LIVE_MARKERS && name == LiveMarkerAt(i)
  }

  lemma MarkerNames(name: Text)
    ensures LiveMarker(name) <==> name == Ascii("snapshots") || name == Ascii("backups")
    ensures LiveMarker(name) ==> name != []
  {
    assert LiveMarker(name) <==> name == LiveMarkerAt(0) || name == LiveMarkerAt(1);
  }

  /** Which self-describing piece a file name denotes. */
  datatype Kind = SchemaFile | ManifestFile | TocFile | DigestFile | DataFile | OtherFile

  function Spelling(k: Kind): Text {
    match k
    case SchemaFile => SCHEMA_NAME
    case ManifestFile => MANIFEST_NAME
    case TocFile => TOC_SUFFIX
    case DigestFile => DIGEST_SUFFIX
    case DataFile => DATA_SUFFIX
    case OtherFile => []
  }

  predicate SpelledAfter(name: Text, prefix: nat, k: Kind) {
    && prefix <= |name| && name[prefix..] == Spelling(k)
    && (k.SchemaFile? || k.ManifestFile? ==> prefix == 0)
  }

  /** The name is k's own, or ends in k's suffix. */
  predicate Spelled(name: Text, k: Kind) {
    exists prefix: nat :: prefix <= |name| && SpelledAfter(name, prefix, k)
  }

  /** The arms of recordEntry's switch, in its order. */
  function KindOf(name: Text): Kind {
    if Spelled(name, SchemaFile) then SchemaFile
    else if Spelled(name, ManifestFile) then ManifestFile
    else if Spelled(name, TocFile) then TocFile
    else if Spelled(name, DigestFile) then DigestFile
    else if Spelled(name, DataFile) then DataFile
    else OtherFile
  }

  function PrefixOf(name: Text, k: Kind): Text {
    TrimSuffix(name, Spelling(k))
  }

  function LastByte(t: Text): Byte
    requires t != []
  {
    t[|t| - 1]
  }

  function KindOfLast(b: Byte): Kind {
    match b
    case 108 => SchemaFile
    case 110 => ManifestFile
    case 116 => TocFile
    case 50 => DigestFile
    case 98 => DataFile
    case _ => OtherFile
  }

  /** The spellings end in different bytes. */
  lemma LastByteTells(k: Kind)
    requires !k.OtherFile?
    ensures Spelling(k) != [] && KindOfLast(LastByte(Spelling(k))) == k
  {
  }

  lemma EndingOf(name: Text, prefix: nat, ending: Text)
    requires ending != [] && prefix <= |name| && name[prefix..] == ending
    ensures name != [] && LastByte(name) == LastByte(ending)
    ensures name == TrimSuffix(name, ending) + ending
    ensures prefix == 0 ==> name == ending
  {
    assert name[|name| - 1] == name[prefix..][|ending| - 1];
    assert prefix == |name| - |ending|;
    assert HasSuffix(name, ending);
  }

  lemma SpelledKeepsLastByte(name: Text, k: Kind)
    requires !k.OtherFile? && Spelled(name, k)
    ensures name != [] && Spelling(k) != [] && LastByte(name) == LastByte(Spelling(k))
    ensures name == PrefixOf(name, k) + Spelling(k)
    ensures k.SchemaFile? || k.ManifestFile? ==> name == Spelling(k)
  {
    var prefix: nat :| prefix <= |name| && SpelledAfter(name, prefix, k);
    LastByteTells(k);
    EndingOf(name, prefix, Spelling(k));
  }

  lemma KindsApart(name: Text, a: Kind, b: Kind)
    requires !a.OtherFile? && !b.OtherFile? && a != b && Spelled(name, a)
    ensures !Spelled(name, b)
  {
    SpelledKeepsLastByte(name, a);
    LastByteTells(a);
    if Spelled(name, b) {
      SpelledKeepsLastByte(name, b);
      LastByteTells(b);
    }
  }

  /** A kind is read off the name; no name is spelled two ways. */
  lemma KindIsSpelled(name: Text, k: Kind)
    requires !k.OtherFile?
    ensures KindOf(name) == k <==> Spelled(name, k)
  {
    if Spelled(name, k) {
      forall other: Kind | !other.OtherFile? && other != k ensures !Spelled(name, other) {
        KindsApart(name, k, other);
      }
    }
  }

  lemma SuffixIsSpelled(p: Text, k: Kind)
    requires k.TocFile? || k.DigestFile? || k.DataFile?
    ensures KindOf(p + Spelling(k)) == k && PrefixOf(p + Spelling(k), k) == p
  {
    var name := p + Spelling(k);
    assert name[|p|..] == Spelling(k);
    assert SpelledAfter(name, |p|, k);
    KindIsSpelled(name, k);
    SuffixOfConcat(p, Spelling(k));
  }

  lemma NameIsSpelled(k: Kind)
    requires k.SchemaFile? || k.ManifestFile?
    ensures KindOf(Spelling(k)) == k
  {
    assert Spelling(k)[0..] == Spelling(k);
    assert SpelledAfter(Spelling(k), 0, k);
    KindIsSpelled(Spelling(k), k);
  }

  lemma KindMeansName(name: Text)
    ensures KindOf(name).SchemaFile? <==> name == SCHEMA_NAME
    ensures KindOf(name).ManifestFile? <==> name == MANIFEST_NAME
  {
    NameIsSpelled(SchemaFile);
    NameIsSpelled(ManifestFile);
    if KindOf(name).SchemaFile? || KindOf(name).ManifestFile? {
      KindIsSpelled(name, KindOf(name));
      SpelledKeepsLastByte(name, KindOf(name));
    }
  }

  /** recordEntry reads the body of these … */
  predicate KeepsBody(name: Text) {
    var k := KindOf(name);
    k.ManifestFile? || k.TocFile? || k.DigestFile?
  }

  /** … and also streams through the Data file's. */
  predicate TouchesBody(name: Text) {
    KeepsBody(name) || KindOf(name).DataFile?
  }

  /** Which files are kept, and which are read, by their names. */
  predicate MetaName(name: Text) {
    name == Ascii("manifest.json") || HasSuffix(name, Ascii("-TOC.txt")) || HasSuffix(name, Ascii("-Digest.crc32"))
  }

  predicate MustRead(name: Text) {
    MetaName(name) || HasSuffix(name, Ascii("-Data.db"))
  }

  lemma SpelledBySuffix(name: Text, k: Kind)
    requires k.TocFile? || k.DigestFile? || k.DataFile?
    ensures KindOf(name) == k <==> HasSuffix(name, Spelling(k))
  {
    KindIsSpelled(name, k);
    if HasSuffix(name, Spelling(k)) {
      assert SpelledAfter(name, |name| - |Spelling(k)|, k);
    }
    if Spelled(name, k) {
      var prefix: nat :| prefix <= |name| && SpelledAfter(name, prefix, k);
    }
  }

  lemma BodiesByName(name: Text)
    ensures KeepsBody(name) <==> MetaName(name)
    ensures TouchesBody(name) <==> MustRead(name)
  {
    KindMeansName(name);
    SpelledBySuffix(name, TocFile);
    SpelledBySuffix(name, DigestFile);
    SpelledBySuffix(name, DataFile);
  }

  datatype Facts = Facts(
    hasSchema: bool,
    manifestOK: bool,
    manifest: Manifest,
    createdMs: int,
    entries: set<Text>,
    tocs: map<Text, seq<Text>>,
    digests: map<Text, int>,
    dataCRC: map<Text, int>,
    liveMarker: Text)

  const NO_FACTS := Facts(false, false, NO_MANIFEST, 0, {}, map[], map[], map[], [])

  predicate PlausibleEpochMs(ms: int) {
    946684800000 <= ms <= 7258118400000
  }

  /** recordManifest */
  function RecordManifest(f: Facts, body: Body): Facts {
    match body.manifest
    case None => f
    case Some(m) =>
      var g := f.(manifestOK := true, manifest := m);
      match m.createdMs
      case Some(ms) => if PlausibleEpochMs(ms) then g.(createdMs := ms) else g
      case None => g
  }

  function RecordAs(f: Facts, k: Kind, name: Text, body: Body): Facts {
    match k
    case SchemaFile => f.(hasSchema := true)
    case ManifestFile => RecordManifest(f, body)
    case TocFile => f.(tocs := f.tocs[PrefixOf(name, TocFile) := body.toc])
    case DigestFile =>
      (match body.digest
       case Some(v) => f.(digests := f.digests[PrefixOf(name, DigestFile) := v])
       case None => f)
    case DataFile => f.(dataCRC := f.dataCRC[PrefixOf(name, DataFile) := body.crc])
    case OtherFile => f
  }

  /** recordEntry, once the body was read. */
  function Record(f: Facts, name: Text, body: Body): Facts {
    RecordAs(f.(entries := f.entries + {name}), KindOf(name), name, body)
  }

  lemma RecordKeepsMarker(f: Facts, name: Text, body: Body, marker: Text)
    ensures Record(f.(liveMarker := marker), name, body) == Record(f, name, body).(liveMarker := marker)
    ensures Record(f, name, body).liveMarker == f.liveMarker
  {
    var k := KindOf(name);
    var more := f.(entries := f.entries + {name});
    RecordAsKeepsMarker(more, k, name, body, marker);
    assert f.(liveMarker := marker).(entries := f.entries + {name}) == more.(liveMarker := marker);
  }

  lemma ManifestKeepsMarker(f: Facts, body: Body, marker: Text)
    ensures RecordManifest(f.(liveMarker := marker), body) == RecordManifest(f, body).(liveMarker := marker)
    ensures RecordManifest(f, body).liveMarker == f.liveMarker
  {
    if body.manifest.Some? {
      var m := body.manifest.value;
      assert f.(liveMarker := marker).(manifestOK := true, manifest := m) == f.(manifestOK := true, manifest := m).(liveMarker := marker);
    }
  }

  lemma RecordAsKeepsMarker(f: Facts, k: Kind, name: Text, body: Body, marker: Text)
    ensures RecordAs(f.(liveMarker := marker), k, name, body) == RecordAs(f, k, name, body).(liveMarker := marker)
    ensures RecordAs(f, k, name, body).liveMarker == f.liveMarker
  {
    if k.ManifestFile? {
      ManifestKeepsMarker(f, body, marker);
    }
  }

  // What a set of files states, with no order of reading in it.

  function StatedManifest(files: map<Text, Body>): Option<Manifest> {
    if MANIFEST_NAME in files then files[MANIFEST_NAME].manifest else None
  }

  function StatedInstant(files: map<Text, Body>): int {
    match StatedManifest(files)
    case None => 0
    case Some(m) =>
      match m.createdMs
      case Some(ms) => if 946684800000 <= ms <= 7258118400000 then ms else 0 // the years 2000 to 2200
      case None => 0
  }

  ghost predicate TocsState(tocs: map<Text, seq<Text>>, files: map<Text, Body>) {
    && (forall p :: p in tocs <==> p + TOC_SUFFIX in files)
    && (forall p :: p in tocs ==> tocs[p] == files[p + TOC_SUFFIX].toc)
  }

  ghost predicate DigestsState(digests: map<Text, int>, files: map<Text, Body>) {
    && (forall p :: p in digests <==> p + DIGEST_SUFFIX in files && files[p + DIGEST_SUFFIX].digest.Some?)
    && (forall p :: p in digests ==> Some(digests[p]) == files[p + DIGEST_SUFFIX].digest)
  }

  ghost predicate CRCsState(crcs: map<Text, int>, files: map<Text, Body>) {
    && (forall p :: p in crcs <==> p + DATA_SUFFIX in files)
    && (forall p :: p in crcs ==> crcs[p] == files[p + DATA_SUFFIX].crc)
  }

  ghost predicate NamesState(f: Facts, files: map<Text, Body>) {
    && (forall name :: name in f.entries <==> name in files)
    && (f.hasSchema <==> SCHEMA_NAME in files)
    && f.liveMarker == []
  }

  ghost predicate ManifestState(f: Facts, files: map<Text, Body>) {
    && f.createdMs == StatedInstant(files)
    && match StatedManifest(files)
       case Some(m) => f.manifestOK && f.manifest == m
       case None => !f.manifestOK && f.manifest == NO_MANIFEST
  }

  /** The facts are those of a flat directory holding exactly these files. */
  ghost predicate States(f: Facts, files: map<Text, Body>) {
    && NamesState(f, files)
    && ManifestState(f, files)
    && TocsState(f.tocs, files)
    && DigestsState(f.digests, files)
    && CRCsState(f.dataCRC, files)
  }

  /** A set of files states one thing. */
  lemma StatesUnique(f: Facts, g: Facts, files: map<Text, Body>)
    requires States(f, files) && States(g, files)
    ensures f == g
  {
    assert f.entries == g.entries;
    assert f.tocs == g.tocs;
    assert f.digests == g.digests by {
      forall p | p in f.digests ensures f.digests[p] == g.digests[p] {
        assert Some(f.digests[p]) == Some(g.digests[p]);
      }
    }
    assert f.dataCRC == g.dataCRC;
  }

  lemma NothingStated()
    ensures States(NO_FACTS, map[])
  {
  }

  /** p's file of a kind is the named one exactly when the name is p's spelling of the
      kind. */
  lemma OnlyItsPrefix(name: Text, k: Kind, p: Text)
    requires k.TocFile? || k.DigestFile? || k.DataFile?
    ensures p + Spelling(k) == name <==> KindOf(name) == k && PrefixOf(name, k) == p
  {
    SuffixIsSpelled(p, k);
    if KindOf(name) == k {
      KindIsSpelled(name, k);
      SpelledKeepsLastByte(name, k);
    }
  }

  lemma TocsExtend(tocs: map<Text, seq<Text>>, files: map<Text, Body>, name: Text, body: Body)
    requires name !in files && TocsState(tocs, files)
    ensures TocsState(if KindOf(name).TocFile? then tocs[PrefixOf(name, TocFile) := body.toc] else tocs,
                      files[name := body])
  {
    forall p ensures p + TOC_SUFFIX == name <==> KindOf(name).TocFile? && PrefixOf(name, TocFile) == p {
      OnlyItsPrefix(name, TocFile, p);
    }
  }

  lemma CRCsExtend(crcs: map<Text, int>, files: map<Text, Body>, name: Text, body: Body)
    requires name !in files && CRCsState(crcs, files)
    ensures CRCsState(if KindOf(name).DataFile? then crcs[PrefixOf(name, DataFile) := body.crc] else crcs,
                      files[name := body])
  {
    forall p ensures p + DATA_SUFFIX == name <==> KindOf(name).DataFile? && PrefixOf(name, DataFile) == p {
      OnlyItsPrefix(name, DataFile, p);
    }
  }

  lemma DigestsExtend(digests: map<Text, int>, files: map<Text, Body>, name: Text, body: Body)
    requires name !in files && DigestsState(digests, files)
    ensures var claim := body.digest;
            DigestsState(if KindOf(name).DigestFile? && claim.Some? then digests[PrefixOf(name, DigestFile) := claim.value] else digests,
                         files[name := body])
  {
    forall p ensures p + DIGEST_SUFFIX == name <==> KindOf(name).DigestFile? && PrefixOf(name, DigestFile) == p {
      OnlyItsPrefix(name, DigestFile, p);
    }
  }

  /** recordEntry touches one piece of the facts besides the names. */
  lemma RecordTouches(f: Facts, k: Kind, name: Text, body: Body)
    ensures var g, claim := RecordAs(f, k, name, body), body.digest;
            && g.entries == f.entries && g.liveMarker == f.liveMarker
            && g.hasSchema == (f.hasSchema || k.SchemaFile?)
            && g.tocs == (if k.TocFile? then f.tocs[PrefixOf(name, TocFile) := body.toc] else f.tocs)
            && g.dataCRC == (if k.DataFile? then f.dataCRC[PrefixOf(name, DataFile) := body.crc] else f.dataCRC)
            && g.digests == (if k.DigestFile? && claim.Some? then f.digests[PrefixOf(name, DigestFile) := claim.value] else f.digests)
            && (!k.ManifestFile? ==> g.manifest == f.manifest && g.manifestOK == f.manifestOK && g.createdMs == f.createdMs)
  {
    match k
    case ManifestFile =>
    case DigestFile =>
    case _ =>
  }

  lemma ManifestExtends(f: Facts, files: map<Text, Body>, name: Text, body: Body)
    requires name !in files && ManifestState(f, files)
    ensures ManifestState(Record(f, name, body), files[name := body])
  {
    KindMeansName(name);
    RecordTouches(f.(entries := f.entries + {name}), KindOf(name), name, body);
  }

  lemma NamesExtend(f: Facts, files: map<Text, Body>, name: Text, body: Body)
    requires name !in files && NamesState(f, files)
    ensures NamesState(Record(f, name, body), files[name := body])
  {
    KindMeansName(name);
    RecordTouches(f.(entries := f.entries + {name}), KindOf(name), name, body);
  }

  /** Recording one more file, under a name not seen before, moves the facts of a
      file set to the facts of the larger set. */
  lemma RecordExtends(f: Facts, files: map<Text, Body>, name: Text, body: Body)
    requires name !in files && States(f, files)
    ensures States(Record(f, name, body), files[name := body])
  {
    NamesExtend(f, files, name, body);
    ManifestExtends(f, files, name, body);
    RecordTouches(f.(entries := f.entries + {name}), KindOf(name), name, body);
    TocsExtend(f.tocs, files, name, body);
    CRCsExtend(f.dataCRC, files, name, body);
    DigestsExtend(f.digests, files, name, body);
  }

  // The verdict on one table.

  ghost predicate TocsPresent(f: Facts) {
    forall p, c :: p in f.tocs && c in f.tocs[p] && c != TOC_TXT ==> p + HYPHEN + c in f.entries
  }

  ghost predicate ListedPresent(f: Facts) {
    f.manifestOK ==> forall name :: name in f.manifest.files ==> name in f.entries
  }

  ghost predicate ComponentsPresent(f: Facts) {
    TocsPresent(f) && ListedPresent(f)
  }

  ghost predicate DigestsMatch(f: Facts) {
    forall p :: p in f.digests && p in f.dataCRC ==> f.dataCRC[p] == f.digests[p]
  }

  ghost predicate TableAccepted(f: Facts) {
    f.liveMarker == [] && f.hasSchema && ComponentsPresent(f) && DigestsMatch(f)
  }

  /** What judgeTable answers: the first rule that fails. */
  ghost function TableVerdict(f: Facts): (v: Option<Verdict>)
    ensures v.None? <==> TableAccepted(f)
  {
    if f.liveMarker != [] then Some(LiveData)
    else if !f.hasSchema then Some(NoSchema)
    else if !TocsPresent(f) then Some(MissingComponent)
    else if !ListedPresent(f) then Some(MissingListedFile)
    else if !DigestsMatch(f) then Some(DigestMismatch)
    else None
  }

  // What the same rules say about the files themselves.

  /** Every component any TOC names is there, TOC.txt itself aside. */
  ghost predicate TocsWhole(files: map<Text, Body>) {
    forall p, c :: p + TOC_SUFFIX in files && c in files[p + TOC_SUFFIX].toc && c != TOC_TXT
      ==> p + HYPHEN + c in files
  }

  /** Every file a readable manifest names is there. */
  ghost predicate ListedWhole(files: map<Text, Body>) {
    MANIFEST_NAME in files ==>
      match files[MANIFEST_NAME].manifest
      case Some(m) => forall name :: name in m.files ==> name in files
      case None => true
  }

  /** Every Data file measures what its readable Digest claims. */
  ghost predicate DigestsWhole(files: map<Text, Body>) {
    forall p :: p + DIGEST_SUFFIX in files && p + DATA_SUFFIX in files ==>
      match files[p + DIGEST_SUFFIX].digest
      case Some(v) => files[p + DATA_SUFFIX].crc == v
      case None => true
  }

  ghost predicate Whole(files: map<Text, Body>) {
    SCHEMA_NAME in files && TocsWhole(files) && ListedWhole(files) && DigestsWhole(files)
  }

  /** What files deserve that hold no live marker. */
  ghost function FilesVerdict(files: map<Text, Body>): (v: Option<Verdict>)
    ensures v.None? <==> Whole(files)
  {
    if Ascii("schema.cql") !in files then Some(NoSchema)
    else if !TocsWhole(files) then Some(MissingComponent)
    else if !ListedWhole(files) then Some(MissingListedFile)
    else if !DigestsWhole(files) then Some(DigestMismatch)
    else None
  }

  /** And the refusal names the rule the files break. */
  lemma VerdictOnFiles(f: Facts, files: map<Text, Body>)
    requires States(f, files)
    ensures TableVerdict(f) == FilesVerdict(files)
  {
    assert TocsPresent(f) <==> TocsWhole(files);
    assert ListedPresent(f) <==> ListedWhole(files);
    assert DigestsMatch(f) <==> DigestsWhole(files) by {
      assert forall p :: p in f.digests ==> files[p + DIGEST_SUFFIX].digest == Some(f.digests[p]);
    }
  }

  /** The verdict reached through the gathered facts is the one the files deserve. */
  lemma AcceptedIffWhole(f: Facts, files: map<Text, Body>)
    requires States(f, files)
    ensures TableAccepted(f) <==> Whole(files)
  {
    VerdictOnFiles(f, files);
  }

  /** Folding recordEntry over a directory or stream of files. */
  datatype File = File(name: Text, body: Body)

  ghost predicate DistinctNames(files: seq<File>) {
    forall i, j :: 0 <= i < j < |files| ==> files[i].name != files[j].name
  }

  function RecordAll(files: seq<File>): Facts {
    if files == [] then NO_FACTS
    else
      var last := files[|files| - 1];
      Record(RecordAll(files[..|files| - 1]), last.name, last.body)
  }

  function FileMap(files: seq<File>): map<Text, Body> {
    if files == [] then map[]
    else FileMap(files[..|files| - 1])[files[|files| - 1].name := files[|files| - 1].body]
  }

  lemma {:induction false} RecordAllStates(files: seq<File>)
    requires DistinctNames(files)
    ensures States(RecordAll(files), FileMap(files))
  {
    if files == [] {
      NothingStated();
    } else {
      var init, last := files[..|files| - 1], files[|files| - 1];
      RecordAllStates(init);
      FileMapDomain(init);
      assert forall f :: f in init ==> f.name != last.name;
      RecordExtends(RecordAll(init), FileMap(init), last.name, last.body);
    }
  }

  lemma {:induction false} FileMapHolds(files: seq<File>)
    requires DistinctNames(files)
    ensures forall i :: 0 <= i < |files| ==> files[i].name in FileMap(files) && FileMap(files)[files[i].name] == files[i].body
  {
    if files != [] {
      var init := files[..|files| - 1];
      FileMapHolds(init);
      forall i | 0 <= i < |files|
        ensures files[i].name in FileMap(files) && FileMap(files)[files[i].name] == files[i].body
      {
        if i < |init| { assert init[i] == files[i]; }
      }
    }
  }

  lemma {:induction false} FileMapDomain(files: seq<File>)
    ensures forall name :: name in FileMap(files) ==> exists f :: f in files && f.name == name
  {
    if files != [] {
      var init := files[..|files| - 1];
      FileMapDomain(init);
      forall name | name in FileMap(files) ensures exists f :: f in files && f.name == name {
        if name in FileMap(init) {
          var f :| f in init && f.name == name;
          assert f in files;
        } else {
          assert files[|files| - 1] in files;
        }
      }
    }
  }

  lemma FileMapWithin(files: seq<File>, more: seq<File>)
    requires DistinctNames(files) && DistinctNames(more) && forall f :: f in files ==> f in more
    ensures forall name :: name in FileMap(files) ==> name in FileMap(more) && FileMap(more)[name] == FileMap(files)[name]
  {
    FileMapDomain(files);
    FileMapHolds(files);
    FileMapHolds(more);
    forall name | name in FileMap(files) ensures name in FileMap(more) && FileMap(more)[name] == FileMap(files)[name] {
      var f :| f in files && f.name == name;
      assert f in more;
    }
  }

  lemma FileMapOrderFree(files: seq<File>, shuffled: seq<File>)
    requires DistinctNames(files) && multiset(files) == multiset(shuffled)
    ensures DistinctNames(shuffled) && FileMap(files) == FileMap(shuffled)
  {
    ShuffleKeepsNames(files, shuffled);
    forall f: File ensures f in files <==> f in shuffled {
      assert f in multiset(files) <==> f in multiset(shuffled);
    }
    FileMapWithin(files, shuffled);
    FileMapWithin(shuffled, files);
  }

  /** Reading order is immaterial: a table folded from distinctly named files is
      accepted exactly when the files are whole, in any order. */
  lemma FoldOrderFree(files: seq<File>, shuffled: seq<File>)
    requires DistinctNames(files) && multiset(files) == multiset(shuffled)
    ensures RecordAll(files) == RecordAll(shuffled)
    ensures TableAccepted(RecordAll(shuffled)) <==> Whole(FileMap(files))
  {
    FileMapOrderFree(files, shuffled);
    RecordAllStates(files);
    RecordAllStates(shuffled);
    StatesUnique(RecordAll(files), RecordAll(shuffled), FileMap(files));
    AcceptedIffWhole(RecordAll(shuffled), FileMap(files));
  }

  lemma {:induction false} NamesDistinctByCount(files: seq<File>)
    requires forall f, g :: f in files && g in files && f.name == g.name ==> f == g
    requires forall f :: multiset(files)[f] <= 1
    ensures DistinctNames(files)
  {
    if files != [] {
      assert files == [files[0]] + files[1..];
      assert forall f :: multiset(files)[f] == multiset{files[0]}[f] + multiset(files[1..])[f];
      NamesDistinctByCount(files[1..]);
      assert files[0] !in multiset(files[1..]);
    }
  }

  lemma ShuffleKeepsNames(files: seq<File>, shuffled: seq<File>)
    requires DistinctNames(files) && multiset(files) == multiset(shuffled)
    ensures DistinctNames(shuffled)
  {
    CountOfDistinctNames(files);
    assert forall f :: f in files <==> f in multiset(files);
    assert forall f :: f in shuffled <==> f in multiset(shuffled);
    NamesDistinctByCount(shuffled);
  }

  lemma {:induction false} CountOfDistinctNames(files: seq<File>)
    requires DistinctNames(files)
    ensures forall f :: multiset(files)[f] <= 1
  {
    if files != [] {
      assert files == [files[0]] + files[1..];
      CountOfDistinctNames(files[1..]);
      assert files[0] !in files[1..];
    }
  }

  // Names that may reach composed CQL.

  const SYSTEM_KEYSPACES := 7

  function SystemKeyspaceAt(i: nat): Text {
    Ascii(match i
          case 0 => "system"
          case 1 => "system_schema"
          case 2 => "system_auth"
          case 3 => "system_distributed"
          case 4 => "system_traces"
          case 5 => "system_views"
          case _ => "system_virtual_schema")
  }

  predicate IsSystemKeyspace(name: Text) {
    exists i: nat :: i < SYSTEM_KEYSPACES && name == SystemKeyspaceAt(i)
  }

  /** ^[a-z][a-z0-9_]{0,47}$ */
  predicate IdentifierShape(name: Text) {
    && 1 <= |name| <= 48
    && 97 <= name[0] <= 122
    && forall i :: 1 <= i < |name| ==> 97 <= name[i] <= 122 || 48 <= name[i] <= 57 || name[i] == 95
  }

  function JudgeName(name: Text): Option<Verdict> {
    if IsSystemKeyspace(name) then Some(SystemKeyspace)
    else if !IdentifierShape(name) then Some(BadIdentifier)
    else None
  }

  predicate NameAccepted(name: Text) {
    JudgeName(name).None?
  }

  /** Which keyspaces are Cassandra's own. */
  lemma SystemKeyspaces(name: Text)
    ensures JudgeName(name) == Some(SystemKeyspace) <==>
            || name == Ascii("system") || name == Ascii("system_schema") || name == Ascii("system_auth")
            || name == Ascii("system_distributed") || name == Ascii("system_traces") || name == Ascii("system_views")
            || name == Ascii("system_virtual_schema")
  {
    assert IsSystemKeyspace(name) <==>
           || name == SystemKeyspaceAt(0) || name == SystemKeyspaceAt(1) || name == SystemKeyspaceAt(2)
           || name == SystemKeyspaceAt(3) || name == SystemKeyspaceAt(4) || name == SystemKeyspaceAt(5)
           || name == SystemKeyspaceAt(6);
  }

  const LETTERS := Ascii("abcdefghijklmnopqrstuvwxyz")
  const FOLLOWING := Ascii("abcdefghijklmnopqrstuvwxyz0123456789_")

  lemma {:induction false} RangeOf(t: Text, from: Byte, b: Byte)
    requires forall i :: 0 <= i < |t| ==> t[i] as int == from as int + i
    ensures b in t <==> from <= b < from + |t|
  {
    if from <= b < from + |t| {
      assert t[b - from] == b;
    }
  }

  lemma SpelledBytes(b: Byte)
    ensures b in LETTERS <==> 97 <= b <= 122
    ensures b in FOLLOWING <==> 97 <= b <= 122 || 48 <= b <= 57 || b == 95
  {
    RangeOf(LETTERS, 97, b);
    RangeOf(FOLLOWING[..26], 97, b);
    RangeOf(FOLLOWING[26..36], 48, b);
    assert FOLLOWING == FOLLOWING[..26] + FOLLOWING[26..36] + [95];
  }

  /** A name is accepted when it is none of those and at most 48 of these letters,
      digits and underscores, a letter first. */
  lemma AcceptedNames(name: Text)
    ensures NameAccepted(name) <==>
            && JudgeName(name) != Some(SystemKeyspace)
            && 1 <= |name| <= 48 && name[0] in LETTERS && forall i :: 0 < i < |name| ==> name[i] in FOLLOWING
  {
    forall b: Byte
      ensures b in LETTERS <==> 97 <= b <= 122
      ensures b in FOLLOWING <==> 97 <= b <= 122 || 48 <= b <= 57 || b == 95
    {
      SpelledBytes(b);
    }
  }

  // The judgement as the code runs it. Go iterates maps in no fixed order; so
  // do these loops.

  method JudgeComponents(f: Facts) returns (verdict: Option<Verdict>)
    ensures verdict ==
            if !TocsPresent(f) then Some(MissingComponent) else if !ListedPresent(f) then Some(MissingListedFile) else None
  {
    var pending := f.tocs.Keys;
    while pending != {}
      invariant pending <= f.tocs.Keys
      invariant forall p, c :: p in f.tocs && p !in pending && c in f.tocs[p] && c != TOC_TXT ==> p + HYPHEN + c in f.entries
      decreases |pending|
    {
      var prefix :| prefix in pending;
      var components := f.tocs[prefix];
      for i := 0 to |components|
        invariant forall k :: 0 <= k < i ==> components[k] == TOC_TXT || prefix + HYPHEN + components[k] in f.entries
      {
        if components[i] != TOC_TXT && prefix + HYPHEN + components[i] !in f.entries {
          return Some(MissingComponent);
        }
      }
      pending := pending - {prefix};
    }
    if !f.manifestOK {
      return None;
    }
    for i := 0 to |f.manifest.files|
      invariant forall k :: 0 <= k < i ==> f.manifest.files[k] in f.entries
    {
      if f.manifest.files[i] !in f.entries {
        return Some(MissingListedFile);
      }
    }
    return None;
  }

  method JudgeDigests(f: Facts) returns (verdict: Option<Verdict>)
    ensures verdict == if DigestsMatch(f) then None else Some(DigestMismatch)
  {
    var pending := f.digests.Keys;
    while pending != {}
      invariant pending <= f.digests.Keys
      invariant forall p :: p in f.digests && p !in pending && p in f.dataCRC ==> f.dataCRC[p] == f.digests[p]
      decreases |pending|
    {
      var prefix :| prefix in pending;
      if prefix in f.dataCRC && f.dataCRC[prefix] != f.digests[prefix] {
        return Some(DigestMismatch);
      }
      pending := pending - {prefix};
    }
    return None;
  }

  /** judgeTable: accepted exactly when nothing is missing, whatever order the maps
      are walked in; the first failing rule names the refusal. */
  method JudgeTable(f: Facts) returns (verdict: Option<Verdict>)
    ensures verdict == TableVerdict(f)
  {
    if f.liveMarker != [] {
      return Some(LiveData);
    }
    if !f.hasSchema {
      return Some(NoSchema);
    }
    verdict := JudgeComponents(f);
    if verdict.Some? {
      return;
    }
    verdict := JudgeDigests(f);
  }
}

/** Where the directory walk and the archive walk part: a table called "snapshots", which
    the first accepts and the second, below a wrapping directory, takes for live data. */
module CassandraParting {
  import opened Wrappers
  import opened Bytes
  import opened Paths
  import opened Ordering
  import opened CassandraFacts
  import opened CassandraCensus
  import opened CassandraTree
  import opened CassandraArchive
  import opened CassandraAgree

  const KEYSPACE: Text := Ascii("app")
  const SNAPSHOTS: Text := LiveMarkerAt(0)
  const REF := TableRef(KEYSPACE, SNAPSHOTS)

  lemma SystemLengths(i: nat)
    requires i < SYSTEM_KEYSPACES
    ensures |SystemKeyspaceAt(i)| != 3 && |SystemKeyspaceAt(i)| != 9
  {
  }

  lemma NamesFit()
    ensures NameAccepted(KEYSPACE) && NameAccepted(SNAPSHOTS)
    ensures NameShape(KEYSPACE) && NameShape(SNAPSHOTS) && NameShape(SCHEMA_NAME)
  {
    forall i: nat | i < SYSTEM_KEYSPACES ensures KEYSPACE != SystemKeyspaceAt(i) && SNAPSHOTS != SystemKeyspaceAt(i) {
      SystemLengths(i);
    }
  }

  /** A schema file alone is a whole table. */
  lemma SchemaAloneIsWhole(body: Body)
    ensures Whole(map[SCHEMA_NAME := body])
  {
    NameIsSpelled(SchemaFile);
    NameIsSpelled(ManifestFile);
    forall p: Text ensures p + TOC_SUFFIX != SCHEMA_NAME && p + DIGEST_SUFFIX != SCHEMA_NAME {
      SuffixIsSpelled(p, TocFile);
      SuffixIsSpelled(p, DigestFile);
    }
  }

  lemma SnapshotIsAccepted(body: Body)
    ensures SnapshotAccepted(map[REF := map[SCHEMA_NAME := body]])
  {
    NamesFit();
    SchemaAloneIsWhole(body);
    var snapshot := map[REF := map[SCHEMA_NAME := body]];
    assert REF in snapshot;
  }

  /** The directory walk accepts the tree of that one table. */
  lemma TreeIsAccepted(body: Body, fromTree: Result<Census, Verdict>)
    requires TreeVerdict(OneFileTree(REF, SCHEMA_NAME, body), fromTree)
    ensures fromTree.Ok?
  {
    OneFileSnapshot(REF, SCHEMA_NAME, body);
    OneFileFlat(REF, SCHEMA_NAME, body);
    FlatTreeJudged(OneFileTree(REF, SCHEMA_NAME, body));
    SnapshotIsAccepted(body);
  }

  /** The archive of the tree below a wrapping directory: one file. */
  function WrappedArchive(wrap: Text, body: Body): seq<TarEntry> {
    [TarEntry(Join(SLASH, SegmentsOf(Wrapped(wrap), REF, SCHEMA_NAME)), true, body, true)]
  }

  lemma WrappedSplits(wrap: Text, body: Body)
    requires NameShape(wrap)
    ensures Named(WrappedArchive(wrap, body)[0]).segments == [wrap, KEYSPACE, SNAPSHOTS, SCHEMA_NAME]
  {
    NamesFit();
    HeaderSplits(SegmentsOf(Wrapped(wrap), REF, SCHEMA_NAME), WrappedArchive(wrap, body)[0].name);
  }

  lemma WrappedHasMarker(wrap: Text, body: Body)
    requires NameShape(wrap)
    ensures TarLiveMarker(Named(WrappedArchive(wrap, body)[0]).segments) != []
  {
    WrappedSplits(wrap, body);
    FileMarkers(Wrapped(wrap), REF, SCHEMA_NAME);
    assert LiveMarker(SNAPSHOTS);
  }

  /** The archive lists exactly the tree, and yet is refused as live data. */
  lemma WrappedIsRefused(wrap: Text, body: Body, fromTar: TarResult)
    requires NameShape(wrap) && TarVerdict(TarStream(WrappedArchive(wrap, body), true), fromTar)
    ensures Lists(Wrapped(wrap), map[REF := map[SCHEMA_NAME := body]], [FileItem(REF, SCHEMA_NAME)], WrappedArchive(wrap, body))
    ensures fromTar == Refused(LiveData)
  {
    WrappedHasMarker(wrap, body);
    var entries := Map(Named, WrappedArchive(wrap, body));
    MarkerStops(entries, 0);
    assert entries[..0] == [];
  }

  /** One collected snapshot, accepted by one walk and refused by the other. */
  lemma WalksPart(wrap: Text, body: Body, fromTree: Result<Census, Verdict>, fromTar: TarResult)
    requires NameShape(wrap)
    requires TreeVerdict(OneFileTree(REF, SCHEMA_NAME, body), fromTree)
    requires TarVerdict(TarStream(WrappedArchive(wrap, body), true), fromTar)
    ensures Lists(Wrapped(wrap), SnapshotOf(OneFileTree(REF, SCHEMA_NAME, body)), [FileItem(REF, SCHEMA_NAME)], WrappedArchive(wrap, body))
    ensures fromTree.Ok? && fromTar == Refused(LiveData)
  {
    OneFileSnapshot(REF, SCHEMA_NAME, body);
    TreeIsAccepted(body, fromTree);
    WrappedIsRefused(wrap, body, fromTar);
  }

  /** With no directory around it a table of that name does not part the walks. */
  lemma BareTableIsNoMarker(body: Body)
    ensures !LiveNamed(Bare, map[REF := map[SCHEMA_NAME := body]])
  {
    assert |SCHEMA_NAME| == 10 && |LiveMarkerAt(0)| == 9 && |LiveMarkerAt(1)| == 7;
  }
}

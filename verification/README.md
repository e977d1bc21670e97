# Restore adapters, modelled and proved

The repository's restore adapters take an untrusted backup, decide from what it states
about itself whether it is whole, and drive a database engine in a sandbox so that nothing
in the backup is lost on the way. This project models the parts where that is hard and
proves what they owe their callers. One file is one module.

- `CassandraFacts`, `CassandraCensus`, `CassandraTree`, `CassandraArchive`: the facts a
  snapshot's tables state, the mutable objects both walks fill, the recursion over a
  directory and the one-pass walk over an archive. `CassandraBudget`, `CassandraPieces`,
  `CassandraEnds` and `CassandraAgree` prove what the walks keep, how they end and when
  they judge alike, `CassandraParting` a snapshot on which they do not.
- `ClickHouse`, `ClickHouseScript`: a restore in two passes around a lock, interleaved
  with background merges, as a transition system; and the shell script that drives it.
- `Etcd`, `EtcdListing`: the lease keeper against the leases' times to live, as a
  transition system over integer delays; and the parser of the listing.
- `InfluxChoice`, `InfluxBackups`, `InfluxMembers`: which manifest, which directory, which
  members, and the bytes that name them.
- `HashStream`, `HashTree`: the framing that feeds the checksum of a tree, and the tree.
- `Protocol`: one adapter operation against an arbitrary core and an arbitrary body.
- `Selection`: the choice among snapshot trees.
- `Csv`, `JsonEscape`, `ShellQuote`, `Firebird`, `DataRoot`, `CouchLines`,
  `CouchBatches`, `CouchReplay`: the small parsers, printers and loops.
- `Wrappers`, `Bytes`, `Paths`, `Ordering`, `Nesting`: stock definitions.

Go strings are sequences of bytes. What a library call answers (JSON, RFC 3339 and
`time.Parse`, CRC-32, TOC lines, integer parsing) is carried by the data or passed in,
unconstrained. Loops over Go maps take the keys in any order, random draws are any index.

`dafny verify dfyconfig.toml` checks the project.

## Results worth knowing before changing the code

- The two Cassandra walks do not agree on every snapshot: a file named `snapshots` or
  `backups`, and below a wrapping directory a table of that name, is accepted by the
  directory walk and refused by the archive walk. `CassandraAgree.TreeAndArchiveAgree`
  gives the exact condition on the archive, `CassandraAgree.MarkersAreLiveNames` reads it
  off the snapshot's names, `CassandraParting.WalksPart` is such a snapshot.
- Calls are not always numbered without a gap: the counter is taken before the write.
  Whatever the operation's body, they are exactly when no write succeeds after one that
  failed (`Protocol.EveryBodyGaplessIff`); `Protocol.LostWriteLeavesGap` is a run whose
  first line is call two.
- A lease refreshed once a sweep is held in every run exactly when its time to live exceeds
  `Etcd.Bound`: the bound is tight, `Etcd.SlowRun` is a run that loses a lease at it. It
  is also the most that two successive refreshes of a lease are apart, however long the
  lease (`Etcd.RefreshesWithinBound`, reached in `Etcd.SlowestGap`).
- A line of white space below a couchbackup header, in the sense of `unicode.IsSpace`, is
  posted but not counted (`CouchReplay.BlankLineIsPostedUncounted`), so the restore's
  final check fails;
  `CouchReplay.RestoreIsHeldToTheCount` says exactly when it does not.

## Model

| member | source | states |
|---|---|---|
| `CassandraFacts.KindIsSpelled` | adapters/cassandra/meta.go:247-280 | a file name is of at most one self-describing kind, so the order of the arms never matters |
| `CassandraFacts.BodiesByName` | adapters/cassandra/meta.go:247-280 | by name: a manifest, a TOC or a digest is read and kept, a Data file is read, nothing else is |
| `CassandraFacts.RecordExtends` | adapters/cassandra/meta.go:247-292 | recording a new file moves the facts of a file set to the facts of the larger set |
| `CassandraFacts.StatesUnique` | adapters/cassandra/meta.go:59-69 | a set of files states one set of facts |
| `CassandraFacts.AcceptedIffWhole` | adapters/cassandra/meta.go:155-225 | a table is accepted exactly when its files have a schema, every component every TOC names, every file a readable manifest lists, and a matching CRC for every digest |
| `CassandraFacts.VerdictOnFiles` | adapters/cassandra/meta.go:155-225 | and a refusal names the first rule the files break |
| `CassandraFacts.RecordAllStates` | adapters/cassandra/meta.go:247-280 | folding distinctly named files gathers exactly what they state |
| `CassandraFacts.FoldOrderFree` | adapters/cassandra/meta.go:155-280 | facts and verdict do not depend on the order the files were read in |
| `CassandraFacts.JudgeComponents` | adapters/cassandra/meta.go:179-204 | in any map order: a named component missing, else a listed file missing, else nothing |
| `CassandraFacts.JudgeDigests` | adapters/cassandra/meta.go:210-225 | in any map order, refuses exactly when some measured CRC contradicts a claim |
| `CassandraFacts.JudgeTable` | adapters/cassandra/meta.go:155-173 | accepts exactly a table without fault, and otherwise answers the first rule that fails |
| `CassandraFacts.SystemKeyspaces` | adapters/cassandra/meta.go:89-93 | the seven keyspaces that are refused as Cassandra's own |
| `CassandraFacts.AcceptedNames` | adapters/cassandra/meta.go:229-244 | every other name is accepted exactly when it is a letter and up to 47 letters, digits and underscores |
| `CassandraCensus.Retention.Take` | adapters/cassandra/meta.go:127-138 | charges one entry of n bytes and says whether both limits still hold |
| `CassandraCensus.TableFacts.RecordEntry` | adapters/cassandra/meta.go:247-292 | the fields move as the fold says; what fails to be read or paid for, and when, is fixed for every kind of name |
| `CassandraCensus.RefLessIsStrictTotal` | adapters/cassandra/meta.go:614-621 | sorting by keyspace then table has one result |
| `CassandraCensus.CensusOfFiles` | adapters/cassandra/meta.go:39-47 | the census lists the tables by keyspace, then by table, and holds the newest instant a manifest states between the years 2000 and 2200 |
| `CassandraCensus.CensusUnique` | adapters/cassandra/meta.go:41-47 | one set of tables has one census |
| `CassandraCensus.GathersOneMore` | adapters/cassandra/meta.go:366-369 | appending a table and raising the newest instant keeps the census the census of the tables met |
| `CassandraCensus.StatesAllUnique` | adapters/cassandra/meta.go:59-76 | a snapshot states one table of facts |
| `CassandraCensus.FactsJudgeFiles` | adapters/cassandra/meta.go:155-225 | judging gathered facts is judging the snapshot's own files |
| `CassandraTree.RecordDirEntry` | adapters/cassandra/meta.go:379-396 | one directory entry is recorded, marks live data, or is passed over; it fails exactly where a body is unreadable |
| `CassandraTree.DirFactsAre` | adapters/cassandra/meta.go:378-396 | only the regular files are recorded, and a live marker exactly when a subdirectory named `snapshots` or `backups` is there |
| `CassandraTree.TableFactsFromDir` | adapters/cassandra/meta.go:373-398 | succeeds exactly on a readable directory, and gathers its facts |
| `CassandraTree.InspectTableDir` | adapters/cassandra/meta.go:351-369 | accepts exactly the table directories with a fit name, readable bodies and no fault; answers live data exactly when a fit, readable one holds a subdirectory named `snapshots` or `backups` |
| `CassandraTree.TableDirJudged` | adapters/cassandra/meta.go:351-369 | the answer for every table directory, read off its name, its entries and its files |
| `CassandraTree.InspectTableEntry` | adapters/cassandra/meta.go:350-369 | one entry of a keyspace directory: refused exactly when it is an unfit table, else the census grows by it |
| `CassandraTree.InspectKeyspaceDir` | adapters/cassandra/meta.go:345-371 | accepts exactly when every table below does, and extends the census by all of them |
| `CassandraTree.InspectKeyspaceEntry` | adapters/cassandra/meta.go:324-333 | one entry of the root: refused exactly when it is an unfit keyspace, strays are passed over |
| `CassandraTree.InspectSnapshotTree` | adapters/cassandra/meta.go:318-343 | accepts exactly when every keyspace and table does and there is one, and returns the sorted census with the newest instant; otherwise answers for the first that does not |
| `CassandraTree.SnapshotHolds` | adapters/cassandra/meta.go:373-398 | the snapshot a tree is judged by is its regular files under their keyspaces and tables |
| `CassandraTree.TreeJudgesFiles` | adapters/cassandra/meta.go:318-398 | over every tree: accepted exactly when the keyspace names are fit, the files that must be are readable, no table directory holds a live subdirectory and the regular files are fit, with their census; other subdirectories, special files and strays change nothing |
| `CassandraTree.FlatTreeJudged` | adapters/cassandra/meta.go:318-398 | for a collected snapshot the directory walk judges the files themselves |
| `CassandraArchive.JudgeTarTables` | adapters/cassandra/meta.go:561-585 | in any map order, lists exactly the accepted tables' census, or refuses with the answer for one of the tables |
| `CassandraArchive.FinishCensus` | adapters/cassandra/meta.go:578-584 | an archive without a table is refused, any other census is sorted |
| `CassandraArchive.TarWalk.RecordTarEntry` | adapters/cassandra/meta.go:539-559 | name first, then body: what is charged, read and refused, in that order |
| `CassandraArchive.TarWalk.FileEntry` | adapters/cassandra/meta.go:518-530 | files an entry under its table, made on first sight, leaving every other table alone |
| `CassandraArchive.TarWalk.WalkRegularFile` | adapters/cassandra/meta.go:511-532 | the first file fixes the depth, a file of another ends the walk without a verdict |
| `CassandraArchive.TarWalk.WalkTarEntry` | adapters/cassandra/meta.go:501-533 | one entry moves the mutable walk as the specification's step |
| `CassandraArchive.TarWalk.WalkEntries` | adapters/cassandra/meta.go:475-493 | the loop ends as the specification does on the whole stream |
| `CassandraArchive.WalkTar` | adapters/cassandra/meta.go:475-497 | refuses, lists or stays silent as the entries, the stream's end and the tables call for |
| `CassandraArchive.StopSticks` | adapters/cassandra/meta.go:487-492 | once the walk stopped, later entries change nothing |
| `CassandraEnds.WalkTarEnds` | adapters/cassandra/meta.go:475-533 | read off the entries alone, the first that ends the walk decides: refused for a marker or for what is kept, silent at a file of another depth or one that cannot be read; with none, silent on a broken or nameless stream, refused when no file was listed, else judged by its tables |
| `CassandraEnds.StrayIsSilent` | adapters/cassandra/meta.go:514-519 | a regular file at neither depth, or at another than a file before it, or one that must be read and cannot be once its name is paid for, leaves the verdict to the sandbox |
| `CassandraEnds.CleanArchiveJudged` | adapters/cassandra/meta.go:475-585 | an archive no entry ends and that lists each file once is listed with its files' census exactly when they are fit, and else refused for one of its tables |
| `CassandraEnds.CostsAreCharges` | adapters/cassandra/meta.go:539-559 | the budget counts a name for every file, and a body of up to a mebibyte for a manifest, a TOC or a digest |
| `CassandraBudget.FileKeepsWithin` | adapters/cassandra/meta.go:539-559 | filing one more name, with or without its body, is covered by its charge, also where the name was filed before |
| `CassandraBudget.WalkStaysAffordable` | adapters/cassandra/meta.go:101-138 | in every state the walk goes on from: within both limits, and no more tables, names and bodies, and no more bytes of names and bodies together, held than charged |
| `CassandraBudget.ChargeOrderFree` | adapters/cassandra/meta.go:539-559 | what an archive costs does not depend on the order of its entries |
| `CassandraPieces.FileThatFits` | adapters/cassandra/meta.go:511-532 | a new file at the one depth is filed and paid for, or is one too many |
| `CassandraPieces.WalkOfFitting` | adapters/cassandra/meta.go:501-559 | on distinct files of one depth the walk gathers what they state as long as it can pay |
| `CassandraPieces.CollectSetOnly` | adapters/cassandra/meta.go:518-530 | the snapshot collected depends only on the set of files listed |
| `CassandraPieces.ContinueFits` | adapters/cassandra/meta.go:511-517 | a walk that went on throughout met files of one depth only |
| `CassandraPieces.WalkOrderFree` | adapters/cassandra/meta.go:475-559 | an archive that lists no file twice is walked to the same state in any order |
| `CassandraAgree.HeaderSplits` | adapters/cassandra/meta.go:606-612 | a header name, bare or dot-slashed, splits back into the segments it was joined from |
| `CassandraAgree.DirHeaderSplits` | adapters/cassandra/meta.go:606-612 | so does the header of a directory, with its slash at the end |
| `CassandraAgree.WalkOfListing` | adapters/cassandra/meta.go:475-559 | an archive listing a snapshot once, in any order and either layout, gathers the snapshot's facts or runs out of budget |
| `CassandraAgree.LiveNamesEndWalk` | adapters/cassandra/meta.go:507-509 | a marker anywhere in a listing archive, file or directory, ends the walk: as live data, unless the budget ran out before it |
| `CassandraAgree.TreeAndArchiveAgree` | adapters/cassandra/meta.go:318-621 | the archive walk accepts exactly when the directory walk does, the archive is within budget and no entry of it, whatever directory entries it has, is named like a live directory's snapshots; then both censuses are equal, and otherwise the refusal is the budget's or the marker's |
| `CassandraAgree.MarkersAreLiveNames` | adapters/cassandra/meta.go:587-596 | for the archive `tar` makes, files and the directories above them, the condition is that no file, and below a wrapping directory no table, has a marker's name |
| `CassandraAgree.SmallestSnapshot` | adapters/cassandra/meta.go:318-621 | a tree and an archive the agreement applies to, for every fit name |
| `CassandraParting.WalksPart` | adapters/cassandra/meta.go:501-510 | a table named `snapshots` below a wrapping directory: accepted by the directory walk, refused as live data from the archive that lists exactly it |
| `CassandraParting.TreeIsAccepted` | adapters/cassandra/meta.go:318-343 | the directory walk accepts that table's tree |
| `ClickHouse.MergeIsSafe` | adapters/clickhouse/retention.go:33-52 | a merge cannot touch what the invariant protects, at any moment of a script that locks in time |
| `ClickHouse.AttachIsSafe` | adapters/clickhouse/retention.go:33-52 | rows written and rows still to write together stay the archived rows |
| `ClickHouse.RunIsSafe` | adapters/clickhouse/retention.go:33-52 | every run, through any merges, failures and delays, keeps the invariant |
| `ClickHouse.PinnedKeeps` | adapters/clickhouse/retention.go:33-52 | a structure pass and a lock after it, both before the data pass, keep every archive whole in every state from then on |
| `ClickHouse.UnpinnedLoses` | adapters/clickhouse/retention.go:40-47 | a script that reaches its data pass without having locked created tables has a run that loses a row: the run is given |
| `ClickHouse.CountedEarlyKeeps` | adapters/clickhouse/retention.go:116-121 | a census before any structure pass refuses, so the data pass is never reached |
| `ClickHouse.KeepsIffPinnedInTime` | adapters/clickhouse/retention.go:33-52 | of all scripts with one data pass, whatever statements surround it, exactly those keep every archive that lock created tables in time, or count tables before making any and so stop short of restoring |
| `ClickHouse.ExitCodes` | adapters/clickhouse/retention.go:54-68 | what each exit code says about how far the run got |
| `ClickHouse.ExitTold` | adapters/clickhouse/retention.go:54-68 | 91, 92, 93, 0 and the client's own code each tell how the last statement ended |
| `ClickHouse.RestoreKeepsArchive` | adapters/clickhouse/retention.go:70-122 | the adapter's script: exact contents in every state after the data pass, exit 0 only with a table restored, 93 only on an empty archive, 92 only where the lock was refused |
| `ClickHouseScript.Client.Run` | adapters/clickhouse/retention.go:110-113 | one statement to its end, beside whatever the server does meanwhile |
| `ClickHouseScript.Restore` | adapters/clickhouse/retention.go:114-115 | a restore goes on only when the client succeeded and said RESTORED |
| `ClickHouseScript.RestoreScript` | adapters/clickhouse/retention.go:110-122 | the shell's tests reach the exit code the transition system records |
| `Etcd.LeasesComeAndGo` | adapters/etcd/retention.go:63-80 | the keeper neither makes nor removes a lease; only a lease's own refresh moves its expiry, to a full time to live |
| `Etcd.OwnRefreshRenews` | adapters/etcd/retention.go:63-69 | a lease's own refresh puts the next one off by the bound at most |
| `Etcd.StepNears` | adapters/etcd/retention.go:75-80 | no other event but its expiry puts a lease's next refresh off |
| `Etcd.RefreshesWithinBound` | adapters/etcd/retention.go:63-69 | on every run, for every time to live: two successive refreshes of a lease are at most the bound apart |
| `Etcd.SlowestGap` | adapters/etcd/retention.go:66-69 | a reachable run whose second refresh of a lease comes the whole bound after the first |
| `Etcd.RefreshKeeps` | adapters/etcd/retention.go:63-80 | a refresh buys the watched lease at least the time until its next one |
| `Etcd.StepKeeps` | adapters/etcd/retention.go:75-80 | every event keeps the watched lease's next refresh due before it expires |
| `Etcd.LongLeasesHold` | adapters/etcd/retention.go:60-69 | no run lets go of a lease longer than the bound that outlives the first sweep |
| `Etcd.SlowRun` | adapters/etcd/retention.go:66-69 | a lease no longer than the bound is lost in a run that is given |
| `Etcd.HoldsIffLongerThanBound` | adapters/etcd/retention.go:60-80 | held in every run exactly when the time to live exceeds the bound |
| `Etcd.BoundInCalls` | adapters/etcd/retention.go:63-69 | the bound in calls: 2Nc + l + s in general, Nc + l + s when places never move down |
| `EtcdListing.ListLeases` | adapters/etcd/retention.go:124-143 | collects the ids of all lines but blank ones and the header, in order |
| `EtcdListing.ListingRoundTrip` | adapters/etcd/retention.go:84-143 | every printed listing reads back to exactly its ids, in order |
| `EtcdListing.PaddedId` | adapters/etcd/retention.go:131-141 | white space around an id in its line is none of it |
| `EtcdListing.HoldLeases` | adapters/etcd/retention.go:86-121 | which commands are sent and why one fails; the keeper starts only behind an accepted keep-alive for a listed lease, a held answer means it runs, and its time is that of the commands that ran |
| `HashStream.StreamRoundTrip` | adapters/cassandra/source.go:232-251 | the hashed bytes decode to the entries they were written for |
| `HashStream.StreamInjective` | adapters/cassandra/source.go:205-251 | different lists of entries feed the hash different bytes |
| `HashStream.WalksHashApart` | adapters/cassandra/source.go:205-230 | two walks feed the hash equal bytes exactly when they name the same files and links in the same order |
| `HashTree.WalkNamesLeaves` | adapters/cassandra/source.go:209-221 | the walk over a tree names its files and links, in path order, and nothing else |
| `HashTree.TreesHashApart` | adapters/cassandra/source.go:205-230 | the bytes hashed are determined by, and determine, which files and links a directory tree holds, where, with what content or target |
| `HashTree.TreeMeasured` | adapters/cassandra/source.go:205-251 | over the tree: the checksum is refused exactly when no regular file is in it, and its size is that of the files, links aside |
| `HashStream.Hasher.HashEntry` | adapters/cassandra/source.go:232-251 | one entry feeds its frame and counts only files |
| `HashStream.DirChecksum` | adapters/cassandra/source.go:209-230 | refuses exactly a tree without a file, and measures all contents |
| `Selection.BackupSelection` | adapters/cassandra/selection.go:77-94 | nothing declared is newest; what is declared is refused for another kind, and else has to be `newest`, `oldest` or `random` |
| `Selection.OldestTurnsNewestAround` | adapters/cassandra/source.go:165-203 | opposite orders on equally dated pairs, one order on mixed pairs |
| `Selection.BeatsIsStrictTotal` | adapters/cassandra/source.go:165-180 | newest is a strict total order |
| `Selection.PrecedesIsStrictTotal` | adapters/cassandra/source.go:182-203 | oldest is a strict total order |
| `Selection.BestRanks` | adapters/cassandra/source.go:165-203 | winning against all means ranking latest, or earliest, by instant, then directory time, then name, with undated trees behind every dated one |
| `Selection.Best` | adapters/cassandra/selection.go:104-114 | the loop finds the one candidate that wins against all others |
| `Selection.Datable` | adapters/cassandra/selection.go:117-136 | the pool is the dated candidates, or all where none is dated |
| `Selection.Pick` | adapters/cassandra/selection.go:96-115 | newest, oldest, or any one of the pool |
| `Selection.PickedOnce` | adapters/cassandra/selection.go:96-136 | listing order is immaterial to a ranking policy, and every policy answers a dated candidate where one exists |
| `Selection.ChooseTreeIn` | adapters/cassandra/source.go:130-163 | every subdirectory competes as its own census dates it, and the policy's choice is returned |
| `Selection.TreeChosenOnce` | adapters/cassandra/source.go:130-163 | under a ranking policy the directory has one answer |
| `InfluxChoice.NewerIsStrictTotal` | adapters/influxdb/source.go:475-480 | newest first with ties by name is a strict total order |
| `InfluxChoice.DateAll` | adapters/influxdb/source.go:464-474 | dates every manifest or reports that one cannot be dated |
| `InfluxChoice.ManifestNamesListed` | adapters/influxdb/source.go:445-450 | the manifests of a directory are its regular files that end in `.manifest` |
| `InfluxChoice.ManifestsInOrder` | adapters/influxdb/source.go:445-450 | they are taken in the order of the listing |
| `InfluxChoice.InstantOfStem` | adapters/influxdb/source.go:466-467 | the instant is read off what stands before the suffix |
| `InfluxChoice.ChooseManifest` | adapters/influxdb/source.go:438-482 | over the directory: refused without a regular file ending in `.manifest`, the only one, or the newest of several that all carry a stem, ties to the larger name, or a refusal |
| `InfluxChoice.ScanNewest` | adapters/influxdb/source.go:320-334 | the scan over sorted names finds the newest, ties to the larger name |
| `InfluxChoice.ChooseTarManifest` | adapters/influxdb/source.go:305-335 | the same choice from a map, whatever order its keys come in |
| `InfluxChoice.ChosenOnce` | adapters/influxdb/source.go:438-482 | the choice depends on the set of names alone |
| `InfluxChoice.ChoosersAgree` | adapters/influxdb/source.go:305-335 | sorting and scanning choose the same name or both refuse |
| `InfluxBackups.NewestStemIn` | adapters/influxdb/source.go:631-652 | the newest instant any manifest of the directory states, or none |
| `InfluxBackups.ChosenCarriesRank` | adapters/influxdb/source.go:392-482 | a directory is restored by a manifest carrying exactly the instant it was ranked by |
| `InfluxBackups.OlderIsNewerTurnedAround` | adapters/influxdb/source.go:654-676 | precedes is beats turned around |
| `InfluxBackups.Pick` | adapters/influxdb/selection.go:108-123 | the extreme candidate, or any one |
| `InfluxBackups.Candidates` | adapters/influxdb/source.go:606-619 | exactly the directories a manifest dates become candidates |
| `InfluxBackups.ChooseBackupIn` | adapters/influxdb/source.go:592-629 | exactly the directories a manifest dates compete, and the latest or earliest of them, ties by name, or any one is returned |
| `InfluxBackups.RestoresTheExtreme` | adapters/influxdb/source.go:392-652 | under newest nothing anywhere is newer than what is restored, under oldest every other dated directory is no older |
| `InfluxMembers.FirstMentionsNext` | adapters/influxdb/source.go:535-543 | adding a name keeps the list the first mentions of what was added |
| `InfluxMembers.FirstsAreFirst` | adapters/influxdb/source.go:532-558 | the member list meets the declarative first-mention order |
| `InfluxMembers.FirstMentionsUnique` | adapters/influxdb/source.go:532-558 | first-mention order without blanks and repeats is one list |
| `InfluxMembers.MentionsAreNamed` | adapters/influxdb/source.go:544-556 | the names added are exactly those at some place of the nesting |
| `InfluxMembers.PlacesInOrder` | adapters/influxdb/source.go:544-556 | and they are added in the order of their places |
| `InfluxMembers.NameList.Add` | adapters/influxdb/source.go:538-543 | a name joins the list when it is neither blank nor known |
| `InfluxMembers.ManifestMemberNames` | adapters/influxdb/source.go:532-558 | the KV store, the SQL store, then every shard file by bucket, policy, group and position: each name once, at its first place, blanks left out |
| `InfluxMembers.WithoutKeepsOrder` | adapters/influxdb/source.go:571-583 | leaving the manifest out leaves every other member, in order |
| `InfluxMembers.MemberFiles` | adapters/influxdb/source.go:560-584 | succeeds exactly when every file the nesting names is present; then the manifest, and each other once in the order of first places |
| `InfluxMembers.TarCompleteness` | adapters/influxdb/source.go:337-349 | complete exactly when every file the nesting names is held |
| `InfluxMembers.CompletenessAgrees` | adapters/influxdb/source.go:337-349 | directory and archive reach one verdict on one set of names |
| `InfluxMembers.MemberChecksum` | adapters/influxdb/source.go:678-711 | hashes the members sorted by name and measures their bytes |
| `InfluxMembers.HashedInNameOrder` | adapters/influxdb/source.go:685-708 | every listed file is hashed with its own content, in the order of the names |
| `InfluxMembers.ChecksumOrderFree` | adapters/influxdb/source.go:678-687 | the bytes hashed do not depend on the order of the list |
| `InfluxMembers.ChecksumInjective` | adapters/influxdb/source.go:678-711 | and determine names and contents |
| `Protocol.CallIdsDistinct` | adapters/cassandra/proto.go:109-110 | different calls bear different ids |
| `Protocol.Core.Call` | adapters/cassandra/proto.go:103-139 | one call in every case: cancelled, not written, stream closed, malformed, another call's reply, failed, answered |
| `Protocol.Operate` | adapters/cassandra/main.go:41-58 | a body drives the mutable core exactly through the calls it decides on |
| `Protocol.RunKeeps` | adapters/cassandra/proto.go:103-139 | on every run of every body: numbers ascend, lines are calls at one version, the n-th call written reads the n-th line the core sent |
| `Protocol.RunDecides` | adapters/cassandra/proto.go:109-120 | every call a body decides on goes out with its verb and arguments, in its turn, under its own number |
| `Protocol.GaplessIffLossesLast` | adapters/cassandra/proto.go:105-120 | for every body: its numbers have no gap exactly when, among the moments it calls in, no writable one follows one that was not |
| `Protocol.EveryBodyGaplessIff` | adapters/cassandra/proto.go:105-120 | an environment leaves every body's calls numbered one, two, three and so on exactly when no write in it succeeds after one that failed |
| `Protocol.LostWriteLeavesGap` | adapters/cassandra/proto.go:109-120 | a body that calls on after a failed write, as the readiness poll does, and whose first line on the wire is call two |
| `Protocol.NothingAfterCancel` | adapters/cassandra/proto.go:103-108 | after cancellation nothing is written or read |
| `Protocol.Accept` | adapters/cassandra/proto.go:78-101 | a version not spoken is refused at the floor, an unusable line leaves no core |
| `Protocol.Finish` | adapters/cassandra/proto.go:141-166 | the final response, with the answer it was given, is the last line, and exit 0 says it was written |
| `Protocol.RunOp` | adapters/cassandra/main.go:44-58 | an operation with a body: the calls it decided on, then at most one final response, ok exactly when the body answered ok and with its error otherwise |
| `Protocol.Run` | adapters/cassandra/main.go:22-59 | exit 0 exactly when a final response was written as the last line, and what it says for every operation: refused version, unknown operation, the two fixed payloads, or the body's own answer; all lines at the version asked for, or the floor; only the two operations with bodies call |
| `Protocol.ValuesAreAnswers` | adapters/cassandra/proto.go:123-138 | the n-th call written is answered by the n-th line the core sent and by no other; a value or a reported error comes from it only when it bears that call's own id, and every other failure names what was wrong with that line |
| `Protocol.WireIsGaplessIff` | adapters/cassandra/proto.go:103-139 | for every request, core and environment: whatever the body, no gap on the wire exactly when the operation makes no calls or no write succeeds after one that failed |
| `Csv.SplitCsvLine` | adapters/influxdb/ops.go:87-102 | the loop, whose index steps past a second quote, ends and computes the fields |
| `Csv.SplitUndoesRow` | adapters/influxdb/ops.go:78-102 | splitting undoes section 2 of RFC 4180 for every list of fields and every choice of quoting |
| `Csv.PrintRow` | adapters/influxdb/ops.go:103-111 | annotations, short lines and the header print nothing |
| `Csv.RowPrints` | adapters/influxdb/ops.go:103-111 | of every row that can be written: a bare number sign in front, fewer than four fields, and `result` and `table` in the second and third print nothing; every other prints its fields from the fourth on, tab-separated and unquoted |
| `JsonEscape.EncodeCheck` | adapters/elasticsearch/ops.go:53-60 | refuses exactly the control characters of ASCII other than tab, newline and return, and encodes everything else |
| `JsonEscape.SubstitutedIsEscaped` | adapters/elasticsearch/ops.go:55-59 | five passes over the text come to one pass over its bytes |
| `JsonEscape.ControlsLeft` | adapters/elasticsearch/ops.go:60 | what the control check sees is what the text had beyond tab, newline and return |
| `JsonEscape.ReadBack` | adapters/elasticsearch/ops.go:53-60 | section 7 of RFC 8259 reads the encoded text back as the text, whatever follows |
| `JsonEscape.BodyHoldsTheText` | adapters/elasticsearch/ops.go:61 | the request body's query is the text and cannot reach past its string |
| `JsonEscape.QuotesFirstWouldEndTheString` | adapters/elasticsearch/ops.go:55-56 | with the first two substitutions swapped a lone quote ends the string |
| `CouchLines.Reader.ReadSlice` | adapters/couchdb/sniff.go:137 | a chunk up to the newline, a full buffer, or the rest |
| `CouchLines.Reader.ReadCappedLine` | adapters/couchdb/sniff.go:132-147 | the next line for every buffer size, refused exactly when it is too long |
| `CouchBatches.ClassifyLine` | adapters/couchdb/sniff.go:115-130 | counts a complete line that is not blank, sees a torn tail in an incomplete one; blank is white space of the unicode package, in UTF-8 |
| `Bytes.SpacesByPoint` | adapters/couchdb/sniff.go:119-125 | white space in UTF-8 is that of its code points |
| `CouchBatches.BatchLines` | adapters/couchdb/sniff.go:74-113 | the count, the torn tail and the refusal read off plain newline splitting, for every buffer size; lines of Unicode white space are passed over |
| `CouchReplay.PostAll` | adapters/couchdb/ops.go:294-308 | posts every batch in order up to the first refused |
| `CouchReplay.Replay` | adapters/couchdb/ops.go:290-309 | exit 0 exactly when the database was made, every post accepted and the count met, and else 1; nothing is posted behind a refused batch |
| `CouchReplay.PostsWhatWasCounted` | adapters/couchdb/ops.go:286-309 | where both see lines alike, the batches posted are the batches counted |
| `CouchReplay.PostsNoFewer` | adapters/couchdb/ops.go:286-309 | without NUL bytes as many are posted as counted exactly when no line below the header is blank without being empty |
| `CouchReplay.CountsApart` | adapters/couchdb/ops.go:286-309 | how far posted and counted batches are apart, for lines of any bytes |
| `CouchReplay.HeaderIsSeen` | adapters/couchdb/sniff.go:43-52 | the signature means a first line neither side skips |
| `CouchReplay.SignedIff` | adapters/couchdb/sniff.go:43-52 | a head is signed exactly when its first line opens, white space aside, with a brace and names the tool |
| `CouchReplay.RestoreIsHeldToTheCount` | adapters/couchdb/sniff.go:74-113 | whatever bytes the file holds, the restore's final check meets the count exactly when as many lines are posted uncounted as are counted unposted; without NUL bytes, exactly when no line below the header is white space, ASCII or not, without being empty |
| `CouchReplay.BlankLineIsPostedUncounted` | adapters/couchdb/ops.go:296-308 | any line of white space makes the loop post a batch nobody counted |
| `CouchReplay.OneSpaceIsBlank` | adapters/couchdb/sniff.go:122-125 | a line of one space and a line of one U+00A0 are such lines |
| `Firebird.ScanBuffer` | adapters/firebird/source.go:235-252 | the scan ends, in bounds, with the specification's answer |
| `Firebird.ReadBackupClock` | adapters/firebird/source.go:211-253 | marker, window and scan |
| `Firebird.ScanOfPrinted` | adapters/firebird/source.go:235-252 | printed records scan to the first clock among them, whatever follows |
| `Firebird.ClockInWindow` | adapters/firebird/source.go:211-253 | within the window nothing behind the clock changes the answer, and records without a clock report none |
| `Firebird.FoundIsFirst` | adapters/firebird/source.go:235-252 | a clock is found exactly when it is the first among some leading records |
| `Firebird.FirstClockIs` | adapters/firebird/source.go:235-252 | a clock is the data of the first record tagged 1, of 24 bytes, that parses |
| `Firebird.ClockStated` | adapters/firebird/source.go:211-253 | a file states a clock exactly when it opens with the marker and the clock is the first among the records within the first 4096 bytes |
| `DataRoot.Search.Visit` | adapters/iotdb/source.go:106-125 | the pruned walk appends exactly the specified paths |
| `DataRoot.BelowCollects` | adapters/iotdb/source.go:106-125 | those are the directories within reach that hold both files and are inside no other that does, each once |
| `DataRoot.FindDataRoot` | adapters/iotdb/source.go:102-142 | a directory is found exactly when it is the only one |
| `ShellQuote.QuotedIsOneWord` | adapters/arangodb/ops.go:301-304 | a quoted argument is read as that one word, whatever bytes it has and whatever words follow |
| `ShellQuote.CommandRoundTrip` | adapters/arangodb/ops.go:301-304 | every argument vector survives quoting, joining and the shell's reading |

## Left out

- File systems, tar, gzip, zip, JSON, SHA-256 and CRC-32: a tree, a stream of entries and a library's answer are data; a hash is the bytes fed to it.
- Read errors of directories, and the wording and retry hints of every refusal: a refusal is a constructor.
- CassandraBudget.WalkStaysAffordable: bounds what the walk charges, base names and bodies as read; keyspace and table names of the path are kept uncharged by the code, and a kept body is bounded by its bytes rather than by the form it is parsed into.
- The archive walk of the InfluxDB adapter (adapters/influxdb/source.go:191-303): a repeated manifest name replaces the stored body without a second charge, so what it retains is not bounded by what it charged.
- JsonEscape.EncodeCheck: control characters are those of the C locale.
- JsonEscape.ReadBack: the reader leaves out the four-digit `\u` escapes, which the script never writes.
- ShellQuote.CommandRoundTrip: words are read by quotes, backslashes, blanks and plain bytes; expansions and operators are refused rather than performed.
- Etcd.HoldsIffLongerThanBound: delays are integers in an arbitrary unit, every `lease list` of the keeper succeeds (one that fails is discarded and its whole sweep is skipped), a keep-alive for a live lease always succeeds, and checks never revoke the watched lease.
- ClickHouse: a restore attaches rows of existing tables or creates the missing table unlocked; a merge drops, rolls up or blanks expired rows only. Other merges do not change a table's rows and are not events.
- Protocol.Run: a write puts out a whole line or nothing; the decoding of exec and put_file values is not modelled.
- The newline-framed tree hashes of the other adapters, which are not uniquely decodable.
- Engine start-up, polling, health checks, timings, credentials, and the copies of this code in sibling adapters.

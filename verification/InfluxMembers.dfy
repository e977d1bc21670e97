/** adapters/influxdb/source.go: the members a manifest names, whether a copy holds them
    all, and the bytes that name the set. */
module InfluxMembers {
  import opened Wrappers
  import opened Bytes
  import opened Ordering
  import opened Nesting
  import opened HashStream
  import opened InfluxChoice

  // The manifest's nesting: buckets, retention policies, shard groups, shard files.
  type ShardGroup = seq<Text>
  type RetentionPolicy = seq<ShardGroup>
  type Bucket = seq<RetentionPolicy>

  datatype Manifest = Manifest(kv: Text, sql: Option<Text>, buckets: seq<Bucket>)

  function PolicyFiles(policy: RetentionPolicy): seq<Text> {
    Flatten(policy)
  }

  function BucketFiles(bucket: Bucket): seq<Text> {
    Flatten(Map(PolicyFiles, bucket))
  }

  function ShardFiles(buckets: seq<Bucket>): seq<Text> {
    Flatten(Map(BucketFiles, buckets))
  }

  function Stores(m: Manifest): seq<Text> {
    [m.kv] + if m.sql.Some? then [m.sql.value] else []
  }

  /** Every file name the manifest mentions, in its order. */
  function Mentions(m: Manifest): seq<Text> {
    Stores(m) + ShardFiles(m.buckets)
  }

  // The same, over the nesting itself.

  /** Where a manifest has a name: the KV store, the SQL store, or a shard by its bucket,
      policy, group and position. */
  datatype Place = KV | SQL | Shard(i: nat, j: nat, k: nat, n: nat)

  predicate HasShard(buckets: seq<Bucket>, i: nat, j: nat, k: nat, n: nat) {
    i < |buckets| && j < |buckets[i]| && k < |buckets[i][j]| && n < |buckets[i][j][k]|
  }

  predicate Has(m: Manifest, p: Place, name: Text) {
    match p
    case KV => m.kv == name
    case SQL => m.sql == Some(name)
    case Shard(i, j, k, n) => HasShard(m.buckets, i, j, k, n) && m.buckets[i][j][k][n] == name
  }

  /** The stores first, then the shards by bucket, policy, group and position. */
  predicate Ahead(p: Place, q: Place) {
    match (p, q)
    case (KV, _) => !q.KV?
    case (SQL, _) => q.Shard?
    case (Shard(i, j, k, n), Shard(a, b, c, d)) =>
      i < a || (i == a && (j < b || (j == b && (k < c || (k == c && n < d)))))
    case (Shard(_, _, _, _), _) => false
  }

  /** Where the list of mentions has a shard. */
  function ShardOffset(buckets: seq<Bucket>, i: nat, j: nat, k: nat, n: nat): nat
    requires HasShard(buckets, i, j, k, n)
  {
    Start(Map(BucketFiles, buckets), i) + Start(Map(PolicyFiles, buckets[i]), j) + Start(buckets[i][j], k) + n
  }

  lemma ShardIsThere(buckets: seq<Bucket>, i: nat, j: nat, k: nat, n: nat)
    requires HasShard(buckets, i, j, k, n)
    ensures Start(buckets[i][j], k) + n < |PolicyFiles(buckets[i][j])|
    ensures Start(Map(PolicyFiles, buckets[i]), j) + Start(buckets[i][j], k) + n < |BucketFiles(buckets[i])|
    ensures ShardOffset(buckets, i, j, k, n) < |ShardFiles(buckets)|
    ensures ShardFiles(buckets)[ShardOffset(buckets, i, j, k, n)] == buckets[i][j][k][n]
  {
    var inPolicy := Start(buckets[i][j], k) + n;
    FlattenAt(buckets[i][j], k, n);
    FlattenAt(Map(PolicyFiles, buckets[i]), j, inPolicy);
    FlattenAt(Map(BucketFiles, buckets), i, Start(Map(PolicyFiles, buckets[i]), j) + inPolicy);
  }

  lemma ShardsInOrder(buckets: seq<Bucket>, i: nat, j: nat, k: nat, n: nat, a: nat, b: nat, c: nat, d: nat)
    requires HasShard(buckets, i, j, k, n) && HasShard(buckets, a, b, c, d)
    requires Ahead(Shard(i, j, k, n), Shard(a, b, c, d))
    ensures ShardOffset(buckets, i, j, k, n) < ShardOffset(buckets, a, b, c, d)
  {
    ShardIsThere(buckets, i, j, k, n);
    if i < a {
      FlattenGrows(Map(BucketFiles, buckets), i, a);
    } else if j < b {
      FlattenGrows(Map(PolicyFiles, buckets[i]), j, b);
    } else if k < c {
      FlattenGrows(buckets[i][j], k, c);
    }
  }

  lemma ShardFrom(buckets: seq<Bucket>, y: nat) returns (i: nat, j: nat, k: nat, n: nat)
    requires y < |ShardFiles(buckets)|
    ensures HasShard(buckets, i, j, k, n) && y == ShardOffset(buckets, i, j, k, n)
  {
    var x, z;
    i, x := FlattenFrom(Map(BucketFiles, buckets), y);
    j, z := FlattenFrom(Map(PolicyFiles, buckets[i]), x);
    k, n := FlattenFrom(buckets[i][j], z);
  }

  function Offset(m: Manifest, p: Place, name: Text): nat
    requires Has(m, p, name)
  {
    match p
    case KV => 0
    case SQL => 1
    case Shard(i, j, k, n) => |Stores(m)| + ShardOffset(m.buckets, i, j, k, n)
  }

  lemma PlaceIsMentioned(m: Manifest, p: Place, name: Text)
    requires Has(m, p, name)
    ensures Offset(m, p, name) < |Mentions(m)| && Mentions(m)[Offset(m, p, name)] == name
  {
    if p.Shard? {
      ShardIsThere(m.buckets, p.i, p.j, p.k, p.n);
    }
  }

  lemma PlacesInOrder(m: Manifest, p: Place, a: Text, q: Place, b: Text)
    requires Has(m, p, a) && Has(m, q, b) && Ahead(p, q)
    ensures Offset(m, p, a) < Offset(m, q, b)
  {
    if p.Shard? {
      ShardsInOrder(m.buckets, p.i, p.j, p.k, p.n, q.i, q.j, q.k, q.n);
    }
  }

  lemma MentionHasPlace(m: Manifest, y: nat) returns (p: Place)
    requires y < |Mentions(m)|
    ensures Has(m, p, Mentions(m)[y]) && Offset(m, p, Mentions(m)[y]) == y
  {
    if y >= |Stores(m)| {
      var i, j, k, n := ShardFrom(m.buckets, y - |Stores(m)|);
      ShardIsThere(m.buckets, i, j, k, n);
      p := Shard(i, j, k, n);
    } else {
      p := if y == 0 then KV else SQL;
    }
  }

  /** A file the manifest names, wherever in it. */
  ghost predicate Names(m: Manifest, name: Text) {
    && name != []
    && (m.kv == name || m.sql == Some(name)
        || exists i: nat, j: nat, k: nat, n: nat :: HasShard(m.buckets, i, j, k, n) && m.buckets[i][j][k][n] == name)
  }

  lemma MentionsAreNamed(m: Manifest)
    ensures forall name :: name in Mentions(m) && name != [] <==> Names(m, name)
  {
    forall name ensures name in Mentions(m) && name != [] <==> Names(m, name) {
      if name in Mentions(m) {
        var y :| 0 <= y < |Mentions(m)| && Mentions(m)[y] == name;
        var p := MentionHasPlace(m, y);
        assert p.Shard? ==> HasShard(m.buckets, p.i, p.j, p.k, p.n);
      }
      if Names(m, name) {
        NamedHasPlace(m, name);
      }
    }
  }

  lemma NamedHasPlace(m: Manifest, name: Text)
    requires Names(m, name)
    ensures name in Mentions(m)
  {
    if m.kv == name {
      PlaceIsMentioned(m, KV, name);
    } else if m.sql == Some(name) {
      PlaceIsMentioned(m, SQL, name);
    } else {
      var i: nat, j: nat, k: nat, n: nat :| HasShard(m.buckets, i, j, k, n) && m.buckets[i][j][k][n] == name;
      PlaceIsMentioned(m, Shard(i, j, k, n), name);
    }
  }

  /** names is mentions without blanks and without repeats, each name where it is first
      mentioned. */
  ghost predicate FirstMentions(names: seq<Text>, mentions: seq<Text>) {
    && Distinct(names)
    && (forall name :: name in names <==> name in mentions && name != [])
    && (forall i, j :: 0 <= i < j < |names| ==> MentionedBefore(mentions, names[i], names[j]))
  }

  /** a is mentioned somewhere with no b at or before it. */
  ghost predicate MentionedBefore(mentions: seq<Text>, a: Text, b: Text) {
    exists k :: 0 <= k < |mentions| && mentions[k] == a && b !in mentions[..k + 1]
  }

  lemma MentionedBeforeSnoc(mentions: seq<Text>, a: Text, b: Text, next: Text)
    requires MentionedBefore(mentions, a, b)
    ensures MentionedBefore(mentions + [next], a, b)
  {
    var k :| 0 <= k < |mentions| && mentions[k] == a && b !in mentions[..k + 1];
    assert (mentions + [next])[..k + 1] == mentions[..k + 1];
    assert (mentions + [next])[k] == a;
  }

  lemma NewIsMentionedAfter(mentions: seq<Text>, a: Text, next: Text)
    requires a in mentions && next !in mentions
    ensures MentionedBefore(mentions + [next], a, next)
  {
    var k :| 0 <= k < |mentions| && mentions[k] == a;
    assert (mentions + [next])[..k + 1] == mentions[..k + 1];
    assert (mentions + [next])[k] == a;
  }

  lemma FirstMentionsNext(names: seq<Text>, mentions: seq<Text>, next: Text)
    requires FirstMentions(names, mentions)
    ensures FirstMentions(if next != [] && next !in mentions then names + [next] else names, mentions + [next])
  {
    var more := if next != [] && next !in mentions then names + [next] else names;
    forall i, j | 0 <= i < j < |more| ensures MentionedBefore(mentions + [next], more[i], more[j]) {
      if j < |names| {
        assert MentionedBefore(mentions, names[i], names[j]);
        MentionedBeforeSnoc(mentions, names[i], names[j], next);
      } else {
        assert names[i] in names;
        NewIsMentionedAfter(mentions, names[i], next);
      }
    }
    forall name ensures name in more <==> name in mentions + [next] && name != [] {
      assert name in mentions + [next] <==> name in mentions || name == next;
    }
  }

  /** The first mentions of a list. */
  function Firsts(mentions: seq<Text>): seq<Text> {
    if mentions == [] then []
    else
      var init, last := mentions[..|mentions| - 1], mentions[|mentions| - 1];
      if last != [] && last !in init then Firsts(init) + [last] else Firsts(init)
  }

  lemma FirstsNext(mentions: seq<Text>, next: Text)
    requires FirstMentions(Firsts(mentions), mentions)
    ensures FirstMentions(Firsts(mentions + [next]), mentions + [next])
  {
    assert (mentions + [next])[..|mentions|] == mentions;
    FirstMentionsNext(Firsts(mentions), mentions, next);
  }

  lemma NothingMentioned()
    ensures FirstMentions(Firsts([]), [])
  {
  }

  lemma {:induction false} FirstsAreFirst(mentions: seq<Text>)
    ensures FirstMentions(Firsts(mentions), mentions)
  {
    if mentions == [] {
      NothingMentioned();
    } else {
      var init, last := mentions[..|mentions| - 1], mentions[|mentions| - 1];
      FirstsAreFirst(init);
      FirstsNext(init, last);
      assert init + [last] == mentions;
    }
  }

  /** The members a manifest names. */
  function MemberNames(m: Manifest): seq<Text> {
    Firsts(Mentions(m))
  }

  /** One list of mentions has one list of first mentions. */
  lemma FirstMentionsUnique(a: seq<Text>, b: seq<Text>, mentions: seq<Text>)
    requires FirstMentions(a, mentions) && FirstMentions(b, mentions)
    ensures a == b
  {
    DistinctSameElements(a, b);
    assert |a| == |multiset(a)| == |b|;
    forall i | 0 <= i < |a| ensures a[i] == b[i] {
      SamePlace(a, b, mentions, i);
    }
  }

  lemma NotBothBefore(mentions: seq<Text>, a: Text, b: Text)
    requires MentionedBefore(mentions, a, b)
    ensures !MentionedBefore(mentions, b, a)
  {
    var k :| 0 <= k < |mentions| && mentions[k] == a && b !in mentions[..k + 1];
    assert forall n :: 0 <= n <= k ==> mentions[..k + 1][n] == mentions[n];
    forall n | k < n < |mentions| && mentions[n] == b ensures a in mentions[..n + 1] {
      assert mentions[..n + 1][k] == a;
    }
  }

  lemma {:induction false} SamePlace(a: seq<Text>, b: seq<Text>, mentions: seq<Text>, i: nat)
    requires FirstMentions(a, mentions) && FirstMentions(b, mentions) && |a| == |b| && i < |a|
    ensures a[i] == b[i]
  {
    forall k | 0 <= k < i ensures a[k] == b[k] {
      SamePlace(a, b, mentions, k);
    }
    assert a[i] in a && b[i] in b;
    assert a[i] in b && b[i] in a;
    var p :| 0 <= p < |b| && b[p] == a[i];
    var q :| 0 <= q < |a| && a[q] == b[i];
    assert forall x :: 0 <= x < i ==> a[x] != a[i] && b[x] != b[i];
    assert p >= i && q >= i;
    if p != i && q != i {
      assert MentionedBefore(mentions, b[i], b[p]);
      assert MentionedBefore(mentions, a[i], a[q]);
      NotBothBefore(mentions, a[i], b[i]);
    }
  }

  /** manifestMemberNames' local list, with its add function. */
  class NameList {
    var names: seq<Text>
    var seen: set<Text>
    ghost var mentions: seq<Text>

    ghost predicate Valid()
      reads this
    {
      FirstMentions(names, mentions) && forall name :: name in seen <==> name in names
    }

    constructor ()
      ensures Valid() && mentions == []
    {
      names, seen, mentions := [], {}, [];
    }

    /** add */
    method Add(name: Text)
      requires Valid()
      modifies this
      ensures Valid() && mentions == old(mentions) + [name]
    {
      FirstMentionsNext(names, mentions, name);
      if name != [] && name !in seen {
        seen := seen + {name};
        names := names + [name];
      }
      mentions := mentions + [name];
    }

    /** The innermost loop. */
    method AddGroup(group: ShardGroup)
      requires Valid()
      modifies this
      ensures Valid() && mentions == old(mentions) + group
    {
      for i := 0 to |group|
        invariant Valid() && mentions == old(mentions) + group[..i]
      {
        assert group[..i + 1] == group[..i] + [group[i]];
        Add(group[i]);
      }
      assert group[..|group|] == group;
    }

    method AddPolicy(policy: RetentionPolicy)
      requires Valid()
      modifies this
      ensures Valid() && mentions == old(mentions) + PolicyFiles(policy)
    {
      for i := 0 to |policy|
        invariant Valid() && mentions == old(mentions) + PolicyFiles(policy[..i])
      {
        StartNext(policy, i);
        AddGroup(policy[i]);
      }
      assert policy[..|policy|] == policy;
    }

    method AddBucket(bucket: Bucket)
      requires Valid()
      modifies this
      ensures Valid() && mentions == old(mentions) + BucketFiles(bucket)
    {
      for i := 0 to |bucket|
        invariant Valid() && mentions == old(mentions) + BucketFiles(bucket[..i])
      {
        FlattenMapNext(PolicyFiles, bucket, i);
        AddPolicy(bucket[i]);
      }
      assert bucket[..|bucket|] == bucket;
    }

    /** The outermost loop. */
    method AddBuckets(buckets: seq<Bucket>)
      requires Valid()
      modifies this
      ensures Valid() && mentions == old(mentions) + ShardFiles(buckets)
    {
      for i := 0 to |buckets|
        invariant Valid() && mentions == old(mentions) + ShardFiles(buckets[..i])
      {
        FlattenMapNext(BucketFiles, buckets, i);
        AddBucket(buckets[i]);
      }
      assert buckets[..|buckets|] == buckets;
    }
  }

  /** a has a place ahead of all of b's. */
  ghost predicate FirstAhead(m: Manifest, a: Text, b: Text) {
    exists p :: Has(m, p, a) && forall q :: Has(m, q, b) ==> Ahead(p, q)
  }

  lemma BeforeIsAhead(m: Manifest, a: Text, b: Text)
    requires MentionedBefore(Mentions(m), a, b)
    ensures FirstAhead(m, a, b)
  {
    var y :| 0 <= y < |Mentions(m)| && Mentions(m)[y] == a && b !in Mentions(m)[..y + 1];
    forall x | 0 <= x <= y ensures Mentions(m)[x] != b {
      assert Mentions(m)[..y + 1][x] == Mentions(m)[x];
    }
    var p := MentionHasPlace(m, y);
    forall q | Has(m, q, b) ensures Ahead(p, q) {
      PlaceIsMentioned(m, q, b);
      if Ahead(q, p) {
        PlacesInOrder(m, q, b, p, a);
      }
    }
  }

  /** These are the files the manifest names, but for one, each once and in the order of
      their first places. */
  ghost predicate MembersBut(m: Manifest, but: Text, names: seq<Text>) {
    && Distinct(names)
    && (forall name :: name in names <==> Names(m, name) && name != but)
    && (forall i, j :: 0 <= i < j < |names| ==> FirstAhead(m, names[i], names[j]))
  }

  lemma InOrderIsAhead(m: Manifest, names: seq<Text>)
    requires InOrder(names, Mentions(m))
    ensures forall i, j :: 0 <= i < j < |names| ==> FirstAhead(m, names[i], names[j])
  {
    forall i, j | 0 <= i < j < |names| ensures FirstAhead(m, names[i], names[j]) {
      BeforeIsAhead(m, names[i], names[j]);
    }
  }

  lemma MemberNamesAre(m: Manifest)
    ensures MembersBut(m, [], MemberNames(m)) && InOrder(MemberNames(m), Mentions(m))
  {
    FirstsAreFirst(Mentions(m));
    MentionsAreNamed(m);
    InOrderIsAhead(m, MemberNames(m));
  }

  lemma FirstMentionsAreMembers(m: Manifest, names: seq<Text>)
    requires FirstMentions(names, Mentions(m))
    ensures names == MemberNames(m) && MembersBut(m, [], names)
  {
    FirstsAreFirst(Mentions(m));
    FirstMentionsUnique(names, MemberNames(m), Mentions(m));
    MemberNamesAre(m);
  }

  /** manifestMemberNames: the KV store, the SQL store, then the shards by bucket, policy,
      group and position; blanks left out, and each name only where it is first named. */
  method ManifestMemberNames(m: Manifest) returns (names: seq<Text>)
    ensures names == MemberNames(m) && MembersBut(m, [], names)
  {
    var list := new NameList();
    list.Add(m.kv);
    if m.sql.Some? {
      list.Add(m.sql.value);
    }
    list.AddBuckets(m.buckets);
    assert list.mentions == Mentions(m);
    names := list.names;
    FirstMentionsAreMembers(m, names);
  }

  // Completeness.

  ghost predicate Present(entries: seq<DirEntry>, name: Text) {
    exists i :: 0 <= i < |entries| && entries[i].regular && entries[i].name == name
  }

  function Without(names: seq<Text>, name: Text): seq<Text> {
    if names == [] then []
    else Without(names[..|names| - 1], name) + if names[|names| - 1] == name then [] else [names[|names| - 1]]
  }

  /** Without repeats, each where the mentions first have it. */
  ghost predicate InOrder(names: seq<Text>, mentions: seq<Text>) {
    Distinct(names) && forall i, j :: 0 <= i < j < |names| ==> MentionedBefore(mentions, names[i], names[j])
  }

  /** Leaving the manifest out leaves the others, in the same order. */
  lemma {:induction false} WithoutKeepsOrder(names: seq<Text>, name: Text, mentions: seq<Text>)
    requires InOrder(names, mentions)
    ensures InOrder(Without(names, name), mentions)
    ensures forall n :: n in Without(names, name) <==> n in names && n != name
  {
    if names != [] {
      var init, last := names[..|names| - 1], names[|names| - 1];
      WithoutKeepsOrder(init, name, mentions);
      assert forall n :: n in names <==> n in init || n == last;
      var others := Without(init, name);
      forall i | 0 <= i < |others| ensures MentionedBefore(mentions, others[i], last) && others[i] != last {
        assert others[i] in others;
        var k :| 0 <= k < |init| && init[k] == others[i];
        assert names[k] == init[k];
      }
    }
  }

  lemma MembersLeft(m: Manifest, but: Text)
    ensures MembersBut(m, but, Without(MemberNames(m), but))
  {
    MemberNamesAre(m);
    WithoutKeepsOrder(MemberNames(m), but, Mentions(m));
    InOrderIsAhead(m, Without(MemberNames(m), but));
  }

  lemma ListedMembers(m: Manifest, manifestName: Text, listed: seq<Text>)
    requires listed == [manifestName] + Without(MemberNames(m), manifestName)
    ensures listed[0] == manifestName && MembersBut(m, manifestName, listed[1..])
  {
    MembersLeft(m, manifestName);
    assert listed[1..] == Without(MemberNames(m), manifestName);
  }

  lemma WithoutNext(names: seq<Text>, i: nat, name: Text)
    requires i < |names|
    ensures Without(names[..i + 1], name) == Without(names[..i], name) + if names[i] == name then [] else [names[i]]
  {
    assert names[..i + 1][..i] == names[..i];
  }

  lemma MembersPresent(m: Manifest, members: seq<Text>, but: Text, present: set<Text>)
    requires MembersBut(m, [], members)
    requires forall k :: 0 <= k < |members| && members[k] != but ==> members[k] in present
    ensures forall name :: Names(m, name) && name != but ==> name in present
  {
    forall name | Names(m, name) && name != but ensures name in present {
      assert name in members;
    }
  }

  /** The names of a directory's regular files. */
  method RegularNames(entries: seq<DirEntry>) returns (present: set<Text>)
    ensures forall name :: name in present <==> Present(entries, name)
  {
    present := {};
    for i := 0 to |entries|
      invariant forall name :: name in present <==> Present(entries[..i], name)
    {
      PresentOneMore(entries, i);
      if entries[i].regular {
        present := present + {entries[i].name};
      }
    }
    assert entries[..|entries|] == entries;
  }

  /** memberFiles: exactly when every member named is there, the manifest and then each
      of them once, in the order of first mention. */
  method MemberFiles(m: Manifest, manifestName: Text, entries: seq<DirEntry>) returns (files: Option<seq<Text>>)
    ensures files.Some? <==> forall name :: Names(m, name) && name != manifestName ==> Present(entries, name)
    ensures files.Some? ==>
              files.value != [] && files.value[0] == manifestName && MembersBut(m, manifestName, files.value[1..])
  {
    var present := RegularNames(entries);
    var members := ManifestMemberNames(m);
    var listed := [manifestName];
    for i := 0 to |members|
      invariant listed == [manifestName] + Without(members[..i], manifestName)
      invariant forall k :: 0 <= k < i && members[k] != manifestName ==> members[k] in present
    {
      WithoutNext(members, i, manifestName);
      if members[i] != manifestName {
        if members[i] !in present {
          assert members[i] in members && Names(m, members[i]);
          return None;
        }
        listed := listed + [members[i]];
      }
    }
    assert members[..|members|] == members;
    ListedMembers(m, manifestName, listed);
    MembersPresent(m, members, manifestName, present);
    return Some(listed);
  }

  lemma PresentOneMore(entries: seq<DirEntry>, i: nat)
    requires i < |entries|
    ensures forall name :: Present(entries[..i + 1], name) <==> Present(entries[..i], name) || (entries[i].regular && entries[i].name == name)
  {
    var more, less := entries[..i + 1], entries[..i];
    assert more == less + [entries[i]];
    forall name | Present(less, name) ensures Present(more, name) {
      var k :| 0 <= k < |less| && less[k].regular && less[k].name == name;
      assert more[k] == less[k];
    }
    assert more[i] == entries[i];
  }

  /** tarCompleteness: whether every member named is in the archive. */
  method TarCompleteness(m: Manifest, members: set<Text>) returns (complete: bool)
    ensures complete <==> forall name :: Names(m, name) ==> name in members
  {
    var named := ManifestMemberNames(m);
    for i := 0 to |named|
      invariant forall k :: 0 <= k < i ==> named[k] in members
    {
      if named[i] !in members {
        assert named[i] in named;
        return false;
      }
    }
    return true;
  }

  /** A directory and an archive holding the same names, the manifest among them, are
      complete or not alike: exactly when every name mentioned is held. */
  lemma CompletenessAgrees(m: Manifest, manifestName: Text, entries: seq<DirEntry>, members: set<Text>)
    requires forall name :: name in members <==> Present(entries, name)
    requires manifestName in members
    ensures (forall name :: Names(m, name) && name != manifestName ==> Present(entries, name))
       <==> (forall name :: Names(m, name) ==> name in members)
  {
  }

  // memberChecksum.

  function ContentOf(contents: map<Text, Text>, name: Text): Text {
    if name in contents then contents[name] else []
  }

  function Members(contents: map<Text, Text>, names: seq<Text>): seq<Hashed> {
    if names == [] then []
    else
      var last := names[|names| - 1];
      Members(contents, names[..|names| - 1]) + [HashedFile(last, ContentOf(contents, last))]
  }

  lemma OneMoreMember(contents: map<Text, Text>, names: seq<Text>, i: nat)
    requires i < |names|
    ensures var members, more := Members(contents, names[..i]), Members(contents, names[..i + 1]);
            var content := ContentOf(contents, names[i]);
            && Stream(more) == Stream(members) + Framed(HashedFile(names[i], content))
            && ContentBytes(more) == ContentBytes(members) + |content|
  {
    assert names[..i + 1][..i] == names[..i];
    OneMore(Members(contents, names[..i]), HashedFile(names[i], ContentOf(contents, names[i])));
  }

  /** What memberChecksum hashes: the members sorted by name. */
  function MembersHashed(contents: map<Text, Text>, files: seq<Text>): seq<Hashed> {
    Members(contents, Sort(Less, files))
  }

  /** memberChecksum */
  method MemberChecksum(contents: map<Text, Text>, files: seq<Text>) returns (hashed: Text, total: nat)
    requires forall name :: name in files ==> name in contents
    ensures hashed == Stream(MembersHashed(contents, files)) && total == ContentBytes(MembersHashed(contents, files))
  {
    var names := Sort(Less, files);
    SameMembers(names, files);
    hashed, total := [], 0;
    for i := 0 to |names|
      invariant hashed == Stream(Members(contents, names[..i])) && total == ContentBytes(Members(contents, names[..i]))
    {
      var name := names[i];
      OneMoreMember(contents, names, i);
      assert name in files;
      var content := contents[name];
      assert ContentOf(contents, name) == content;
      hashed := hashed + Framed(HashedFile(name, content));
      total := total + |content|;
    }
    assert names[..|names|] == names;
  }

  /** The bytes do not depend on the order the files are listed in. */
  lemma ChecksumOrderFree(contents: map<Text, Text>, files: seq<Text>, shuffled: seq<Text>)
    requires multiset(files) == multiset(shuffled)
    ensures Stream(MembersHashed(contents, files)) == Stream(MembersHashed(contents, shuffled))
  {
    TextLessIsStrictTotal();
    SortSorts(Less, files);
    SortSorts(Less, shuffled);
    SortedUnique(Less, Sort(Less, files), Sort(Less, shuffled));
  }

  lemma {:induction false} MembersAre(contents: map<Text, Text>, names: seq<Text>)
    ensures var members := Members(contents, names);
            |members| == |names| && forall i :: 0 <= i < |names| ==> members[i] == HashedFile(names[i], ContentOf(contents, names[i]))
  {
    if names != [] {
      MembersAre(contents, names[..|names| - 1]);
    }
  }

  /** The files are hashed each with its content, in the order of their names. */
  lemma HashedInNameOrder(contents: map<Text, Text>, files: seq<Text>) returns (names: seq<Text>)
    requires forall name :: name in files ==> name in contents
    ensures multiset(names) == multiset(files)
    ensures forall i, j :: 0 <= i < j < |names| ==> names[i] == names[j] || Less(names[i], names[j])
    ensures |MembersHashed(contents, files)| == |names|
    ensures forall i :: 0 <= i < |names| ==>
              names[i] in contents && MembersHashed(contents, files)[i] == HashedFile(names[i], contents[names[i]])
  {
    names := Sort(Less, files);
    TextLessIsStrictTotal();
    SortSorts(Less, files);
    MembersAre(contents, names);
    SameMembers(names, files);
    forall i | 0 <= i < |names| ensures names[i] in contents {
      assert names[i] in files;
    }
  }

  lemma SameMembersSameContents(a: map<Text, Text>, x: seq<Text>, b: map<Text, Text>, y: seq<Text>)
    requires Members(a, x) == Members(b, y)
    requires (forall name :: name in x <==> name in a) && (forall name :: name in y <==> name in b)
    ensures a == b
  {
    MembersAre(a, x);
    MembersAre(b, y);
    forall i | 0 <= i < |x| ensures x[i] == y[i] && ContentOf(a, x[i]) == ContentOf(b, y[i]) {
      assert Members(a, x)[i] == Members(b, y)[i];
    }
    assert x == y;
    forall name | name in a ensures name in b && a[name] == b[name] {
      var i :| 0 <= i < |x| && x[i] == name;
    }
  }

  lemma MembersFramable(contents: map<Text, Text>, names: seq<Text>)
    requires forall name :: name in names ==> NUL !in name
    ensures forall i :: 0 <= i < |Members(contents, names)| ==> Framable(Members(contents, names)[i])
  {
    MembersAre(contents, names);
  }

  /** And they determine the set: the same bytes mean the same names with the same
      contents. */
  lemma ChecksumInjective(a: map<Text, Text>, aFiles: seq<Text>, b: map<Text, Text>, bFiles: seq<Text>)
    requires (forall name :: name in aFiles <==> name in a) && (forall name :: name in bFiles <==> name in b)
    requires forall name :: name in a || name in b ==> NUL !in name
    requires Stream(MembersHashed(a, aFiles)) == Stream(MembersHashed(b, bFiles))
    ensures a == b
  {
    var x, y := Sort(Less, aFiles), Sort(Less, bFiles);
    SameMembers(x, aFiles);
    SameMembers(y, bFiles);
    MembersFramable(a, x);
    MembersFramable(b, y);
    StreamInjective(Members(a, x), Members(b, y));
    SameMembersSameContents(a, x, b, y);
  }
}

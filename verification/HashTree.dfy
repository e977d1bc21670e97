/** adapters/cassandra/source.go, dirChecksum: a directory tree, the order filepath.WalkDir
    takes it in, and that the bytes hashed stand for exactly the files and links in it. */
module HashTree {
  import opened Bytes
  import opened Paths
  import opened HashStream

  /** A directory lists its entries by name, as os.ReadDir does. */
  datatype Node =
    | FileNode(content: Text)
    | LinkNode(target: Text)
    | SpecialNode
    | DirNode(entries: seq<Entry>)

  datatype Entry = Entry(name: Text, node: Node)

  predicate NameFits(name: Text) {
    name != [] && SLASH !in name && NUL !in name
  }

  ghost predicate WellFormed(node: Node) {
    match node
    case FileNode(_) => true
    case LinkNode(target) => NUL !in target
    case SpecialNode => true
    case DirNode(entries) =>
      && (forall i :: 0 <= i < |entries| ==> NameFits(entries[i].name) && WellFormed(entries[i].node))
      && (forall i, j :: 0 <= i < j < |entries| ==> Less(entries[i].name, entries[j].name))
  }

  /** A file or link of the tree, by the names that lead to it. */
  datatype Leaf = Leaf(path: seq<Text>, body: LeafBody)

  datatype LeafBody = Content(content: Text) | Target(target: Text)

  function Under(name: Text, leaves: seq<Leaf>): (r: seq<Leaf>)
    ensures |r| == |leaves| && forall i :: 0 <= i < |leaves| ==> r[i] == Leaf([name] + leaves[i].path, leaves[i].body)
  {
    seq(|leaves|, i requires 0 <= i < |leaves| => Leaf([name] + leaves[i].path, leaves[i].body))
  }

  /** The tree's files and links, in the order of the walk. */
  function Leaves(node: Node): seq<Leaf>
    decreases node, 0
  {
    match node
    case FileNode(content) => [Leaf([], Content(content))]
    case LinkNode(target) => [Leaf([], Target(target))]
    case SpecialNode => []
    case DirNode(entries) => LeavesTo(entries, |entries|)
  }

  function LeavesTo(entries: seq<Entry>, n: nat): seq<Leaf>
    requires n <= |entries|
    decreases entries, n
  {
    if n == 0 then [] else LeavesTo(entries, n - 1) + Under(entries[n - 1].name, Leaves(entries[n - 1].node))
  }

  /** filepath.Rel of a path below the root. */
  function Rel(path: seq<Text>): Text {
    if path == [] then [DOT] else Join(SLASH, path)
  }

  /** filepath.WalkDir: a directory before its entries, the entries by name. */
  function Walk(path: seq<Text>, node: Node): seq<Walked>
    decreases node, 0
  {
    match node
    case FileNode(content) => [WalkedFile(Rel(path), content)]
    case LinkNode(target) => [WalkedLink(Rel(path), target)]
    case SpecialNode => [WalkedOther(Rel(path))]
    case DirNode(entries) => [WalkedOther(Rel(path))] + WalkTo(path, entries, |entries|)
  }

  function WalkTo(path: seq<Text>, entries: seq<Entry>, n: nat): seq<Walked>
    requires n <= |entries|
    decreases entries, n
  {
    if n == 0 then [] else WalkTo(path, entries, n - 1) + Walk(path + [entries[n - 1].name], entries[n - 1].node)
  }

  // What the walk hands to the hash.

  function AsHashed(path: seq<Text>, body: LeafBody): Hashed {
    match body
    case Content(content) => HashedFile(Rel(path), content)
    case Target(target) => HashedLink(Rel(path), target)
  }

  function HashedUnder(path: seq<Text>, leaves: seq<Leaf>): (r: seq<Hashed>)
    ensures |r| == |leaves| && forall i :: 0 <= i < |leaves| ==> r[i] == AsHashed(path + leaves[i].path, leaves[i].body)
  {
    seq(|leaves|, i requires 0 <= i < |leaves| => AsHashed(path + leaves[i].path, leaves[i].body))
  }

  lemma NamedSnoc(a: seq<Walked>, w: Walked)
    ensures Named(a + [w]) == Named(a) + NamedBy(w)
  {
    assert (a + [w])[..|a|] == a;
  }

  lemma {:induction false} NamedConcat(a: seq<Walked>, b: seq<Walked>)
    ensures Named(a + b) == Named(a) + Named(b)
  {
    if b == [] {
      assert a + b == a;
    } else {
      var init, last := b[..|b| - 1], b[|b| - 1];
      assert b == init + [last] && a + b == (a + init) + [last];
      NamedConcat(a, init);
      NamedSnoc(a + init, last);
      NamedSnoc(init, last);
    }
  }

  lemma HashedConcat(path: seq<Text>, a: seq<Leaf>, b: seq<Leaf>)
    ensures HashedUnder(path, a + b) == HashedUnder(path, a) + HashedUnder(path, b)
  {
  }

  lemma NamedOne(w: Walked)
    ensures Named([w]) == NamedBy(w)
  {
    assert [w][..0] == [];
    assert Named([w]) == Named([]) + NamedBy(w);
  }

  lemma HashedUnderName(path: seq<Text>, name: Text, leaves: seq<Leaf>)
    ensures HashedUnder(path, Under(name, leaves)) == HashedUnder(path + [name], leaves)
  {
    forall i | 0 <= i < |leaves| ensures path + ([name] + leaves[i].path) == (path + [name]) + leaves[i].path {}
  }

  lemma DirectoryIsUnnamed(path: seq<Text>, below: seq<Walked>, walk: seq<Walked>)
    requires walk == [WalkedOther(Rel(path))] + below
    ensures Named(walk) == Named(below)
  {
    NamedOne(WalkedOther(Rel(path)));
    NamedConcat([WalkedOther(Rel(path))], below);
  }

  ghost predicate NamesLeaves(path: seq<Text>, node: Node) {
    Named(Walk(path, node)) == HashedUnder(path, Leaves(node))
  }

  ghost predicate EntryNamed(path: seq<Text>, e: Entry) {
    NamesLeaves(path + [e.name], e.node)
  }

  lemma NamedOn(path: seq<Text>, name: Text, walk: seq<Walked>, below: seq<Walked>, leaves: seq<Leaf>, found: seq<Leaf>)
    requires Named(walk) == HashedUnder(path, leaves) && Named(below) == HashedUnder(path + [name], found)
    ensures Named(walk + below) == HashedUnder(path, leaves + Under(name, found))
  {
    NamedConcat(walk, below);
    HashedUnderName(path, name, found);
    HashedConcat(path, leaves, Under(name, found));
  }

  ghost predicate EntriesNamed(path: seq<Text>, entries: seq<Entry>, n: nat)
    requires n <= |entries|
  {
    Named(WalkTo(path, entries, n)) == HashedUnder(path, LeavesTo(entries, n))
  }

  lemma NothingNamed(path: seq<Text>, entries: seq<Entry>)
    ensures EntriesNamed(path, entries, 0)
  {
  }

  lemma OneEntryMore(path: seq<Text>, entries: seq<Entry>, n: nat)
    requires n < |entries| && EntryNamed(path, entries[n]) && EntriesNamed(path, entries, n)
    ensures EntriesNamed(path, entries, n + 1)
  {
    var e := entries[n];
    NamedOn(path, e.name, WalkTo(path, entries, n), Walk(path + [e.name], e.node), LeavesTo(entries, n), Leaves(e.node));
  }

  lemma {:induction false} AllEntriesNamed(path: seq<Text>, entries: seq<Entry>)
    requires forall k {:trigger EntryNamed(path, entries[k])} :: 0 <= k < |entries| ==> EntryNamed(path, entries[k])
    ensures EntriesNamed(path, entries, |entries|)
  {
    NothingNamed(path, entries);
    for n := 0 to |entries|
      invariant EntriesNamed(path, entries, n)
    {
      assert EntryNamed(path, entries[n]);
      OneEntryMore(path, entries, n);
    }
  }

  lemma DirNamesLeaves(path: seq<Text>, entries: seq<Entry>)
    requires EntriesNamed(path, entries, |entries|)
    ensures NamesLeaves(path, DirNode(entries))
  {
    DirectoryIsUnnamed(path, WalkTo(path, entries, |entries|), Walk(path, DirNode(entries)));
  }

  /** The walk names the leaves of the tree, in their order, and nothing else. */
  lemma {:induction false} WalkNamesLeaves(path: seq<Text>, node: Node)
    ensures Named(Walk(path, node)) == HashedUnder(path, Leaves(node))
    decreases node
  {
    assert path + [] == path;
    match node
    case FileNode(content) => NamedOne(WalkedFile(Rel(path), content));
    case LinkNode(target) => NamedOne(WalkedLink(Rel(path), target));
    case SpecialNode => NamedOne(WalkedOther(Rel(path)));
    case DirNode(entries) =>
      forall k {:trigger EntryNamed(path, entries[k])} | 0 <= k < |entries| ensures EntryNamed(path, entries[k]) {
        WalkNamesLeaves(path + [entries[k].name], entries[k].node);
      }
      AllEntriesNamed(path, entries);
      DirNamesLeaves(path, entries);
  }

  /** What the checksum of a tree measures besides: the bytes of its files. */
  function FileBytes(leaves: seq<Leaf>): nat {
    if leaves == [] then 0
    else FileBytes(leaves[..|leaves| - 1]) + match leaves[|leaves| - 1].body case Content(content) => |content| case Target(_) => 0
  }

  lemma {:induction false} FileBytesHashed(path: seq<Text>, leaves: seq<Leaf>)
    ensures ContentBytes(HashedUnder(path, leaves)) == FileBytes(leaves)
  {
    if leaves != [] {
      var init := leaves[..|leaves| - 1];
      FileBytesHashed(path, init);
      assert HashedUnder(path, leaves)[..|init|] == HashedUnder(path, init);
    }
  }

  lemma {:induction false} FilesAreNamed(walk: seq<Walked>)
    ensures AnyFile(walk) <==> exists e :: e in Named(walk) && e.HashedFile?
  {
    if walk != [] {
      var init, last := walk[..|walk| - 1], walk[|walk| - 1];
      FilesAreNamed(init);
      AnyFileSnoc(init, last);
      assert walk == init + [last];
      assert forall e :: e in Named(walk) <==> e in Named(init) || e in NamedBy(last);
      assert last.WalkedFile? ==> HashedFile(last.rel, last.content) in NamedBy(last);
    }
  }

  /** The checksum of a tree is refused exactly when no regular file is anywhere in it, and
      counts the bytes of its files, links aside. */
  lemma TreeMeasured(entries: seq<Entry>)
    ensures AnyFile(Walk([], DirNode(entries))) <==> exists leaf :: leaf in Leaves(DirNode(entries)) && leaf.body.Content?
    ensures ContentBytes(Named(Walk([], DirNode(entries)))) == FileBytes(Leaves(DirNode(entries)))
  {
    var leaves := Leaves(DirNode(entries));
    WalkNamesLeaves([], DirNode(entries));
    FileBytesHashed([], leaves);
    FilesAreNamed(Walk([], DirNode(entries)));
    var hashed := HashedUnder([], leaves);
    if leaf :| leaf in leaves && leaf.body.Content? {
      var i :| 0 <= i < |leaves| && leaves[i] == leaf;
      assert hashed[i] in hashed && hashed[i].HashedFile?;
    }
    if e :| e in hashed && e.HashedFile? {
      var i :| 0 <= i < |hashed| && hashed[i] == e;
      assert leaves[i] in leaves && leaves[i].body.Content?;
    }
  }

  // The order is the paths' own.

  predicate PathLess(p: seq<Text>, q: seq<Text>) {
    if q == [] then false
    else if p == [] then true
    else if p[0] != q[0] then Less(p[0], q[0])
    else PathLess(p[1..], q[1..])
  }

  lemma {:induction false} PathLessAsymmetric(p: seq<Text>, q: seq<Text>)
    requires PathLess(p, q)
    ensures !PathLess(q, p) && p != q
  {
    if p != [] {
      if p[0] != q[0] {
        LessAsymmetric(p[0], q[0]);
      } else {
        PathLessAsymmetric(p[1..], q[1..]);
      }
    }
  }

  ghost predicate AscendingPaths(leaves: seq<Leaf>) {
    forall i, j :: 0 <= i < j < |leaves| ==> PathLess(leaves[i].path, leaves[j].path)
  }

  lemma UnderAscends(name: Text, leaves: seq<Leaf>)
    requires AscendingPaths(leaves)
    ensures AscendingPaths(Under(name, leaves))
  {
    var r := Under(name, leaves);
    forall i, j | 0 <= i < j < |r| ensures PathLess(r[i].path, r[j].path) {
      assert r[i].path[1..] == leaves[i].path && r[j].path[1..] == leaves[j].path;
    }
  }

  /** Every leaf below a directory is below one of its entries. */
  lemma {:induction false} LeavesBelowNames(entries: seq<Entry>, n: nat)
    requires n <= |entries|
    ensures forall leaf :: leaf in LeavesTo(entries, n) ==> leaf.path != [] && exists k :: 0 <= k < n && entries[k].name == leaf.path[0]
  {
    if n > 0 {
      LeavesBelowNames(entries, n - 1);
      var a, b := LeavesTo(entries, n - 1), Under(entries[n - 1].name, Leaves(entries[n - 1].node));
      forall leaf: Leaf | leaf in a + b
        ensures leaf.path != [] && exists k :: 0 <= k < n && entries[k].name == leaf.path[0]
      {
        if leaf in a {
          var k :| 0 <= k < n - 1 && entries[k].name == leaf.path[0];
        } else {
          assert entries[n - 1].name == leaf.path[0];
        }
      }
    }
  }

  lemma AscendingConcat(a: seq<Leaf>, b: seq<Leaf>)
    requires AscendingPaths(a) && AscendingPaths(b)
    requires forall x, y :: x in a && y in b ==> PathLess(x.path, y.path)
    ensures AscendingPaths(a + b)
  {
    assert forall i :: 0 <= i < |a| ==> a[i] in a;
    assert forall i :: 0 <= i < |b| ==> b[i] in b;
  }

  ghost predicate Listing(entries: seq<Entry>) {
    WellFormed(DirNode(entries))
  }

  lemma {:induction false} LeavesToAscend(entries: seq<Entry>, n: nat)
    requires n <= |entries| && Listing(entries)
    requires forall k :: 0 <= k < n ==> AscendingPaths(Leaves(entries[k].node))
    ensures AscendingPaths(LeavesTo(entries, n))
    decreases n
  {
    if n > 0 {
      var e := entries[n - 1];
      LeavesToAscend(entries, n - 1);
      UnderAscends(e.name, Leaves(e.node));
      NamesBefore(entries, n - 1);
      AscendingConcat(LeavesTo(entries, n - 1), Under(e.name, Leaves(e.node)));
    }
  }

  lemma {:induction false} LeavesAscend(node: Node)
    requires WellFormed(node)
    ensures AscendingPaths(Leaves(node))
    decreases node
  {
    if node.DirNode? {
      forall k | 0 <= k < |node.entries| ensures AscendingPaths(Leaves(node.entries[k].node)) {
        LeavesAscend(node.entries[k].node);
      }
      LeavesToAscend(node.entries, |node.entries|);
    }
  }

  lemma NamesBefore(entries: seq<Entry>, n: nat)
    requires n < |entries| && Listing(entries)
    ensures forall x, y :: x in LeavesTo(entries, n) && y in Under(entries[n].name, Leaves(entries[n].node)) ==> PathLess(x.path, y.path)
  {
    LeavesBelowNames(entries, n);
    forall x, y | x in LeavesTo(entries, n) && y in Under(entries[n].name, Leaves(entries[n].node))
      ensures PathLess(x.path, y.path)
    {
      var k :| 0 <= k < n && entries[k].name == x.path[0];
      assert Less(entries[k].name, entries[n].name);
      LessAsymmetric(entries[k].name, entries[n].name);
    }
  }

  /** A set of leaves has one ascending order. */
  lemma {:induction false} AscendingOnce(a: seq<Leaf>, b: seq<Leaf>)
    requires AscendingPaths(a) && AscendingPaths(b)
    requires forall leaf :: leaf in a <==> leaf in b
    ensures a == b
  {
    assert (a != [] ==> a[0] in a) && (b != [] ==> b[0] in b);
    if a != [] && b != [] {
      FirstsAgree(a, b);
      RestsAgree(a, b);
      AscendingOnce(a[1..], b[1..]);
      assert a == [a[0]] + a[1..] && b == [b[0]] + b[1..];
    }
  }

  lemma FirstIsLeast(a: seq<Leaf>, leaf: Leaf)
    requires AscendingPaths(a) && leaf in a
    ensures leaf == a[0] || PathLess(a[0].path, leaf.path)
  {
    var i :| 0 <= i < |a| && a[i] == leaf;
  }

  lemma FirstsAgree(a: seq<Leaf>, b: seq<Leaf>)
    requires a != [] && b != [] && AscendingPaths(a) && AscendingPaths(b)
    requires forall leaf :: leaf in a <==> leaf in b
    ensures a[0] == b[0]
  {
    assert a[0] in a && b[0] in b;
    FirstIsLeast(a, b[0]);
    FirstIsLeast(b, a[0]);
    if PathLess(a[0].path, b[0].path) {
      PathLessAsymmetric(a[0].path, b[0].path);
    }
  }

  lemma RestsAgree(a: seq<Leaf>, b: seq<Leaf>)
    requires a != [] && b != [] && a[0] == b[0] && AscendingPaths(a) && AscendingPaths(b)
    requires forall leaf :: leaf in a <==> leaf in b
    ensures forall leaf :: leaf in a[1..] <==> leaf in b[1..]
  {
    NotAgain(a);
    NotAgain(b);
    assert a == [a[0]] + a[1..] && b == [b[0]] + b[1..];
    assert forall leaf :: leaf in a <==> leaf == a[0] || leaf in a[1..];
    assert forall leaf :: leaf in b <==> leaf == b[0] || leaf in b[1..];
  }

  lemma NotAgain(a: seq<Leaf>)
    requires a != [] && AscendingPaths(a)
    ensures a[0] !in a[1..]
  {
    forall i | 0 < i < |a| ensures a[i] != a[0] {
      PathLessAsymmetric(a[0].path, a[i].path);
    }
  }

  // Paths spell apart.

  ghost predicate PathFits(path: seq<Text>) {
    path != [] && forall name :: name in path ==> NameFits(name)
  }

  ghost predicate LeafFits(leaf: Leaf) {
    PathFits(leaf.path) && (leaf.body.Target? ==> NUL !in leaf.body.target)
  }

  lemma {:induction false} JoinFree(path: seq<Text>)
    requires PathFits(path)
    ensures NUL !in Join(SLASH, path)
  {
    assert NameFits(path[0]);
    if |path| > 1 {
      assert forall name :: name in path[1..] ==> name in path;
      JoinFree(path[1..]);
    }
  }

  lemma RelsDiffer(p: seq<Text>, q: seq<Text>)
    requires PathFits(p) && PathFits(q) && Rel(p) == Rel(q)
    ensures p == q
  {
    assert forall name :: name in p ==> NameFits(name);
    assert forall name :: name in q ==> NameFits(name);
    SplitJoin(SLASH, p);
    SplitJoin(SLASH, q);
  }

  lemma {:induction false} LeavesFit(node: Node, leaf: Leaf)
    requires WellFormed(node) && leaf in Leaves(node)
    ensures (leaf.path == [] <==> !node.DirNode?) && (forall name :: name in leaf.path ==> NameFits(name))
    ensures leaf.body.Target? ==> NUL !in leaf.body.target
    decreases node, 0
  {
    if node.DirNode? {
      LeavesToFit(node.entries, |node.entries|, leaf);
    }
  }

  lemma {:induction false} LeavesToFit(entries: seq<Entry>, n: nat, leaf: Leaf)
    requires n <= |entries| && Listing(entries) && leaf in LeavesTo(entries, n)
    ensures LeafFits(leaf)
    decreases entries, n
  {
    var e := entries[n - 1];
    if leaf in LeavesTo(entries, n - 1) {
      LeavesToFit(entries, n - 1, leaf);
    } else {
      var r := Under(e.name, Leaves(e.node));
      var i :| 0 <= i < |r| && r[i] == leaf;
      LeavesFit(e.node, Leaves(e.node)[i]);
      assert NameFits(e.name);
      assert forall name :: name in leaf.path ==> name == e.name || name in Leaves(e.node)[i].path;
    }
  }

  lemma AllHashedFit(leaves: seq<Leaf>)
    requires forall leaf :: leaf in leaves ==> LeafFits(leaf)
    ensures forall i :: 0 <= i < |leaves| ==> Framable(HashedUnder([], leaves)[i])
  {
    forall i | 0 <= i < |leaves| ensures Framable(HashedUnder([], leaves)[i]) {
      HashedFits(leaves[i]);
    }
  }

  lemma LeafOfHashed(a: Leaf, b: Leaf)
    requires LeafFits(a) && LeafFits(b) && AsHashed([] + a.path, a.body) == AsHashed([] + b.path, b.body)
    ensures a == b
  {
    assert [] + a.path == a.path && [] + b.path == b.path;
    RelsDiffer(a.path, b.path);
  }

  lemma HashedApart(a: seq<Leaf>, b: seq<Leaf>)
    requires forall leaf :: leaf in a || leaf in b ==> LeafFits(leaf)
    requires Stream(HashedUnder([], a)) == Stream(HashedUnder([], b))
    ensures a == b
  {
    var x, y := HashedUnder([], a), HashedUnder([], b);
    AllHashedFit(a);
    AllHashedFit(b);
    StreamInjective(x, y);
    forall i | 0 <= i < |a| ensures a[i] == b[i] {
      assert x[i] == y[i] && a[i] in a && b[i] in b;
      LeafOfHashed(a[i], b[i]);
    }
  }

  lemma HashedFits(leaf: Leaf)
    requires LeafFits(leaf)
    ensures Framable(AsHashed([] + leaf.path, leaf.body))
  {
    assert [] + leaf.path == leaf.path;
    JoinFree(leaf.path);
  }

  /** What dirChecksum feeds the hash is determined by, and determines, which files and
      links the tree holds, where, with what content or target: empty directories and
      special files aside, two trees are hashed alike exactly when they hold the same. */
  lemma TreesHashApart(a: seq<Entry>, b: seq<Entry>)
    requires Listing(a) && Listing(b)
    ensures Stream(Named(Walk([], DirNode(a)))) == Stream(Named(Walk([], DirNode(b)))) <==>
            forall leaf :: leaf in Leaves(DirNode(a)) <==> leaf in Leaves(DirNode(b))
  {
    var x, y := Leaves(DirNode(a)), Leaves(DirNode(b));
    WalkNamesLeaves([], DirNode(a));
    WalkNamesLeaves([], DirNode(b));
    forall leaf | leaf in x || leaf in y ensures LeafFits(leaf) {
      if leaf in x { LeavesToFit(a, |a|, leaf); } else { LeavesToFit(b, |b|, leaf); }
    }
    if Stream(HashedUnder([], x)) == Stream(HashedUnder([], y)) {
      HashedApart(x, y);
    }
    if forall leaf :: leaf in x <==> leaf in y {
      LeavesAscend(DirNode(a));
      LeavesAscend(DirNode(b));
      AscendingOnce(x, y);
    }
  }
}

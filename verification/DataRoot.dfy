/** adapters/iotdb/source.go, findDataRoot: the one data directory in a tree, looked for
    a few levels deep and never inside another. */
module DataRoot {
  import opened Ordering
  import opened Wrappers

  /** A directory: whether both nodes' property files are regular files in it, and the
      directories below it, in the order a walk visits them. */
  datatype Dir = Dir(holdsBoth: bool, subdirs: seq<Dir>)

  /** A directory of the tree, by the positions that lead to it. */
  type Path = seq<nat>

  const MAX_DEPTH: nat := 3

  function At(d: Dir, path: Path): Option<Dir> {
    if path == [] then Some(d)
    else if path[0] < |d.subdirs| then At(d.subdirs[path[0]], path[1..])
    else None
  }

  ghost predicate HoldsAt(d: Dir, path: Path) {
    At(d, path).Some? && At(d, path).value.holdsBoth
  }

  /** A data directory within reach that is inside no other. */
  ghost predicate IsRoot(d: Dir, depth: nat, path: Path) {
    && depth + |path| <= MAX_DEPTH
    && HoldsAt(d, path)
    && forall k :: 0 <= k < |path| ==> !HoldsAt(d, path[..k])
  }

  /** The walk, its callback appending to roots and pruning. */
  class Search {
    var roots: seq<Path>

    constructor ()
      ensures roots == []
    {
      roots := [];
    }

    method Visit(d: Dir, path: Path, depth: nat)
      modifies this
      ensures roots == old(roots) + Below(d, path, depth)
      decreases d
    {
      if depth > MAX_DEPTH {
        return;
      }
      if d.holdsBoth {
        roots := roots + [path];
        return;
      }
      ghost var before := roots;
      for i := 0 to |d.subdirs|
        invariant roots == before + BelowFirst(d, i, path, depth)
      {
        Visit(d.subdirs[i], path + [i], depth + 1);
      }
    }
  }

  /** The paths the walk collects from here on. */
  function Below(d: Dir, path: Path, depth: nat): seq<Path>
    decreases d, |d.subdirs| + 1
  {
    if depth > MAX_DEPTH then []
    else if d.holdsBoth then [path]
    else BelowFirst(d, |d.subdirs|, path, depth)
  }

  function BelowFirst(d: Dir, n: nat, path: Path, depth: nat): seq<Path>
    requires n <= |d.subdirs|
    decreases d, n
  {
    if n == 0 then [] else BelowFirst(d, n - 1, path, depth) + Below(d.subdirs[n - 1], path + [n - 1], depth + 1)
  }

  lemma RootBelow(d: Dir, depth: nat, path: Path)
    requires !d.holdsBoth
    ensures IsRoot(d, depth, path) <==>
            path != [] && path[0] < |d.subdirs| && IsRoot(d.subdirs[path[0]], depth + 1, path[1..])
  {
    if path != [] && path[0] < |d.subdirs| {
      var sub := d.subdirs[path[0]];
      forall k | 0 <= k < |path| - 1 ensures HoldsAt(sub, path[1..][..k]) <==> HoldsAt(d, path[..k + 1]) {
        assert path[..k + 1][1..] == path[1..][..k];
      }
      assert forall k :: 1 <= k < |path| ==> (HoldsAt(d, path[..k]) <==> HoldsAt(sub, path[1..][..k - 1]));
      assert path[..0] == [];
    }
  }

  /** The paths collected are this one and those below, prefixed. */
  ghost predicate Collected(paths: seq<Path>, d: Dir, prefix: Path, depth: nat) {
    && (forall p :: p in paths <==> prefix <= p && IsRoot(d, depth, p[|prefix|..]))
    && Distinct(paths)
  }

  ghost predicate CollectedFirst(paths: seq<Path>, d: Dir, n: nat, prefix: Path, depth: nat) {
    && (forall p :: p in paths <==>
          prefix < p && p[|prefix|] < n && p[|prefix|] < |d.subdirs| &&
          IsRoot(d.subdirs[p[|prefix|]], depth + 1, p[|prefix| + 1..]))
    && Distinct(paths)
  }

  lemma PrefixWithOneMore(prefix: Path, p: Path, n: nat)
    ensures prefix + [n] <= p <==> prefix < p && p[|prefix|] == n
  {
    if prefix < p && p[|prefix|] == n {
      assert p[..|prefix| + 1] == prefix + [n];
    }
    if prefix + [n] <= p {
      assert p[|prefix|] == (prefix + [n])[|prefix|];
      assert p[..|prefix|] == (prefix + [n])[..|prefix|];
    }
  }

  lemma {:induction false} BelowFirstCollects(d: Dir, n: nat, prefix: Path, depth: nat)
    requires n <= |d.subdirs|
    ensures CollectedFirst(BelowFirst(d, n, prefix, depth), d, n, prefix, depth)
    decreases d, n
  {
    if n > 0 {
      BelowFirstCollects(d, n - 1, prefix, depth);
      BelowCollects(d.subdirs[n - 1], prefix + [n - 1], depth + 1);
      var a, b := BelowFirst(d, n - 1, prefix, depth), Below(d.subdirs[n - 1], prefix + [n - 1], depth + 1);
      forall p ensures prefix + [n - 1] <= p <==> prefix < p && p[|prefix|] == n - 1 {
        PrefixWithOneMore(prefix, p, n - 1);
      }
      assert forall p :: p in a + b <==> p in a || p in b;
      assert forall i :: 0 <= i < |a| ==> a[i] in a;
      assert forall i :: 0 <= i < |b| ==> b[i] in b;
    }
  }

  lemma {:induction false} BelowCollects(d: Dir, prefix: Path, depth: nat)
    ensures Collected(Below(d, prefix, depth), d, prefix, depth)
    decreases d, |d.subdirs| + 1
  {
    if depth <= MAX_DEPTH {
      if d.holdsBoth {
        OnlyItself(d, prefix, depth);
      } else {
        BelowFirstCollects(d, |d.subdirs|, prefix, depth);
        forall p | prefix <= p
          ensures IsRoot(d, depth, p[|prefix|..]) <==>
                  prefix < p && p[|prefix|] < |d.subdirs| && IsRoot(d.subdirs[p[|prefix|]], depth + 1, p[|prefix| + 1..])
        {
          RootBelow(d, depth, p[|prefix|..]);
          if prefix < p {
            assert p[|prefix|..][1..] == p[|prefix| + 1..];
          }
        }
      }
    }
  }

  lemma OnlyItself(d: Dir, prefix: Path, depth: nat)
    requires d.holdsBoth && depth <= MAX_DEPTH
    ensures Collected([prefix], d, prefix, depth)
  {
    forall p | prefix <= p ensures IsRoot(d, depth, p[|prefix|..]) <==> p == prefix {
      var q := p[|prefix|..];
      assert p == prefix + q;
      assert q[..0] == [];
    }
  }

  datatype Outcome = Found(root: Path) | NoneFound | SeveralFound

  /** From the top the walk collects the data directories. */
  lemma CollectsRoots(d: Dir)
    ensures forall p :: p in Below(d, [], 0) <==> IsRoot(d, 0, p)
    ensures Distinct(Below(d, [], 0))
  {
    BelowCollects(d, [], 0);
    assert forall p: Path :: [] <= p && p[0..] == p;
  }

  /** findDataRoot: a directory is found exactly when it is the only data directory
      within reach that is inside no other. */
  method FindDataRoot(d: Dir) returns (r: Outcome)
    ensures r.Found? ==> forall p :: IsRoot(d, 0, p) <==> p == r.root
    ensures r.NoneFound? <==> forall p :: !IsRoot(d, 0, p)
    ensures r.SeveralFound? <==> exists p, q :: p != q && IsRoot(d, 0, p) && IsRoot(d, 0, q)
  {
    var search := new Search();
    search.Visit(d, [], 0);
    var roots := search.roots;
    assert roots == Below(d, [], 0);
    CollectsRoots(d);
    if |roots| == 0 {
      return NoneFound;
    }
    assert roots[0] in roots;
    if |roots| == 1 {
      return Found(roots[0]);
    }
    assert roots[1] in roots && roots[0] != roots[1];
    return SeveralFound;
  }
}

/**
 * The desktop indexers `indexPath` / `indexPaths`, which walk the selected
 * paths with `stat` and `readdir`. The filesystem is a snapshot: what `stat`
 * reports for each selected path and, for a directory, what `readdir` lists
 * and what each listed entry is.
 */
module FileSystem {
  import opened Text

  datatype Entry =
    | File
    | Dir(listing: seq<Named>)
    /** Neither a regular file nor a directory (a socket, a device, ...). */
    | Other
    /** `stat` or `readdir` throws. */
    | Unreadable

  /** One name as `readdir` lists it, with the entry found at that name. */
  datatype Named = Named(name: string, entry: Entry)

  /** What `stat` reports for each selected path; a path not in the map cannot be read. */
  type Snapshot = map<string, Entry>

  function Stat(fs: Snapshot, path: string): Entry
  {
    if path in fs then fs[path] else Unreadable
  }

  /** `path.join(dir, name)`, without normalisation. */
  function JoinPath(dir: string, name: string): string
  {
    dir + [Sep] + name
  }

  /** The basename of a joined child path is the listed name. */
  lemma JoinPathBasename(dir: string, name: string)
    requires Sep !in name
    ensures Basename(JoinPath(dir, name)) == name
  {
    LastSegmentOfChild(dir, name);
  }

  /** `path.basename(p)`: the last `/`-separated segment. */
  function Basename(p: string): (r: string)
    ensures Sep !in r
  {
    LastSegment(p)
  }

  /** `ignoreHidden && basename.startsWith(".")`: the walk skips this path. */
  predicate Skipped(path: string, ignoreHidden: bool)
  {
    ignoreHidden && IsHidden(Basename(path))
  }

  /** Every listed name, at every depth, is a single path segment. */
  predicate NamesAreSegments(e: Entry)
  {
    e.Dir? ==> forall i :: 0 <= i < |e.listing| ==>
      Sep !in e.listing[i].name && NamesAreSegments(e.listing[i].entry)
  }

  /** A regular file at `q`, reached from `path` by following listings. */
  ghost predicate FileBelow(path: string, e: Entry, q: string)
    decreases e
  {
    match e
    case File => q == path
    case Dir(listing) =>
      exists i :: 0 <= i < |listing| && FileBelow(JoinPath(path, listing[i].name), listing[i].entry, q)
    case _ => false
  }

  /**
   * A regular file at `q`, reached from `path` by following listings without
   * passing through a path the walk skips.
   */
  ghost predicate FileReached(path: string, e: Entry, q: string, ignoreHidden: bool)
    decreases e
  {
    && !Skipped(path, ignoreHidden)
    && match e
      case File => q == path
      case Dir(listing) =>
        exists i :: 0 <= i < |listing| && FileReached(JoinPath(path, listing[i].name), listing[i].entry, q, ignoreHidden)
      case _ => false
  }

  /** A reached file is a file below; without `ignoreHidden` every file below is reached. */
  lemma {:induction false} ReachedIsBelow(path: string, e: Entry, q: string, ignoreHidden: bool)
    ensures FileReached(path, e, q, ignoreHidden) ==> FileBelow(path, e, q)
    ensures !ignoreHidden && FileBelow(path, e, q) ==> FileReached(path, e, q, ignoreHidden)
    decreases e
  {
    if e.Dir? {
      var listing := e.listing;
      if FileReached(path, e, q, ignoreHidden) {
        var i :| 0 <= i < |listing| && FileReached(JoinPath(path, listing[i].name), listing[i].entry, q, ignoreHidden);
        ReachedIsBelow(JoinPath(path, listing[i].name), listing[i].entry, q, ignoreHidden);
      }
      if !ignoreHidden && FileBelow(path, e, q) {
        var i :| 0 <= i < |listing| && FileBelow(JoinPath(path, listing[i].name), listing[i].entry, q);
        ReachedIsBelow(JoinPath(path, listing[i].name), listing[i].entry, q, ignoreHidden);
      }
    }
  }
}

/**
 * `indexPath` / `indexPaths` of the desktop app (whatthefile-electron) and of
 * the older app (whatthefile); the two copies are the same code.
 */
module FsIndex {
  import opened Text
  import opened Tree
  import opened FileSystem
  import Seqs

  /**
   * `indexPath(fullPath, ignoreHidden)` when `stat(fullPath)` reports `e`:
   * nothing, or one node named after the basename.
   */
  function IndexPath(fullPath: string, e: Entry, ignoreHidden: bool): (r: seq<CountedNode>)
    ensures |r| <= 1
    ensures |r| == 1 <==> !Skipped(fullPath, ignoreHidden) && (e.File? || e.Dir?)
    ensures |r| == 1 ==> r[0].name == Basename(fullPath) && r[0].path == fullPath
    ensures |r| == 1 && e.File? ==> r[0].filesCount == 1 && r[0].children == []
    ensures |r| == 1 && e.Dir? ==> r[0].filesCount == TotalCount(r[0].children)
    ensures |r| == 1 && e.Dir? ==> r[0].children == IndexListing(fullPath, e.listing, ignoreHidden)
    decreases e
  {
    if Skipped(fullPath, ignoreHidden) then []
    else
      match e
      case File => [CountedNode(Basename(fullPath), fullPath, 1, [])]
      case Dir(listing) =>
        var children := IndexListing(fullPath, listing, ignoreHidden);
        [CountedNode(Basename(fullPath), fullPath, TotalCount(children), children)]
      case Other => []
      case Unreadable => []
  }

  /**
   * `indexPaths(childrenPaths, ignoreHidden)` for the entries `readdir` lists
   * in `dir`: the results concatenated in listing order.
   */
  function IndexListing(dir: string, listing: seq<Named>, ignoreHidden: bool): (r: seq<CountedNode>)
    ensures |r| <= |listing|
    decreases listing
  {
    if listing == [] then []
    else IndexPath(JoinPath(dir, listing[0].name), listing[0].entry, ignoreHidden) + IndexListing(dir, listing[1..], ignoreHidden)
  }

  /** A listing's results are the first entry's result, then the rest's. */
  lemma IndexListingCons(dir: string, listing: seq<Named>, ignoreHidden: bool)
    requires listing != []
    ensures IndexListing(dir, listing, ignoreHidden) ==
      IndexPath(JoinPath(dir, listing[0].name), listing[0].entry, ignoreHidden) + IndexListing(dir, listing[1..], ignoreHidden)
  {
  }

  /** The results for a listing are its entries' results, concatenated in listing order. */
  lemma {:induction false} IndexListingAppend(dir: string, a: seq<Named>, b: seq<Named>, ignoreHidden: bool)
    ensures IndexListing(dir, a + b, ignoreHidden) == IndexListing(dir, a, ignoreHidden) + IndexListing(dir, b, ignoreHidden)
  {
    if a == [] {
      assert a + b == b;
    } else {
      var h := IndexPath(JoinPath(dir, a[0].name), a[0].entry, ignoreHidden);
      var ra := IndexListing(dir, a[1..], ignoreHidden);
      var rb := IndexListing(dir, b, ignoreHidden);
      Seqs.ConcatTail(a, b);
      IndexListingAppend(dir, a[1..], b, ignoreHidden);
      IndexListingCons(dir, a + b, ignoreHidden);
      IndexListingCons(dir, a, ignoreHidden);
      Seqs.ConcatAssoc(h, ra, rb);
    }
  }

  /** `indexPaths(fullPaths, ignoreHidden)` over the selected paths. */
  function IndexPaths(fs: Snapshot, fullPaths: seq<string>, ignoreHidden: bool): (r: seq<CountedNode>)
    ensures |r| <= |fullPaths|
  {
    if fullPaths == [] then []
    else IndexPath(fullPaths[0], Stat(fs, fullPaths[0]), ignoreHidden) + IndexPaths(fs, fullPaths[1..], ignoreHidden)
  }

  /** Per-input results are concatenated in input order. */
  lemma {:induction false} IndexPathsAppend(fs: Snapshot, a: seq<string>, b: seq<string>, ignoreHidden: bool)
    ensures IndexPaths(fs, a + b, ignoreHidden) == IndexPaths(fs, a, ignoreHidden) + IndexPaths(fs, b, ignoreHidden)
  {
    if a == [] {
      assert a + b == b;
    } else {
      var h := IndexPath(a[0], Stat(fs, a[0]), ignoreHidden);
      var ra := IndexPaths(fs, a[1..], ignoreHidden);
      var rb := IndexPaths(fs, b, ignoreHidden);
      Seqs.ConcatTail(a, b);
      IndexPathsAppend(fs, a[1..], b, ignoreHidden);
      IndexPathsCons(fs, a + b, ignoreHidden);
      IndexPathsCons(fs, a, ignoreHidden);
      Seqs.ConcatAssoc(h, ra, rb);
    }
  }

  /** `indexPaths` on a non-empty input: the first path's result, then the rest. */
  lemma IndexPathsCons(fs: Snapshot, ps: seq<string>, ignoreHidden: bool)
    requires ps != []
    ensures IndexPaths(fs, ps, ignoreHidden) == IndexPath(ps[0], Stat(fs, ps[0]), ignoreHidden) + IndexPaths(fs, ps[1..], ignoreHidden)
  {
  }

  /** Each node counts 1 if it is a file and the sum of its children's counts otherwise. */
  predicate CountsConsistent(forest: seq<CountedNode>)
  {
    forest != [] ==>
      && ((forest[0].children == [] && forest[0].filesCount == 1) || forest[0].filesCount == TotalCount(forest[0].children))
      && CountsConsistent(forest[0].children)
      && CountsConsistent(forest[1..])
  }

  /** No node, at any depth, has a hidden name. */
  predicate NoHidden(forest: seq<CountedNode>)
  {
    forest != [] ==> !IsHidden(forest[0].name) && NoHidden(forest[0].children) && NoHidden(forest[1..])
  }

  /** Each node is named after the last segment of its path and sits one segment below its parent. */
  predicate Linked(forest: seq<CountedNode>, parentPath: string)
  {
    forest != [] ==>
      && forest[0].path == parentPath + [Sep] + forest[0].name
      && forest[0].name == Basename(forest[0].path)
      && Linked(forest[0].children, forest[0].path)
      && Linked(forest[1..], parentPath)
  }

  lemma {:induction false} CountsConsistentAppend(a: seq<CountedNode>, b: seq<CountedNode>)
    requires CountsConsistent(a) && CountsConsistent(b)
    ensures CountsConsistent(a + b)
  {
    if a != [] {
      assert (a + b)[1..] == a[1..] + b;
      CountsConsistentAppend(a[1..], b);
    } else {
      assert a + b == b;
    }
  }

  lemma {:induction false} NoHiddenAppend(a: seq<CountedNode>, b: seq<CountedNode>)
    requires NoHidden(a) && NoHidden(b)
    ensures NoHidden(a + b)
  {
    if a != [] {
      assert (a + b)[1..] == a[1..] + b;
      NoHiddenAppend(a[1..], b);
    } else {
      assert a + b == b;
    }
  }

  lemma {:induction false} LinkedAppend(a: seq<CountedNode>, b: seq<CountedNode>, parentPath: string)
    requires Linked(a, parentPath) && Linked(b, parentPath)
    ensures Linked(a + b, parentPath)
  {
    if a != [] {
      assert (a + b)[1..] == a[1..] + b;
      LinkedAppend(a[1..], b, parentPath);
    } else {
      assert a + b == b;
    }
  }

  /** Every count the walk reports follows the counting rule. */
  lemma {:induction false} IndexPathCounts(fullPath: string, e: Entry, ignoreHidden: bool)
    ensures CountsConsistent(IndexPath(fullPath, e, ignoreHidden))
    decreases e
  {
    if !Skipped(fullPath, ignoreHidden) && e.Dir? {
      IndexListingCounts(fullPath, e.listing, ignoreHidden);
    }
  }

  lemma {:induction false} IndexListingCounts(dir: string, listing: seq<Named>, ignoreHidden: bool)
    ensures CountsConsistent(IndexListing(dir, listing, ignoreHidden))
    decreases listing
  {
    if listing != [] {
      IndexPathCounts(JoinPath(dir, listing[0].name), listing[0].entry, ignoreHidden);
      IndexListingCounts(dir, listing[1..], ignoreHidden);
      CountsConsistentAppend(
        IndexPath(JoinPath(dir, listing[0].name), listing[0].entry, ignoreHidden),
        IndexListing(dir, listing[1..], ignoreHidden));
    }
  }

  /** With `ignoreHidden`, no hidden name appears anywhere in the result: the flag reaches every level. */
  lemma {:induction false} IndexPathNoHidden(fullPath: string, e: Entry)
    ensures NoHidden(IndexPath(fullPath, e, true))
    decreases e
  {
    if !Skipped(fullPath, true) && e.Dir? {
      IndexListingNoHidden(fullPath, e.listing);
    }
  }

  lemma {:induction false} IndexListingNoHidden(dir: string, listing: seq<Named>)
    ensures NoHidden(IndexListing(dir, listing, true))
    decreases listing
  {
    if listing != [] {
      IndexPathNoHidden(JoinPath(dir, listing[0].name), listing[0].entry);
      IndexListingNoHidden(dir, listing[1..]);
      NoHiddenAppend(
        IndexPath(JoinPath(dir, listing[0].name), listing[0].entry, true),
        IndexListing(dir, listing[1..], true));
    }
  }

  /** When listed names are single segments, every child's path is its parent's path, "/", and its name. */
  lemma {:induction false} IndexListingLinked(dir: string, listing: seq<Named>, ignoreHidden: bool)
    requires forall i :: 0 <= i < |listing| ==> Sep !in listing[i].name && NamesAreSegments(listing[i].entry)
    ensures Linked(IndexListing(dir, listing, ignoreHidden), dir)
    decreases listing
  {
    if listing != [] {
      var path := JoinPath(dir, listing[0].name);
      var head := IndexPath(path, listing[0].entry, ignoreHidden);
      JoinPathBasename(dir, listing[0].name);
      if |head| == 1 && listing[0].entry.Dir? {
        IndexListingLinked(path, listing[0].entry.listing, ignoreHidden);
      }
      if |head| == 1 {
        assert head[1..] == [];
      }
      IndexListingLinked(dir, listing[1..], ignoreHidden);
      LinkedAppend(head, IndexListing(dir, listing[1..], ignoreHidden), dir);
    }
  }

  /**
   * Over a whole selection: every count follows the counting rule and, with
   * `ignoreHidden`, no hidden name appears at any depth.
   */
  lemma {:induction false} IndexPathsInvariants(fs: Snapshot, fullPaths: seq<string>, ignoreHidden: bool)
    ensures CountsConsistent(IndexPaths(fs, fullPaths, ignoreHidden))
    ensures ignoreHidden ==> NoHidden(IndexPaths(fs, fullPaths, ignoreHidden))
  {
    if fullPaths != [] {
      var head := IndexPath(fullPaths[0], Stat(fs, fullPaths[0]), ignoreHidden);
      var rest := IndexPaths(fs, fullPaths[1..], ignoreHidden);
      IndexPathsInvariants(fs, fullPaths[1..], ignoreHidden);
      IndexPathCounts(fullPaths[0], Stat(fs, fullPaths[0]), ignoreHidden);
      CountsConsistentAppend(head, rest);
      if ignoreHidden {
        IndexPathNoHidden(fullPaths[0], Stat(fs, fullPaths[0]));
        NoHiddenAppend(head, rest);
      }
    }
  }

  /** Paths of the file nodes of a counted forest, in preorder. */
  function FileLeaves(forest: seq<CountedNode>): seq<string>
  {
    if forest == [] then []
    else
      var here := if forest[0].children == [] && forest[0].filesCount == 1 then [forest[0].path] else FileLeaves(forest[0].children);
      here + FileLeaves(forest[1..])
  }

  lemma {:induction false} FileLeavesAppend(a: seq<CountedNode>, b: seq<CountedNode>)
    ensures FileLeaves(a + b) == FileLeaves(a) + FileLeaves(b)
  {
    if a == [] {
      assert a + b == b;
    } else {
      assert (a + b)[1..] == a[1..] + b;
      FileLeavesAppend(a[1..], b);
    }
  }

  /** Under the counting rule, a forest's total is the number of its file nodes. */
  lemma {:induction false} CountIsFileLeaves(forest: seq<CountedNode>)
    requires CountsConsistent(forest)
    ensures |FileLeaves(forest)| == TotalCount(forest)
  {
    if forest != [] {
      CountIsFileLeaves(forest[0].children);
      CountIsFileLeaves(forest[1..]);
    }
  }

  /** The file nodes of `indexPath`'s result are exactly the files the walk reaches. */
  lemma {:induction false} IndexPathFiles(fullPath: string, e: Entry, ignoreHidden: bool, q: string)
    ensures q in FileLeaves(IndexPath(fullPath, e, ignoreHidden)) <==> FileReached(fullPath, e, q, ignoreHidden)
    decreases e
  {
    var r := IndexPath(fullPath, e, ignoreHidden);
    if |r| == 1 {
      assert r[1..] == [];
      if e.Dir? {
        IndexListingFiles(fullPath, e.listing, ignoreHidden, q);
      }
    }
  }

  /** The file nodes of a listing's results are the files reached from some listed entry. */
  lemma {:induction false} IndexListingFiles(dir: string, listing: seq<Named>, ignoreHidden: bool, q: string)
    ensures q in FileLeaves(IndexListing(dir, listing, ignoreHidden)) <==>
      exists i :: 0 <= i < |listing| && FileReached(JoinPath(dir, listing[i].name), listing[i].entry, q, ignoreHidden)
    decreases listing
  {
    if listing != [] {
      var head := IndexPath(JoinPath(dir, listing[0].name), listing[0].entry, ignoreHidden);
      var rest := IndexListing(dir, listing[1..], ignoreHidden);
      FileLeavesAppend(head, rest);
      IndexPathFiles(JoinPath(dir, listing[0].name), listing[0].entry, ignoreHidden, q);
      IndexListingFiles(dir, listing[1..], ignoreHidden, q);
      if q in FileLeaves(rest) {
        var i :| 0 <= i < |listing[1..]| && FileReached(JoinPath(dir, listing[1..][i].name), listing[1..][i].entry, q, ignoreHidden);
        assert listing[1..][i] == listing[i + 1];
      }
      if exists i :: 0 <= i < |listing| && FileReached(JoinPath(dir, listing[i].name), listing[i].entry, q, ignoreHidden) {
        var i :| 0 <= i < |listing| && FileReached(JoinPath(dir, listing[i].name), listing[i].entry, q, ignoreHidden);
        if i > 0 {
          assert listing[1..][i - 1] == listing[i];
        }
      }
    }
  }

  /**
   * Over a whole selection: the reported total is the number of file nodes,
   * and the file nodes are exactly the files reached from some selected path.
   */
  lemma {:induction false} IndexPathsFiles(fs: Snapshot, fullPaths: seq<string>, ignoreHidden: bool, q: string)
    ensures TotalCount(IndexPaths(fs, fullPaths, ignoreHidden)) == |FileLeaves(IndexPaths(fs, fullPaths, ignoreHidden))|
    ensures q in FileLeaves(IndexPaths(fs, fullPaths, ignoreHidden)) <==>
      exists i :: 0 <= i < |fullPaths| && FileReached(fullPaths[i], Stat(fs, fullPaths[i]), q, ignoreHidden)
  {
    IndexPathsInvariants(fs, fullPaths, ignoreHidden);
    CountIsFileLeaves(IndexPaths(fs, fullPaths, ignoreHidden));
    if fullPaths != [] {
      var head := IndexPath(fullPaths[0], Stat(fs, fullPaths[0]), ignoreHidden);
      var rest := IndexPaths(fs, fullPaths[1..], ignoreHidden);
      FileLeavesAppend(head, rest);
      IndexPathFiles(fullPaths[0], Stat(fs, fullPaths[0]), ignoreHidden, q);
      IndexPathsFiles(fs, fullPaths[1..], ignoreHidden, q);
      if q in FileLeaves(rest) {
        var i :| 0 <= i < |fullPaths[1..]| && FileReached(fullPaths[1..][i], Stat(fs, fullPaths[1..][i]), q, ignoreHidden);
        assert fullPaths[1..][i] == fullPaths[i + 1];
      }
      if exists i :: 0 <= i < |fullPaths| && FileReached(fullPaths[i], Stat(fs, fullPaths[i]), q, ignoreHidden) {
        var i :| 0 <= i < |fullPaths| && FileReached(fullPaths[i], Stat(fs, fullPaths[i]), q, ignoreHidden);
        if i > 0 {
          assert fullPaths[1..][i - 1] == fullPaths[i];
        }
      }
    }
  }
}

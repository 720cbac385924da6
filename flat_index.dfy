/**
 * The older app's main-process `indexPath` / `indexPaths`, which list the
 * regular files under the selected paths instead of building a tree. Hidden
 * entries are always skipped (the recursive call passes no flag, so the
 * default applies), and a path is joined onto an empty parent, which leaves
 * it as it is.
 */
module FlatIndex {
  import opened Text
  import opened Tree
  import opened FileSystem
  import FsIndex

  /** `indexPath(nameOrPath)` when `stat` reports `e`. */
  function IndexPath(nameOrPath: string, e: Entry): (r: seq<string>)
    ensures IsHidden(Basename(nameOrPath)) ==> r == []
    ensures e.File? && !IsHidden(Basename(nameOrPath)) ==> r == [nameOrPath]
    ensures !e.File? && !e.Dir? ==> r == []
    ensures e.Dir? && !IsHidden(Basename(nameOrPath)) ==> r == IndexListing(nameOrPath, e.listing)
    ensures forall j :: 0 <= j < |r| ==> FileBelow(nameOrPath, e, r[j]) && !IsHidden(Basename(r[j]))
    decreases e
  {
    if IsHidden(Basename(nameOrPath)) then []
    else
      match e
      case File => [nameOrPath]
      case Dir(listing) => IndexListing(nameOrPath, listing)
      case Other => []
      case Unreadable => []
  }

  /** `indexPaths(files.map(f => path.join(fullPath, f)))` for the entries of a directory. */
  function IndexListing(dir: string, listing: seq<Named>): (r: seq<string>)
    ensures forall j :: 0 <= j < |r| ==>
      !IsHidden(Basename(r[j])) &&
      exists i :: 0 <= i < |listing| && FileBelow(JoinPath(dir, listing[i].name), listing[i].entry, r[j])
    decreases listing
  {
    if listing == [] then []
    else
      var head := IndexPath(JoinPath(dir, listing[0].name), listing[0].entry);
      var rest := IndexListing(dir, listing[1..]);
      assert forall j :: 0 <= j < |rest| ==>
        exists i :: 0 <= i < |listing| && FileBelow(JoinPath(dir, listing[i].name), listing[i].entry, rest[j]) by {
        forall j | 0 <= j < |rest|
          ensures exists i :: 0 <= i < |listing| && FileBelow(JoinPath(dir, listing[i].name), listing[i].entry, rest[j])
        {
          var i :| 0 <= i < |listing[1..]| && FileBelow(JoinPath(dir, listing[1..][i].name), listing[1..][i].entry, rest[j]);
          assert listing[1..][i] == listing[i + 1];
        }
      }
      head + rest
  }

  /** `indexPaths(paths)`: the files under each selected path, in input order. */
  function IndexPaths(fs: Snapshot, paths: seq<string>): (r: seq<string>)
    ensures forall j :: 0 <= j < |r| ==> !IsHidden(Basename(r[j]))
  {
    if paths == [] then []
    else IndexPath(paths[0], Stat(fs, paths[0])) + IndexPaths(fs, paths[1..])
  }

  /** The file list is the tree indexer's file nodes, in the same order. */
  lemma {:induction false} FlatIsTreeLeaves(nameOrPath: string, e: Entry)
    ensures IndexPath(nameOrPath, e) == FsIndex.FileLeaves(FsIndex.IndexPath(nameOrPath, e, true))
    decreases e
  {
    var tree := FsIndex.IndexPath(nameOrPath, e, true);
    if !IsHidden(Basename(nameOrPath)) && e.Dir? {
      FlatIsTreeLeavesListing(nameOrPath, e.listing);
      assert tree[1..] == [];
    } else if |tree| == 1 {
      assert tree[1..] == [];
    }
  }

  lemma {:induction false} FlatIsTreeLeavesListing(dir: string, listing: seq<Named>)
    ensures IndexListing(dir, listing) == FsIndex.FileLeaves(FsIndex.IndexListing(dir, listing, true))
    decreases listing
  {
    if listing != [] {
      var path := JoinPath(dir, listing[0].name);
      FlatIsTreeLeaves(path, listing[0].entry);
      FlatIsTreeLeavesListing(dir, listing[1..]);
      FsIndex.FileLeavesAppend(FsIndex.IndexPath(path, listing[0].entry, true), FsIndex.IndexListing(dir, listing[1..], true));
    }
  }

  /**
   * Over a whole selection: the file list is the tree's file nodes, so its
   * length is the tree's reported total.
   */
  lemma {:induction false} FlatMatchesTree(fs: Snapshot, paths: seq<string>)
    ensures IndexPaths(fs, paths) == FsIndex.FileLeaves(FsIndex.IndexPaths(fs, paths, true))
    ensures |IndexPaths(fs, paths)| == TotalCount(FsIndex.IndexPaths(fs, paths, true))
  {
    if paths != [] {
      FlatIsTreeLeaves(paths[0], Stat(fs, paths[0]));
      FlatMatchesTree(fs, paths[1..]);
      FsIndex.FileLeavesAppend(FsIndex.IndexPath(paths[0], Stat(fs, paths[0]), true), FsIndex.IndexPaths(fs, paths[1..], true));
      TotalCountAppend(FsIndex.IndexPath(paths[0], Stat(fs, paths[0]), true), FsIndex.IndexPaths(fs, paths[1..], true));
      FsIndex.IndexPathCounts(paths[0], Stat(fs, paths[0]), true);
      FsIndex.CountIsFileLeaves(FsIndex.IndexPath(paths[0], Stat(fs, paths[0]), true));
    }
  }

  /** The file list of a path is exactly the files reached from it without passing a hidden name. */
  lemma IndexPathComplete(nameOrPath: string, e: Entry, q: string)
    ensures q in IndexPath(nameOrPath, e) <==> FileReached(nameOrPath, e, q, true)
  {
    FlatIsTreeLeaves(nameOrPath, e);
    FsIndex.IndexPathFiles(nameOrPath, e, true, q);
  }

  /** A listing's file list is exactly the files reached from some listed entry. */
  lemma IndexListingComplete(dir: string, listing: seq<Named>, q: string)
    ensures q in IndexListing(dir, listing) <==>
      exists i :: 0 <= i < |listing| && FileReached(JoinPath(dir, listing[i].name), listing[i].entry, q, true)
  {
    FlatIsTreeLeavesListing(dir, listing);
    FsIndex.IndexListingFiles(dir, listing, true, q);
  }

  /** A listing's file list is its entries' file lists, concatenated in listing order. */
  lemma IndexListingAppend(dir: string, a: seq<Named>, b: seq<Named>)
    ensures IndexListing(dir, a + b) == IndexListing(dir, a) + IndexListing(dir, b)
  {
    FlatIsTreeLeavesListing(dir, a + b);
    FlatIsTreeLeavesListing(dir, a);
    FlatIsTreeLeavesListing(dir, b);
    FsIndex.IndexListingAppend(dir, a, b, true);
    FsIndex.FileLeavesAppend(FsIndex.IndexListing(dir, a, true), FsIndex.IndexListing(dir, b, true));
  }

  /**
   * Over a whole selection: the file list is exactly the files reached from
   * some selected path, and its length is the counted tree's total.
   */
  lemma IndexPathsComplete(fs: Snapshot, paths: seq<string>, q: string)
    ensures q in IndexPaths(fs, paths) <==>
      exists i :: 0 <= i < |paths| && FileReached(paths[i], Stat(fs, paths[i]), q, true)
    ensures |IndexPaths(fs, paths)| == TotalCount(FsIndex.IndexPaths(fs, paths, true))
  {
    FlatMatchesTree(fs, paths);
    FsIndex.IndexPathsFiles(fs, paths, true, q);
  }
}

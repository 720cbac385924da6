/**
 * The web app end to end: a folder selection is rebased, de-duplicated and
 * handed to the worker, which indexes it and renders the index.
 */
module Pipeline {
  import opened Wrappers
  import opened Text
  import opened Tree
  import opened FolderIndex
  import opened FolderIndexTheory
  import opened Selection
  import Mdast
  import FilesTree

  /**
   * What the browser delivers for one folder: every relative path starts with
   * the folder's name and has at least one more segment.
   */
  predicate OneFolder(paths: seq<string>)
  {
    paths != [] &&
    forall i :: 0 <= i < |paths| ==> |Split(paths[i])| >= 2 && Split(paths[i])[0] == Split(paths[0])[0]
  }

  /** A path whose first segment is `base`, followed by more, starts with `base + "/"`. */
  lemma StartsWithBase(p: string, base: string)
    requires |Split(p)| >= 2 && Split(p)[0] == base
    ensures base + [Sep] <= p
  {
    var segs := Split(p);
    JoinSplit(p);
    assert Join(segs) == segs[0] + [Sep] + Join(segs[1..]);
  }

  /** Rebasing a path of the selected folder makes it start with the "." segment. */
  lemma RebasedDotRooted(p: string, base: string)
    requires base + [Sep] <= p
    ensures DotRooted(DotSlash + p[|base| + 1..])
  {
    var rest := p[|base| + 1..];
    assert DotSlash + rest == Root + [Sep] + rest;
    SplitAround(Root, rest);
    SplitNoSep(Root);
  }

  /** A one-folder selection is accepted, and every path it yields is rooted at ".". */
  lemma SelectionDotRooted(result: seq<Handle>)
    requires OneFolder(RelativePaths(result))
    ensures SelectFolder(result).Ok?
    ensures forall i :: 0 <= i < |SelectFolder(result).value| ==> DotRooted(SelectFolder(result).value[i])
  {
    var paths := RelativePaths(result);
    var base := BasePath(paths);
    var rebased := SelectFolder(result).value;
    RebasedPaths(paths, base);
    forall i | 0 <= i < |rebased| ensures DotRooted(rebased[i]) {
      StartsWithBase(paths[i], base);
      RebasedDotRooted(paths[i], base);
    }
  }

  /** De-duplicating the paths before indexing changes nothing in the index. */
  lemma {:induction false} DedupSameIndex(paths: seq<string>)
    ensures Build(Dedup(paths)) == Build(paths)
  {
    if paths != [] {
      var init := paths[..|paths| - 1];
      var x := paths[|paths| - 1];
      assert paths == init + [x];
      DedupSameIndex(init);
      var seen := Dedup(init);
      if x in init {
        RepeatedPathNoop(init, x);
      } else {
        assert (seen + [x])[..|seen|] == seen;
      }
    }
  }

  /**
   * The worker's reply in the app with the markdown view (`toMdast` of
   * `indexFolder`, with the number of paths received as the count).
   */
  function WorkerMdast(paths: seq<string>): (r: Mdast.Node)
    ensures r.Parent? && r.kind == Mdast.Root
    ensures r.children != [] <==> exists x :: x in paths && DotRooted(x)
    ensures r.children != [] ==> Mdast.StatedCount(r) == Some(|paths|)
  {
    ForestNonEmptyIff(paths);
    var forest := ForestOf(Build(paths));
    Mdast.StatedCountOf(forest, |paths|);
    Mdast.ToMdast(forest, |paths|)
  }

  /** The document the worker renders in the app with the list view. */
  function WorkerFilesTree(paths: seq<string>): (r: seq<FilesTree.Element>)
    ensures FilesTree.ShownCount(r) == Some(|paths|)
  {
    ForestNonEmptyIff(paths);
    var forest := ForestOf(Build(paths));
    FilesTree.ShownCountOf(forest, |paths|);
    FilesTree.FilesTreeOf(forest, |paths|)
  }

  /**
   * A one-folder selection in the list view: the unique paths index to the
   * same tree as the raw selection, every selected file is reachable from the
   * rendered forest, and the count shown is the number of unique paths.
   */
  lemma SelectionIndexed(result: seq<Handle>)
    requires OneFolder(RelativePaths(result))
    ensures SelectUnique(result).Ok?
    ensures Build(SelectUnique(result).value) == Build(SelectFolder(result).value)
    ensures ChildrenDeeper(Build(SelectUnique(result).value))
    ensures forall x :: x in SelectFolder(result).value ==> x in Paths(ForestOf(Build(SelectUnique(result).value)))
    ensures FilesTree.ShownCount(WorkerFilesTree(SelectUnique(result).value)) == Some(|SelectUnique(result).value|)
  {
    SelectionDotRooted(result);
    var rebased := SelectFolder(result).value;
    var unique := SelectUnique(result).value;
    DedupSameIndex(rebased);
    BuildDeeper(unique);
    forall x | x in rebased ensures x in Paths(ForestOf(Build(unique))) {
      InputPathReachable(rebased, x);
    }
  }
}

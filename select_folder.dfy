/**
 * The browser side of folder selection (`selectFolder` in the web app's two
 * `App` components) and the `Set`-based de-duplication of `handleSelect`.
 */
module Selection {
  import opened Wrappers
  import opened Text

  /** What the directory picker returns for each entry. */
  datatype Handle = FileHandle(webkitRelativePath: string) | DirectoryHandle

  /** Directory handles and empty relative paths are dropped; order is kept. */
  function RelativePaths(result: seq<Handle>): (r: seq<string>)
    ensures |r| <= |result|
    ensures forall j :: 0 <= j < |r| ==> r[j] != ""
  {
    if result == [] then []
    else
      var here := if result[0].FileHandle? && result[0].webkitRelativePath != "" then [result[0].webkitRelativePath] else [];
      here + RelativePaths(result[1..])
  }

  /** The filter keeps order and multiplicity: it works handle by handle. */
  lemma {:induction false} RelativePathsAppend(a: seq<Handle>, b: seq<Handle>)
    ensures RelativePaths(a + b) == RelativePaths(a) + RelativePaths(b)
  {
    if a == [] {
      assert a + b == b;
    } else {
      assert (a + b)[1..] == a[1..] + b;
      RelativePathsAppend(a[1..], b);
    }
  }

  /** One handle keeps its relative path exactly when it is a file with a non-empty path. */
  lemma RelativePathsOne(h: Handle)
    ensures RelativePaths([h]) == if h.FileHandle? && h.webkitRelativePath != "" then [h.webkitRelativePath] else []
  {
  }

  /** Exactly the non-empty paths of file handles survive. */
  lemma {:induction false} RelativePathsMembers(result: seq<Handle>, x: string)
    ensures x in RelativePaths(result) <==> x != "" && FileHandle(x) in result
  {
    if result != [] {
      RelativePathsMembers(result[1..], x);
      assert result == [result[0]] + result[1..];
    }
  }

  /** `paths[0].split("/")[0]`: the first segment of the first path. */
  function BasePath(paths: seq<string>): (r: string)
    requires paths != []
    ensures Sep !in r && r <= paths[0]
    ensures r == paths[0] || r + [Sep] <= paths[0]
  {
    var segs := Split(paths[0]);
    JoinSplit(paths[0]);
    JoinPrefix(segs);
    segs[0]
  }

  /** The first segment is the whole join, or a prefix of it followed by a separator. */
  lemma JoinPrefix(segs: seq<string>)
    requires |segs| >= 1
    ensures segs[0] <= Join(segs)
    ensures segs[0] == Join(segs) || segs[0] + [Sep] <= Join(segs)
  {
    if |segs| > 1 {
      assert Join(segs) == segs[0] + [Sep] + Join(segs[1..]);
    }
  }

  /** `"./"` */
  const DotSlash: string := "./"

  /** `paths.map((path) => path.replace(`${basePath}/`, "./"))` */
  function Rebase(paths: seq<string>, basePath: string): (r: seq<string>)
    ensures |r| == |paths|
    ensures forall i :: 0 <= i < |paths| ==> r[i] == ReplaceFirst(paths[i], basePath + [Sep], DotSlash)
  {
    seq(|paths|, i requires 0 <= i < |paths| => ReplaceFirst(paths[i], basePath + [Sep], DotSlash))
  }

  /**
   * Rebasing replaces the first occurrence of `basePath + "/"` by "./"
   * wherever it is: a path starting with it gets "./" in front of the rest,
   * and a path without it is unchanged.
   */
  lemma RebasedPaths(paths: seq<string>, basePath: string)
    ensures |Rebase(paths, basePath)| == |paths|
    ensures forall i :: 0 <= i < |paths| && basePath + [Sep] <= paths[i] ==>
      Rebase(paths, basePath)[i] == DotSlash + paths[i][|basePath| + 1..]
    ensures forall i :: 0 <= i < |paths| && (forall j :: 0 <= j <= |paths[i]| ==> !OccursAt(paths[i], basePath + [Sep], j)) ==>
      Rebase(paths, basePath)[i] == paths[i]
    ensures forall i, k: nat :: 0 <= i < |paths| && IsFirstOccurrence(paths[i], basePath + [Sep], k) ==>
      Rebase(paths, basePath)[i] == paths[i][..k] + DotSlash + paths[i][k + |basePath| + 1..]
  {
    RebasedEach(paths, basePath, Rebase(paths, basePath));
  }

  /** `RebasedPaths` for any `r` holding the replacement of each path. */
  lemma RebasedEach(paths: seq<string>, basePath: string, r: seq<string>)
    requires |r| == |paths|
    requires forall i :: 0 <= i < |paths| ==> r[i] == ReplaceFirst(paths[i], basePath + [Sep], DotSlash)
    ensures forall i :: 0 <= i < |paths| && basePath + [Sep] <= paths[i] ==>
      r[i] == DotSlash + paths[i][|basePath| + 1..]
    ensures forall i :: 0 <= i < |paths| && (forall j :: 0 <= j <= |paths[i]| ==> !OccursAt(paths[i], basePath + [Sep], j)) ==>
      r[i] == paths[i]
    ensures forall i, k: nat :: 0 <= i < |paths| && IsFirstOccurrence(paths[i], basePath + [Sep], k) ==>
      r[i] == paths[i][..k] + DotSlash + paths[i][k + |basePath| + 1..]
  {
    forall i | 0 <= i < |paths| && basePath + [Sep] <= paths[i] ensures r[i] == DotSlash + paths[i][|basePath| + 1..] {
      ReplaceFirstAtFront(paths[i], basePath + [Sep], DotSlash);
    }
  }

  /** Why a selection yields no paths: `paths[0]` is undefined and reading its `split` throws. */
  datatype SelectionError = NoFiles

  /**
   * `selectFolder` once the picker has answered: the surviving relative
   * paths, rebased so that the selected folder reads as "."; no surviving
   * path is an error.
   */
  function SelectFolder(result: seq<Handle>): (r: Result<seq<string>, SelectionError>)
    ensures r.Err? <==> RelativePaths(result) == []
    ensures r.Ok? ==> |r.value| == |RelativePaths(result)|
  {
    var paths := RelativePaths(result);
    if paths == [] then Err(NoFiles)
    else Ok(Rebase(paths, BasePath(paths)))
  }

  /** `Array.from(new Set(paths))`: each path once, where it first occurs. */
  function Dedup(paths: seq<string>): (r: seq<string>)
    ensures forall x :: x in r <==> x in paths
    ensures forall i, j :: 0 <= i < j < |r| ==> r[i] != r[j]
    ensures |r| <= |paths|
  {
    if paths == [] then []
    else
      var seen := Dedup(paths[..|paths| - 1]);
      var x := paths[|paths| - 1];
      assert paths == paths[..|paths| - 1] + [x];
      if x in seen then seen else seen + [x]
  }

  /** The index of the first occurrence of `x`. */
  function FirstIndex(paths: seq<string>, x: string): (r: nat)
    requires x in paths
    ensures r < |paths| && paths[r] == x && x !in paths[..r]
  {
    if paths[0] == x then 0 else 1 + FirstIndex(paths[1..], x)
  }

  lemma {:induction false} FirstIndexSnoc(paths: seq<string>, y: string, x: string)
    requires x in paths
    ensures FirstIndex(paths + [y], x) == FirstIndex(paths, x)
  {
    if paths[0] != x {
      assert (paths + [y])[1..] == paths[1..] + [y];
      FirstIndexSnoc(paths[1..], y, x);
    }
  }

  /** Kept paths appear in the order of their first occurrences. */
  lemma {:induction false} DedupOrder(paths: seq<string>)
    ensures forall i, j :: 0 <= i < j < |Dedup(paths)| ==>
      FirstIndex(paths, Dedup(paths)[i]) < FirstIndex(paths, Dedup(paths)[j])
  {
    if paths != [] {
      var init := paths[..|paths| - 1];
      var x := paths[|paths| - 1];
      assert paths == init + [x];
      DedupOrder(init);
      var seen := Dedup(init);
      forall y | y in init
        ensures FirstIndex(paths, y) == FirstIndex(init, y) < |init|
      {
        FirstIndexSnoc(init, x, y);
      }
      if x !in seen {
        assert FirstIndex(paths, x) == |init| by {
          assert x !in init;
          assert paths[..|init|] == init;
        }
      }
    }
  }

  /** `handleSelect` in the app with the list view: the unique paths, or the error message. */
  function SelectUnique(result: seq<Handle>): (r: Result<seq<string>, string>)
    ensures r.Err? <==> RelativePaths(result) == []
    ensures r.Err? ==> r.error == AccessError
    ensures r.Ok? ==> r.value == Dedup(SelectFolder(result).value)
  {
    match SelectFolder(result)
    case Err(_) => Err(AccessError)
    case Ok(paths) => Ok(Dedup(paths))
  }

  /** `handleSelect` in the app with the markdown view: the paths as selected, or the error message. */
  function SelectAll(result: seq<Handle>): (r: Result<seq<string>, string>)
    ensures r.Err? <==> RelativePaths(result) == []
    ensures r.Err? ==> r.error == AccessError
    ensures r.Ok? ==> |r.value| == |RelativePaths(result)|
    ensures r.Ok? ==> r.value == SelectFolder(result).value
  {
    match SelectFolder(result)
    case Err(_) => Err(AccessError)
    case Ok(paths) => Ok(paths)
  }

  const AccessError: string := "It seemed I couldn't access your folder, try again later. If you're trying to select One Drive or Google Drive, make sure they are available offline."

  const MessageLead: string := "There are "

  const MessageTail: string := " files in total. If you're browser complains about page being unresponsive, just select wait."

  /** The message shown once the unique paths are known. */
  function CountMessage(uniquePaths: seq<string>): string
  {
    MessageLead + NatToString(|uniquePaths|) + MessageTail
  }

  /**
   * After a selection with at least one file, the message reports the
   * number of unique paths, i.e. the number of paths sent to the worker.
   */
  lemma CountMessageOf(result: seq<Handle>)
    requires RelativePaths(result) != []
    ensures SelectUnique(result).Ok?
    ensures ReadCount(CountMessage(SelectUnique(result).value), MessageLead, MessageTail)
      == Some(|Dedup(SelectFolder(result).value)|)
  {
    ReadCountSentence(MessageLead, |SelectUnique(result).value|, MessageTail);
  }
}

/**
 * The two node shapes of the index. The web worker's `PathNode` has a name,
 * a path and ordered children; the desktop indexer's node also carries the
 * number of regular files at or below it.
 */
module Tree {
  datatype PathNode = PathNode(name: string, path: string, children: seq<PathNode>)

  datatype CountedNode = CountedNode(name: string, path: string, filesCount: nat, children: seq<CountedNode>)

  /** Number of nodes in a forest. */
  function Size(forest: seq<PathNode>): nat
  {
    if forest == [] then 0 else 1 + Size(forest[0].children) + Size(forest[1..])
  }

  /** Height of a forest: 0 when empty, one more than the tallest subtree otherwise. */
  function Depth(forest: seq<PathNode>): nat
  {
    if forest == [] then 0
    else
      var here := 1 + Depth(forest[0].children);
      var rest := Depth(forest[1..]);
      if here >= rest then here else rest
  }

  /** Every path that occurs anywhere in a forest. */
  function Paths(forest: seq<PathNode>): set<string>
  {
    if forest == [] then {} else {forest[0].path} + Paths(forest[0].children) + Paths(forest[1..])
  }

  /** Sum of `filesCount` over the top-level nodes only (`reduce((acc, n) => acc + n.filesCount, 0)`). */
  function TotalCount(forest: seq<CountedNode>): nat
  {
    if forest == [] then 0 else forest[0].filesCount + TotalCount(forest[1..])
  }

  /** The same forest without the counts. */
  function Forget(forest: seq<CountedNode>): seq<PathNode>
  {
    if forest == [] then []
    else [PathNode(forest[0].name, forest[0].path, Forget(forest[0].children))] + Forget(forest[1..])
  }

  /** (path, name) of every node, parents before their children, siblings in order. */
  function Preorder(forest: seq<PathNode>): seq<(string, string)>
  {
    if forest == [] then []
    else [(forest[0].path, forest[0].name)] + Preorder(forest[0].children) + Preorder(forest[1..])
  }

  lemma {:induction false} PreorderSize(forest: seq<PathNode>)
    ensures |Preorder(forest)| == Size(forest)
  {
    if forest != [] {
      PreorderSize(forest[0].children);
      PreorderSize(forest[1..]);
    }
  }

  lemma {:induction false} TotalCountAppend(a: seq<CountedNode>, b: seq<CountedNode>)
    ensures TotalCount(a + b) == TotalCount(a) + TotalCount(b)
  {
    if a == [] {
      assert a + b == b;
    } else {
      assert (a + b)[1..] == a[1..] + b;
      TotalCountAppend(a[1..], b);
    }
  }
}

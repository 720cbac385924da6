/**
 * The desktop app's `toMdast` and `toMdastList`. They build the same list as
 * the web worker, over nodes that also carry `filesCount`, and the reported
 * total is summed from the top-level nodes instead of being passed in.
 */
module ElectronMdast {
  import opened Wrappers
  import opened Text
  import opened Tree
  import Mdast

  type Node = Mdast.Node

  function EntryLink(node: CountedNode): Node
  {
    Mdast.Parent(Mdast.Link(node.path), [Mdast.Literal(node.name)])
  }

  /** The item for one node, given the items of its children. */
  function Item(node: CountedNode, nested: seq<Node>): Node
  {
    if node.children == [] then Mdast.Parent(Mdast.ListItem(false), [EntryLink(node)])
    else Mdast.Parent(Mdast.ListItem(false), [EntryLink(node), Mdast.Parent(Mdast.IndexList, nested)])
  }

  function ListItems(nodes: seq<CountedNode>): (r: seq<Node>)
    ensures |r| == |nodes|
  {
    if nodes == [] then []
    else [Item(nodes[0], ListItems(nodes[0].children))] + ListItems(nodes[1..])
  }

  /** `toMdastList` over counted nodes. */
  function ToMdastList(nodes: seq<CountedNode>): (r: Node)
    ensures r.Parent? && r.kind == Mdast.IndexList && |r.children| == |nodes|
  {
    Mdast.Parent(Mdast.IndexList, ListItems(nodes))
  }

  /** The counts play no part in the list: it is the web worker's list of the same forest. */
  lemma {:induction false} ListItemsForget(nodes: seq<CountedNode>)
    ensures ListItems(nodes) == Mdast.ListItems(Forget(nodes))
  {
    if nodes != [] {
      var f := Forget(nodes);
      assert f[1..] == Forget(nodes[1..]);
      assert f[0].children == Forget(nodes[0].children);
      ListItemsForget(nodes[0].children);
      ListItemsForget(nodes[1..]);
    }
  }

  lemma ToMdastListForget(nodes: seq<CountedNode>)
    ensures ToMdastList(nodes) == Mdast.ToMdastList(Forget(nodes))
  {
    ListItemsForget(nodes);
  }

  lemma {:induction false} ForgetSize(nodes: seq<CountedNode>)
    ensures |Forget(nodes)| == |nodes|
  {
    if nodes != [] {
      ForgetSize(nodes[1..]);
    }
  }

  /**
   * Every item shows its node: a link to the path with the name as text, and
   * a nested list exactly when the node has children; reading the list back
   * gives the forest without its counts.
   */
  lemma ItemsShowNodes(nodes: seq<CountedNode>)
    ensures forall i :: 0 <= i < |nodes| ==>
      Mdast.ItemShows(ToMdastList(nodes).children[i], PathNode(nodes[i].name, nodes[i].path, Forget(nodes[i].children)))
    ensures Mdast.ReadList(ToMdastList(nodes)) == Some(Forget(nodes))
  {
    ToMdastListForget(nodes);
    Mdast.ReadToMdastList(Forget(nodes));
    forall i | 0 <= i < |nodes|
      ensures Forget(nodes)[i] == PathNode(nodes[i].name, nodes[i].path, Forget(nodes[i].children))
    {
      ForgetAt(nodes, i);
    }
  }

  lemma {:induction false} ForgetAt(nodes: seq<CountedNode>, i: nat)
    requires i < |nodes|
    ensures |Forget(nodes)| == |nodes|
    ensures Forget(nodes)[i] == PathNode(nodes[i].name, nodes[i].path, Forget(nodes[i].children))
  {
    ForgetSize(nodes);
    if i > 0 {
      ForgetAt(nodes[1..], i - 1);
    }
  }

  /** One link per node of the whole tree, and list nesting as deep as the tree. */
  lemma LinksAndNesting(nodes: seq<CountedNode>)
    ensures |Mdast.LinkTargets([ToMdastList(nodes)])| == Size(Forget(nodes))
    ensures nodes != [] ==> Mdast.ListDepth([ToMdastList(nodes)]) == Depth(Forget(nodes))
  {
    ToMdastListForget(nodes);
    Mdast.LinkCount(Forget(nodes));
    ForgetSize(nodes);
    if nodes != [] {
      Mdast.ListNesting(Forget(nodes));
    }
  }

  const IntroPrefix: string := "This is a list of all the files in the current folder and subfolders. You can click on a file to open it. There are "

  /**
   * `toMdast`: an empty root for an empty forest, otherwise the title, a
   * one-sentence paragraph with the total, and the list.
   */
  function ToMdast(nodes: seq<CountedNode>): (r: Node)
    ensures r.Parent? && r.kind == Mdast.Root
    ensures nodes == [] <==> r.children == []
    ensures nodes != [] ==>
      && |r.children| == 3
      && r.children[0] == Mdast.IndexTitle
      && r.children[1] == Mdast.Parent(Mdast.Paragraph, [Mdast.Literal(IntroPrefix + NatToString(TotalCount(nodes)) + Mdast.CountSuffix)])
      && r.children[2] == ToMdastList(nodes)
  {
    if nodes == [] then Mdast.Parent(Mdast.Root, [])
    else
      var itemsCount := TotalCount(nodes);
      Mdast.Parent(Mdast.Root, [
        Mdast.IndexTitle,
        Mdast.Parent(Mdast.Paragraph, [Mdast.Literal(IntroPrefix + NatToString(itemsCount) + Mdast.CountSuffix)]),
        ToMdastList(nodes)
      ])
  }

  /** The total a desktop document reports, read from its paragraph. */
  function StatedTotal(doc: Node): Option<nat>
  {
    if !doc.Parent? || |doc.children| < 2 then None
    else
      var intro := doc.children[1];
      if !intro.Parent? || |intro.children| != 1 || !intro.children[0].Literal? then None
      else ReadCount(intro.children[0].value, IntroPrefix, Mdast.CountSuffix)
  }

  /** The total reported is the sum of the top-level counts. */
  lemma StatedTotalOf(nodes: seq<CountedNode>)
    ensures StatedTotal(ToMdast(nodes)) == if nodes == [] then None else Some(TotalCount(nodes))
  {
    if nodes != [] {
      ReadCountSentence(IntroPrefix, TotalCount(nodes), Mdast.CountSuffix);
    }
  }
}

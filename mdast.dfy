/**
 * The mdast document the web worker builds from the folder index
 * (`toMdast` and `toMdastList`). mdast distinguishes literal nodes, which
 * carry a value, from parent nodes, which carry children; every node kind the
 * worker emits is one of the two.
 */
module Mdast {
  import opened Wrappers
  import opened Text
  import opened Tree

  datatype Kind =
    | Root
    | Heading(depth: nat)
    | Paragraph
    | Strong
    | Emphasis
    | List(ordered: bool, start: nat, spread: bool)
    | ListItem(spread: bool)
    | Link(url: string)

  datatype Node = Literal(value: string) | Parent(kind: Kind, children: seq<Node>)

  /** The list kind every index list uses: ordered, numbered from 1, tight. */
  const IndexList: Kind := List(true, 1, false)

  /** The link of one index entry: its url is the path, its text the name. */
  function EntryLink(node: PathNode): Node
  {
    Parent(Link(node.path), [Literal(node.name)])
  }

  /** `item` is the list item the projection promises for `node`. */
  predicate ItemShows(item: Node, node: PathNode)
  {
    && item.Parent? && item.kind == ListItem(false)
    && 1 <= |item.children| <= 2
    && item.children[0] == EntryLink(node)
    && (|item.children| == 2 <==> node.children != [])
    && (|item.children| == 2 ==>
          && item.children[1].Parent? && item.children[1].kind == IndexList
          && |item.children[1].children| == |node.children|)
  }

  /**
   * The item for one node, given the items of its children: the link alone
   * for a leaf, the link and a nested list otherwise.
   */
  function Item(node: PathNode, nested: seq<Node>): Node
  {
    if node.children == [] then Parent(ListItem(false), [EntryLink(node)])
    else Parent(ListItem(false), [EntryLink(node), Parent(IndexList, nested)])
  }

  /** The list items for a forest (`nodes.map(...)` inside `toMdastList`). */
  function ListItems(nodes: seq<PathNode>): (r: seq<Node>)
    ensures |r| == |nodes|
    ensures forall i :: 0 <= i < |nodes| ==> ItemShows(r[i], nodes[i])
  {
    if nodes == [] then []
    else [Item(nodes[0], ListItems(nodes[0].children))] + ListItems(nodes[1..])
  }

  /** `toMdastList`: one ordered list with one item per node, in order. */
  function ToMdastList(nodes: seq<PathNode>): (r: Node)
    ensures r.Parent? && r.kind == IndexList && |r.children| == |nodes|
    ensures forall i :: 0 <= i < |nodes| ==> ItemShows(r.children[i], nodes[i])
  {
    Parent(IndexList, ListItems(nodes))
  }

  const IndexTitle: Node := Parent(Heading(1), [Literal("Index")])

  const CountPrefix: string := "There are "
  const CountSuffix: string := " files in total."

  /** The sentence that reports the count. */
  function CountSentence(filesCount: nat): string
  {
    CountPrefix + NatToString(filesCount) + CountSuffix
  }

  const ListIntro: string := "This is a list of all the files in the current folder and subfolders."
  const LinkedNote: string := "Files are also linked to the originals. In the generated word document, you can click on an entry to open it."
  const RelativeNote: string := "Links are relative to the folder you selected. So make sure you place the word document inside it."
  const Break: string := "\n\n"

  /** The introduction paragraph; the count sits in its third child, in bold. */
  function Intro(filesCount: nat): Node
  {
    Parent(Paragraph, [
      Literal(ListIntro),
      Literal(" "),
      Parent(Strong, [Literal(CountSentence(filesCount))]),
      Literal(Break),
      Literal(LinkedNote),
      Literal(Break),
      Parent(Emphasis, [Literal(RelativeNote)])
    ])
  }

  /**
   * `toMdast`: an empty root for an empty forest, otherwise the title, the
   * introduction with the given count, and the list.
   */
  function ToMdast(nodes: seq<PathNode>, filesCount: nat): (r: Node)
    ensures r.Parent? && r.kind == Root
    ensures nodes == [] <==> r.children == []
    ensures nodes != [] ==>
      && |r.children| == 3
      && r.children[0] == IndexTitle
      && r.children[1] == Intro(filesCount)
      && r.children[2] == ToMdastList(nodes)
  {
    if nodes == [] then Parent(Root, [])
    else Parent(Root, [IndexTitle, Intro(filesCount), ToMdastList(nodes)])
  }

  // Reading a document back.

  /** Text of the children of a link: the value of its single literal. */
  function LinkText(children: seq<Node>): Option<string>
  {
    if |children| == 1 && children[0].Literal? then Some(children[0].value) else None
  }

  function TextOr(t: Option<string>): string
  {
    if t.Some? then t.value else ""
  }

  /** Recovers the forest from list items shaped like the projection's. */
  function ReadItems(items: seq<Node>): Option<seq<PathNode>>
  {
    if items == [] then Some([])
    else
      var item := items[0];
      if !item.Parent? || item.kind != ListItem(false) || !(1 <= |item.children| <= 2) then None
      else
        var link := item.children[0];
        if !link.Parent? || !link.kind.Link? || LinkText(link.children).None? then None
        else
          var children :=
            if |item.children| == 1 then Some([])
            else if item.children[1].Parent? && item.children[1].kind == IndexList then ReadItems(item.children[1].children)
            else None;
          match (children, ReadItems(items[1..]))
          case (Some(cs), Some(rest)) =>
            Some([PathNode(LinkText(link.children).value, link.kind.url, cs)] + rest)
          case _ => None
  }

  /** Recovers the forest from an index list. */
  function ReadList(list: Node): Option<seq<PathNode>>
  {
    if list.Parent? && list.kind == IndexList then ReadItems(list.children) else None
  }

  /** The list loses nothing: reading it back gives the forest. */
  lemma {:induction false} ReadListItems(nodes: seq<PathNode>)
    ensures ReadItems(ListItems(nodes)) == Some(nodes)
  {
    if nodes != [] {
      var node := nodes[0];
      ReadListItems(node.children);
      ReadListItems(nodes[1..]);
      ReadItemCons(node, ListItems(node.children), ListItems(nodes[1..]), nodes[1..]);
      assert ListItems(nodes) == [Item(node, ListItems(node.children))] + ListItems(nodes[1..]);
      assert nodes == [node] + nodes[1..];
    }
  }

  /** Reading one item in front of readable items. */
  lemma ReadItemCons(node: PathNode, nested: seq<Node>, rest: seq<Node>, restNodes: seq<PathNode>)
    requires ReadItems(nested) == Some(node.children)
    requires node.children == [] <==> nested == []
    requires ReadItems(rest) == Some(restNodes)
    ensures ReadItems([Item(node, nested)] + rest) == Some([node] + restNodes)
  {
    var items := [Item(node, nested)] + rest;
    assert items[0] == Item(node, nested);
    assert items[1..] == rest;
    assert LinkText(EntryLink(node).children) == Some(node.name);
    if node.children != [] {
      assert items[0].children[1] == Parent(IndexList, nested);
    }
  }

  lemma ReadToMdastList(nodes: seq<PathNode>)
    ensures ReadList(ToMdastList(nodes)) == Some(nodes)
  {
    ReadListItems(nodes);
  }

  /** (url, text) of every link, in document order. */
  function LinkTargets(ms: seq<Node>): seq<(string, string)>
  {
    if ms == [] then []
    else
      var here := match ms[0]
        case Literal(_) => []
        case Parent(kind, children) =>
          (if kind.Link? then [(kind.url, TextOr(LinkText(children)))] else []) + LinkTargets(children);
      here + LinkTargets(ms[1..])
  }

  lemma {:induction false} LinkTargetsAppend(a: seq<Node>, b: seq<Node>)
    ensures LinkTargets(a + b) == LinkTargets(a) + LinkTargets(b)
  {
    if a == [] {
      assert a + b == b;
    } else {
      assert (a + b)[1..] == a[1..] + b;
      LinkTargetsAppend(a[1..], b);
    }
  }

  /** The item of a node links to it, then holds the links of its nested list. */
  lemma ItemLinks(node: PathNode, nested: seq<Node>)
    ensures LinkTargets([Item(node, nested)]) ==
      [(node.path, node.name)] + (if node.children == [] then [] else LinkTargets(nested))
  {
    var link := EntryLink(node);
    assert LinkTargets(link.children) == [];
    assert LinkTargets([link]) == [(node.path, node.name)];
    if node.children != [] {
      var list := Parent(IndexList, nested);
      assert [link, list] == [link] + [list];
      LinkTargetsAppend([link], [list]);
      assert LinkTargets([list]) == LinkTargets(nested);
    }
  }

  /** One link per node, in preorder, pointing at the node's path and showing its name. */
  lemma {:induction false} ListItemsLinks(nodes: seq<PathNode>)
    ensures LinkTargets(ListItems(nodes)) == Preorder(nodes)
  {
    if nodes != [] {
      var head := Item(nodes[0], ListItems(nodes[0].children));
      assert ListItems(nodes) == [head] + ListItems(nodes[1..]);
      LinkTargetsAppend([head], ListItems(nodes[1..]));
      ItemLinks(nodes[0], ListItems(nodes[0].children));
      ListItemsLinks(nodes[0].children);
      ListItemsLinks(nodes[1..]);
    }
  }

  /** The number of links equals the number of nodes. */
  lemma LinkCount(nodes: seq<PathNode>)
    ensures |LinkTargets([ToMdastList(nodes)])| == Size(nodes)
  {
    ListItemsLinks(nodes);
    PreorderSize(nodes);
  }

  /** Deepest nesting of lists. */
  function ListDepth(ms: seq<Node>): nat
  {
    if ms == [] then 0
    else
      var here := match ms[0]
        case Literal(_) => 0
        case Parent(kind, children) => (if kind.List? then 1 else 0) + ListDepth(children);
      var rest := ListDepth(ms[1..]);
      if here >= rest then here else rest
  }

  lemma ListDepthCons(head: Node, rest: seq<Node>)
    ensures ListDepth([head] + rest) == if ListDepth([head]) >= ListDepth(rest) then ListDepth([head]) else ListDepth(rest)
  {
    assert ([head] + rest)[1..] == rest;
  }

  /** A leaf's item holds no list; any other item holds one, around its children's items. */
  lemma ItemDepth(node: PathNode, nested: seq<Node>)
    ensures ListDepth([Item(node, nested)]) == if node.children == [] then 0 else 1 + ListDepth(nested)
  {
    var link := EntryLink(node);
    assert ListDepth(link.children) == 0;
    assert ListDepth([link]) == 0;
    if node.children != [] {
      var list := Parent(IndexList, nested);
      ListDepthCons(link, [list]);
      assert ListDepth([list]) == 1 + ListDepth(nested);
    }
  }

  /** Items of a non-empty forest nest lists one level less deep than the forest. */
  lemma {:induction false} ListItemsDepth(nodes: seq<PathNode>)
    requires nodes != []
    ensures ListDepth(ListItems(nodes)) + 1 == Depth(nodes)
  {
    var node := nodes[0];
    var head := Item(node, ListItems(node.children));
    assert ListItems(nodes) == [head] + ListItems(nodes[1..]);
    ListDepthCons(head, ListItems(nodes[1..]));
    ItemDepth(node, ListItems(node.children));
    if node.children != [] {
      ListItemsDepth(node.children);
    }
    if nodes[1..] != [] {
      ListItemsDepth(nodes[1..]);
    }
  }

  /** List nesting depth equals tree depth. */
  lemma ListNesting(nodes: seq<PathNode>)
    requires nodes != []
    ensures ListDepth([ToMdastList(nodes)]) == Depth(nodes)
  {
    ListItemsDepth(nodes);
  }

  /** The count a document reports, read from its bold sentence. */
  function StatedCount(doc: Node): Option<nat>
  {
    if !doc.Parent? || |doc.children| < 2 then None
    else
      var intro := doc.children[1];
      if !intro.Parent? || |intro.children| < 3 then None
      else
        var strong := intro.children[2];
        if !strong.Parent? || |strong.children| != 1 || !strong.children[0].Literal? then None
        else ReadCount(strong.children[0].value, CountPrefix, CountSuffix)
  }

  /** A non-empty document states exactly the count it was given; an empty one states none. */
  lemma StatedCountOf(nodes: seq<PathNode>, filesCount: nat)
    ensures StatedCount(ToMdast(nodes, filesCount)) == if nodes == [] then None else Some(filesCount)
  {
    if nodes != [] {
      ReadCountSentence(CountPrefix, filesCount, CountSuffix);
    }
  }
}

/**
 * The web app's `FilesList` and `FilesTree` components: the same index as an
 * element tree (h1, paragraphs, nested `ol`/`li` with anchors).
 */
module FilesTree {
  import opened Wrappers
  import opened Text
  import opened Tree
  import Mdast

  datatype Tag = Ol | Li(key: string) | A(href: string) | H1 | P | Strong

  /** An element with its children, or a run of text. */
  datatype Element = Plain(text: string) | Elem(tag: Tag, children: seq<Element>)

  function Anchor(node: PathNode): Element
  {
    Elem(A(node.path), [Plain(node.name)])
  }

  /** The `li` for one node, keyed by its path: its anchor, then the list of its children. */
  function Row(node: PathNode, nested: seq<Element>): Element
  {
    Elem(Li(node.path), [Anchor(node), Elem(Ol, nested)])
  }

  /** `row` is the `li` the component promises for `node`. */
  predicate RowShows(row: Element, node: PathNode)
  {
    && row.Elem? && row.tag == Li(node.path)
    && |row.children| == 2
    && row.children[0] == Anchor(node)
    && row.children[1].Elem? && row.children[1].tag == Ol
    && |row.children[1].children| == |node.children|
  }

  /** The rows of `FilesList` for a forest, in order. */
  function Rows(nodes: seq<PathNode>): (r: seq<Element>)
    ensures |r| == |nodes|
    ensures forall i :: 0 <= i < |nodes| ==> RowShows(r[i], nodes[i])
  {
    if nodes == [] then []
    else [Row(nodes[0], Rows(nodes[0].children))] + Rows(nodes[1..])
  }

  /** `FilesList`: one `ol` with one `li` per node; a leaf's `li` still holds an (empty) `ol`. */
  function FilesList(nodes: seq<PathNode>): (r: Element)
    ensures r.Elem? && r.tag == Ol && |r.children| == |nodes|
    ensures forall i :: 0 <= i < |nodes| ==> RowShows(r.children[i], nodes[i])
  {
    Elem(Ol, Rows(nodes))
  }

  const CountLead: string := "There are "

  /**
   * `FilesTree`: the title, the three paragraphs (the first reporting the
   * given count in bold) and the list, whatever the forest.
   */
  function FilesTreeOf(nodes: seq<PathNode>, filesCount: nat): (r: seq<Element>)
    ensures |r| == 5
    ensures r[0] == Elem(H1, [Plain("Index")])
    ensures forall i :: 1 <= i <= 3 ==> r[i].Elem? && r[i].tag == P
    ensures r[4] == FilesList(nodes)
  {
    [
      Elem(H1, [Plain("Index")]),
      Elem(P, [
        Plain(Mdast.ListIntro),
        Plain(" "),
        Elem(Strong, [Plain(CountLead), Plain(NatToString(filesCount)), Plain(Mdast.CountSuffix)])
      ]),
      Elem(P, [Plain(Mdast.LinkedNote)]),
      Elem(P, [Plain(Mdast.RelativeNote)]),
      FilesList(nodes)
    ]
  }

  /** The count a rendered tree shows, read from the bold sentence of its first paragraph. */
  function ShownCount(doc: seq<Element>): Option<nat>
  {
    if |doc| < 2 || !doc[1].Elem? || |doc[1].children| < 3 then None
    else
      var strong := doc[1].children[2];
      if !strong.Elem? || |strong.children| != 3 || !strong.children[1].Plain? then None
      else if IsDigits(strong.children[1].text) then Some(ParseDigits(strong.children[1].text))
      else None
  }

  /** The count shown is the argument, verbatim; the forest plays no part in it. */
  lemma ShownCountOf(nodes: seq<PathNode>, filesCount: nat)
    ensures ShownCount(FilesTreeOf(nodes, filesCount)) == Some(filesCount)
  {
    ParseNatToString(filesCount);
  }

  /** (href, text) of every anchor, in document order. */
  function AnchorTargets(es: seq<Element>): seq<(string, string)>
  {
    if es == [] then []
    else
      var here := match es[0]
        case Plain(_) => []
        case Elem(tag, children) =>
          (if tag.A? && |children| == 1 && children[0].Plain? then [(tag.href, children[0].text)] else [])
          + AnchorTargets(children);
      here + AnchorTargets(es[1..])
  }

  /** Number of `ol` elements. */
  function ListCount(es: seq<Element>): nat
  {
    if es == [] then 0
    else
      var here := match es[0]
        case Plain(_) => 0
        case Elem(tag, children) => (if tag == Ol then 1 else 0) + ListCount(children);
      here + ListCount(es[1..])
  }

  lemma {:induction false} AnchorTargetsAppend(a: seq<Element>, b: seq<Element>)
    ensures AnchorTargets(a + b) == AnchorTargets(a) + AnchorTargets(b)
  {
    if a == [] {
      assert a + b == b;
    } else {
      assert (a + b)[1..] == a[1..] + b;
      AnchorTargetsAppend(a[1..], b);
    }
  }

  lemma {:induction false} ListCountAppend(a: seq<Element>, b: seq<Element>)
    ensures ListCount(a + b) == ListCount(a) + ListCount(b)
  {
    if a == [] {
      assert a + b == b;
    } else {
      assert (a + b)[1..] == a[1..] + b;
      ListCountAppend(a[1..], b);
    }
  }

  lemma RowAnchors(node: PathNode, nested: seq<Element>)
    ensures AnchorTargets([Row(node, nested)]) == [(node.path, node.name)] + AnchorTargets(nested)
    ensures ListCount([Row(node, nested)]) == 1 + ListCount(nested)
  {
    var a := Anchor(node);
    var ol := Elem(Ol, nested);
    assert AnchorTargets(a.children) == [] && ListCount(a.children) == 0;
    assert [a, ol] == [a] + [ol];
    AnchorTargetsAppend([a], [ol]);
    ListCountAppend([a], [ol]);
  }

  /** One anchor per node, in preorder, pointing at the node's path and showing its name. */
  lemma {:induction false} RowsAnchors(nodes: seq<PathNode>)
    ensures AnchorTargets(Rows(nodes)) == Preorder(nodes)
  {
    if nodes != [] {
      var head := Row(nodes[0], Rows(nodes[0].children));
      assert Rows(nodes) == [head] + Rows(nodes[1..]);
      AnchorTargetsAppend([head], Rows(nodes[1..]));
      RowAnchors(nodes[0], Rows(nodes[0].children));
      RowsAnchors(nodes[0].children);
      RowsAnchors(nodes[1..]);
    }
  }

  /** Every `li` holds an `ol`, so there is one list per node plus the outer one. */
  lemma {:induction false} RowsLists(nodes: seq<PathNode>)
    ensures ListCount(Rows(nodes)) == Size(nodes)
  {
    if nodes != [] {
      var head := Row(nodes[0], Rows(nodes[0].children));
      assert Rows(nodes) == [head] + Rows(nodes[1..]);
      ListCountAppend([head], Rows(nodes[1..]));
      RowAnchors(nodes[0], Rows(nodes[0].children));
      RowsLists(nodes[0].children);
      RowsLists(nodes[1..]);
    }
  }

  lemma FilesListCounts(nodes: seq<PathNode>)
    ensures |AnchorTargets([FilesList(nodes)])| == Size(nodes)
    ensures ListCount([FilesList(nodes)]) == Size(nodes) + 1
  {
    RowsAnchors(nodes);
    RowsLists(nodes);
    PreorderSize(nodes);
  }

  /** The element tree and the worker's mdast list link the same targets in the same order. */
  lemma AnchorsMatchMdastLinks(nodes: seq<PathNode>)
    ensures AnchorTargets([FilesList(nodes)]) == Mdast.LinkTargets([Mdast.ToMdastList(nodes)])
  {
    RowsAnchors(nodes);
    Mdast.ListItemsLinks(nodes);
  }

  /** Recovers the forest from rows shaped like the component's. */
  function ReadRows(rows: seq<Element>): Option<seq<PathNode>>
  {
    if rows == [] then Some([])
    else
      var row := rows[0];
      if !row.Elem? || !row.tag.Li? || |row.children| != 2 then None
      else
        var a := row.children[0];
        var ol := row.children[1];
        if !a.Elem? || !a.tag.A? || |a.children| != 1 || !a.children[0].Plain? || !ol.Elem? || ol.tag != Ol then None
        else
          match (ReadRows(ol.children), ReadRows(rows[1..]))
          case (Some(cs), Some(rest)) => Some([PathNode(a.children[0].text, a.tag.href, cs)] + rest)
          case _ => None
  }

  /** The list loses nothing: reading it back gives the forest. */
  lemma {:induction false} ReadRowsOf(nodes: seq<PathNode>)
    ensures ReadRows(Rows(nodes)) == Some(nodes)
  {
    if nodes != [] {
      var node := nodes[0];
      ReadRowsOf(node.children);
      ReadRowsOf(nodes[1..]);
      ReadRowCons(node, Rows(node.children), Rows(nodes[1..]), nodes[1..]);
      assert Rows(nodes) == [Row(node, Rows(node.children))] + Rows(nodes[1..]);
      assert nodes == [node] + nodes[1..];
    }
  }

  /** Reading a row in front of readable rows. */
  lemma ReadRowCons(node: PathNode, nested: seq<Element>, rest: seq<Element>, restNodes: seq<PathNode>)
    requires ReadRows(nested) == Some(node.children)
    requires ReadRows(rest) == Some(restNodes)
    ensures ReadRows([Row(node, nested)] + rest) == Some([node] + restNodes)
  {
    var rows := [Row(node, nested)] + rest;
    assert rows[0] == Row(node, nested);
    assert rows[1..] == rest;
  }
}

/**
 * `indexFolder` of the browser worker: rebuilds a directory tree from the
 * flat list of relative file paths returned by the folder picker.
 *
 * The source keeps two maps while it walks each path from its longest prefix
 * down to its shortest: one from a path to its node record, one from a parent
 * path to the set of child paths already attached to it. Node records are
 * shared objects there, so a record's `children` holds references; here it
 * holds the child paths, and `ForestOf` materialises the tree at the end.
 */
module FolderIndex {
  import opened Text
  import opened Tree

  /** A node record `{ name, path, children }`, its children held by path. */
  datatype NodeRecord = NodeRecord(name: string, path: string, children: seq<string>)

  /** The reducer's state: `map` and `childrenOfParents`. */
  datatype Index = Index(nodes: map<string, NodeRecord>, childrenOfParents: map<string, set<string>>)

  const Empty: Index := Index(map[], map[])

  /** The sentinel that the picker's paths are rebased onto. */
  const Root: string := "."

  /** A fresh record for a path: its name is the path's last segment. */
  function NewRecord(p: string): NodeRecord
  {
    NodeRecord(LastSegment(p), p, [])
  }

  /** Every node record has its set of attached children. */
  predicate Consistent(st: Index)
  {
    st.nodes.Keys == st.childrenOfParents.Keys
  }

  predicate NoDup(s: seq<string>)
  {
    forall i, j :: 0 <= i < j < |s| ==> s[i] != s[j]
  }

  /** Each record is keyed by its own path and named by its last segment. */
  ghost predicate RecordsNamed(st: Index)
  {
    forall p :: p in st.nodes ==> st.nodes[p].path == p && st.nodes[p].name == LastSegment(p)
  }

  /** No record lists a child twice. */
  ghost predicate ChildrenDistinct(st: Index)
  {
    forall p :: p in st.nodes ==> NoDup(st.nodes[p].children)
  }

  /** The set of attached children is exactly the elements of the children list. */
  ghost predicate AttachedMatches(st: Index)
    requires Consistent(st)
  {
    forall p, c :: p in st.nodes ==> (c in st.childrenOfParents[p] <==> c in st.nodes[p].children)
  }

  /** Every child has a record and sits one segment below its parent. */
  ghost predicate ChildrenBelow(st: Index)
  {
    forall p, i :: p in st.nodes && 0 <= i < |st.nodes[p].children| ==>
      var c := st.nodes[p].children[i];
      c in st.nodes && c == p + [Sep] + LastSegment(c)
  }

  /** Every child has a record with a longer path: what materialisation needs to terminate. */
  ghost predicate ChildrenDeeper(st: Index)
  {
    forall p, i :: p in st.nodes && 0 <= i < |st.nodes[p].children| ==>
      st.nodes[p].children[i] in st.nodes && |st.nodes[p].children[i]| > |p|
  }

  /** The invariant the reducer keeps between any two steps. */
  ghost predicate WF(st: Index)
  {
    && Consistent(st)
    && "" !in st.nodes
    && RecordsNamed(st)
    && ChildrenDistinct(st)
    && AttachedMatches(st)
    && ChildrenBelow(st)
  }

  /** `if (!map.has(p)) { map.set(p, ...); childrenOfParents.set(p, new Set()); }` */
  function Ensure(st: Index, p: string): (r: Index)
    requires Consistent(st)
    ensures Consistent(r) && p in r.nodes
  {
    if p in st.nodes then st
    else Index(st.nodes[p := NewRecord(p)], st.childrenOfParents[p := {}])
  }

  /** `parentNode.children.push(childNode); childrenOfParents.get(parent)!.add(child)` */
  function Link(st: Index, parent: string, child: string): (r: Index)
    requires Consistent(st) && parent in st.nodes
    ensures Consistent(r)
  {
    var pn := st.nodes[parent];
    Index(st.nodes[parent := pn.(children := pn.children + [child])],
          st.childrenOfParents[parent := st.childrenOfParents[parent] + {child}])
  }

  /**
   * One turn of the inner loop: skip an empty parent, create the parent and
   * the child records if missing, and attach the child once.
   */
  function AttachPair(st: Index, parent: string, child: string): (r: Index)
    requires Consistent(st)
    ensures Consistent(r)
  {
    if parent == "" then st
    else
      var st2 := Ensure(Ensure(st, parent), child);
      if child in st2.childrenOfParents[parent] then st2 else Link(st2, parent, child)
  }

  /** The remaining turns of the inner loop: prefixes of k, k - 1, ..., 1 segments. */
  function AddPrefixes(st: Index, segs: seq<string>, k: nat): (r: Index)
    requires Consistent(st) && k <= |segs|
    ensures Consistent(r)
    decreases k
  {
    if k == 0 then st
    else AddPrefixes(AttachPair(st, Join(segs[..k - 1]), Join(segs[..k])), segs, k - 1)
  }

  /** The remaining turns: the turn for the prefix of k segments, then the turns for shorter prefixes. */
  lemma AddPrefixesStep(st: Index, segs: seq<string>, k: nat)
    requires Consistent(st) && 1 <= k <= |segs|
    ensures AddPrefixes(st, segs, k) == AddPrefixes(AttachPair(st, Join(segs[..k - 1]), Join(segs[..k])), segs, k - 1)
  {
  }

  /** The body of `forEach` for one input path. */
  function AddPath(st: Index, path: string): (r: Index)
    requires Consistent(st)
    ensures Consistent(r)
  {
    var segs := Split(path);
    AddPrefixes(st, segs, |segs|)
  }

  /** The state after `forEach` has visited every path, in order. */
  function Build(paths: seq<string>): (r: Index)
    ensures Consistent(r)
  {
    if paths == [] then Empty
    else AddPath(Build(paths[..|paths| - 1]), paths[|paths| - 1])
  }

  /** The record keys of length at least n: shrinks as materialisation goes deeper. */
  ghost function Above(nodes: map<string, NodeRecord>, n: nat): set<string>
  {
    set k | k in nodes && |k| >= n
  }

  /** Going below a record shrinks the set of records still to visit. */
  lemma DeeperShrinks(nodes: map<string, NodeRecord>, p: string, n: nat)
    requires p in nodes && n > |p|
    ensures Above(nodes, n) < Above(nodes, |p|)
  {
    assert p in Above(nodes, |p|) && p !in Above(nodes, n);
  }

  /** The tree below one record, following the child paths. */
  function Materialize(st: Index, p: string): (r: PathNode)
    requires ChildrenDeeper(st) && p in st.nodes
    ensures r.path == p && r.name == st.nodes[p].name
    ensures |r.children| == |st.nodes[p].children|
    decreases Above(st.nodes, |p|), 1, 0
  {
    PathNode(st.nodes[p].name, p, MaterializeChildren(st, p, 0))
  }

  /** `children.map(...)` from the k-th child of record `p` on. */
  function MaterializeChildren(st: Index, p: string, k: nat): (r: seq<PathNode>)
    requires ChildrenDeeper(st) && p in st.nodes && k <= |st.nodes[p].children|
    ensures |r| == |st.nodes[p].children| - k
    decreases Above(st.nodes, |p|), 0, |st.nodes[p].children| - k
  {
    if k == |st.nodes[p].children| then []
    else
      var c := st.nodes[p].children[k];
      DeeperShrinks(st.nodes, p, |c|);
      [Materialize(st, c)] + MaterializeChildren(st, p, k + 1)
  }

  /** `map.has(".") ? map.get(".")!.children : []` */
  function ForestOf(st: Index): (r: seq<PathNode>)
    requires ChildrenDeeper(st)
  {
    if Root in st.nodes then MaterializeChildren(st, Root, 0) else []
  }

  /** The body of the inner loop for a non-empty parent, on the reducer's two maps. */
  method Attach(nodes: map<string, NodeRecord>, childrenOfParents: map<string, set<string>>, parent: string, child: string)
    returns (nodes': map<string, NodeRecord>, childrenOfParents': map<string, set<string>>)
    requires Consistent(Index(nodes, childrenOfParents)) && parent != ""
    ensures Index(nodes', childrenOfParents') == AttachPair(Index(nodes, childrenOfParents), parent, child)
  {
    ghost var before := Index(nodes, childrenOfParents);
    nodes', childrenOfParents' := nodes, childrenOfParents;
    if parent !in nodes' {
      nodes' := nodes'[parent := NodeRecord(LastSegment(parent), parent, [])];
      childrenOfParents' := childrenOfParents'[parent := {}];
    }
    assert Index(nodes', childrenOfParents') == Ensure(before, parent);
    if child !in nodes' {
      nodes' := nodes'[child := NodeRecord(LastSegment(child), child, [])];
      childrenOfParents' := childrenOfParents'[child := {}];
    }
    assert Index(nodes', childrenOfParents') == Ensure(Ensure(before, parent), child);
    if child !in childrenOfParents'[parent] {
      var parentNode := nodes'[parent];
      nodes' := nodes'[parent := parentNode.(children := parentNode.children + [child])];
      childrenOfParents' := childrenOfParents'[parent := childrenOfParents'[parent] + {child}];
    }
  }

  /** The body of `forEach` for one path: walk its prefixes from the longest down. */
  method AddPathTo(nodes: map<string, NodeRecord>, childrenOfParents: map<string, set<string>>, path: string)
    returns (nodes': map<string, NodeRecord>, childrenOfParents': map<string, set<string>>)
    requires Consistent(Index(nodes, childrenOfParents))
    ensures Index(nodes', childrenOfParents') == AddPath(Index(nodes, childrenOfParents), path)
  {
    nodes', childrenOfParents' := nodes, childrenOfParents;
    var segments := Split(path);
    // `segments.length < 1` cannot hold: a split always has a segment.
    for i := 0 to |segments|
      invariant Consistent(Index(nodes', childrenOfParents'))
      invariant AddPrefixes(Index(nodes', childrenOfParents'), segments, |segments| - i)
             == AddPath(Index(nodes, childrenOfParents), path)
    {
      var child := Join(segments[..|segments| - i]);
      var parent := Join(segments[..|segments| - i - 1]);
      AddPrefixesStep(Index(nodes', childrenOfParents'), segments, |segments| - i);
      if parent == "" {
        continue;
      }
      nodes', childrenOfParents' := Attach(nodes', childrenOfParents', parent, child);
    }
  }

  /**
   * `indexFolder`: the imperative reducer, proved to compute the forest of
   * the fold `Build`.
   */
  method IndexFolder(filePaths: seq<string>) returns (forest: seq<PathNode>)
    ensures WF(Build(filePaths)) && ChildrenDeeper(Build(filePaths)) && forest == ForestOf(Build(filePaths))
    ensures filePaths == [] ==> forest == []
  {
    if |filePaths| == 0 {
      BuildWF(filePaths);
      WFDeeper(Build(filePaths));
      return [];
    }
    var nodes: map<string, NodeRecord> := map[];
    var childrenOfParents: map<string, set<string>> := map[];
    for j := 0 to |filePaths|
      invariant Index(nodes, childrenOfParents) == Build(filePaths[..j])
    {
      assert filePaths[..j + 1][..j] == filePaths[..j];
      nodes, childrenOfParents := AddPathTo(nodes, childrenOfParents, filePaths[j]);
    }
    assert filePaths[..|filePaths|] == filePaths;
    BuildWF(filePaths);
    WFDeeper(Build(filePaths));
    forest := ForestOf(Index(nodes, childrenOfParents));
  }

  /** A child one segment below its parent has the longer path. */
  lemma WFDeeper(st: Index)
    requires WF(st)
    ensures ChildrenDeeper(st)
  {
    BelowDeeper(st);
  }

  lemma BelowDeeper(st: Index)
    requires ChildrenBelow(st)
    ensures ChildrenDeeper(st)
  {
    forall p, c | p in st.nodes && c in st.nodes[p].children ensures c in st.nodes && |c| > |p| {
      var name := LastSegment(c);
      assert c == p + [Sep] + name;
      assert |c| == |p| + 1 + |name|;
    }
  }

  lemma EnsureNamed(st: Index, p: string)
    requires Consistent(st) && RecordsNamed(st)
    ensures RecordsNamed(Ensure(st, p))
  {
    var r := Ensure(st, p);
    forall q | q in r.nodes ensures r.nodes[q].path == q && r.nodes[q].name == LastSegment(q) {
      if q != p || p in st.nodes {
        assert r.nodes[q] == st.nodes[q];
      }
    }
  }

  lemma EnsureDistinct(st: Index, p: string)
    requires Consistent(st) && ChildrenDistinct(st)
    ensures ChildrenDistinct(Ensure(st, p))
  {
  }

  lemma EnsureAttached(st: Index, p: string)
    requires Consistent(st) && AttachedMatches(st)
    ensures AttachedMatches(Ensure(st, p))
  {
    var r := Ensure(st, p);
    forall q, c | q in r.nodes ensures c in r.childrenOfParents[q] <==> c in r.nodes[q].children {
      if q != p {
        assert r.nodes[q] == st.nodes[q];
      }
    }
  }

  lemma EnsureBelow(st: Index, p: string)
    requires Consistent(st) && ChildrenBelow(st)
    ensures ChildrenBelow(Ensure(st, p))
  {
    var r := Ensure(st, p);
    forall q, c | q in r.nodes && c in r.nodes[q].children ensures c in r.nodes && c == q + [Sep] + LastSegment(c) {
      if p !in st.nodes {
        assert q != p;
      }
      assert r.nodes[q] == st.nodes[q];
    }
  }

  /** Creating a record for a non-empty path keeps the invariant. */
  lemma EnsureWF(st: Index, p: string)
    requires WF(st) && p != ""
    ensures WF(Ensure(st, p))
  {
    EnsureNamed(st, p);
    EnsureDistinct(st, p);
    EnsureAttached(st, p);
    EnsureBelow(st, p);
  }

  lemma LinkNamed(st: Index, parent: string, child: string)
    requires Consistent(st) && parent in st.nodes && RecordsNamed(st)
    ensures RecordsNamed(Link(st, parent, child))
  {
  }

  lemma LinkDistinct(st: Index, parent: string, child: string)
    requires Consistent(st) && parent in st.nodes && ChildrenDistinct(st) && AttachedMatches(st)
    requires child !in st.childrenOfParents[parent]
    ensures ChildrenDistinct(Link(st, parent, child))
  {
    var r := Link(st, parent, child);
    forall p | p in r.nodes ensures NoDup(r.nodes[p].children) {
      if p == parent {
        assert child !in st.nodes[parent].children;
      }
    }
  }

  lemma LinkAttached(st: Index, parent: string, child: string)
    requires Consistent(st) && parent in st.nodes && AttachedMatches(st)
    ensures AttachedMatches(Link(st, parent, child))
  {
    var r := Link(st, parent, child);
    forall p, c | p in r.nodes ensures c in r.childrenOfParents[p] <==> c in r.nodes[p].children {
      if p == parent {
        assert r.nodes[p].children == st.nodes[p].children + [child];
      }
    }
  }

  lemma LinkBelow(st: Index, parent: string, child: string)
    requires Consistent(st) && parent in st.nodes && child in st.nodes && ChildrenBelow(st)
    requires child == parent + [Sep] + LastSegment(child)
    ensures ChildrenBelow(Link(st, parent, child))
  {
    var r := Link(st, parent, child);
    forall p, c | p in r.nodes && c in r.nodes[p].children ensures c in r.nodes && c == p + [Sep] + LastSegment(c) {
      if p == parent && c != child {
        assert r.nodes[p].children == st.nodes[p].children + [child];
        assert c in st.nodes[p].children;
      }
    }
  }

  /** Attaching a not yet attached child one segment below its parent keeps the invariant. */
  lemma LinkWF(st: Index, parent: string, child: string)
    requires WF(st) && parent in st.nodes && child in st.nodes
    requires child !in st.childrenOfParents[parent]
    requires child == parent + [Sep] + LastSegment(child)
    ensures WF(Link(st, parent, child))
  {
    LinkNamed(st, parent, child);
    LinkDistinct(st, parent, child);
    LinkAttached(st, parent, child);
    LinkBelow(st, parent, child);
  }

  /** Attaching a child whose path extends the parent's by one segment keeps the invariant. */
  lemma AttachPairWF(st: Index, parent: string, seg: string)
    requires WF(st) && parent != "" && Sep !in seg
    ensures WF(AttachPair(st, parent, parent + [Sep] + seg))
  {
    var child := parent + [Sep] + seg;
    LastSegmentOfChild(parent, seg);
    EnsureWF(st, parent);
    EnsureWF(Ensure(st, parent), child);
    var st2 := Ensure(Ensure(st, parent), child);
    if child !in st2.childrenOfParents[parent] {
      LinkWF(st2, parent, child);
    }
  }

  /** The inner loop keeps the invariant. */
  lemma {:induction false} AddPrefixesWF(st: Index, segs: seq<string>, k: nat)
    requires WF(st) && k <= |segs|
    requires forall i :: 0 <= i < |segs| ==> Sep !in segs[i]
    ensures WF(AddPrefixes(st, segs, k))
    decreases k
  {
    if k > 0 {
      var parent := Join(segs[..k - 1]);
      if k >= 2 {
        JoinPrefixStep(segs, k - 1);
        if parent != "" {
          AttachPairWF(st, parent, segs[k - 1]);
        }
      }
      AddPrefixesWF(AttachPair(st, parent, Join(segs[..k])), segs, k - 1);
    }
  }

  /** Every state the fold reaches satisfies the invariant. */
  lemma {:induction false} BuildWF(paths: seq<string>)
    ensures WF(Build(paths))
  {
    if paths != [] {
      BuildWF(paths[..|paths| - 1]);
      AddPrefixesWF(Build(paths[..|paths| - 1]), Split(paths[|paths| - 1]), |Split(paths[|paths| - 1])|);
    }
  }
}

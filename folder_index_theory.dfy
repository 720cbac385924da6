/**
 * What `indexFolder` guarantees, proved about the fold `FolderIndex.Build`
 * that the imperative reducer is proved to compute.
 *
 * The central fact is a set-level description of the state: the attached
 * (parent, child) pairs are exactly the prefix pairs of the input paths, and
 * the records are exactly their endpoints. Idempotence, order independence
 * and the presence of the "." root all follow from it.
 */
module FolderIndexTheory {
  import opened Text
  import opened Tree
  import opened FolderIndex

  /** `child` is attached under `parent`. */
  ghost predicate IsEdge(st: Index, parent: string, child: string)
  {
    parent in st.childrenOfParents && child in st.childrenOfParents[parent]
  }

  /** The (parent, child) pairs the inner loop visits for prefixes of 1..k segments, empty parents skipped. */
  function PrefixPairs(segs: seq<string>, k: nat): set<(string, string)>
    requires k <= |segs|
  {
    if k == 0 then {}
    else
      TurnPair(Join(segs[..k - 1]), Join(segs[..k])) + PrefixPairs(segs, k - 1)
  }

  /** The pairs one input path contributes. */
  function PairsOf(path: string): set<(string, string)>
  {
    PrefixPairs(Split(path), |Split(path)|)
  }

  /** The pairs all input paths contribute. */
  function AllPairs(paths: seq<string>): set<(string, string)>
  {
    if paths == [] then {} else AllPairs(paths[..|paths| - 1]) + PairsOf(paths[|paths| - 1])
  }

  /** Every path that occurs in some pair. */
  function Endpoints(pairs: set<(string, string)>): set<string>
  {
    (set e | e in pairs :: e.0) + (set e | e in pairs :: e.1)
  }

  /** `st'` only adds to `st`: records are never replaced and children are only appended. */
  ghost predicate Extends(st: Index, st': Index)
    requires Consistent(st) && Consistent(st')
  {
    forall p :: p in st.nodes ==>
      && p in st'.nodes
      && st'.nodes[p].name == st.nodes[p].name
      && st.nodes[p].children <= st'.nodes[p].children
      && st.childrenOfParents[p] <= st'.childrenOfParents[p]
  }

  /** The input path starts with the "." segment and has at least one more. */
  predicate DotRooted(path: string)
  {
    |Split(path)| >= 2 && Split(path)[0] == Root
  }

  // ---------------------------------------------------------------------
  // Pairs and endpoints

  lemma EndpointsUnion(a: set<(string, string)>, b: set<(string, string)>)
    ensures Endpoints(a + b) == Endpoints(a) + Endpoints(b)
  {
    var e := Endpoints(a + b);
    forall k | k in Endpoints(a) + Endpoints(b) ensures k in e {
      if k in Endpoints(a) {
        var x :| x in a && (x.0 == k || x.1 == k);
        assert x in a + b;
      } else {
        var x :| x in b && (x.0 == k || x.1 == k);
        assert x in a + b;
      }
    }
  }

  lemma EndpointsPair(p: string, c: string)
    ensures Endpoints({(p, c)}) == {p, c}
  {
    assert (p, c).0 in Endpoints({(p, c)});
    assert (p, c).1 in Endpoints({(p, c)});
  }

  /** The pairs of a prefix walk, spelled out: pair j joins j - 1 and j segments. */
  lemma {:induction false} PrefixPairsMembers(segs: seq<string>, k: nat, a: string, b: string)
    requires k <= |segs|
    ensures (a, b) in PrefixPairs(segs, k) <==>
      exists j :: 1 <= j <= k && a == Join(segs[..j - 1]) && a != "" && b == Join(segs[..j])
  {
    if k > 0 {
      PrefixPairsMembers(segs, k - 1, a, b);
      if a == Join(segs[..k - 1]) && a != "" && b == Join(segs[..k]) {
        assert (a, b) in PrefixPairs(segs, k);
      }
    }
  }

  /** A path's pairs depend only on the set of input paths. */
  lemma {:induction false} AllPairsMembers(paths: seq<string>, e: (string, string))
    ensures e in AllPairs(paths) <==> exists x :: x in paths && e in PairsOf(x)
  {
    if paths != [] {
      var init := paths[..|paths| - 1];
      AllPairsMembers(init, e);
      assert paths == init + [paths[|paths| - 1]];
      if e in AllPairs(paths) && e !in PairsOf(paths[|paths| - 1]) {
        var x :| x in init && e in PairsOf(x);
        assert x in paths;
      }
      if exists x :: x in paths && e in PairsOf(x) {
        var x :| x in paths && e in PairsOf(x);
        if x != paths[|paths| - 1] {
          assert x in init;
        }
      }
    }
  }

  // ---------------------------------------------------------------------
  // The state is described by the pairs

  /** One turn of the inner loop adds exactly its pair and the pair's endpoints. */
  lemma AttachPairEdges(st: Index, parent: string, child: string)
    requires Consistent(st) && parent != ""
    ensures forall a, b :: IsEdge(AttachPair(st, parent, child), a, b) <==> IsEdge(st, a, b) || (a == parent && b == child)
    ensures AttachPair(st, parent, child).nodes.Keys == st.nodes.Keys + {parent, child}
  {
    var s1 := Ensure(st, parent);
    var s2 := Ensure(s1, child);
    var r := AttachPair(st, parent, child);
    EnsureKeys(st, parent);
    EnsureKeys(s1, child);
    var linked := child !in s2.childrenOfParents[parent];
    if linked {
      assert r == Link(s2, parent, child);
    } else {
      assert r == s2;
    }
    forall a, b ensures IsEdge(r, a, b) <==> IsEdge(st, a, b) || (a == parent && b == child) {
      EnsureEdge(st, parent, a, b);
      EnsureEdge(s1, child, a, b);
      if linked {
        LinkEdge(s2, parent, child, a, b);
      }
    }
  }

  /** Creating a record adds its key. */
  lemma EnsureKeys(st: Index, p: string)
    requires Consistent(st)
    ensures Ensure(st, p).nodes.Keys == st.nodes.Keys + {p}
  {
  }

  /** Creating a record attaches nothing. */
  lemma EnsureEdge(st: Index, p: string, a: string, b: string)
    requires Consistent(st)
    ensures IsEdge(Ensure(st, p), a, b) <==> IsEdge(st, a, b)
  {
  }

  /** Attaching a child adds exactly that pair and no key. */
  lemma LinkEdge(st: Index, parent: string, child: string, a: string, b: string)
    requires Consistent(st) && parent in st.nodes
    ensures IsEdge(Link(st, parent, child), a, b) <==> IsEdge(st, a, b) || (a == parent && b == child)
    ensures Link(st, parent, child).nodes.Keys == st.nodes.Keys
  {
  }

  /** The inner loop attaches exactly the prefix pairs. */
  lemma {:induction false} AddPrefixesEdges(st: Index, segs: seq<string>, k: nat)
    requires Consistent(st) && k <= |segs|
    ensures forall a, b :: IsEdge(AddPrefixes(st, segs, k), a, b) <==> IsEdge(st, a, b) || (a, b) in PrefixPairs(segs, k)
    decreases k
  {
    if k > 0 {
      var parent := Join(segs[..k - 1]);
      var child := Join(segs[..k]);
      AddPrefixesEdges(AttachPair(st, parent, child), segs, k - 1);
      if parent != "" {
        AttachPairEdges(st, parent, child);
      }
    }
  }

  /** The pair one turn of the inner loop visits, if its parent is not empty. */
  function TurnPair(parent: string, child: string): set<(string, string)>
  {
    if parent != "" then {(parent, child)} else {}
  }

  lemma AttachPairKeys(st: Index, parent: string, child: string)
    requires Consistent(st)
    ensures AttachPair(st, parent, child).nodes.Keys == st.nodes.Keys + Endpoints(TurnPair(parent, child))
  {
    if parent != "" {
      AttachPairEdges(st, parent, child);
      EndpointsPair(parent, child);
    } else {
      assert Endpoints({}) == {};
    }
  }

  /** The inner loop creates exactly the endpoints of the prefix pairs. */
  lemma {:induction false} AddPrefixesKeys(st: Index, segs: seq<string>, k: nat)
    requires Consistent(st) && k <= |segs|
    ensures AddPrefixes(st, segs, k).nodes.Keys == st.nodes.Keys + Endpoints(PrefixPairs(segs, k))
    decreases k
  {
    if k == 0 {
      assert Endpoints({}) == {};
    } else {
      var parent := Join(segs[..k - 1]);
      var child := Join(segs[..k]);
      var st1 := AttachPair(st, parent, child);
      AddPrefixesKeys(st1, segs, k - 1);
      AttachPairKeys(st, parent, child);
      assert PrefixPairs(segs, k) == TurnPair(parent, child) + PrefixPairs(segs, k - 1);
      EndpointsUnion(TurnPair(parent, child), PrefixPairs(segs, k - 1));
    }
  }

  /**
   * The attached pairs of the final state are exactly the prefix pairs of
   * the input paths, and the records are exactly their endpoints.
   */
  lemma {:induction false} BuildEdges(paths: seq<string>)
    ensures forall a, b :: IsEdge(Build(paths), a, b) <==> (a, b) in AllPairs(paths)
  {
    if paths != [] {
      var init := paths[..|paths| - 1];
      var last := paths[|paths| - 1];
      BuildEdges(init);
      AddPrefixesEdges(Build(init), Split(last), |Split(last)|);
    }
  }

  /** The records of the final state are exactly the endpoints of the prefix pairs of the input paths. */
  lemma {:induction false} BuildKeys(paths: seq<string>)
    ensures Build(paths).nodes.Keys == Endpoints(AllPairs(paths))
  {
    if paths == [] {
      assert Endpoints({}) == {};
    } else {
      var init := paths[..|paths| - 1];
      var last := paths[|paths| - 1];
      BuildKeys(init);
      AddPrefixesKeys(Build(init), Split(last), |Split(last)|);
      EndpointsUnion(AllPairs(init), PairsOf(last));
    }
  }


  /**
   * Order independence: two inputs with the same set of paths (any order,
   * any repetition) give the same records, the same attached pairs and the
   * same names; each record's children hold the same paths, so only sibling
   * order can differ.
   */
  lemma SameSetSameTree(ps: seq<string>, qs: seq<string>)
    requires forall x :: x in ps <==> x in qs
    ensures Build(ps).nodes.Keys == Build(qs).nodes.Keys
    ensures Build(ps).childrenOfParents == Build(qs).childrenOfParents
    ensures forall p :: p in Build(ps).nodes ==>
      && Build(ps).nodes[p].name == Build(qs).nodes[p].name
      && (forall c :: c in Build(ps).nodes[p].children <==> c in Build(qs).nodes[p].children)
  {
    SameSetSamePairs(ps, qs);
    BuildEdges(ps);
    BuildEdges(qs);
    BuildKeys(ps);
    BuildKeys(qs);
    BuildAttached(ps);
    BuildAttached(qs);
    SameEdgesSameSets(Build(ps), Build(qs));
    BuildNamed(ps);
    BuildNamed(qs);
  }

  /** Inputs with the same paths have the same prefix pairs. */
  lemma SameSetSamePairs(ps: seq<string>, qs: seq<string>)
    requires forall x :: x in ps <==> x in qs
    ensures AllPairs(ps) == AllPairs(qs)
  {
    forall e | true ensures e in AllPairs(ps) <==> e in AllPairs(qs) {
      AllPairsMembers(ps, e);
      AllPairsMembers(qs, e);
    }
  }

  /** Two states with the same records and the same attached pairs have the same attached sets. */
  lemma SameEdgesSameSets(s1: Index, s2: Index)
    requires Consistent(s1) && Consistent(s2) && s1.nodes.Keys == s2.nodes.Keys
    requires forall a, b :: IsEdge(s1, a, b) <==> IsEdge(s2, a, b)
    ensures s1.childrenOfParents == s2.childrenOfParents
  {
    forall p | p in s1.childrenOfParents ensures s1.childrenOfParents[p] == s2.childrenOfParents[p] {
      forall c ensures c in s1.childrenOfParents[p] <==> c in s2.childrenOfParents[p] {
        assert IsEdge(s1, p, c) <==> IsEdge(s2, p, c);
      }
    }
  }

  // ---------------------------------------------------------------------
  // Append-only growth and idempotence

  lemma ExtendsTrans(s1: Index, s2: Index, s3: Index)
    requires Consistent(s1) && Consistent(s2) && Consistent(s3)
    requires Extends(s1, s2) && Extends(s2, s3)
    ensures Extends(s1, s3)
  {
  }

  lemma EnsureExtends(st: Index, p: string)
    requires Consistent(st)
    ensures Extends(st, Ensure(st, p))
  {
  }

  lemma LinkExtends(st: Index, parent: string, child: string)
    requires Consistent(st) && parent in st.nodes
    ensures Extends(st, Link(st, parent, child))
  {
  }

  lemma AttachPairExtends(st: Index, parent: string, child: string)
    requires Consistent(st)
    ensures Extends(st, AttachPair(st, parent, child))
  {
    if parent != "" {
      var st1 := Ensure(st, parent);
      var st2 := Ensure(st1, child);
      EnsureExtends(st, parent);
      EnsureExtends(st1, child);
      ExtendsTrans(st, st1, st2);
      if child !in st2.childrenOfParents[parent] {
        LinkExtends(st2, parent, child);
        ExtendsTrans(st, st2, Link(st2, parent, child));
      }
    }
  }

  lemma {:induction false} AddPrefixesExtends(st: Index, segs: seq<string>, k: nat)
    requires Consistent(st) && k <= |segs|
    ensures Extends(st, AddPrefixes(st, segs, k))
    decreases k
  {
    if k > 0 {
      var st1 := AttachPair(st, Join(segs[..k - 1]), Join(segs[..k]));
      AttachPairExtends(st, Join(segs[..k - 1]), Join(segs[..k]));
      AddPrefixesExtends(st1, segs, k - 1);
      ExtendsTrans(st, st1, AddPrefixes(st1, segs, k - 1));
    }
  }

  /**
   * Nodes are created lazily and never replaced, and children are only
   * appended: the state after the first m paths is extended by the final one.
   */
  lemma {:induction false} BuildPrefixExtends(paths: seq<string>, m: nat)
    requires m <= |paths|
    ensures Extends(Build(paths[..m]), Build(paths))
    decreases |paths| - m
  {
    if m == |paths| {
      assert paths[..m] == paths;
    } else {
      var init := paths[..|paths| - 1];
      assert init[..m] == paths[..m];
      BuildPrefixExtends(init, m);
      var last := paths[|paths| - 1];
      AddPrefixesExtends(Build(init), Split(last), |Split(last)|);
      ExtendsTrans(Build(paths[..m]), Build(init), Build(paths));
    }
  }

  /** Turns whose pairs are already attached change nothing. */
  lemma {:induction false} CoveredPrefixesNoop(st: Index, segs: seq<string>, k: nat)
    requires Consistent(st) && k <= |segs|
    requires forall a, b :: (a, b) in PrefixPairs(segs, k) ==> a in st.nodes && b in st.nodes && IsEdge(st, a, b)
    ensures AddPrefixes(st, segs, k) == st
    decreases k
  {
    if k > 0 {
      var parent := Join(segs[..k - 1]);
      var child := Join(segs[..k]);
      if parent != "" {
        assert (parent, child) in PrefixPairs(segs, k);
      }
      assert AttachPair(st, parent, child) == st;
      CoveredPrefixesNoop(st, segs, k - 1);
    }
  }

  /** Idempotence: a path that was already indexed leaves the state unchanged. */
  lemma RepeatedPathNoop(paths: seq<string>, x: string)
    requires x in paths
    ensures Build(paths + [x]) == Build(paths)
  {
    var st := Build(paths);
    assert (paths + [x])[..|paths|] == paths;
    BuildEdges(paths);
    BuildKeys(paths);
    BuildWF(paths);
    forall a, b | (a, b) in PairsOf(x) ensures a in st.nodes && b in st.nodes && IsEdge(st, a, b) {
      AllPairsMembers(paths, (a, b));
      assert (a, b).0 in Endpoints(AllPairs(paths));
      assert (a, b).1 in Endpoints(AllPairs(paths));
    }
    CoveredPrefixesNoop(st, Split(x), |Split(x)|);
  }

  lemma BuildAttached(paths: seq<string>)
    ensures AttachedMatches(Build(paths))
  {
    BuildWF(paths);
  }

  lemma BuildNamed(paths: seq<string>)
    ensures RecordsNamed(Build(paths))
  {
    BuildWF(paths);
  }

  lemma BuildDistinct(paths: seq<string>)
    ensures ChildrenDistinct(Build(paths))
  {
    BuildWF(paths);
  }

  lemma BuildDeeper(paths: seq<string>)
    ensures ChildrenDeeper(Build(paths))
  {
    BuildWF(paths);
    WFDeeper(Build(paths));
  }

  // ---------------------------------------------------------------------
  // The "." root

  /** Only a "."-rooted path yields a pair with parent ".", and "." is never a child. */
  lemma RootPairs(x: string)
    ensures DotRooted(x) ==> (Root, Join(Split(x)[..2])) in PairsOf(x)
    ensures forall c :: (Root, c) in PairsOf(x) ==> DotRooted(x)
    ensures forall a :: (a, Root) !in PairsOf(x)
  {
    var segs := Split(x);
    if DotRooted(x) {
      assert segs[..1] == [Root];
      PrefixPairsMembers(segs, |segs|, Root, Join(segs[..2]));
    }
    forall a, b | (a, b) in PairsOf(x) ensures Sep in b && (a == Root ==> DotRooted(x)) {
      PrefixPairsMembers(segs, |segs|, a, b);
      var j :| 1 <= j <= |segs| && a == Join(segs[..j - 1]) && a != "" && b == Join(segs[..j]);
      assert j >= 2;
      JoinHasSep(segs[..j]);
      if j - 1 >= 2 {
        JoinHasSep(segs[..j - 1]);
      }
    }
  }

  /**
   * The result is non-empty exactly when some input path starts with the
   * "." segment and has at least one more; otherwise `map.has(".")` fails
   * and `[]` comes back.
   */
  lemma ForestNonEmptyIff(paths: seq<string>)
    ensures ChildrenDeeper(Build(paths))
    ensures |ForestOf(Build(paths))| > 0 <==> exists x :: x in paths && DotRooted(x)
  {
    var st := Build(paths);
    BuildAttached(paths);
    BuildDeeper(paths);
    BuildEdges(paths);
    BuildKeys(paths);
    if exists x :: x in paths && DotRooted(x) {
      var x :| x in paths && DotRooted(x);
      RootPairs(x);
      var c := Join(Split(x)[..2]);
      AllPairsMembers(paths, (Root, c));
      assert IsEdge(st, Root, c);
      assert (Root, c).0 in Endpoints(AllPairs(paths));
      assert c in st.nodes[Root].children;
    }
    if |ForestOf(st)| > 0 {
      var c := st.nodes[Root].children[0];
      assert IsEdge(st, Root, c);
      AllPairsMembers(paths, (Root, c));
      var x :| x in paths && (Root, c) in PairsOf(x);
      RootPairs(x);
    }
  }

  // ---------------------------------------------------------------------
  // The materialised tree

  /** The materialised children of `p` from the k-th on: the k-th child's tree, then the rest. */
  lemma ChildrenUnfold(st: Index, p: string, k: nat)
    requires ChildrenDeeper(st) && p in st.nodes && k < |st.nodes[p].children|
    ensures var c := st.nodes[p].children[k];
      && c in st.nodes
      && MaterializeChildren(st, p, k)[0] == Materialize(st, c)
      && Materialize(st, c).children == MaterializeChildren(st, c, 0)
      && MaterializeChildren(st, p, k)[1..] == MaterializeChildren(st, p, k + 1)
      && Paths(MaterializeChildren(st, p, k))
         == {c} + Paths(MaterializeChildren(st, c, 0)) + Paths(MaterializeChildren(st, p, k + 1))
  {
    var f := MaterializeChildren(st, p, k);
    assert f == [Materialize(st, st.nodes[p].children[k])] + MaterializeChildren(st, p, k + 1);
    assert f[1..] == MaterializeChildren(st, p, k + 1);
  }

  /** Every node of a materialised forest is a record: no node is invented. */
  lemma {:induction false} ChildrenRecords(st: Index, p: string, k: nat)
    requires ChildrenDeeper(st) && p in st.nodes && k <= |st.nodes[p].children|
    ensures Paths(MaterializeChildren(st, p, k)) <= st.nodes.Keys
    decreases Above(st.nodes, |p|), |st.nodes[p].children| - k
  {
    if k < |st.nodes[p].children| {
      var c := st.nodes[p].children[k];
      ChildrenUnfold(st, p, k);
      DeeperShrinks(st.nodes, p, |c|);
      ChildrenRecords(st, c, 0);
      ChildrenRecords(st, p, k + 1);
    }
  }

  /** A listed child itself occurs in the materialised forest of its siblings. */
  lemma {:induction false} ChildOccurs(st: Index, p: string, k: nat, i: nat)
    requires ChildrenDeeper(st) && p in st.nodes && k <= i < |st.nodes[p].children|
    ensures st.nodes[p].children[i] in Paths(MaterializeChildren(st, p, k))
    decreases i - k
  {
    var ch := st.nodes[p].children;
    ChildrenUnfold(st, p, k);
    var here := Paths(MaterializeChildren(st, p, k));
    if k < i {
      ChildOccurs(st, p, k + 1, i);
      assert Paths(MaterializeChildren(st, p, k + 1)) <= here;
      assert ch[i] in here;
    } else {
      assert ch[k] in here;
      assert ch[i] in here;
    }
  }

  /** A materialised forest is closed under the children relation of the records. */
  lemma {:induction false} ChildrenClosed(st: Index, p: string, k: nat, q: string, c: string)
    requires ChildrenDeeper(st) && p in st.nodes && k <= |st.nodes[p].children|
    requires q in Paths(MaterializeChildren(st, p, k)) && q in st.nodes && c in st.nodes[q].children
    ensures c in Paths(MaterializeChildren(st, p, k))
    decreases Above(st.nodes, |p|), |st.nodes[p].children| - k
  {
    var c0 := st.nodes[p].children[k];
    ChildrenUnfold(st, p, k);
    if q == c0 {
      var i :| 0 <= i < |st.nodes[q].children| && st.nodes[q].children[i] == c;
      ChildOccurs(st, q, 0, i);
    } else if q in Paths(MaterializeChildren(st, c0, 0)) {
      DeeperShrinks(st.nodes, p, |c0|);
      ChildrenClosed(st, c0, 0, q, c);
    } else {
      ChildrenClosed(st, p, k + 1, q, c);
    }
  }

  /** Each step down a "."-rooted input path is an attached pair of the final state. */
  lemma InputEdge(paths: seq<string>, x: string, k: nat)
    requires x in paths && DotRooted(x) && 2 <= k <= |Split(x)|
    ensures ChildrenDeeper(Build(paths))
    ensures Join(Split(x)[..k - 1]) in Build(paths).nodes
    ensures Join(Split(x)[..k]) in Build(paths).nodes[Join(Split(x)[..k - 1])].children
  {
    var st := Build(paths);
    BuildAttached(paths);
    BuildDeeper(paths);
    BuildEdges(paths);
    var segs := Split(x);
    var parent := Join(segs[..k - 1]);
    var child := Join(segs[..k]);
    if k - 1 >= 2 {
      JoinHasSep(segs[..k - 1]);
    } else {
      assert segs[..1] == [Root];
    }
    PrefixPairsMembers(segs, |segs|, parent, child);
    AllPairsMembers(paths, (parent, child));
    assert IsEdge(st, parent, child);
  }

  /** The prefix of k segments of a "."-rooted input path is a node of the returned forest. */
  lemma {:induction false} PrefixReachable(paths: seq<string>, x: string, k: nat)
    requires x in paths && DotRooted(x) && 2 <= k <= |Split(x)|
    ensures ChildrenDeeper(Build(paths)) && Join(Split(x)[..k]) in Paths(ForestOf(Build(paths)))
  {
    var st := Build(paths);
    var segs := Split(x);
    InputEdge(paths, x, 2);
    assert segs[..1] == [Root];
    assert Root in st.nodes;
    assert ForestOf(st) == MaterializeChildren(st, Root, 0);
    InputEdge(paths, x, k);
    var parent := Join(segs[..k - 1]);
    var child := Join(segs[..k]);
    var i :| 0 <= i < |st.nodes[parent].children| && st.nodes[parent].children[i] == child;
    if k == 2 {
      ChildOccurs(st, Root, 0, i);
    } else {
      PrefixReachable(paths, x, k - 1);
      ChildrenClosed(st, Root, 0, parent, child);
    }
  }

  /** Every "."-rooted input path is the path of some node of the returned forest. */
  lemma InputPathReachable(paths: seq<string>, x: string)
    requires x in paths && DotRooted(x)
    ensures ChildrenDeeper(Build(paths)) && x in Paths(ForestOf(Build(paths)))
  {
    var segs := Split(x);
    PrefixReachable(paths, x, |segs|);
    assert segs[..|segs|] == segs;
    JoinSplit(x);
  }

  /** In the materialised forest each node's path is its parent's path, "/", and its name, which is its last segment. */
  ghost predicate WellLinked(forest: seq<PathNode>, parentPath: string)
  {
    forest != [] ==>
      && forest[0].path == parentPath + [Sep] + forest[0].name
      && forest[0].name == LastSegment(forest[0].path)
      && WellLinked(forest[0].children, forest[0].path)
      && WellLinked(forest[1..], parentPath)
  }

  /** The materialised children of a record hang correctly from it. */
  lemma {:induction false} ChildrenWellLinked(st: Index, p: string, k: nat)
    requires ChildrenDeeper(st) && RecordsNamed(st) && ChildrenBelow(st)
    requires p in st.nodes && k <= |st.nodes[p].children|
    ensures WellLinked(MaterializeChildren(st, p, k), p)
    decreases Above(st.nodes, |p|), |st.nodes[p].children| - k
  {
    if k < |st.nodes[p].children| {
      var c := st.nodes[p].children[k];
      ChildrenUnfold(st, p, k);
      assert c == p + [Sep] + LastSegment(c);
      DeeperShrinks(st.nodes, p, |c|);
      ChildrenWellLinked(st, c, 0);
      ChildrenWellLinked(st, p, k + 1);
    }
  }

  /**
   * The returned forest is a tree hanging from ".": every node's path is its
   * parent's path, "/", and its name, and its name is its last segment.
   */
  lemma ForestWellLinked(paths: seq<string>)
    ensures ChildrenDeeper(Build(paths)) && WellLinked(ForestOf(Build(paths)), Root)
  {
    BuildWF(paths);
    var st := Build(paths);
    WFDeeper(st);
    if Root in st.nodes {
      ChildrenWellLinked(st, Root, 0);
    }
  }

  /** A child hangs under exactly one parent: the state is a tree, not a graph. */
  lemma ParentUnique(st: Index, p1: string, p2: string, c: string)
    requires ChildrenBelow(st) && p1 in st.nodes && p2 in st.nodes
    requires c in st.nodes[p1].children && c in st.nodes[p2].children
    ensures p1 == p2
  {
    var name := LastSegment(c);
    assert c == p1 + [Sep] + name && c == p2 + [Sep] + name;
    assert p1 == c[..|c| - |name| - 1] == p2;
  }

  /** An attached pair of the state after some paths comes from one of those paths. */
  lemma EdgeSource(paths: seq<string>, a: string, b: string)
    requires IsEdge(Build(paths), a, b)
    ensures exists m :: 0 <= m < |paths| && (a, b) in PairsOf(paths[m])
  {
    BuildEdges(paths);
    AllPairsSource(paths, (a, b));
  }

  lemma {:induction false} AllPairsSource(paths: seq<string>, e: (string, string))
    requires e in AllPairs(paths)
    ensures exists m :: 0 <= m < |paths| && e in PairsOf(paths[m])
  {
    var n := |paths| - 1;
    if e !in PairsOf(paths[n]) {
      var init := paths[..n];
      AllPairsSource(init, e);
      var m :| 0 <= m < |init| && e in PairsOf(init[m]);
      assert init[m] == paths[m];
    }
  }

  /** The pairs of the m-th path are attached once it has been indexed. */
  lemma EdgeOfIndexed(paths: seq<string>, m: nat, a: string, b: string)
    requires m < |paths| && (a, b) in PairsOf(paths[m])
    ensures IsEdge(Build(paths[..m + 1]), a, b)
  {
    var pre := paths[..m + 1];
    BuildEdges(pre);
    assert pre[m] == paths[m];
    AllPairsMembers(pre, (a, b));
  }

  /** In a children list that only grew by appending, an earlier sibling was there first. */
  lemma EarlierSiblingPresent(early: seq<string>, late: seq<string>, i: nat, j: nat)
    requires early <= late && NoDup(late) && i < j < |late| && late[j] in early
    ensures late[i] in early
  {
    var pos :| 0 <= pos < |early| && early[pos] == late[j];
    assert late[pos] == late[j];
    assert early[i] == late[i];
  }

  /**
   * Siblings appear in first-seen order: any input path that yields a later
   * sibling is preceded, or matched, by one that yields the earlier sibling.
   */
  lemma SiblingsInFirstSeenOrder(paths: seq<string>, p: string, i: nat, j: nat, m: nat)
    requires p in Build(paths).nodes
    requires i < j < |Build(paths).nodes[p].children|
    requires m < |paths| && (p, Build(paths).nodes[p].children[j]) in PairsOf(paths[m])
    ensures exists m' :: 0 <= m' <= m && (p, Build(paths).nodes[p].children[i]) in PairsOf(paths[m'])
  {
    var ch := Build(paths).nodes[p].children;
    var pre := paths[..m + 1];
    var early := Build(pre);
    EdgeOfIndexed(paths, m, p, ch[j]);
    BuildAttached(pre);
    BuildDistinct(paths);
    BuildPrefixExtends(paths, m + 1);
    var ech := early.nodes[p].children;
    EarlierSiblingPresent(ech, ch, i, j);
    assert IsEdge(early, p, ch[i]);
    EdgeSource(pre, p, ch[i]);
    var m' :| 0 <= m' < |pre| && (p, ch[i]) in PairsOf(pre[m']);
    assert pre[m'] == paths[m'];
  }
}

/**
 * The second step of `_build`: collect the nodes without parents and, when there are several,
 * put the synthetic root `(-1, 0)` above them with edges of weight 1, so that the hierarchy has
 * a single top node.
 */
module Rooting {
  import opened Wrappers
  import opened Seqs
  import opened Graph
  import opened Digraphs

  /** `_build`'s `roots`: the nodes of `ns` that no edge of `es` enters, in node order. */
  function SourcesOf(ns: seq<Node>, es: seq<Edge>): seq<Node> {
    Filter(ns, (x: Node) => PredecessorsIn(es, x) == [])
  }

  /** The edges from the synthetic root to each of `roots`, in order. */
  function RootEdges(roots: seq<Node>): seq<Edge> {
    seq(|roots|, k requires 0 <= k < |roots| => (Root, roots[k]))
  }

  /** The top node `_build` settles on: the synthetic root, the only source, or an error. */
  function RootOf(ns: seq<Node>, es: seq<Edge>): Result<Node> {
    var roots := SourcesOf(ns, es);
    if |roots| > 1 then Ok(Root)
    else if |roots| == 1 then Ok(roots[0])
    else Err(NoRoot)
  }

  /** The nodes after rooting. */
  function RootedNodes(ns: seq<Node>, es: seq<Edge>): seq<Node> {
    if |SourcesOf(ns, es)| > 1 then ns + [Root] else ns
  }

  /** The edges after rooting. */
  function RootedEdges(ns: seq<Node>, es: seq<Edge>): seq<Edge> {
    var roots := SourcesOf(ns, es);
    if |roots| > 1 then es + RootEdges(roots) else es
  }

  /** The attributes `_build` gives the synthetic root: index -1, level -1, label True. */
  const RootInfo := NodeInfo(-1, -1, 1)

  /**
   * `_build`, lines 310-321: with several parentless nodes, adds the root `(-1, 0)` and an edge
   * of weight 1 from it to each of them; with one, that node is the root; with none, the
   * Python code fails on `roots[0]`.
   */
  method AddRoot(g: Digraph) returns (r: Result<Node>)
    requires g.Valid() && Root !in g.nodes
    modifies g
    ensures g.Valid()
    ensures r == RootOf(old(g.nodes), old(g.edges))
    ensures g.nodes == RootedNodes(old(g.nodes), old(g.edges))
    ensures g.edges == RootedEdges(old(g.nodes), old(g.edges))
    ensures RootWeights(old(g.weight), g.weight)
    ensures g.info == if |SourcesOf(old(g.nodes), old(g.edges))| > 1 then old(g.info)[Root := RootInfo] else old(g.info)
    ensures g.depth == old(g.depth)
  {
    var roots := FindRoots(g);
    if |roots| > 1 {
      g.AddNode(Root, RootInfo);
      LinkRoots(g, roots);
      r := Ok(Root);
    } else if |roots| == 1 {
      r := Ok(roots[0]);
    } else {
      // `roots[0]` raises IndexError
      r := Err(NoRoot);
    }
  }

  /** The loop over `G.in_degree()` that collects the parentless nodes. */
  method FindRoots(g: Digraph) returns (roots: seq<Node>)
    requires g.Valid()
    ensures roots == SourcesOf(g.nodes, g.edges)
  {
    var nodes, edges := g.nodes, g.edges;
    roots := [];
    for k := 0 to |nodes|
      invariant roots == SourcesOf(nodes[..k], edges)
    {
      assert nodes[..k + 1] == nodes[..k] + [nodes[k]];
      FilterAppend(nodes[..k], nodes[k], (x: Node) => PredecessorsIn(edges, x) == []);
      if PredecessorsIn(edges, nodes[k]) == [] {
        roots := roots + [nodes[k]];
      }
    }
    assert nodes[..|nodes|] == nodes;
  }

  /** The weights `w` keep those of `w0` and give weight 1 to the new edges, all out of the root. */
  ghost predicate RootWeights(w0: map<Edge, real>, w: map<Edge, real>) {
    (forall e :: e in w0 ==> e in w && w[e] == w0[e])
    && forall e :: e in w && e !in w0 ==> e.0 == Root && w[e] == 1.0
  }

  /** `for node in roots: G.add_edge(root, node, weight=1.)`. */
  method LinkRoots(g: Digraph, roots: seq<Node>)
    requires g.Valid() && NoDup(roots) && Root in g.nodes
    requires forall x :: x in roots ==> x in g.nodes
    requires forall e :: e in g.edges ==> e.0 != Root
    modifies g
    ensures g.Valid()
    ensures g.nodes == old(g.nodes)
    ensures g.edges == old(g.edges) + RootEdges(roots)
    ensures RootWeights(old(g.weight), g.weight)
    ensures g.info == old(g.info) && g.depth == old(g.depth)
  {
    for k := 0 to |roots|
      invariant g.Valid()
      invariant g.nodes == old(g.nodes)
      invariant g.edges == old(g.edges) + RootEdges(roots[..k])
      invariant RootWeights(old(g.weight), g.weight)
      invariant g.info == old(g.info) && g.depth == old(g.depth)
    {
      assert (Root, roots[k]) !in g.edges by {
        assert forall j :: 0 <= j < k ==> roots[j] != roots[k];
      }
      assert (Root, roots[k]) !in old(g.weight);
      g.AddEdge(Root, roots[k], 1.0);
      assert roots[..k + 1] == roots[..k] + [roots[k]];
      assert RootEdges(roots[..k + 1]) == RootEdges(roots[..k]) + [(Root, roots[k])];
    }
    assert roots[..|roots|] == roots;
  }

  /** A node is collected exactly when it is a node that no edge enters. */
  lemma SourcesMembers(ns: seq<Node>, es: seq<Edge>, x: Node)
    ensures x in SourcesOf(ns, es) <==> x in ns && NoEdgeInto(Elems(es), x)
  {
    if x in ns && NoEdgeInto(Elems(es), x) {
      if PredecessorsIn(es, x) != [] {
        assert PredecessorsIn(es, x)[0] in PredecessorsIn(es, x);
      }
    }
  }

  /** Nodes, with edges between nodes and the root not among them. */
  predicate Unrooted(ns: seq<Node>, es: seq<Edge>) {
    NoDup(ns) && Root !in ns && forall e :: e in es ==> e.0 in ns && e.1 in ns
  }

  /** After rooting, the top node is the one node that no edge enters. */
  lemma RootIsOnlySource(ns: seq<Node>, es: seq<Edge>)
    requires Unrooted(ns, es) && RootOf(ns, es).Ok?
    ensures RootOf(ns, es).value in RootedNodes(ns, es)
    ensures forall v :: v in RootedNodes(ns, es) ==>
      (NoEdgeInto(Elems(RootedEdges(ns, es)), v) <==> v == RootOf(ns, es).value)
  {
    var S := SourcesOf(ns, es);
    var E' := Elems(RootedEdges(ns, es));
    forall v | v in RootedNodes(ns, es)
      ensures NoEdgeInto(E', v) <==> v == RootOf(ns, es).value
    {
      SourcesMembers(ns, es, v);
      if |S| > 1 {
        assert forall e :: e in E' ==> e in es || (e.0 == Root && e.1 in S);
        if v in S {
          var k :| 0 <= k < |S| && S[k] == v;
          assert RootEdges(S)[k] == (Root, v);
          assert (Root, v) in E';
        }
      } else {
        assert S[0] in S;
        SourcesMembers(ns, es, S[0]);
        if v != S[0] {
          assert v !in S by {
            assert forall k :: 0 <= k < |S| ==> S[k] == S[0];
          }
        }
      }
    }
    if |S| == 1 {
      assert S[0] in S;
    }
  }

  /**
   * For an acyclic graph, rooting fails only when the graph has no node; otherwise the graph
   * stays acyclic and every node is reachable from the top node.
   */
  lemma RootReachesAll(ns: seq<Node>, es: seq<Edge>)
    requires Unrooted(ns, es) && Acyclic(Elems(es))
    ensures RootOf(ns, es).Ok? <==> ns != []
    ensures RootOf(ns, es).Ok? ==> Acyclic(Elems(RootedEdges(ns, es)))
    ensures RootOf(ns, es).Ok? ==>
      forall v :: v in RootedNodes(ns, es) ==> v in Reach(Elems(RootedEdges(ns, es)), {RootOf(ns, es).value})
  {
    AcyclicRanked(Elems(es));
    if ns != [] {
      var s := SourceAbove(Elems(es), Elems(ns), ReachRank(Elems(es)), ns[0]);
      SourcesMembers(ns, es, s);
    }
    if RootOf(ns, es).Ok? {
      RootedAcyclic(ns, es);
      RootedReach(ns, es);
    }
  }

  /** Linking the sources under the new root adds no cycle. */
  lemma RootedAcyclic(ns: seq<Node>, es: seq<Edge>)
    requires Unrooted(ns, es) && Acyclic(Elems(es)) && RootOf(ns, es).Ok?
    ensures Acyclic(Elems(RootedEdges(ns, es)))
  {
    var S := SourcesOf(ns, es);
    if |S| > 1 {
      var E, F := Elems(es), Elems(RootEdges(S));
      assert Elems(RootedEdges(ns, es)) == E + F;
      forall e: Edge | e in E + F ensures e.1 != Root { }
      AddSourceAcyclic(E, F, Root);
    }
  }

  /** Every node of the rooted graph lies below the top node. */
  lemma RootedReach(ns: seq<Node>, es: seq<Edge>)
    requires Unrooted(ns, es) && Acyclic(Elems(es)) && RootOf(ns, es).Ok?
    ensures forall v :: v in RootedNodes(ns, es) ==> v in Reach(Elems(RootedEdges(ns, es)), {RootOf(ns, es).value})
  {
    AcyclicRanked(Elems(es));
    forall v | v in RootedNodes(ns, es) && v != Root
      ensures v in Reach(Elems(RootedEdges(ns, es)), {RootOf(ns, es).value})
    {
      var s := SourceAbove(Elems(es), Elems(ns), ReachRank(Elems(es)), v);
      BelowSource(ns, es, s, v);
    }
  }

  /** A node below the source `s` of the original graph lies below the top node. */
  lemma BelowSource(ns: seq<Node>, es: seq<Edge>, s: Node, v: Node)
    requires Unrooted(ns, es) && RootOf(ns, es).Ok?
    requires s in ns && NoEdgeInto(Elems(es), s) && v in Reach(Elems(es), {s})
    ensures v in Reach(Elems(RootedEdges(ns, es)), {RootOf(ns, es).value})
  {
    var S := SourcesOf(ns, es);
    var E' := Elems(RootedEdges(ns, es));
    SourcesMembers(ns, es, s);
    ReachMonoEdges(Elems(es), E', {s});
    if |S| > 1 {
      var k :| 0 <= k < |S| && S[k] == s;
      assert RootEdges(S)[k] == (Root, s);
      ReachStep(E', Root, s);
      ReachTrans(E', Root, s, v);
    } else {
      assert S == [S[0]];
    }
  }
}

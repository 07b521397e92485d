/**
 * `prune(T)`: first removes, round after round, every cluster node without children (so that
 * clusters with no terminal below them disappear), then collapses the clusters that form a
 * single branch into their parent, visiting the nodes in breadth-first order.
 */
module Pruning {
  import opened Wrappers
  import opened Seqs
  import opened Graph
  import opened Digraphs

  /** No terminal lies below `x`: every node `x` reaches is a cluster node. */
  ghost predicate Dead(E: set<Edge>, x: Node) {
    forall y :: y in Reach(E, {x}) ==> y.Internal?
  }

  /** The nodes with at least one child. */
  function Tails(E: set<Edge>): set<Node> {
    set e | e in E :: e.0
  }

  /** The test "lies in `K`". */
  function InSet(K: set<Node>): Node -> bool {
    (x: Node) => x in K
  }

  /** The test "both ends lie in `K`". */
  function BothIn(K: set<Node>): Edge -> bool {
    (e: Edge) => e.0 in K && e.1 in K
  }

  /** A graph state as a value: nodes, edges, weights and node attributes, as `Valid` shapes them. */
  predicate Shaped(N: seq<Node>, E: seq<Edge>, W: map<Edge, real>, I: map<Node, NodeInfo>, D: map<Node, int>) {
    NoDup(N) && NoDup(E) && W.Keys == Elems(E)
    && (forall e :: e in E ==> e.0 in N && e.1 in N)
    && I.Keys <= Elems(N) && D.Keys <= Elems(N)
  }

  /** `g` is the graph `(N, E, W, I, D)` with every node outside `K` removed. */
  ghost predicate Remains(g: Digraph, N: seq<Node>, E: seq<Edge>, W: map<Edge, real>,
                          I: map<Node, NodeInfo>, D: map<Node, int>, K: set<Node>)
    reads g
  {
    g.nodes == Filter(N, InSet(K))
    && g.edges == Filter(E, BothIn(K))
    && g.weight == (map e | e in W && e.0 in K && e.1 in K :: W[e])
    && g.info == (map x | x in I && x in K :: I[x])
    && g.depth == (map x | x in D && x in K :: D[x])
  }

  /** The graph value `t` with every node outside `K` removed, as `Remains` describes it. */
  function Restricted(t: GraphValue, K: set<Node>): GraphValue {
    GraphValue(Filter(t.nodes, InSet(K)), Filter(t.edges, BothIn(K)),
               map e | e in t.weight && e.0 in K && e.1 in K :: t.weight[e],
               map x | x in t.info && x in K :: t.info[x],
               map x | x in t.depth && x in K :: t.depth[x])
  }

  /** Restricting a map to a set that holds all its keys changes nothing. */
  lemma RestrictAll<V>(M: map<Node, V>, K: set<Node>)
    requires M.Keys <= K
    ensures (map x | x in M && x in K :: M[x]) == M
  {
  }

  /** Restricting the weights to edges inside a set that holds every endpoint changes nothing. */
  lemma RestrictAllEdges(W: map<Edge, real>, K: set<Node>)
    requires forall e :: e in W ==> e.0 in K && e.1 in K
    ensures (map e | e in W && e.0 in K && e.1 in K :: W[e]) == W
  {
  }

  /** A graph is what remains of itself when every node is kept. */
  lemma RemainsStart(g: Digraph)
    requires g.Valid()
    ensures Remains(g, g.nodes, g.edges, g.weight, g.info, g.depth, Elems(g.nodes))
  {
    var K := Elems(g.nodes);
    FilterAll(g.nodes, InSet(K));
    FilterAll(g.edges, BothIn(K));
    RestrictAllEdges(g.weight, K);
    RestrictAll(g.info, K);
    RestrictAll(g.depth, K);
  }

  /** What remains of a graph is described by the nodes that are left. */
  lemma RemainsSelf(g: Digraph, N: seq<Node>, E: seq<Edge>, W: map<Edge, real>,
                    I: map<Node, NodeInfo>, D: map<Node, int>, K: set<Node>)
    requires Shaped(N, E, W, I, D) && Remains(g, N, E, W, I, D, K)
    ensures Remains(g, N, E, W, I, D, Elems(g.nodes))
  {
    var K' := Elems(g.nodes);
    assert forall x :: x in N ==> (x in K <==> x in K');
    FilterSame(N, InSet(K), InSet(K'));
    FilterSame(E, BothIn(K), BothIn(K'));
    RestrictSameEdges(W, K, K');
    RestrictSame(I, K, K');
    RestrictSame(D, K, K');
  }

  lemma RestrictSame<V>(M: map<Node, V>, K: set<Node>, K': set<Node>)
    requires forall x :: x in M ==> (x in K <==> x in K')
    ensures (map x | x in M && x in K :: M[x]) == (map x | x in M && x in K' :: M[x])
  {
  }

  lemma RestrictSameEdges(W: map<Edge, real>, K: set<Node>, K': set<Node>)
    requires forall e :: e in W ==> (e.0 in K <==> e.0 in K') && (e.1 in K <==> e.1 in K')
    ensures (map e | e in W && e.0 in K && e.1 in K :: W[e]) == (map e | e in W && e.0 in K' && e.1 in K' :: W[e])
  {
  }

  /** Removing one more node `n` from the listed nodes and edges of what remains. */
  lemma RemainsDrop(N: seq<Node>, E: seq<Edge>, K: set<Node>, n: Node)
    ensures Filter(Filter(N, InSet(K)), Other(n)) == Filter(N, InSet(K - {n}))
    ensures EdgesAvoiding(Filter(E, BothIn(K)), n) == Filter(E, BothIn(K - {n}))
  {
    FilterBoth(N, InSet(K), Other(n), InSet(K - {n}));
    FilterBoth(E, BothIn(K), Avoids(n), BothIn(K - {n}));
  }

  /** Removing one more node `n` from the weights of what remains. */
  lemma RestrictDropEdges(W: map<Edge, real>, K: set<Node>, n: Node)
    ensures var V := map e | e in W && e.0 in K && e.1 in K :: W[e];
      (map e | e in V && e.0 != n && e.1 != n :: V[e]) == (map e | e in W && e.0 in K - {n} && e.1 in K - {n} :: W[e])
  {
  }

  /** Removing one more node `n` from a node attribute of what remains. */
  lemma RestrictDrop<V>(M: map<Node, V>, K: set<Node>, n: Node)
    ensures (map x | x in M && x in K :: M[x]) - {n} == (map x | x in M && x in K - {n} :: M[x])
  {
  }

  /** A cluster node whose children all have no terminal below them has none either. */
  lemma DeadStep(E: set<Edge>, x: Node)
    requires x.Internal?
    requires forall y :: (x, y) in E ==> Dead(E, y)
    ensures Dead(E, x)
  {
    forall z | z in Reach(E, {x}) ensures z.Internal? {
      if z != x {
        var c := FirstStep(E, x, z);
      }
    }
  }

  /** A node has a child exactly when its successor list is not empty. */
  lemma NoChild(es: seq<Edge>, x: Node)
    ensures x in Tails(Elems(es)) <==> SuccessorsIn(es, x) != []
  {
    if x in Tails(Elems(es)) {
      var e :| e in Elems(es) && e.0 == x;
      assert e.1 in SuccessorsIn(es, x);
    }
    if SuccessorsIn(es, x) != [] {
      assert (x, SuccessorsIn(es, x)[0]) in Elems(es);
    }
  }

  /** `T.out_degree(internal_nodes)`, as a list of values. */
  function OutDegrees(es: seq<Edge>, xs: seq<Node>): (r: seq<nat>)
    ensures |r| == |xs| && forall k :: 0 <= k < |xs| ==> r[k] == |SuccessorsIn(es, xs[k])|
  {
    seq(|xs|, k requires 0 <= k < |xs| => |SuccessorsIn(es, xs[k])|)
  }

  /** `0 in out_degrees` holds exactly when some listed node has no child. */
  lemma ZeroDegree(es: seq<Edge>, xs: seq<Node>)
    ensures 0 in OutDegrees(es, xs) <==> exists x :: x in xs && x !in Tails(Elems(es))
  {
    var r := OutDegrees(es, xs);
    forall x | x in xs ensures x in Tails(Elems(es)) <==> SuccessorsIn(es, x) != [] {
      NoChild(es, x);
    }
    if 0 in r {
      var k :| 0 <= k < |xs| && r[k] == 0;
      assert xs[k] in xs;
    }
    if exists x :: x in xs && x !in Tails(Elems(es)) {
      var x :| x in xs && x !in Tails(Elems(es));
      var k :| 0 <= k < |xs| && xs[k] == x;
      assert r[k] == 0;
    }
  }

  /** A list without repeats loses length when it loses an element. */
  lemma Shrinks(xs: seq<Node>, ys: seq<Node>, x: Node)
    requires NoDup(xs) && NoDup(ys) && (forall y :: y in ys ==> y in xs)
    requires x in xs && x !in ys
    ensures |ys| < |xs|
  {
    NoDupCard(xs);
    NoDupCard(ys);
    assert x in Elems(xs) && x !in Elems(ys);
    assert Elems(ys) < Elems(xs);
    SubsetCard(Elems(ys), Elems(xs));
  }

  /** Nodes outside `K` are dead cluster nodes of the original edges. */
  ghost predicate DeadOutside(N: seq<Node>, E: seq<Edge>, K: set<Node>) {
    forall x :: x in N && x !in K ==> x.Internal? && Dead(Elems(E), x)
  }

  /**
   * `prune`, lines 969-979: while some cluster node has no child, sweeps the cluster nodes from
   * last to first and removes each one that has no child at the time it is visited.
   */
  method RemoveDeadEnds(g: Digraph)
    requires g.Valid()
    modifies g
    ensures g.Valid()
    ensures forall x :: x in g.nodes && x.Internal? ==> x in Tails(g.EdgeSet())
    ensures forall x :: x in old(g.nodes) && x.Terminal? ==> x in g.nodes
    ensures forall x :: x in old(g.nodes) && x !in g.nodes ==> x.Internal? && Dead(old(g.EdgeSet()), x)
    ensures Remains(g, old(g.nodes), old(g.edges), old(g.weight), old(g.info), old(g.depth), Elems(g.nodes))
    ensures Acyclic(old(g.EdgeSet())) ==> forall x :: x in g.nodes ==> !Dead(old(g.EdgeSet()), x)
  {
    ghost var N0, E0, W0, I0, D0 := g.nodes, g.edges, g.weight, g.info, g.depth;
    ghost var K := Elems(N0);
    RemainsStart(g);
    var internal := Filter(g.nodes, (x: Node) => x.Internal?);
    var degrees := OutDegrees(g.edges, internal);
    while 0 in degrees
      invariant g.Valid() && NoDup(internal) && Shaped(N0, E0, W0, I0, D0)
      invariant forall x :: x in internal <==> x in g.nodes && x.Internal?
      invariant Remains(g, N0, E0, W0, I0, D0, K) && K <= Elems(N0)
      invariant DeadOutside(N0, E0, K)
      invariant degrees == OutDegrees(g.edges, internal)
      decreases |internal|
    {
      ZeroDegree(g.edges, internal);
      ghost var x :| x in internal && x !in Tails(g.EdgeSet());
      var rest;
      rest, K := SweepDeadEnds(g, internal, N0, E0, W0, I0, D0, K);
      Shrinks(internal, rest, x);
      internal := rest;
      degrees := OutDegrees(g.edges, internal);
    }
    ZeroDegree(g.edges, internal);
    RemainsSelf(g, N0, E0, W0, I0, D0, K);
    if Acyclic(Elems(E0)) {
      forall x | x in g.nodes ensures !Dead(Elems(E0), x) {
        NoDeadLeft(Elems(E0), g.EdgeSet(), Elems(g.nodes), x);
      }
    }
  }

  /**
   * In an acyclic graph, a set of nodes in which every cluster node keeps a child (along edges
   * of the graph, inside the set) holds no node without a terminal below it.
   */
  lemma {:induction false} NoDeadLeft(E: set<Edge>, F: set<Edge>, K: set<Node>, x: Node)
    requires Acyclic(E) && F <= E
    requires forall e :: e in F ==> e.1 in K
    requires forall u :: u in K && u.Internal? ==> u in Tails(F)
    requires x in K
    ensures !Dead(E, x)
    decreases |Reach(E, {x})|
  {
    if Dead(E, x) {
      assert x in Reach(E, {x});
      var e :| e in F && e.0 == x;
      var y := e.1;
      ReachStep(E, x, y);
      forall z | z in Reach(E, {y}) ensures z.Internal? {
        ReachTrans(E, x, y, z);
      }
      AcyclicRanked(E);
      assert ReachRank(E)(x) > ReachRank(E)(y);
      NoDeadLeft(E, F, K, y);
    }
  }

  /**
   * One pass of the `for node in internal_nodes[::-1]` loop: visits the listed cluster nodes
   * from last to first and removes those without a child, from the graph and from the list.
   */
  method SweepDeadEnds(g: Digraph, internal: seq<Node>, ghost N0: seq<Node>, ghost E0: seq<Edge>,
                       ghost W0: map<Edge, real>, ghost I0: map<Node, NodeInfo>,
                       ghost D0: map<Node, int>, ghost K: set<Node>)
    returns (rest: seq<Node>, ghost K': set<Node>)
    requires g.Valid() && NoDup(internal) && Shaped(N0, E0, W0, I0, D0)
    requires forall x :: x in internal <==> x in g.nodes && x.Internal?
    requires Remains(g, N0, E0, W0, I0, D0, K) && K <= Elems(N0)
    requires DeadOutside(N0, E0, K)
    modifies g
    ensures g.Valid() && NoDup(rest)
    ensures forall x :: x in rest <==> x in g.nodes && x.Internal?
    ensures Remains(g, N0, E0, W0, I0, D0, K') && K' <= Elems(N0)
    ensures DeadOutside(N0, E0, K')
    ensures forall x :: x in rest ==> x in internal
    ensures forall x :: x in internal && x !in Tails(old(g.EdgeSet())) ==> x !in rest
  {
    rest, K' := internal, K;
    ghost var E1 := g.EdgeSet();
    var i := |internal|;
    while i > 0
      invariant 0 <= i <= |rest| && rest[..i] == internal[..i]
      invariant g.Valid() && NoDup(rest)
      invariant forall x :: x in rest <==> x in g.nodes && x.Internal?
      invariant forall x :: x in rest ==> x in internal
      invariant Remains(g, N0, E0, W0, I0, D0, K') && K' <= Elems(N0)
      invariant DeadOutside(N0, E0, K')
      invariant g.EdgeSet() <= E1
      invariant forall x :: x in internal && x !in Tails(E1) ==> x in rest[..i] || x !in rest
      decreases i
    {
      i := i - 1;
      var node := rest[i];
      assert rest[..i + 1] == rest[..i] + [node];
      PrefixShorter(rest, internal, i);
      NoChild(g.edges, node);
      if g.OutDegree(node) == 0 {
        ghost var before := rest;
        RemoveFirstAt(rest, i);
        K' := DropDeadEnd(g, node, N0, E0, W0, I0, D0, K');
        rest := RemoveFirst(rest, node);
        assert rest[..i] == before[..i];
      }
    }
  }

  lemma PrefixShorter(a: seq<Node>, b: seq<Node>, i: nat)
    requires i < |a| && i < |b| && a[..i + 1] == b[..i + 1]
    ensures a[..i] == b[..i]
  {
    assert a[..i] == a[..i + 1][..i];
    assert b[..i] == b[..i + 1][..i];
  }

  /** `T.remove_node(node)` on a cluster node without children, which is dead. */
  method DropDeadEnd(g: Digraph, n: Node, ghost N0: seq<Node>, ghost E0: seq<Edge>,
                     ghost W0: map<Edge, real>, ghost I0: map<Node, NodeInfo>,
                     ghost D0: map<Node, int>, ghost K: set<Node>)
    returns (ghost K': set<Node>)
    requires g.Valid() && Shaped(N0, E0, W0, I0, D0)
    requires Remains(g, N0, E0, W0, I0, D0, K) && K <= Elems(N0)
    requires DeadOutside(N0, E0, K)
    requires n in g.nodes && n.Internal? && n !in Tails(g.EdgeSet())
    modifies g
    ensures K' == K - {n} && g.Valid()
    ensures Remains(g, N0, E0, W0, I0, D0, K') && DeadOutside(N0, E0, K')
    ensures forall x :: x in g.nodes <==> x in old(g.nodes) && x != n
    ensures g.EdgeSet() <= old(g.EdgeSet())
  {
    forall y | (n, y) in Elems(E0) ensures y in K ==> (n, y) in g.edges {
    }
    DeadStep(Elems(E0), n);
    RemainsDrop(N0, E0, K, n);
    RestrictDropEdges(W0, K, n);
    RestrictDrop(I0, K, n);
    RestrictDrop(D0, K, n);
    g.RemoveNode(n);
    K' := K - {n};
  }

  // Single branches.

  /** The test "is a cluster node". */
  function IsCluster(): Node -> bool {
    (x: Node) => x.Internal?
  }

  /** The children of `n` that are cluster nodes, in edge order. */
  function ClusterChildren(es: seq<Edge>, n: Node): seq<Node> {
    Filter(SuccessorsIn(es, n), IsCluster())
  }

  /**
   * The test of `_single_branch(node)`, lines 982-1007, on the edge list `es`: `node` has one
   * parent and, in the strict mode, one child; otherwise one cluster child, or no cluster child
   * and a single (terminal) child. In the strict mode the code resets the count to 0 for a lone
   * terminal child and then re-reads the out-degree, which is 1 again, so a lone terminal child
   * also makes a single branch.
   */
  predicate IsSingleBranch(es: seq<Edge>, node: Node, strict: bool) {
    |PredecessorsIn(es, node)| == 1
    && if strict then |SuccessorsIn(es, node)| == 1
       else |ClusterChildren(es, node)| == 1
            || (|ClusterChildren(es, node)| == 0 && |SuccessorsIn(es, node)| == 1)
  }

  /** `_single_branch(node)`, lines 982-1007, as the code computes it. */
  method SingleBranch(g: Digraph, node: Node, strict: bool) returns (b: bool)
    requires g.Valid() && node in g.nodes
    ensures b == IsSingleBranch(g.edges, node, strict)
    ensures b ==> g.OutDegree(node) >= 1
  {
    var indeg := g.InDegree(node);
    if indeg != 1 {
      return false;
    }
    var outdeg: int;
    var children := g.Successors(node);
    if strict {
      outdeg := |children|;
      if outdeg == 1 {
        var child := children[0];
        if !child.Internal? {
          outdeg := 0;
        }
      }
    } else {
      outdeg := 0;
      for i := 0 to |children|
        invariant outdeg == |Filter(children[..i], IsCluster())|
      {
        assert children[..i + 1] == children[..i] + [children[i]];
        FilterAppend(children[..i], children[i], IsCluster());
        if children[i].Internal? {
          outdeg := outdeg + 1;
        }
      }
      assert children[..|children|] == children;
    }
    if outdeg > 1 {
      return false;
    } else if outdeg == 0 {
      outdeg := g.OutDegree(node);
      if outdeg != 1 {
        return false;
      }
    }
    return true;
  }

  /** `T.add_edge(u, v)` on the edge list: appended unless already present. */
  function AddedEdge(es: seq<Edge>, e: Edge): (r: seq<Edge>)
    ensures forall f :: f in r <==> f in es || f == e
    ensures NoDup(es) ==> NoDup(r)
  {
    if e in es then es else if NoDup(es) then NoDupAppend(es, e); es + [e] else es + [e]
  }

  /** `T.add_edge(p, c)` for each `c` of `cs` in turn. */
  function Linked(es: seq<Edge>, p: Node, cs: seq<Node>): (r: seq<Edge>)
    ensures forall e :: e in r <==> e in es || (e.0 == p && e.1 in cs)
    ensures NoDup(es) ==> NoDup(r)
    decreases |cs|
  {
    if cs == [] then es else Linked(AddedEdge(es, (p, cs[0])), p, cs[1..])
  }

  /**
   * The edges after `n` is collapsed into its parent `p`: the edges avoiding `n`, and an edge
   * from `p` to each child of `n`.
   */
  function Contracted(E: set<Edge>, n: Node, p: Node): set<Edge> {
    (set e | e in E && e.0 != n && e.1 != n)
    + (set e | e in E && e.0 == n && e.1 != n && p != n :: (p, e.1))
  }

  /** The edge list left by a collapse holds exactly the contracted edges. */
  lemma LinkedContracted(es: seq<Edge>, n: Node, p: Node, cs: seq<Node>)
    requires forall c :: c in cs <==> (n, c) in es
    ensures Elems(EdgesAvoiding(Linked(es, p, cs), n)) == Contracted(Elems(es), n, p)
  {
    var L := Elems(EdgesAvoiding(Linked(es, p, cs), n));
    var C := Contracted(Elems(es), n, p);
    forall e | e in L ensures e in C {
      if e !in es {
        assert (n, e.1) in Elems(es);
      }
    }
    forall e | e in C ensures e in L {
      if e !in es {
        var f :| f in Elems(es) && f.0 == n && f.1 != n && p != n && e == (p, f.1);
        assert f.1 in cs;
      }
    }
  }

  /**
   * The collapse step of `prune`, lines 1013-1023: links the only parent `p` of `n` to every
   * child of `n`, with weight `w(p, n) + w(n, child)`, then removes `n`.
   */
  method Collapse(g: Digraph, n: Node) returns (p: Node)
    requires g.Valid() && n in g.nodes && g.InDegree(n) == 1
    modifies g
    ensures (p, n) in old(g.edges) && forall a :: (a, n) in old(g.edges) ==> a == p
    ensures g.Valid()
    ensures g.nodes == Filter(old(g.nodes), Other(n))
    ensures g.edges == EdgesAvoiding(Linked(old(g.edges), p, old(g.Successors(n))), n)
    ensures g.EdgeSet() == Contracted(old(g.EdgeSet()), n, p)
    ensures CollapsedWeights(g.weight, old(g.weight), n, p)
    ensures g.info == old(g.info) - {n} && g.depth == old(g.depth) - {n}
    ensures g.Contents() == Collapsed(old(g.Contents()), n)
  {
    var parents := g.Predecessors(n);
    p := parents[0];
    assert parents == [p];
    assert forall a :: (a, n) in g.edges ==> a in parents;
    var children := g.Successors(n);
    ghost var W0 := g.weight;
    LinkAndRemove(g, p, n, children);
    CollapsedMapIs(g.weight, W0, n, p);
  }

  /** Pointwise weights after a collapse, with the contracted edges as keys, are `CollapsedMap`. */
  lemma CollapsedMapIs(W: map<Edge, real>, W0: map<Edge, real>, n: Node, p: Node)
    requires (p, n) in W0 && CollapsedWeights(W, W0, n, p) && W.Keys == Contracted(W0.Keys, n, p)
    ensures W == CollapsedMap(W0, n, p)
  {
  }

  /** What a graph value is when it satisfies `Valid`. */
  predicate Formed(t: GraphValue) {
    Shaped(t.nodes, t.edges, t.weight, t.info, t.depth)
  }

  /**
   * The weights after `n` is collapsed into its parent `p`, lines 1015-1021: the path
   * `p -> n -> c` becomes an edge weighing `w(p, n) + w(n, c)`, replacing any earlier weight
   * of `(p, c)`, and every other edge that avoids `n` keeps its weight.
   */
  function CollapsedMap(W: map<Edge, real>, n: Node, p: Node): map<Edge, real>
    requires (p, n) in W
  {
    map e | e in Contracted(W.Keys, n, p) ::
      if e.0 == p && (n, e.1) in W then Through(W, p, n, e.1) else W[e]
  }

  /**
   * The graph value after `n` is collapsed into its only parent, lines 1013-1021: the parent is
   * linked to each child of `n` in turn, then `n` is removed with its edges and attributes.
   */
  function Collapsed(t: GraphValue, n: Node): (r: GraphValue)
    requires Formed(t) && |PredecessorsIn(t.edges, n)| == 1
    ensures Formed(r)
  {
    var p := PredecessorsIn(t.edges, n)[0];
    CollapsedFormed(t, n, p);
    GraphValue(Filter(t.nodes, Other(n)), EdgesAvoiding(Linked(t.edges, p, SuccessorsIn(t.edges, n)), n),
               CollapsedMap(t.weight, n, p), t.info - {n}, t.depth - {n})
  }

  lemma CollapsedFormed(t: GraphValue, n: Node, p: Node)
    requires Formed(t) && (p, n) in t.edges
    ensures Shaped(Filter(t.nodes, Other(n)), EdgesAvoiding(Linked(t.edges, p, SuccessorsIn(t.edges, n)), n),
                   CollapsedMap(t.weight, n, p), t.info - {n}, t.depth - {n})
  {
    var es := EdgesAvoiding(Linked(t.edges, p, SuccessorsIn(t.edges, n)), n);
    LinkedContracted(t.edges, n, p, SuccessorsIn(t.edges, n));
    CollapsedMapKeys(t.weight, n, p);
    CollapsedEnds(t, n, p);
    var ns := Filter(t.nodes, Other(n));
    assert NoDup(ns) && NoDup(es);
    assert CollapsedMap(t.weight, n, p).Keys == Elems(es);
    assert (t.info - {n}).Keys <= Elems(ns) by {
      forall x | x in (t.info - {n}).Keys ensures x in Elems(ns) {
        assert x in ns;
      }
    }
    assert (t.depth - {n}).Keys <= Elems(ns) by {
      forall x | x in (t.depth - {n}).Keys ensures x in Elems(ns) {
        assert x in ns;
      }
    }
  }

  lemma CollapsedMapKeys(W: map<Edge, real>, n: Node, p: Node)
    requires (p, n) in W
    ensures CollapsedMap(W, n, p).Keys == Contracted(W.Keys, n, p)
  {
  }

  lemma CollapsedEnds(t: GraphValue, n: Node, p: Node)
    requires Formed(t) && (p, n) in t.edges
    ensures var ns := Filter(t.nodes, Other(n));
      forall e :: e in EdgesAvoiding(Linked(t.edges, p, SuccessorsIn(t.edges, n)), n) ==> e.0 in ns && e.1 in ns
  {
    var ns := Filter(t.nodes, Other(n));
    forall e | e in EdgesAvoiding(Linked(t.edges, p, SuccessorsIn(t.edges, n)), n) ensures e.0 in ns && e.1 in ns {
      if e !in t.edges {
        assert (n, e.1) in t.edges;
      }
    }
  }

  /** The mutations of a collapse, once the parent `p` and the children of `n` are known. */
  method LinkAndRemove(g: Digraph, p: Node, n: Node, children: seq<Node>)
    requires g.Valid() && n in g.nodes && (p, n) in g.edges && children == g.Successors(n)
    modifies g
    ensures g.Valid()
    ensures g.nodes == Filter(old(g.nodes), Other(n))
    ensures g.edges == EdgesAvoiding(Linked(old(g.edges), p, children), n)
    ensures g.EdgeSet() == Contracted(old(g.EdgeSet()), n, p)
    ensures CollapsedWeights(g.weight, old(g.weight), n, p)
    ensures g.info == old(g.info) - {n} && g.depth == old(g.depth) - {n}
  {
    ghost var E0, W0 := g.edges, g.weight;
    LinkChildren(g, p, n, children);
    ghost var W1 := g.weight;
    g.RemoveNode(n);
    LinkedContracted(E0, n, p, children);
    CollapsedFromLinked(g.weight, W1, W0, n, p, children);
  }

  /** `W0[(p, n)] + W0[(n, c)]`: the weight of the path `p -> n -> c`. */
  function Through(W0: map<Edge, real>, p: Node, n: Node, c: Node): real
    requires (p, n) in W0 && (n, c) in W0
  {
    W0[(p, n)] + W0[(n, c)]
  }

  /**
   * The weights after collapsing `n` into its parent `p`: every edge avoids `n`; an edge from `p`
   * to a child of `n` weighs the path through `n`; every other edge keeps its weight; and no edge
   * avoiding `n` is lost.
   */
  ghost predicate CollapsedWeights(W: map<Edge, real>, W0: map<Edge, real>, n: Node, p: Node) {
    (forall e :: e in W0 && e.0 != n && e.1 != n ==> e in W)
    && forall e :: e in W ==>
      e.0 != n && e.1 != n
      && if e.0 == p && (n, e.1) in W0 then (p, n) in W0 && W[e] == Through(W0, p, n, e.1)
         else e in W0 && W[e] == W0[e]
  }

  lemma CollapsedFromLinked(W: map<Edge, real>, W1: map<Edge, real>, W0: map<Edge, real>, n: Node, p: Node, cs: seq<Node>)
    requires (p, n) in W0 && (forall c :: c in cs <==> (n, c) in W0)
    requires LinkedWeights(W1, W0, p, n, cs, W0[(p, n)])
    requires W == map e | e in W1 && e.0 != n && e.1 != n :: W1[e]
    ensures CollapsedWeights(W, W0, n, p)
  {
  }

  /**
   * `W` holds the weights of `W0` after `add_edge(p, c, weight=w1 + w(n, c))` for each child `c`
   * in `cs`, where `w(n, c)` is read from `W0`.
   */
  ghost predicate LinkedWeights(W: map<Edge, real>, W0: map<Edge, real>, p: Node, n: Node, cs: seq<Node>, w1: real) {
    (forall e :: e in W0 ==> e in W)
    && (forall c :: c in cs ==> (p, c) in W)
    && forall e :: e in W ==>
      if e.0 == p && e.1 in cs then (n, e.1) in W0 && W[e] == w1 + W0[(n, e.1)]
      else e in W0 && W[e] == W0[e]
  }

  lemma LinkedWeightsStep(W: map<Edge, real>, W': map<Edge, real>, W0: map<Edge, real>, p: Node, n: Node,
                           cs: seq<Node>, i: nat, w1: real, w: real)
    requires i < |cs| && cs[i] !in cs[..i] && (n, cs[i]) in W0 && (n, cs[i]) in W && w == w1 + W[(n, cs[i])]
    requires LinkedWeights(W, W0, p, n, cs[..i], w1)
    requires forall e :: e in W' <==> e in W || e == (p, cs[i])
    requires forall e :: e in W' ==> W'[e] == if e == (p, cs[i]) then w else W[e]
    ensures LinkedWeights(W', W0, p, n, cs[..i + 1], w1)
  {
    assert cs[..i + 1] == cs[..i] + [cs[i]];
  }

  /** The `for child in children` loop of the collapse step. */
  method LinkChildren(g: Digraph, p: Node, n: Node, children: seq<Node>)
    requires g.Valid() && (p, n) in g.edges && NoDup(children)
    requires forall c :: c in children <==> (n, c) in g.edges
    modifies g
    ensures g.Valid()
    ensures g.nodes == old(g.nodes) && g.info == old(g.info) && g.depth == old(g.depth)
    ensures g.edges == Linked(old(g.edges), p, children)
    ensures LinkedWeights(g.weight, old(g.weight), p, n, children, old(g.weight)[(p, n)])
  {
    var w1 := g.weight[(p, n)];
    ghost var E0, W0 := g.edges, g.weight;
    for i := 0 to |children|
      invariant g.Valid()
      invariant g.nodes == old(g.nodes) && g.info == old(g.info) && g.depth == old(g.depth)
      invariant Linked(g.edges, p, children[i..]) == Linked(E0, p, children)
      invariant LinkedWeights(g.weight, W0, p, n, children[..i], w1)
    {
      assert (n, children[i]) in E0 && (n, children[i]) in W0;
      LinkChild(g, p, n, children, i, w1, E0, W0);
    }
    assert children[|children|..] == [] && children[..|children|] == children;
  }

  /** One turn of the loop: `T.add_edge(parent, child, weight=w1 + T[node][child]['weight'])`. */
  method LinkChild(g: Digraph, p: Node, n: Node, children: seq<Node>, i: nat, w1: real,
                   ghost E0: seq<Edge>, ghost W0: map<Edge, real>)
    requires g.Valid() && i < |children| && NoDup(children) && (n, children[i]) in W0
    requires p in g.nodes && children[i] in g.nodes
    requires Linked(g.edges, p, children[i..]) == Linked(E0, p, children)
    requires LinkedWeights(g.weight, W0, p, n, children[..i], w1)
    modifies g
    ensures g.Valid()
    ensures g.nodes == old(g.nodes) && g.info == old(g.info) && g.depth == old(g.depth)
    ensures Linked(g.edges, p, children[i + 1..]) == Linked(E0, p, children)
    ensures LinkedWeights(g.weight, W0, p, n, children[..i + 1], w1)
  {
    var c := children[i];
    assert children[i..][1..] == children[i + 1..];
    ghost var W := g.weight;
    var w2 := g.weight[(n, c)];
    var w := w1 + w2;
    g.AddEdge(p, c, w);
    LinkedWeightsStep(W, g.weight, W0, p, n, children, i, w1, w);
  }

  // Properties of a collapse.

  /** `n` has the single parent `p`. */
  ghost predicate OnlyParent(E: set<Edge>, n: Node, p: Node) {
    (p, n) in E && forall a :: (a, n) in E ==> a == p
  }

  /** A collapse keeps, for every other node, whether it has a child. */
  lemma ContractedTails(E: set<Edge>, n: Node, p: Node, x: Node)
    requires OnlyParent(E, n, p) && n in Tails(E) && x != n
    ensures x in Tails(Contracted(E, n, p)) <==> x in Tails(E)
  {
    var C := Contracted(E, n, p);
    if x in Tails(E) {
      var e :| e in E && e.0 == x;
      if e.1 == n {
        var f :| f in E && f.0 == n;
        assert f.1 != n;
        assert (p, f.1) in C;
      } else {
        assert e in C;
      }
    }
  }

  /** A collapse gives no parent to a node that had none. */
  lemma ContractedSources(E: set<Edge>, n: Node, p: Node, x: Node)
    requires x !in Targets(E)
    ensures x !in Targets(Contracted(E, n, p))
  {
    forall e | e in Contracted(E, n, p) ensures e.1 != x {
      if e !in E {
        var f :| f in E && f.0 == n && f.1 != n && p != n && e == (p, f.1);
        assert f.1 in Targets(E);
      } else {
        assert e.1 in Targets(E);
      }
    }
  }

  /**
   * Collapsing `n` into its only parent `p` changes what any other node reaches by exactly
   * `n`: the paths through `n` now take the new edges from `p`.
   */
  lemma CollapseReach(E: set<Edge>, n: Node, p: Node, u: Node)
    requires OnlyParent(E, n, p) && p != n && u != n
    ensures Reach(Contracted(E, n, p), {u}) == Reach(E, {u}) - {n}
  {
    var C := Contracted(E, n, p);
    var R := Reach(E, {u});
    forall w | w in Next(C, R - {n}) ensures w in R - {n} {
      var e :| e in C && e.0 in R - {n} && e.1 == w;
      if e in E {
        assert w in Next(E, R);
      } else {
        var f :| f in E && f.0 == n && f.1 != n && e == (p, f.1);
        assert n in Next(E, R);
        assert w in Next(E, R);
      }
    }
    ReachLeast(C, {u}, R - {n});
    var R' := Reach(C, {u});
    var D := R' + (if p in R' then {n} else {});
    forall w | w in Next(E, D) ensures w in D {
      var e :| e in E && e.0 in D && e.1 == w;
      if e.0 == n {
        if w != n {
          assert (p, w) in C;
          assert w in Next(C, R');
        }
      } else if w == n {
        assert e.0 == p;
      } else {
        assert e in C;
        assert w in Next(C, R');
      }
    }
    ReachLeast(E, {u}, D);
    forall e | e in C ensures e.1 != n { }
    if n in R' {
      ReachIntoSource(C, u, n);
    }
  }

  /** Collapsing a node of an acyclic graph into its only parent leaves it acyclic. */
  lemma AcyclicCollapse(E: set<Edge>, n: Node, p: Node)
    requires Acyclic(E) && OnlyParent(E, n, p)
    ensures p != n && Acyclic(Contracted(E, n, p))
  {
    var C := Contracted(E, n, p);
    assert p != n;
    forall e | e in C ensures e.0 != e.1 {
      if e !in E {
        var f :| f in E && f.0 == n && f.1 != n && e == (p, f.1);
        if f.1 == p {
          ReachStep(E, p, n);
          ReachStep(E, n, p);
        }
      }
    }
    forall e | e in C ensures e.1 != n { }
    forall x, y | y in Reach(C, {x}) && x in Reach(C, {y}) ensures x == y {
      if x == n {
        ReachIntoSource(C, y, x);
      } else if y == n {
        ReachIntoSource(C, x, y);
      } else {
        CollapseReach(E, n, p, x);
        CollapseReach(E, n, p, y);
      }
    }
  }

  /** Between the nodes of `K`, the paths of `E` are those of `E0`. */
  ghost predicate ReachKept(E: set<Edge>, E0: set<Edge>, K: set<Node>) {
    forall u {:trigger Reach(E0, {u})} :: u in K ==> Reach(E, {u}) == Reach(E0, {u}) * K
  }

  /** Nothing is reached outside a set of nodes that holds every edge. */
  lemma ReachInside(E: set<Edge>, K: set<Node>, u: Node)
    requires u in K && forall e :: e in E ==> e.0 in K && e.1 in K
    ensures Reach(E, {u}) <= K
  {
    ReachLeast(E, {u}, K);
  }

  lemma ReachKeptStart(E: set<Edge>, K: set<Node>)
    requires forall e :: e in E ==> e.0 in K && e.1 in K
    ensures ReachKept(E, E, K)
  {
    forall u | u in K ensures Reach(E, {u}) == Reach(E, {u}) * K {
      ReachInside(E, K, u);
    }
  }

  /** A collapse in an acyclic graph keeps it acyclic and keeps the paths between the other nodes. */
  lemma ReachKeptCollapse(E: set<Edge>, E0: set<Edge>, K: set<Node>, n: Node, p: Node)
    requires Acyclic(E) && OnlyParent(E, n, p) && ReachKept(E, E0, K)
    ensures Acyclic(Contracted(E, n, p)) && ReachKept(Contracted(E, n, p), E0, K - {n})
  {
    AcyclicCollapse(E, n, p);
    forall u | u in K - {n} ensures Reach(Contracted(E, n, p), {u}) == Reach(E0, {u}) * (K - {n}) {
      CollapseReach(E, n, p, u);
    }
  }

  /** One turn of `for node in all_nodes`, lines 1012-1023: `node` is collapsed exactly when it is a single branch. */
  function BranchStep(t: GraphValue, node: Node, strict: bool): (r: GraphValue)
    requires Formed(t)
    ensures Formed(r)
  {
    if node in t.nodes && IsSingleBranch(t.edges, node, strict) then Collapsed(t, node) else t
  }

  /** The loop `for node in all_nodes`: `BranchStep` for each node of `order` in turn. */
  function BranchFold(t: GraphValue, order: seq<Node>, strict: bool): (r: GraphValue)
    requires Formed(t)
    ensures Formed(r)
    decreases |order|
  {
    if order == [] then t
    else BranchStep(BranchFold(t, order[..|order| - 1], strict), order[|order| - 1], strict)
  }

  lemma BranchFoldStep(t: GraphValue, order: seq<Node>, i: nat, strict: bool)
    requires Formed(t) && i < |order|
    ensures BranchFold(t, order[..i + 1], strict) == BranchStep(BranchFold(t, order[..i], strict), order[i], strict)
  {
    assert order[..i + 1][..i] == order[..i];
  }

  /**
   * `prune`, lines 1009-1023: lists the nodes in breadth-first order from the root, then
   * collapses every listed node that is a single branch at the time it is visited.
   */
  method RemoveSingleBranches(g: Digraph, strict: bool) returns (r: Result<()>)
    requires g.Valid()
    modifies g
    ensures g.Valid()
    ensures r.Err? <==> old(GetRoot(g)).None?
    ensures r.Err? ==> r.error == MissingNode && g.nodes == old(g.nodes) && g.edges == old(g.edges)
    ensures r.Ok? ==> g.Contents() == BranchFold(old(g.Contents()), Topdown(old(g.nodes), old(g.edges), true), strict)
    ensures r.Ok? ==> Kept(old(g.nodes), old(g.EdgeSet()), Elems(g.nodes), g.nodes, g.EdgeSet())
    ensures g.depth.Keys <= old(g.depth).Keys
  {
    ghost var t0 := g.Contents();
    var order := TraverseTopdown(g, "breadth");
    assert "breadth"[0] != "depth"[0];
    if order.Err? {
      return Err(MissingNode);
    }
    CollapseBranches(g, order.value, strict);
    BranchFoldKept(t0, order.value, strict);
    return Ok(());
  }

  /** The `for node in all_nodes` loop: visits the listed nodes in turn. */
  method CollapseBranches(g: Digraph, all: seq<Node>, strict: bool)
    requires g.Valid()
    modifies g
    ensures g.Valid() && g.Contents() == BranchFold(old(g.Contents()), all, strict)
    ensures g.depth.Keys <= old(g.depth).Keys
  {
    ghost var t0 := g.Contents();
    for i := 0 to |all|
      invariant g.Valid() && g.Contents() == BranchFold(t0, all[..i], strict)
      invariant g.depth.Keys <= old(g.depth).Keys
    {
      VisitBranch(g, all[i], strict);
      BranchFoldStep(t0, all, i, strict);
    }
    assert all[..|all|] == all;
  }

  /** One turn of `for node in all_nodes`: collapses `node` if it is a single branch. */
  method VisitBranch(g: Digraph, node: Node, strict: bool)
    requires g.Valid()
    modifies g
    ensures g.Valid() && g.Contents() == BranchStep(old(g.Contents()), node, strict)
    ensures g.depth.Keys <= old(g.depth).Keys
  {
    if node in g.nodes {
      var b := SingleBranch(g, node, strict);
      if b {
        var p := Collapse(g, node);
      }
    }
  }

  /** The nodes `N` and edges `E` keep, of `(N0, E0)`, the nodes `K`, the nodes without children or parents, whether each node has a child, and, in an acyclic graph, the paths. */
  ghost predicate Kept(N0: seq<Node>, E0: set<Edge>, K: set<Node>, N: seq<Node>, E: set<Edge>) {
    K <= Elems(N0) && Elems(N) == K
    && N == Filter(N0, InSet(K))
    && (forall x :: x in N0 && x !in Tails(E0) ==> x in N)
    && (forall x :: x in N0 && x !in Targets(E0) ==> x in N && x !in Targets(E))
    && (forall x :: x in N ==> (x in Tails(E) <==> x in Tails(E0)))
    && (Acyclic(E0) ==> Acyclic(E) && ReachKept(E, E0, K))
  }

  /** A collapse of a node that has a child and a single parent keeps the loop's state. */
  lemma KeptCollapse(N0: seq<Node>, E0: set<Edge>, K: set<Node>, N: seq<Node>, E: set<Edge>, node: Node, p: Node)
    requires Kept(N0, E0, K, N, E) && node in N && node in Tails(E) && OnlyParent(E, node, p)
    ensures Kept(N0, E0, K - {node}, Filter(N, Other(node)), Contracted(E, node, p))
  {
    var E' := Contracted(E, node, p);
    var N' := Filter(N, Other(node));
    assert node in Targets(E);
    FilterBoth(N0, InSet(K), Other(node), InSet(K - {node}));
    forall x | x in N' ensures x in Tails(E') <==> x in Tails(E) {
      ContractedTails(E, node, p, x);
    }
    forall x | x in N0 && x !in Targets(E0) ensures x !in Targets(E') {
      ContractedSources(E, node, p, x);
    }
    if Acyclic(E0) {
      ReachKeptCollapse(E, E0, K, node, p);
    }
  }

  /**
   * Whatever the order, the single-branch loop keeps a subset of the nodes, in their order, with
   * every leaf and every source, whether each node has a child, and, in an acyclic graph,
   * acyclicity and the paths between the nodes it keeps.
   */
  lemma {:induction false} BranchFoldKept(t: GraphValue, order: seq<Node>, strict: bool)
    requires Formed(t)
    ensures var r := BranchFold(t, order, strict);
      Kept(t.nodes, Elems(t.edges), Elems(r.nodes), r.nodes, Elems(r.edges))
    decreases |order|
  {
    if order == [] {
      FilterAll(t.nodes, InSet(Elems(t.nodes)));
      ReachKeptStart(Elems(t.edges), Elems(t.nodes));
    } else {
      var init := order[..|order| - 1];
      BranchFoldKept(t, init, strict);
      var u := BranchFold(t, init, strict);
      var node := order[|order| - 1];
      if node in u.nodes && IsSingleBranch(u.edges, node, strict) {
        KeptBranch(t, u, node, strict);
      }
    }
  }

  /** One collapse of the single-branch loop keeps `Kept`. */
  lemma KeptBranch(t: GraphValue, u: GraphValue, node: Node, strict: bool)
    requires Formed(t) && Formed(u) && node in u.nodes && IsSingleBranch(u.edges, node, strict)
    requires Kept(t.nodes, Elems(t.edges), Elems(u.nodes), u.nodes, Elems(u.edges))
    ensures var r := Collapsed(u, node);
      Kept(t.nodes, Elems(t.edges), Elems(r.nodes), r.nodes, Elems(r.edges))
  {
    var p := CollapsedShape(u, node, strict);
    KeptCollapse(t.nodes, Elems(t.edges), Elems(u.nodes), u.nodes, Elems(u.edges), node, p);
  }

  /** A single branch has one parent `p` and a child, and collapsing it contracts its edges into `p`. */
  lemma CollapsedShape(u: GraphValue, node: Node, strict: bool) returns (p: Node)
    requires Formed(u) && node in u.nodes && IsSingleBranch(u.edges, node, strict)
    ensures OnlyParent(Elems(u.edges), node, p) && node in Tails(Elems(u.edges))
    ensures Collapsed(u, node).nodes == Filter(u.nodes, Other(node))
    ensures Elems(Collapsed(u, node).edges) == Contracted(Elems(u.edges), node, p)
  {
    p := PredecessorsIn(u.edges, node)[0];
    assert PredecessorsIn(u.edges, node) == [p];
    var cs := SuccessorsIn(u.edges, node);
    assert |cs| >= 1 by {
      if !strict {
        assert |ClusterChildren(u.edges, node)| <= |cs|;
      }
    }
    NoChild(u.edges, node);
    LinkedContracted(u.edges, node, p, cs);
  }

  // The whole of `prune`.

  /** No terminal has a child: the shape of every hierarchy the weaver builds. */
  predicate TerminalsAreLeaves(E: set<Edge>) {
    forall e :: e in E ==> e.0.Internal?
  }

  /** Whatever lies below a dead node is dead. */
  lemma DeadBelow(E: set<Edge>, x: Node, y: Node)
    requires Dead(E, x) && (x, y) in E
    ensures Dead(E, y)
  {
    forall z | z in Reach(E, {y}) ensures z.Internal? {
      ReachStep(E, x, y);
      ReachTrans(E, x, y, z);
    }
  }

  /**
   * Keeping only the edges inside `K` changes no path between nodes of `K` when no edge leads
   * from outside `K` back into it.
   */
  lemma RestrictLive(E: set<Edge>, F: set<Edge>, K: set<Node>, u: Node)
    requires forall e :: e in F <==> e in E && e.0 in K && e.1 in K
    requires forall e :: e in E && e.0 !in K ==> e.1 !in K
    requires u in K
    ensures Reach(F, {u}) == Reach(E, {u}) * K
  {
    var RF, RE := Reach(F, {u}), Reach(E, {u});
    ReachMonoEdges(F, E, {u});
    forall e | e in F ensures e.1 in K { }
    ReachInside(F, K + {u}, u) by {
      forall e | e in F ensures e.0 in K + {u} && e.1 in K + {u} { }
    }
    var C := RF + (RE - K);
    forall w | w in Next(E, C) ensures w in C {
      var e :| e in E && e.0 in C && e.1 == w;
      ReachStep(E, e.0, w);
      assert e.0 in RE;
      ReachTrans(E, u, e.0, w);
      if e.0 in RF && w in K {
        assert e in F;
        assert w in Next(F, RF);
      }
    }
    ReachLeast(E, {u}, C);
  }

  /**
   * The two phases together: in an acyclic hierarchy whose terminals are leaves, what `prune`
   * leaves is acyclic, keeps every path between the surviving nodes, and every surviving node
   * still has a terminal below it.
   */
  lemma PruneKeeps(N0: set<Node>, E0: set<Edge>, K1: set<Node>, N1: seq<Node>, E1: set<Edge>,
                   K2: set<Node>, N2: seq<Node>, E2: set<Edge>)
    requires Acyclic(E0) && TerminalsAreLeaves(E0)
    requires forall e :: e in E0 ==> e.0 in N0 && e.1 in N0
    requires K1 <= N0 && Elems(N1) == K1
    requires forall e :: e in E1 <==> e in E0 && e.0 in K1 && e.1 in K1
    requires forall x :: x in N0 && x.Terminal? ==> x in K1
    requires forall x :: x in N0 && x !in K1 ==> Dead(E0, x)
    requires forall x :: x in K1 ==> !Dead(E0, x)
    requires Kept(N1, E1, K2, N2, E2)
    ensures Acyclic(E2) && ReachKept(E2, E0, K2)
    ensures forall x :: x in K2 ==> !Dead(E2, x)
  {
    AcyclicSub(E0, E1);
    forall e | e in E0 && e.0 !in K1 ensures e.1 !in K1 {
      DeadBelow(E0, e.0, e.1);
    }
    forall u | u in K2 ensures Reach(E2, {u}) == Reach(E0, {u}) * K2 {
      RestrictLive(E0, E1, K1, u);
    }
    forall x | x in K2 ensures !Dead(E2, x) {
      var y :| y in Reach(E0, {x}) && !y.Internal?;
      ReachInside(E0, N0 + {x}, x);
      RestrictLive(E0, E1, K1, x);
      assert y in K1 && y !in Tails(E1);
      assert Reach(E2, {x}) == Reach(E1, {x}) * K2;
    }
  }

  /**
   * `t` is what `prune` makes of `t0` when the dead-end phase keeps the nodes `K`: each node it
   * removes is a cluster node without a terminal below it, each cluster node it keeps has a
   * child, and the single-branch phase then takes the nodes of what is left in breadth-first
   * order from its root and collapses each one that is a single branch when it is visited.
   */
  ghost predicate PrunedBy(t0: GraphValue, K: set<Node>, t: GraphValue, strict: bool) {
    var mid := Restricted(t0, K);
    K <= Elems(t0.nodes) && Formed(mid)
    && (forall x :: x in t0.nodes && x !in K ==> x.Internal? && Dead(Elems(t0.edges), x))
    && (forall x :: x in mid.nodes && x.Internal? ==> x in Tails(Elems(mid.edges)))
    && t == BranchFold(mid, Topdown(mid.nodes, mid.edges, true), strict)
  }

  /** `t` is what `prune` makes of `t0` for some set of nodes the dead-end phase keeps. */
  ghost predicate PrunesTo(t0: GraphValue, t: GraphValue, strict: bool) {
    exists K :: PrunedBy(t0, K, t, strict)
  }

  /**
   * On an acyclic graph the dead-end phase keeps exactly the nodes with a terminal below them,
   * so `PrunedBy` fixes the pruned graph.
   */
  lemma PrunedByLive(t0: GraphValue, K: set<Node>, t: GraphValue, strict: bool)
    requires Formed(t0) && Acyclic(Elems(t0.edges)) && PrunedBy(t0, K, t, strict)
    ensures forall x :: x in t0.nodes ==> (x in K <==> !Dead(Elems(t0.edges), x))
  {
    var mid := Restricted(t0, K);
    forall x | x in t0.nodes && x in K ensures !Dead(Elems(t0.edges), x) {
      assert x in mid.nodes;
      forall e | e in Elems(mid.edges) ensures e.1 in K {
        assert e in mid.edges;
      }
      NoDeadLeft(Elems(t0.edges), Elems(mid.edges), K, x);
    }
  }

  /**
   * `prune(T, strict_single_branch)`, lines 962-1024: removes the dead ends, then the single
   * branches. It fails, as `traverse_topdown` does, when no node is left without a parent.
   */
  method Prune(g: Digraph, strict: bool) returns (r: Result<()>)
    requires g.Valid()
    modifies g
    ensures g.Valid()
    ensures r.Err? ==> r.error == MissingNode && forall v :: v in g.nodes ==> g.InDegree(v) > 0
    ensures forall x :: x in old(g.nodes) && x.Terminal? && x !in Tails(old(g.EdgeSet())) ==> x in g.nodes
    ensures r.Ok? ==> forall x :: x in g.nodes && x.Internal? ==> x in Tails(g.EdgeSet())
    ensures r.Ok? && Acyclic(old(g.EdgeSet())) && TerminalsAreLeaves(old(g.EdgeSet())) ==>
      Acyclic(g.EdgeSet()) && ReachKept(g.EdgeSet(), old(g.EdgeSet()), Elems(g.nodes))
      && forall x :: x in g.nodes ==> !Dead(g.EdgeSet(), x)
    ensures g.depth.Keys <= old(g.depth).Keys
    ensures r.Ok? ==> PrunesTo(old(g.Contents()), g.Contents(), strict)
  {
    ghost var N0, E0, t0 := g.nodes, g.EdgeSet(), g.Contents();
    RemoveDeadEnds(g);
    ghost var N1, E1, mid := g.nodes, g.EdgeSet(), g.Contents();
    ghost var K1 := Elems(N1);
    assert mid == Restricted(t0, K1);
    r := RemoveSingleBranches(g, strict);
    if r.Ok? {
      assert PrunedBy(t0, K1, g.Contents(), strict);
      ghost var K2 := Elems(g.nodes);
      assert Kept(N1, E1, K2, g.nodes, g.EdgeSet());
      if Acyclic(E0) && TerminalsAreLeaves(E0) {
        PruneKeeps(Elems(N0), E0, Elems(N1), N1, E1, K2, g.nodes, g.EdgeSet());
      }
    }
  }
}


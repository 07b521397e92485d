/**
 * The third step of `_build`: removing "grandparent" edges. An edge `a → v` is redundant when
 * `a` also has an edge to another ancestor `b` of `v`; every redundant edge is found on the
 * rooted graph and all of them are removed at once.
 *
 * `neq(a, b)` in the source compares two tuples with `!=`, which yields a plain boolean, so
 * `len` fails and `neq` answers True: the test is `G.has_edge(a, b)` alone. The edges removed
 * are then exactly those the transitive reduction of an acyclic graph drops.
 */
module Redundancy {
  import opened Seqs
  import opened Graph
  import opened Digraphs

  /** The edges `a → v` of `E` such that `a → b` is in `E` for some ancestor `b ≠ v` of `v`. */
  ghost function Redundant(E: set<Edge>): (R: set<Edge>)
    ensures R <= E
  {
    set e | e in E && exists b :: (e.0, b) in E && b != e.1 && e.1 in Reach(E, {b})
  }

  /** `_build`, lines 323-350: collects the redundant edges and removes them. */
  method RemoveRedundant(g: Digraph)
    requires g.Valid()
    modifies g
    ensures g.Valid()
    ensures g.EdgeSet() == old(g.EdgeSet()) - Redundant(old(g.EdgeSet()))
    ensures g.edges == EdgesOutside(old(g.edges), Redundant(old(g.EdgeSet())))
    ensures g.weight == old(g.weight) - Redundant(old(g.EdgeSet()))
    ensures g.nodes == old(g.nodes) && g.info == old(g.info) && g.depth == old(g.depth)
  {
    var red := FindRedundant(g);
    g.RemoveEdges(red);
  }

  /** The loop over the nodes that fills `redundant`. */
  method FindRedundant(g: Digraph) returns (red: seq<Edge>)
    requires g.Valid()
    ensures Elems(red) == Redundant(g.EdgeSet())
  {
    var nodes, es := g.nodes, g.edges;
    var E := Elems(es);
    red := [];
    for k := 0 to |nodes|
      invariant forall e :: e in red <==> e in Redundant(E) && e.1 in nodes[..k]
    {
      var found := RedundantInto(nodes, es, nodes[k]);
      red := red + found;
      assert nodes[..k + 1] == nodes[..k] + [nodes[k]];
    }
    assert nodes[..|nodes|] == nodes;
    forall e | e in Redundant(E) ensures e.1 in nodes { }
  }

  /** The loop over the parents of one node: the redundant edges into `node`. */
  method RedundantInto(nodes: seq<Node>, es: seq<Edge>, node: Node) returns (red: seq<Edge>)
    requires forall e :: e in es ==> e.0 in nodes && e.1 in nodes
    ensures forall e :: e in red <==> e in Redundant(Elems(es)) && e.1 == node
  {
    var E := Elems(es);
    var parents := PredecessorsIn(es, node);
    // `nx.ancestors(G, node)`: every node with a path to `node`, `node` itself excluded
    var ancestors := Filter(nodes, (x: Node) => x != node && node in Reach(E, {x}));
    red := [];
    for i := 0 to |parents|
      invariant forall e :: e in red <==> e in Redundant(E) && e.1 == node && e.0 in parents[..i]
    {
      var a := parents[i];
      var found := IsGrandparent(E, a, ancestors);
      assert found <==> (a, node) in Redundant(E) by {
        if (a, node) in Redundant(E) {
          var b :| (a, b) in E && b != node && node in Reach(E, {b});
          assert b in ancestors;
        }
      }
      if found {
        red := red + [(a, node)];
      }
      assert parents[..i + 1] == parents[..i] + [a];
    }
    assert parents[..|parents|] == parents;
  }

  /** The innermost loop: whether `a` has an edge to one of `ancestors`, stopping at the first. */
  method IsGrandparent(E: set<Edge>, a: Node, ancestors: seq<Node>) returns (found: bool)
    ensures found <==> exists b :: b in ancestors && (a, b) in E
  {
    var i := 0;
    while i < |ancestors|
      invariant 0 <= i <= |ancestors|
      invariant forall j :: 0 <= j < i ==> (a, ancestors[j]) !in E
    {
      if (a, ancestors[i]) in E {
        return true;
      }
      i := i + 1;
    }
    return false;
  }

  /** In an acyclic graph, removing the redundant edges keeps every path. */
  lemma ReductionKeepsReach(E: set<Edge>, x: Node)
    requires Acyclic(E)
    ensures Reach(E - Redundant(E), {x}) == Reach(E, {x})
  {
    AcyclicRanked(E);
    ReachMonoEdges(E - Redundant(E), E, {x});
    forall y | y in Reach(E, {x}) ensures y in Reach(E - Redundant(E), {x}) {
      PathKept(E, ReachRank(E), x, y);
    }
  }

  /** A path of `E` survives the removal; by induction on the rank drop along it. */
  lemma {:induction false} PathKept(E: set<Edge>, rank: Node -> int, x: Node, y: Node)
    requires RankDescends(E, rank) && y in Reach(E, {x})
    ensures y in Reach(E - Redundant(E), {x})
    decreases rank(x) - rank(y), 2
  {
    if x != y {
      RankDrops(E, rank, x, y);
      var c := FirstStep(E, x, y);
      if c != y {
        RankDrops(E, rank, c, y);
      }
      EdgeKept(E, rank, x, c);
      PathKept(E, rank, c, y);
      ReachTrans(E - Redundant(E), x, c, y);
    }
  }

  /** An edge of `E` is kept, or replaced by a path through the other ancestor. */
  lemma {:induction false} EdgeKept(E: set<Edge>, rank: Node -> int, a: Node, v: Node)
    requires RankDescends(E, rank) && (a, v) in E
    ensures v in Reach(E - Redundant(E), {a})
    decreases rank(a) - rank(v), 1
  {
    if (a, v) in Redundant(E) {
      var b :| (a, b) in E && b != v && v in Reach(E, {b});
      RankDrops(E, rank, b, v);
      EdgeKept(E, rank, a, b);
      PathKept(E, rank, b, v);
      ReachTrans(E - Redundant(E), a, b, v);
    } else {
      ReachStep(E - Redundant(E), a, v);
    }
  }

  /** After the removal nothing is redundant any more. */
  lemma ReductionMinimal(E: set<Edge>)
    ensures Redundant(E - Redundant(E)) == {}
  {
    RedundantSub(E, E - Redundant(E));
  }

  /** An edge redundant in a subgraph is redundant in the whole graph. */
  lemma RedundantSub(E: set<Edge>, F: set<Edge>)
    requires F <= E
    ensures Redundant(F) <= Redundant(E)
  {
    forall e | e in Redundant(F) ensures e in Redundant(E) {
      var b :| (e.0, b) in F && b != e.1 && e.1 in Reach(F, {b});
      ReachMonoEdges(F, E, {b});
    }
  }

  /**
   * The reduction is the smallest subgraph with the same paths: every subgraph of an acyclic
   * graph that keeps all of its paths keeps every edge the removal keeps.
   */
  lemma ReductionSmallest(E: set<Edge>, F: set<Edge>)
    requires Acyclic(E) && F <= E
    requires forall x :: Reach(F, {x}) == Reach(E, {x})
    ensures E - Redundant(E) <= F
  {
    forall e | e in E && e !in F ensures e in Redundant(E) {
      var (a, v) := e;
      ReachStep(E, a, v);
      assert v in Reach(F, {a});
      var c := FirstStep(F, a, v);
      assert v in Reach(E, {c});
    }
  }

  /** The removal keeps the graph acyclic and keeps a parent for every node that had one. */
  lemma ReductionKeepsParents(E: set<Edge>, a: Node, v: Node) returns (p: Node)
    requires Acyclic(E) && (a, v) in E
    ensures (p, v) in E - Redundant(E) && Acyclic(E - Redundant(E))
  {
    ReductionKeepsReach(E, a);
    ReachStep(E, a, v);
    p := LastStep(E - Redundant(E), a, v);
    AcyclicSub(E, E - Redundant(E));
  }
}

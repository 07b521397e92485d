/**
 * The first step of `_build`: enumerate the ordered pairs of clusters and add the edge
 * parent → child for every pair whose containment index reaches the cutoff, keeping only the
 * stronger direction when two clusters contain each other.
 */
module Candidates {
  import opened Wrappers
  import opened Seqs
  import opened Containment
  import opened Graph
  import opened Digraphs
  import opened Assignments

  /** `ns` after `add_node(x)`: appended when new. */
  function WithNode(ns: seq<Node>, x: Node): (r: seq<Node>)
    ensures forall y :: y in r <==> y in ns || y == x
    ensures NoDup(ns) ==> NoDup(r)
  {
    if x in ns then ns else (if NoDup(ns) then NoDupAppend(ns, x); ns + [x] else ns + [x])
  }

  /** The pair `(i', j')` is enumerated before the pair `(i, j)` (row-major order). */
  predicate Before(i': int, j': int, i: int, j: int) {
    i' < i || (i' == i && j' < j)
  }

  /** Cluster `k` belongs to an enumerated pair that comes before `(i, j)`. */
  ghost predicate SeenBefore(p: Pairing, i: nat, j: nat, k: nat)
    requires Ready(p)
  {
    exists i', j' :: 0 <= i' < |p.a.rows| && 0 <= j' < |p.a.rows| && Before(i', j', i, j)
      && Allowed(p, i', j') && (k == i' || k == j')
  }

  /**
   * The graph's nodes once the pairs before `(i, j)` have been enumerated: the two clusters of
   * each allowed pair, in order of first appearance.
   */
  function NodesUpTo(p: Pairing, i: nat, j: nat): (ns: seq<Node>)
    requires Ready(p) && i <= |p.a.rows| && j <= |p.a.rows|
    ensures NoDup(ns)
    ensures forall x :: x in ns ==> x.Internal? && x.occ == 0 && 0 <= x.idx < |p.a.rows|
    decreases i, j
  {
    if j == 0 then
      if i == 0 then [] else NodesUpTo(p, i - 1, |p.a.rows|)
    else
      var ns := NodesUpTo(p, i, j - 1);
      if i < |p.a.rows| && Allowed(p, i, j - 1) then WithNode(WithNode(ns, Cluster(i)), Cluster(j - 1))
      else ns
  }

  /** A cluster is a node of the graph exactly when it has appeared in an enumerated pair. */
  lemma {:induction false} NodesUpToMembers(p: Pairing, i: nat, j: nat, k: nat)
    requires Ready(p) && i <= |p.a.rows| && j <= |p.a.rows| && k < |p.a.rows|
    ensures Cluster(k) in NodesUpTo(p, i, j) <==> SeenBefore(p, i, j, k)
    decreases i, j, 1
  {
    if j == 0 {
      if i == 0 {
        assert !SeenBefore(p, i, j, k);
      } else {
        NodesMembersRow(p, i, k);
      }
    } else {
      NodesMembersStep(p, i, j, k);
    }
  }

  lemma {:induction false} NodesMembersRow(p: Pairing, i: nat, k: nat)
    requires Ready(p) && 0 < i <= |p.a.rows| && k < |p.a.rows|
    ensures Cluster(k) in NodesUpTo(p, i, 0) <==> SeenBefore(p, i, 0, k)
    decreases i, 0, 0
  {
    NodesUpToMembers(p, i - 1, |p.a.rows|, k);
    SeenRow(p, i, k);
  }

  lemma {:induction false} NodesMembersStep(p: Pairing, i: nat, j: nat, k: nat)
    requires Ready(p) && i <= |p.a.rows| && 0 < j <= |p.a.rows| && k < |p.a.rows|
    ensures Cluster(k) in NodesUpTo(p, i, j) <==> SeenBefore(p, i, j, k)
    decreases i, j, 0
  {
    NodesUpToMembers(p, i, j - 1, k);
    SeenStep(p, i, j, k);
    NodesStepMembers(p, i, j, k);
  }

  lemma NodesStepMembers(p: Pairing, i: nat, j: nat, k: nat)
    requires Ready(p) && i <= |p.a.rows| && 0 < j <= |p.a.rows| && k < |p.a.rows|
    ensures Cluster(k) in NodesUpTo(p, i, j) <==> (Cluster(k) in NodesUpTo(p, i, j - 1)
      || (i < |p.a.rows| && Allowed(p, i, j - 1) && (k == i || k == j - 1)))
  {
    var ns := NodesUpTo(p, i, j - 1);
    if i < |p.a.rows| && Allowed(p, i, j - 1) {
      var ns1 := WithNode(ns, Cluster(i));
      assert Cluster(k) in ns1 <==> Cluster(k) in ns || k == i;
      assert NodesUpTo(p, i, j) == WithNode(ns1, Cluster(j - 1));
    }
  }

  lemma SeenRow(p: Pairing, i: nat, k: nat)
    requires Ready(p) && 0 < i <= |p.a.rows| && k < |p.a.rows|
    ensures SeenBefore(p, i, 0, k) <==> SeenBefore(p, i - 1, |p.a.rows|, k)
  {
    var n := |p.a.rows|;
    if SeenBefore(p, i, 0, k) {
      var i', j' :| 0 <= i' < n && 0 <= j' < n && Before(i', j', i, 0)
        && Allowed(p, i', j') && (k == i' || k == j');
      assert Before(i', j', i - 1, n);
    }
    if SeenBefore(p, i - 1, n, k) {
      var i', j' :| 0 <= i' < n && 0 <= j' < n && Before(i', j', i - 1, n)
        && Allowed(p, i', j') && (k == i' || k == j');
      assert Before(i', j', i, 0);
    }
  }

  lemma SeenStep(p: Pairing, i: nat, j: nat, k: nat)
    requires Ready(p) && i <= |p.a.rows| && 0 < j <= |p.a.rows| && k < |p.a.rows|
    ensures SeenBefore(p, i, j, k) <==> (SeenBefore(p, i, j - 1, k)
      || (i < |p.a.rows| && Allowed(p, i, j - 1) && (k == i || k == j - 1)))
  {
    var n := |p.a.rows|;
    if SeenBefore(p, i, j, k) {
      var i', j' :| 0 <= i' < n && 0 <= j' < n && Before(i', j', i, j)
        && Allowed(p, i', j') && (k == i' || k == j');
      if !(i' == i && j' == j - 1) {
        assert Before(i', j', i, j - 1);
      }
    }
    if SeenBefore(p, i, j - 1, k) {
      var i', j' :| 0 <= i' < n && 0 <= j' < n && Before(i', j', i, j - 1)
        && Allowed(p, i', j') && (k == i' || k == j');
      assert Before(i', j', i, j);
    }
    if i < n && Allowed(p, i, j - 1) && (k == i || k == j - 1) {
      assert Before(i, j - 1, i, j);
    }
  }

  /** After enumerating the pairs before `(i, j)`, the edge `(j', 0) → (i', 0)` is present. */
  predicate KeptBefore(p: Pairing, i': nat, j': nat, i: nat, j: nat)
    requires Ready(p) && i' < |p.a.rows| && j' < |p.a.rows|
  {
    Before(i', j', i, j) && Proposed(p, i', j')
    && (!Before(j', i', i, j) || Kept(p, i', j'))
  }

  /**
   * How one pass of the loop, for the pair `(i, j)`, changes which edges are present: only the
   * edge of this pair and the opposite edge can change, the first appears when the pair
   * proposes it and the opposite edge, if any, is weaker, and the opposite edge goes when this
   * pair's index is strictly larger.
   */
  lemma KeptStep(p: Pairing, i: nat, j: nat, i': nat, j': nat)
    requires Ready(p) && i < |p.a.rows| && j < |p.a.rows| && i' < |p.a.rows| && j' < |p.a.rows|
    ensures (i', j') != (i, j) && (i', j') != (j, i) ==>
      (KeptBefore(p, i', j', i, j + 1) <==> KeptBefore(p, i', j', i, j))
    ensures KeptBefore(p, j, i, i, j) <==> j < i && Proposed(p, j, i)
    ensures KeptBefore(p, i, j, i, j + 1) <==>
      Proposed(p, i, j)
      && (!KeptBefore(p, j, i, i, j) || CI(p, i, j).value > CI(p, j, i).value)
    ensures i != j ==> (KeptBefore(p, j, i, i, j + 1) <==>
      KeptBefore(p, j, i, i, j)
      && !(Proposed(p, i, j) && CI(p, i, j).value > CI(p, j, i).value))
  {
  }

  /** The nodes and their attributes after enumerating the pairs before `(i, j)`. */
  ghost predicate NodesState(g: Digraph, p: Pairing, i: nat, j: nat)
    requires Ready(p) && i <= |p.a.rows| && j <= |p.a.rows|
    reads g
  {
    g.nodes == NodesUpTo(p, i, j)
    && (forall x :: x in g.nodes ==> x in g.info)
    && (forall x :: x in g.info ==> x.Internal? && 0 <= x.idx < |p.a.rows| && g.info[x] == InfoOf(p.a, x.idx))
    && g.depth == map[]
  }

  /** The edges `E` and their weights `W` after enumerating the pairs before `(i, j)`. */
  ghost predicate EdgesState(E: seq<Edge>, W: map<Edge, real>, p: Pairing,
                             i: nat, j: nat)
    requires Ready(p)
  {
    (forall e :: e in E ==> ClusterEdge(p.a, e) && KeptBefore(p, e.1.idx, e.0.idx, i, j))
    && (forall i', j' :: 0 <= i' < |p.a.rows| && 0 <= j' < |p.a.rows| && KeptBefore(p, i', j', i, j)
          ==> (Cluster(j'), Cluster(i')) in E)
    && (forall e :: e in W ==> ClusterEdge(p.a, e) && CI(p, e.1.idx, e.0.idx) == Some(W[e]))
  }

  /** The state of the graph after enumerating the pairs before `(i, j)`. */
  ghost predicate StateUpTo(g: Digraph, p: Pairing, i: nat, j: nat)
    requires Ready(p) && i <= |p.a.rows| && j <= |p.a.rows|
    reads g
  {
    g.Valid() && NodesState(g, p, i, j) && EdgesState(g.edges, g.weight, p, i, j)
  }

  /**
   * `_build`, lines 285-305: for every enumerated pair `(i, j)` adds both nodes with their
   * attributes, and the edge `(j, 0) → (i, 0)` weighted CI[i, j] when CI[i, j] ≥ cutoff, unless
   * the opposite edge is already there with an index at least as large.
   */
  method AddCandidates(g: Digraph, p: Pairing)
    requires Ready(p) && g.Valid()
    requires g.nodes == [] && g.edges == [] && g.info == map[] && g.depth == map[]
    modifies g
    ensures StateUpTo(g, p, |p.a.rows|, 0)
    ensures g.Valid() && g.EdgeSet() == CandidateEdges(p)
    ensures forall e :: e in g.weight ==> ClusterEdge(p.a, e) && CI(p, e.1.idx, e.0.idx) == Some(g.weight[e])
    ensures forall k :: 0 <= k < |p.a.rows| ==> (Cluster(k) in g.nodes <==> Paired(p, k))
    ensures forall x :: x in g.nodes ==>
      x.Internal? && x.occ == 0 && 0 <= x.idx < |p.a.rows| && x in g.info && g.info[x] == InfoOf(p.a, x.idx)
  {
    for i := 0 to |p.a.rows|
      invariant StateUpTo(g, p, i, 0)
    {
      ProcessRow(g, p, i);
    }
    FinalEdges(g.edges, g.weight, p);
    forall k | 0 <= k < |p.a.rows| ensures Cluster(k) in g.nodes <==> Paired(p, k) {
      NodesUpToMembers(p, |p.a.rows|, 0, k);
      SeenAll(p, k);
    }
  }

  /** Cluster `k` is in some enumerated pair. */
  ghost predicate Paired(p: Pairing, k: nat)
    requires Ready(p) && k < |p.a.rows|
  {
    exists j :: 0 <= j < |p.a.rows| && (Allowed(p, k, j) || Allowed(p, j, k))
  }

  lemma SeenAll(p: Pairing, k: nat)
    requires Ready(p) && k < |p.a.rows|
    ensures SeenBefore(p, |p.a.rows|, 0, k) <==> Paired(p, k)
  {
    var n := |p.a.rows|;
    if SeenBefore(p, n, 0, k) {
      var i', j' :| 0 <= i' < n && 0 <= j' < n && Before(i', j', n, 0) && Allowed(p, i', j') && (k == i' || k == j');
      if k == i' {
        assert Allowed(p, k, j');
      } else {
        assert Allowed(p, i', k);
      }
    }
    if Paired(p, k) {
      var j :| 0 <= j < n && (Allowed(p, k, j) || Allowed(p, j, k));
      if Allowed(p, k, j) {
        assert Before(k, j, n, 0);
      } else {
        assert Before(j, k, n, 0);
      }
    }
  }

  /** Once every pair is enumerated the edges are exactly the kept candidate edges. */
  lemma FinalEdges(E: seq<Edge>, W: map<Edge, real>, p: Pairing)
    requires Ready(p) && EdgesState(E, W, p, |p.a.rows|, 0)
    ensures Elems(E) == CandidateEdges(p)
  {
    var n := |p.a.rows|;
    forall e | e in Elems(E) ensures e in CandidateEdges(p) {
      assert KeptBefore(p, e.1.idx, e.0.idx, n, 0);
      assert e == (Cluster(e.0.idx), Cluster(e.1.idx));
    }
    forall e | e in CandidateEdges(p) ensures e in Elems(E) {
      var i, j :| 0 <= i < n && 0 <= j < n && Kept(p, i, j) && e == (Cluster(j), Cluster(i));
      assert KeptBefore(p, i, j, n, 0);
    }
  }

  /** The pairs `(i, 0)`, …, `(i, n - 1)`. */
  method ProcessRow(g: Digraph, p: Pairing, i: nat)
    requires Ready(p) && i < |p.a.rows|
    requires StateUpTo(g, p, i, 0)
    modifies g
    ensures StateUpTo(g, p, i + 1, 0)
  {
    for j := 0 to |p.a.rows|
      invariant StateUpTo(g, p, i, j)
    {
      ProcessPair(g, p, i, j);
    }
    NextRow(g, p, i);
  }

  /** Finishing a row is starting the next one. */
  lemma NextRow(g: Digraph, p: Pairing, i: nat)
    requires Ready(p) && i < |p.a.rows|
    requires StateUpTo(g, p, i, |p.a.rows|)
    ensures StateUpTo(g, p, i + 1, 0)
  {
    assert NodesUpTo(p, i + 1, 0) == NodesUpTo(p, i, |p.a.rows|);
    EdgesNextRow(g.edges, g.weight, p, i);
  }

  lemma EdgesNextRow(E: seq<Edge>, W: map<Edge, real>, p: Pairing, i: nat)
    requires Ready(p) && i < |p.a.rows|
    requires EdgesState(E, W, p, i, |p.a.rows|)
    ensures EdgesState(E, W, p, i + 1, 0)
  {
    forall i', j' | 0 <= i' < |p.a.rows| && 0 <= j' < |p.a.rows|
      ensures KeptBefore(p, i', j', i + 1, 0)
        <==> KeptBefore(p, i', j', i, |p.a.rows|)
    {
    }
  }

  /** One pass of the pair loop, for the pair `(i, j)`. */
  method ProcessPair(g: Digraph, p: Pairing, i: nat, j: nat)
    requires Ready(p) && i < |p.a.rows| && j < |p.a.rows|
    requires StateUpTo(g, p, i, j)
    modifies g
    ensures StateUpTo(g, p, i, j + 1)
  {
    if Allowed(p, i, j) {
      var na, nb := Cluster(i), Cluster(j);
      if na !in g.nodes {
        g.AddNode(na, InfoOf(p.a, i));
      }
      if nb !in g.nodes {
        g.AddNode(nb, InfoOf(p.a, j));
      }
      NodesStep(g, p, i, j);
      ProposeEdge(g, p, i, j);
    } else {
      assert NodesUpTo(p, i, j + 1) == NodesUpTo(p, i, j);
      KeptUnchanged(g.edges, g.weight, p, i, j);
    }
  }

  /** The edge part of one pass: `(j, 0) → (i, 0)` is added or replaces the opposite edge. */
  method ProposeEdge(g: Digraph, p: Pairing, i: nat, j: nat)
    requires Ready(p) && i < |p.a.rows| && j < |p.a.rows| && Allowed(p, i, j)
    requires g.Valid() && NodesState(g, p, i, j + 1) && EdgesState(g.edges, g.weight, p, i, j)
    requires Cluster(i) in g.nodes && Cluster(j) in g.nodes
    modifies g
    ensures StateUpTo(g, p, i, j + 1)
  {
    var C := CI(p, i, j);
    var na, nb := Cluster(i), Cluster(j);
    ghost var E, W := g.edges, g.weight;
    if C.Some? && C.value >= p.cutoff {
      if (na, nb) in g.edges {
        // the opposite edge, added for the pair (j, i)
        var C0 := g.weight[(na, nb)];
        if C.value > C0 {
          g.RemoveEdge(na, nb);
          g.AddEdge(nb, na, C.value);
          EdgesAfterReplace(E, W, g.edges, g.weight, p, i, j);
        } else {
          KeptUnchanged(E, W, p, i, j);
        }
      } else {
        g.AddEdge(nb, na, C.value);
        EdgesAfterAdd(E, W, g.edges, g.weight, p, i, j);
      }
    } else {
      KeptUnchanged(E, W, p, i, j);
    }
  }

  /** Adding the two clusters of an allowed pair gives the nodes after that pair. */
  lemma NodesStep(g: Digraph, p: Pairing, i: nat, j: nat)
    requires Ready(p) && i < |p.a.rows| && j < |p.a.rows| && Allowed(p, i, j)
    requires g.nodes == WithNode(WithNode(NodesUpTo(p, i, j), Cluster(i)), Cluster(j))
    ensures g.nodes == NodesUpTo(p, i, j + 1)
  {
  }

  /** When the pair adds no edge, the present edges are exactly the ones kept so far. */
  lemma KeptUnchanged(E: seq<Edge>, W: map<Edge, real>, p: Pairing, i: nat, j: nat)
    requires Ready(p) && i < |p.a.rows| && j < |p.a.rows|
    requires EdgesState(E, W, p, i, j)
    requires !Proposed(p, i, j)
      || ((Cluster(i), Cluster(j)) in E && (Cluster(i), Cluster(j)) in W
          && CI(p, i, j).value <= W[(Cluster(i), Cluster(j))])
    ensures EdgesState(E, W, p, i, j + 1)
  {
    forall i', j' | 0 <= i' < |p.a.rows| && 0 <= j' < |p.a.rows|
      ensures KeptBefore(p, i', j', i, j + 1) <==> KeptBefore(p, i', j', i, j)
    {
      KeptStep(p, i, j, i', j');
    }
  }

  /** Adding the proposed edge when the opposite one is absent. */
  lemma EdgesAfterAdd(E: seq<Edge>, W: map<Edge, real>, E': seq<Edge>, W': map<Edge, real>,
                      p: Pairing, i: nat, j: nat)
    requires Ready(p) && i < |p.a.rows| && j < |p.a.rows|
    requires EdgesState(E, W, p, i, j)
    requires Proposed(p, i, j) && (Cluster(i), Cluster(j)) !in E
    requires E' == if (Cluster(j), Cluster(i)) in E then E else E + [(Cluster(j), Cluster(i))]
    requires W' == W[(Cluster(j), Cluster(i)) := CI(p, i, j).value]
    ensures EdgesState(E', W', p, i, j + 1)
  {
    assert forall e :: e in E' <==> e in E || e == (Cluster(j), Cluster(i));
    forall i', j' | 0 <= i' < |p.a.rows| && 0 <= j' < |p.a.rows|
      ensures KeptBefore(p, i', j', i, j + 1)
        <==> KeptBefore(p, i', j', i, j) || (i', j') == (i, j)
    {
      KeptStep(p, i, j, i', j');
    }
  }

  /** Replacing the opposite edge, whose index is strictly smaller, by the proposed one. */
  lemma EdgesAfterReplace(E: seq<Edge>, W: map<Edge, real>, E': seq<Edge>, W': map<Edge, real>,
                          p: Pairing, i: nat, j: nat)
    requires Ready(p) && i < |p.a.rows| && j < |p.a.rows|
    requires EdgesState(E, W, p, i, j)
    requires Proposed(p, i, j) && (Cluster(i), Cluster(j)) in E
    requires (Cluster(i), Cluster(j)) in W && CI(p, i, j).value > W[(Cluster(i), Cluster(j))]
    requires E' == var E1 := EdgesOutside(E, {(Cluster(i), Cluster(j))});
      if (Cluster(j), Cluster(i)) in E1 then E1 else E1 + [(Cluster(j), Cluster(i))]
    requires W' == (W - {(Cluster(i), Cluster(j))})[(Cluster(j), Cluster(i)) := CI(p, i, j).value]
    ensures EdgesState(E', W', p, i, j + 1)
  {
    assert KeptBefore(p, j, i, i, j) && W[(Cluster(i), Cluster(j))] == CI(p, j, i).value;
    KeptAfterReplace(p, i, j);
    assert forall e :: e in E' <==> (e in E && e != (Cluster(i), Cluster(j))) || e == (Cluster(j), Cluster(i));
    ReplaceKept(E, E', p, i, j);
    ReplacePresent(E, E', p, i, j);
  }

  /** A pair that beats the opposite edge replaces it, and no other pair changes. */
  lemma KeptAfterReplace(p: Pairing, i: nat, j: nat)
    requires Ready(p) && i < |p.a.rows| && j < |p.a.rows| && Proposed(p, i, j) && KeptBefore(p, j, i, i, j)
    requires CI(p, i, j).value > CI(p, j, i).value
    ensures forall i', j' :: 0 <= i' < |p.a.rows| && 0 <= j' < |p.a.rows| ==>
      (KeptBefore(p, i', j', i, j + 1) <==> (KeptBefore(p, i', j', i, j) && (i', j') != (j, i)) || (i', j') == (i, j))
  {
    forall i', j' | 0 <= i' < |p.a.rows| && 0 <= j' < |p.a.rows|
      ensures KeptBefore(p, i', j', i, j + 1)
        <==> (KeptBefore(p, i', j', i, j) && (i', j') != (j, i)) || (i', j') == (i, j)
    {
      KeptStep(p, i, j, i', j');
    }
  }

  /** After the replacement, every edge is one the enumeration keeps. */
  lemma ReplaceKept(E: seq<Edge>, E': seq<Edge>, p: Pairing, i: nat, j: nat)
    requires Ready(p) && i < |p.a.rows| && j < |p.a.rows| && Proposed(p, i, j)
    requires forall e :: e in E ==> ClusterEdge(p.a, e) && KeptBefore(p, e.1.idx, e.0.idx, i, j)
    requires forall e :: e in E' <==> (e in E && e != (Cluster(i), Cluster(j))) || e == (Cluster(j), Cluster(i))
    requires forall i', j' :: 0 <= i' < |p.a.rows| && 0 <= j' < |p.a.rows| ==>
      (KeptBefore(p, i', j', i, j + 1) <==> (KeptBefore(p, i', j', i, j) && (i', j') != (j, i)) || (i', j') == (i, j))
    ensures forall e :: e in E' ==> ClusterEdge(p.a, e) && KeptBefore(p, e.1.idx, e.0.idx, i, j + 1)
  {
    forall e | e in E' ensures ClusterEdge(p.a, e) && KeptBefore(p, e.1.idx, e.0.idx, i, j + 1) {
      if e != (Cluster(j), Cluster(i)) {
        assert e == (Cluster(e.0.idx), Cluster(e.1.idx));
        assert (e.1.idx, e.0.idx) != (j, i);
      } else {
        assert (e.1.idx, e.0.idx) == (i, j);
      }
    }
  }

  /** After the replacement, every pair the enumeration keeps has its edge. */
  lemma ReplacePresent(E: seq<Edge>, E': seq<Edge>, p: Pairing, i: nat, j: nat)
    requires Ready(p) && i < |p.a.rows| && j < |p.a.rows|
    requires forall i', j' :: 0 <= i' < |p.a.rows| && 0 <= j' < |p.a.rows| && KeptBefore(p, i', j', i, j)
               ==> (Cluster(j'), Cluster(i')) in E
    requires forall e :: e in E' <==> (e in E && e != (Cluster(i), Cluster(j))) || e == (Cluster(j), Cluster(i))
    requires forall i', j' :: 0 <= i' < |p.a.rows| && 0 <= j' < |p.a.rows| ==>
      (KeptBefore(p, i', j', i, j + 1) <==> (KeptBefore(p, i', j', i, j) && (i', j') != (j, i)) || (i', j') == (i, j))
    ensures forall i', j' :: 0 <= i' < |p.a.rows| && 0 <= j' < |p.a.rows| && KeptBefore(p, i', j', i, j + 1)
              ==> (Cluster(j'), Cluster(i')) in E'
  {
  }
}

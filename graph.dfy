/**
 * Nodes, edges and reachability of the hierarchy graphs.
 *
 * A cluster node is the pair `(index, occurrence)` of the Python code, a terminal node is the
 * terminal's name, and the synthetic root is the pair `(-1, 0)`. Reachability (networkx's
 * `has_path`, `descendants`, `ancestors`) is the least set of nodes that contains the start
 * nodes and is closed under successors; breadth-first distance (`shortest_path_length`) is the
 * first layer of the breadth-first expansion that holds the target.
 */
module Graph {
  import opened Wrappers
  import opened Seqs

  /** A terminal name: the strings given by the caller, or the default numbering 0..n-1. */
  datatype Name = Str(s: string) | Num(k: int)

  datatype Node = Internal(idx: int, occ: int) | Terminal(name: Name)

  /** The node `(-1, 0)` that `_build` adds above several parentless clusters. */
  const Root: Node := Internal(-1, 0)

  type Edge = (Node, Node)

  /** The successors in `E` of the nodes in `S`. */
  function Next(E: set<Edge>, S: set<Node>): set<Node> {
    set e | e in E && e.0 in S :: e.1
  }

  function Targets(E: set<Edge>): set<Node> {
    set e | e in E :: e.1
  }

  /** Every node reachable in `E` from a node of `S`, the nodes of `S` included. */
  function Reach(E: set<Edge>, S: set<Node>): (R: set<Node>)
    ensures S <= R && Next(E, R) <= R
    decreases |Targets(E) - S|
  {
    var more := S + Next(E, S);
    if more <= S then S
    else
      assert Targets(E) - more < Targets(E) - S;
      SubsetCard(Targets(E) - more, Targets(E) - S);
      Reach(E, more)
  }

  /** `Reach` is the least closed superset: any set closed under successors contains it. */
  lemma {:induction false} ReachLeast(E: set<Edge>, S: set<Node>, C: set<Node>)
    requires S <= C && Next(E, C) <= C
    ensures Reach(E, S) <= C
    decreases |Targets(E) - S|
  {
    var more := S + Next(E, S);
    if !(more <= S) {
      assert Targets(E) - more < Targets(E) - S;
      SubsetCard(Targets(E) - more, Targets(E) - S);
      ReachLeast(E, more, C);
    }
  }

  lemma ReachMono(E: set<Edge>, S: set<Node>, S': set<Node>)
    requires S <= S'
    ensures Reach(E, S) <= Reach(E, S')
  {
    ReachLeast(E, S, Reach(E, S'));
  }

  /** Adding edges never removes a path. */
  lemma ReachMonoEdges(E: set<Edge>, E': set<Edge>, S: set<Node>)
    requires E <= E'
    ensures Reach(E, S) <= Reach(E', S)
  {
    var R' := Reach(E', S);
    assert Next(E, R') <= Next(E', R');
    ReachLeast(E, S, R');
  }

  lemma ReachStep(E: set<Edge>, x: Node, y: Node)
    requires (x, y) in E
    ensures y in Reach(E, {x})
  {
    assert y in Next(E, Reach(E, {x}));
  }

  lemma ReachTrans(E: set<Edge>, x: Node, y: Node, z: Node)
    requires y in Reach(E, {x}) && z in Reach(E, {y})
    ensures z in Reach(E, {x})
  {
    ReachLeast(E, {y}, Reach(E, {x}));
  }

  /** A path that is not empty leaves `x` along one of its edges. */
  lemma FirstStep(E: set<Edge>, x: Node, y: Node) returns (c: Node)
    requires y in Reach(E, {x}) && y != x
    ensures (x, c) in E && y in Reach(E, {c})
  {
    var C := {x} + set e, z | e in E && e.0 == x && z in Reach(E, {e.1}) :: z;
    forall w | w in Next(E, C) ensures w in C {
      var e :| e in E && e.0 in C && e.1 == w;
      if e.0 == x {
        assert w in Reach(E, {e.1});
      } else {
        var f :| f in E && f.0 == x && e.0 in Reach(E, {f.1});
        ReachStep(E, e.0, w);
        ReachTrans(E, f.1, e.0, w);
      }
    }
    ReachLeast(E, {x}, C);
    var f :| f in E && f.0 == x && y in Reach(E, {f.1});
    c := f.1;
  }

  /** A path that is not empty enters `y` along one of its edges. */
  lemma LastStep(E: set<Edge>, x: Node, y: Node) returns (p: Node)
    requires y in Reach(E, {x}) && y != x
    ensures (p, y) in E && p in Reach(E, {x})
  {
    var R := Reach(E, {x});
    var C := {x} + Next(E, R);
    assert Next(E, C) <= C by {
      assert C <= R;
      assert Next(E, C) <= Next(E, R);
    }
    ReachLeast(E, {x}, C);
    var e :| e in E && e.0 in R && e.1 == y;
    p := e.0;
  }

  /** A node reachable from a set is reachable from one of its members. */
  lemma ReachFromOne(E: set<Edge>, S: set<Node>, y: Node) returns (s: Node)
    requires y in Reach(E, S)
    ensures s in S && y in Reach(E, {s})
  {
    var C := set s, z | s in S && z in Reach(E, {s}) :: z;
    forall w | w in Next(E, C) ensures w in C {
      var e :| e in E && e.0 in C && e.1 == w;
      var s :| s in S && e.0 in Reach(E, {s});
      ReachStep(E, e.0, w);
      ReachTrans(E, s, e.0, w);
    }
    forall z | z in S ensures z in C {
      assert z in Reach(E, {z});
    }
    ReachLeast(E, S, C);
    s :| s in S && y in Reach(E, {s});
  }

  /** A node with no incoming edge is reached only from itself. */
  lemma ReachIntoSource(E: set<Edge>, x: Node, y: Node)
    requires forall e :: e in E ==> e.1 != y
    requires y in Reach(E, {x})
    ensures y == x
  {
    if y != x {
      var p := LastStep(E, x, y);
    }
  }

  /** Nothing leaves a node without outgoing edges. */
  lemma ReachFromSink(E: set<Edge>, x: Node)
    requires forall e :: e in E ==> e.0 != x
    ensures Reach(E, {x}) == {x}
  {
    ReachLeast(E, {x}, {x});
  }

  /** A rank that strictly drops along every edge. */
  predicate RankDescends(E: set<Edge>, rank: Node -> int) {
    forall e :: e in E ==> rank(e.0) > rank(e.1)
  }

  /** Along a ranked graph every nontrivial path strictly lowers the rank. */
  lemma RankDrops(E: set<Edge>, rank: Node -> int, x: Node, y: Node)
    requires RankDescends(E, rank)
    requires y in Reach(E, {x}) && y != x
    ensures rank(y) < rank(x)
  {
    var C := {x} + set z | z in Targets(E) && rank(z) < rank(x);
    forall w | w in Next(E, C) ensures w in C {
      var e :| e in E && e.0 in C && e.1 == w;
    }
    ReachLeast(E, {x}, C);
  }

  /** No self-loop, and no two distinct nodes reach each other. */
  ghost predicate Acyclic(E: set<Edge>) {
    (forall e :: e in E ==> e.0 != e.1)
    && forall x, y :: y in Reach(E, {x}) && x in Reach(E, {y}) ==> x == y
  }

  lemma RankAcyclic(E: set<Edge>, rank: Node -> int)
    requires RankDescends(E, rank)
    ensures Acyclic(E)
  {
    forall x, y | y in Reach(E, {x}) && x in Reach(E, {y}) ensures x == y {
      if x != y {
        RankDrops(E, rank, x, y);
        RankDrops(E, rank, y, x);
      }
    }
  }

  /** Dropping edges cannot create a cycle. */
  lemma AcyclicSub(E: set<Edge>, F: set<Edge>)
    requires Acyclic(E) && F <= E
    ensures Acyclic(F)
  {
    forall x, y | y in Reach(F, {x}) && x in Reach(F, {y}) ensures x == y {
      ReachMonoEdges(F, E, {x});
      ReachMonoEdges(F, E, {y});
    }
  }

  /** The number of nodes a node reaches, itself included. */
  function ReachRank(E: set<Edge>): Node -> int {
    (x: Node) => |Reach(E, {x})|
  }

  /** In an acyclic graph every edge leads to a node that reaches strictly fewer nodes. */
  lemma AcyclicRanked(E: set<Edge>)
    requires Acyclic(E)
    ensures RankDescends(E, ReachRank(E))
  {
    forall e | e in E ensures ReachRank(E)(e.0) > ReachRank(E)(e.1) {
      var u, v := e.0, e.1;
      ReachStep(E, u, v);
      forall z | z in Reach(E, {v}) ensures z in Reach(E, {u}) {
        ReachTrans(E, u, v, z);
      }
      assert u in Reach(E, {u});
      assert u !in Reach(E, {v});
      SubsetCard(Reach(E, {v}), Reach(E, {u}));
    }
  }

  /**
   * Above every node of a ranked graph lies a source: a node that no edge enters and from
   * which the node is reachable.
   */
  lemma SourceAbove(E: set<Edge>, N: set<Node>, rank: Node -> int, v: Node) returns (s: Node)
    requires RankDescends(E, rank) && v in N
    requires forall e :: e in E ==> e.0 in N && e.1 in N
    ensures s in N && (forall e :: e in E ==> e.1 != s) && v in Reach(E, {s})
    decreases |set x | x in N && rank(x) > rank(v)|
  {
    if forall e :: e in E ==> e.1 != v {
      s := v;
    } else {
      var e :| e in E && e.1 == v;
      var u := e.0;
      var above, aboveU := set x | x in N && rank(x) > rank(v), set x | x in N && rank(x) > rank(u);
      assert rank(u) > rank(v);
      assert aboveU <= above;
      assert u in above && u !in aboveU;
      SubsetCard(aboveU, above);
      s := SourceAbove(E, N, rank, u);
      ReachStep(E, u, v);
      ReachTrans(E, s, u, v);
    }
  }

  /** Nothing reached from a node other than `r` passes through `r` when no edge enters `r`. */
  lemma ReachAvoidsSource(E: set<Edge>, F: set<Edge>, r: Node, x: Node)
    requires forall e :: e in E + F ==> e.1 != r
    requires forall f :: f in F ==> f.0 == r
    requires x != r
    ensures Reach(E + F, {x}) == Reach(E, {x})
  {
    var R := Reach(E, {x});
    forall y | y in R ensures y != r {
      if y == r {
        ReachIntoSource(E, x, y);
      }
    }
    assert Next(E + F, R) <= R by {
      forall w | w in Next(E + F, R) ensures w in R {
        var e :| e in E + F && e.0 in R && e.1 == w;
        assert e in E;
      }
    }
    ReachLeast(E + F, {x}, R);
    ReachMonoEdges(E, E + F, {x});
  }

  /** Adding edges out of a new source keeps a graph acyclic. */
  lemma AddSourceAcyclic(E: set<Edge>, F: set<Edge>, r: Node)
    requires Acyclic(E)
    requires forall e :: e in E + F ==> e.1 != r
    requires forall f :: f in F ==> f.0 == r
    ensures Acyclic(E + F)
  {
    forall x, y | y in Reach(E + F, {x}) && x in Reach(E + F, {y}) ensures x == y {
      if x == r {
        ReachIntoSource(E + F, y, x);
      } else if y == r {
        ReachIntoSource(E + F, x, y);
      } else {
        ReachAvoidsSource(E, F, r, x);
        ReachAvoidsSource(E, F, r, y);
      }
    }
  }

  // Breadth-first layers and distances.

  /** The nodes at most `k` edges away from `S`. */
  function Within(E: set<Edge>, S: set<Node>, k: nat): (W: set<Node>)
    ensures S <= W
  {
    if k == 0 then S else Within(E, S, k - 1) + Next(E, Within(E, S, k - 1))
  }

  lemma {:induction false} WithinReach(E: set<Edge>, S: set<Node>, k: nat)
    ensures Within(E, S, k) <= Reach(E, S)
  {
    if k > 0 {
      WithinReach(E, S, k - 1);
      assert Next(E, Within(E, S, k - 1)) <= Next(E, Reach(E, S));
    }
  }

  lemma {:induction false} WithinMono(E: set<Edge>, S: set<Node>, j: nat, k: nat)
    requires j <= k
    ensures Within(E, S, j) <= Within(E, S, k)
    decreases k - j
  {
    if j < k {
      WithinMono(E, S, j, k - 1);
    }
  }

  /** Every reachable node lies in some layer. */
  lemma ReachWithin(E: set<Edge>, S: set<Node>, y: Node) returns (k: nat)
    requires y in Reach(E, S)
    ensures y in Within(E, S, k)
  {
    var C := set z | z in Reach(E, S) && exists j: nat :: z in Within(E, S, j);
    forall w | w in Next(E, C) ensures w in C {
      var e :| e in E && e.0 in C && e.1 == w;
      var j: nat :| e.0 in Within(E, S, j);
      assert w in Within(E, S, j + 1);
      assert w in Next(E, Reach(E, S));
    }
    forall z | z in S ensures z in C {
      assert z in Within(E, S, 0);
    }
    ReachLeast(E, S, C);
    k :| y in Within(E, S, k);
  }

  /** Once a layer stops growing it holds everything reachable. */
  lemma {:induction false} WithinStable(E: set<Edge>, S: set<Node>, k: nat)
    requires Within(E, S, k + 1) == Within(E, S, k)
    ensures Within(E, S, k) == Reach(E, S)
  {
    ReachLeast(E, S, Within(E, S, k));
    WithinReach(E, S, k);
  }

  /** One step beyond a layer lands in the next layer. */
  lemma WithinStep(E: set<Edge>, S: set<Node>, k: nat, u: Node, v: Node)
    requires u in Within(E, S, k) && (u, v) in E
    ensures v in Within(E, S, k + 1)
  {
    assert v in Next(E, Within(E, S, k));
  }

  /** `d` is the length of a shortest path from `s` to `t`. */
  predicate IsDistance(E: set<Edge>, s: Node, t: Node, d: nat) {
    t in Within(E, {s}, d) && forall k: nat :: k < d ==> t !in Within(E, {s}, k)
  }

  /** networkx's `shortest_path_length(G, s, t)`; `None` where it raises NetworkXNoPath. */
  function ShortestPathLength(E: set<Edge>, s: Node, t: Node): (r: Option<nat>)
    ensures r.Some? ==> IsDistance(E, s, t, r.value)
    ensures r.None? <==> t !in Reach(E, {s})
  {
    SearchFrom(E, s, t, 0)
  }

  function SearchFrom(E: set<Edge>, s: Node, t: Node, k: nat): (r: Option<nat>)
    requires forall j: nat :: j < k ==> t !in Within(E, {s}, j)
    ensures r.Some? ==> IsDistance(E, s, t, r.value)
    ensures r.None? <==> t !in Reach(E, {s})
    decreases |Reach(E, {s}) - Within(E, {s}, k)|
  {
    WithinReach(E, {s}, k);
    WithinReach(E, {s}, k + 1);
    if t in Within(E, {s}, k) then
      WithinReach(E, {s}, k);
      Some(k)
    else if Within(E, {s}, k + 1) == Within(E, {s}, k) then
      WithinStable(E, {s}, k);
      None
    else
      assert Within(E, {s}, k) < Within(E, {s}, k + 1);
      SubsetCard(Reach(E, {s}) - Within(E, {s}, k + 1), Reach(E, {s}) - Within(E, {s}, k));
      SearchFrom(E, s, t, k + 1)
  }
}

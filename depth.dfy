/**
 * `Weaver.update_depth`: writes on every node below the root its distance from the root,
 * relaxing the `depth` attributes along the edges with a first-in first-out queue.
 */
module Depths {
  import opened Wrappers
  import opened Seqs
  import opened Graph
  import opened Digraphs

  // Termination: the number of nodes still without a depth, then the sum of the depths.

  /** The depths of the nodes `ns`, each counted above the floor `m` (and as 0 below it). */
  function Total(D: map<Node, int>, ns: seq<Node>, m: int): nat {
    if ns == [] then 0
    else (if ns[0] in D && D[ns[0]] >= m then D[ns[0]] - m else 0) + Total(D, ns[1..], m)
  }

  lemma {:induction false} TotalSame(D: map<Node, int>, ns: seq<Node>, m: int, c: Node, x: int)
    requires c !in ns
    ensures Total(D[c := x], ns, m) == Total(D, ns, m)
  {
    if ns != [] {
      TotalSame(D, ns[1..], m, c, x);
    }
  }

  /** Lowering one depth, above the floor, lowers the sum. */
  lemma {:induction false} TotalLower(D: map<Node, int>, ns: seq<Node>, m: int, c: Node, x: int)
    requires NoDup(ns) && c in ns && c in D && m <= x < D[c]
    ensures Total(D[c := x], ns, m) < Total(D, ns, m)
  {
    NoDupTail(ns);
    if ns[0] == c {
      TotalSame(D, ns[1..], m, c, x);
    } else {
      TotalLower(D, ns[1..], m, c, x);
    }
  }

  /** A floor at or below 0 and below every depth of the nodes `ns`. */
  function Floor(D: map<Node, int>, ns: seq<Node>): (r: int)
    ensures r <= 0 && forall v :: v in ns && v in D ==> r <= D[v]
  {
    if ns == [] then 0
    else
      var rest := Floor(D, ns[1..]);
      if ns[0] in D && D[ns[0]] < rest then D[ns[0]] else rest
  }

  /** `(f, t)` comes before `(f0, t0)` in lexicographic order. */
  predicate Below(f: nat, t: nat, f0: nat, t0: nat) {
    f < f0 || (f == f0 && t < t0)
  }

  // Correctness, when no node starts with a depth.

  /** Every recorded depth is the distance from `s`. */
  ghost predicate Exact(E: set<Edge>, s: Node, D: map<Node, int>) {
    forall v :: v in D ==> D[v] >= 0 && IsDistance(E, s, v, D[v])
  }

  /** The queue holds nodes with depths, in nondecreasing order, each at `d` or `d + 1`. */
  predicate Banded(D: map<Node, int>, Q: seq<Node>, d: int) {
    (forall x :: x in Q ==> x in D && d <= D[x] <= d + 1)
    && forall i, j :: 0 <= i <= j < |Q| ==> Q[i] in D && Q[j] in D && D[Q[i]] <= D[Q[j]]
  }

  /** Every node whose depth is recorded and which is neither queued nor `u` has its children recorded. */
  ghost predicate ClosedBut(E: set<Edge>, D: map<Node, int>, Q: seq<Node>, u: Option<Node>) {
    forall e :: e in E && e.0 in D && e.0 !in Q && Some(e.0) != u ==> e.1 in D
  }

  /** The state of the breadth-first relaxation between two pops of the queue. */
  ghost predicate Bfs(E: set<Edge>, s: Node, D: map<Node, int>, Q: seq<Node>) {
    s in D && Exact(E, s, D) && NoDup(Q) && ClosedBut(E, D, Q, None)
    && (Q != [] ==> Q[0] in D && D[Q[0]] >= 0 && Banded(D, Q, D[Q[0]]) && Within(E, {s}, D[Q[0]]) <= D.Keys)
  }

  /** The state while the children of `u`, at depth `d`, are relaxed. */
  ghost predicate BfsChildren(E: set<Edge>, s: Node, D: map<Node, int>, Q: seq<Node>, u: Node, d: nat) {
    s in D && Exact(E, s, D) && NoDup(Q) && u !in Q && u in D && D[u] == d
    && ClosedBut(E, D, Q, Some(u)) && Banded(D, Q, d) && Within(E, {s}, d) <= D.Keys
  }

  /** A node first reached from `u`, at distance `d`, lies at distance `d + 1`. */
  lemma NewDistance(E: set<Edge>, s: Node, D: map<Node, int>, u: Node, c: Node, d: nat)
    requires Within(E, {s}, d) <= D.Keys && c !in D
    requires u in Within(E, {s}, d) && (u, c) in E
    ensures IsDistance(E, s, c, d + 1)
  {
    WithinStep(E, {s}, d, u, c);
    forall k: nat | k < d + 1 ensures c !in Within(E, {s}, k) {
      WithinMono(E, {s}, k, d);
    }
  }

  /** A node already at its distance is never deeper than one past its parent. */
  lemma OldDistance(E: set<Edge>, s: Node, u: Node, c: Node, d: nat, dc: nat)
    requires u in Within(E, {s}, d) && (u, c) in E && IsDistance(E, s, c, dc)
    ensures dc <= d + 1
  {
    WithinStep(E, {s}, d, u, c);
  }

  /** When the head of the queue moves one layer down, the next layer is recorded. */
  lemma NextLayer(E: set<Edge>, s: Node, D: map<Node, int>, Q: seq<Node>, d: nat)
    requires Exact(E, s, D) && ClosedBut(E, D, Q, None) && Within(E, {s}, d) <= D.Keys
    requires forall x :: x in Q ==> x in D && D[x] >= d + 1
    ensures Within(E, {s}, d + 1) <= D.Keys
  {
    forall x | x in Next(E, Within(E, {s}, d)) ensures x in D {
      var e :| e in E && e.0 in Within(E, {s}, d) && e.1 == x;
      assert e.0 !in Q;
    }
  }

  /** Recording a newly reached child of `u` at depth `d + 1` keeps the state. */
  lemma RecordChild(E: set<Edge>, s: Node, D: map<Node, int>, Q: seq<Node>, u: Node, d: nat, c: Node)
    requires BfsChildren(E, s, D, Q, u, d) && c !in D && (u, c) in E
    ensures BfsChildren(E, s, D[c := d + 1], Q + [c], u, d)
  {
    var D' := D[c := d + 1];
    NewDistance(E, s, D, u, c, d);
    assert Exact(E, s, D');
    NoDupAppend(Q, c);
    forall e | e in E && e.0 in D' && e.0 !in Q + [c] && Some(e.0) != Some(u) ensures e.1 in D' {
      assert e.0 in D && e.0 !in Q;
    }
    assert Banded(D', Q + [c], d) by {
      forall i, j | 0 <= i <= j < |Q + [c]| ensures (Q + [c])[i] in D' && (Q + [c])[j] in D' && D'[(Q + [c])[i]] <= D'[(Q + [c])[j]] {
        if j < |Q| {
          assert (Q + [c])[i] == Q[i] && (Q + [c])[j] == Q[j];
        } else {
          assert (Q + [c])[i] in Q + [c];
        }
      }
    }
  }

  /** With the children of `u` recorded, no recorded node outside the queue misses a child. */
  lemma ClosedAll(E: set<Edge>, D: map<Node, int>, Q: seq<Node>, u: Node)
    requires ClosedBut(E, D, Q, Some(u))
    requires forall e :: e in E && e.0 == u ==> e.1 in D
    ensures ClosedBut(E, D, Q, None)
  {
  }

  /** When the head of the queue is one past `d`, the whole queue is. */
  lemma BandUp(D: map<Node, int>, Q: seq<Node>, d: int)
    requires Banded(D, Q, d) && Q != [] && D[Q[0]] != d
    ensures forall x :: x in Q ==> x in D && D[x] >= d + 1
    ensures Banded(D, Q, D[Q[0]])
  {
    forall x | x in Q ensures x in D && D[x] >= d + 1 {
      var j :| 0 <= j < |Q| && Q[j] == x;
    }
  }

  /** Popping `u` from the head of the queue starts the look at its children. */
  lemma StartChildren(E: set<Edge>, s: Node, D: map<Node, int>, Q: seq<Node>, u: Node)
    requires Bfs(E, s, D, [u] + Q)
    ensures D[u] >= 0 && BfsChildren(E, s, D, Q, u, D[u])
  {
    NoDupTail([u] + Q);
    assert ([u] + Q)[1..] == Q;
    forall e | e in E && e.0 in D && e.0 !in Q && Some(e.0) != Some(u) ensures e.1 in D {
      assert e.0 !in [u] + Q;
    }
    assert Banded(D, Q, D[u]) by {
      forall i, j | 0 <= i <= j < |Q| ensures Q[i] in D && Q[j] in D && D[Q[i]] <= D[Q[j]] {
        assert Q[i] == ([u] + Q)[i + 1] && Q[j] == ([u] + Q)[j + 1];
      }
    }
  }

  /** After all children of `u` are recorded, the state between pops holds again. */
  lemma ChildrenDone(E: set<Edge>, s: Node, D: map<Node, int>, Q: seq<Node>, u: Node, d: nat)
    requires BfsChildren(E, s, D, Q, u, d)
    requires forall e :: e in E && e.0 == u ==> e.1 in D
    ensures Bfs(E, s, D, Q)
  {
    ClosedAll(E, D, Q, u);
    if Q != [] && D[Q[0]] != d {
      BandUp(D, Q, d);
      NextLayer(E, s, D, Q, d);
      assert Q[0] in Q;
      var h := D[Q[0]];
      assert h == d + 1;
      assert Within(E, {s}, h) <= D.Keys;
    }
  }

  /** Once the queue is empty, the recorded nodes are exactly those below `s`. */
  lemma BfsDone(E: set<Edge>, s: Node, D: map<Node, int>)
    requires Bfs(E, s, D, [])
    ensures D.Keys == Reach(E, {s})
  {
    ReachLeast(E, {s}, D.Keys);
    forall v | v in D ensures v in Reach(E, {s}) {
      WithinReach(E, {s}, D[v]);
    }
  }

  /** Two shortest-path lengths between the same nodes agree. */
  lemma DistanceUnique(E: set<Edge>, s: Node, t: Node, d1: nat, d2: nat)
    requires IsDistance(E, s, t, d1) && IsDistance(E, s, t, d2)
    ensures d1 == d2
  {
  }

  /** Along every edge the distance from `s` grows by at most one. */
  lemma DistanceEdge(E: set<Edge>, s: Node, u: Node, v: Node, du: nat, dv: nat)
    requires IsDistance(E, s, u, du) && IsDistance(E, s, v, dv) && (u, v) in E
    ensures dv <= du + 1
  {
    OldDistance(E, s, u, v, du, dv);
  }

  /** A recorded depth is what networkx's `shortest_path_length` from `s` returns. */
  lemma DepthIsShortestPath(E: set<Edge>, s: Node, v: Node, d: nat)
    requires IsDistance(E, s, v, d)
    ensures ShortestPathLength(E, s, v) == Some(d)
  {
    WithinReach(E, {s}, d);
    var r := ShortestPathLength(E, s, v);
    DistanceUnique(E, s, v, r.value, d);
  }

  /** The promises of `update_depth` read off an exact depth map: the root sits at depth 0,
      no edge below the root descends more than one level, and every depth is a shortest-path length. */
  lemma ExactDepths(E: set<Edge>, s: Node, D: map<Node, int>)
    requires Exact(E, s, D) && s in D && D.Keys == Reach(E, {s})
    ensures D[s] == 0
    ensures forall u, v :: u in D && (u, v) in E ==> v in D && D[v] <= D[u] + 1
    ensures forall v :: v in D ==> ShortestPathLength(E, s, v) == Some(D[v])
  {
    assert s in Within(E, {s}, 0);
    forall u, v | u in D && (u, v) in E ensures v in D && D[v] <= D[u] + 1 {
      assert v in Next(E, Reach(E, {s}));
      DistanceEdge(E, s, u, v, D[u], D[v]);
    }
    forall v | v in D ensures ShortestPathLength(E, s, v) == Some(D[v]) {
      DepthIsShortestPath(E, s, v, D[v]);
    }
  }

  // The methods.

  /**
   * `update_depth`, lines 525-550: sets the depth of `get_root(T)` to 0, then relaxes the
   * depths downwards from it. Fails as `T.nodes[None]` does when every node has a parent.
   */
  method UpdateDepth(g: Digraph) returns (r: Result<()>)
    requires g.Valid()
    modifies g
    ensures g.Valid()
    ensures g.nodes == old(g.nodes) && g.edges == old(g.edges) && g.weight == old(g.weight) && g.info == old(g.info)
    ensures r.Err? <==> old(GetRoot(g)).None?
    ensures r.Err? ==> r.error == MissingNode && g.depth == old(g.depth)
    ensures r.Ok? && old(g.depth) == map[] ==>
      g.depth.Keys == Reach(g.EdgeSet(), {old(GetRoot(g)).value})
      && Exact(g.EdgeSet(), old(GetRoot(g)).value, g.depth)
      && g.depth[old(GetRoot(g)).value] == 0
  {
    var top := GetRoot(g);
    if top.None? {
      return Err(MissingNode);
    }
    var root := top.value;
    ghost var blank := g.depth == map[];
    ghost var m := Floor(g.depth, g.nodes);
    g.SetDepth(root, 0);
    if blank {
      assert root in Within(g.EdgeSet(), {root}, 0);
    }
    UpdateTopdown(g, root, blank, m);
    if blank {
      BfsDone(g.EdgeSet(), root, g.depth);
      ExactDepths(g.EdgeSet(), root, g.depth);
    }
    return Ok(());
  }

  /** `_update_topdown(root)`: the queue loop. */
  method UpdateTopdown(g: Digraph, root: Node, ghost blank: bool, ghost m: int)
    requires g.Valid() && root in g.nodes && root in g.depth
    requires forall v :: v in g.depth ==> m <= g.depth[v]
    requires blank ==> Bfs(g.EdgeSet(), root, g.depth, [root])
    modifies g
    ensures g.Valid()
    ensures g.nodes == old(g.nodes) && g.edges == old(g.edges) && g.weight == old(g.weight) && g.info == old(g.info)
    ensures blank ==> Bfs(g.EdgeSet(), root, g.depth, [])
  {
    var queue := [root];
    while queue != []
      invariant g.Valid()
      invariant g.nodes == old(g.nodes) && g.edges == old(g.edges) && g.weight == old(g.weight) && g.info == old(g.info)
      invariant forall x :: x in queue ==> x in g.depth
      invariant forall v :: v in g.depth ==> m <= g.depth[v]
      invariant blank ==> Bfs(g.EdgeSet(), root, g.depth, queue)
      decreases |Elems(g.nodes) - g.depth.Keys|, Total(g.depth, g.nodes, m), |queue|
    {
      var parent := queue[0];
      assert [parent] + queue[1..] == queue;
      queue := queue[1..];
      queue := RelaxChildren(g, root, parent, queue, blank, m);
    }
  }

  /** The depth map and queue after one child `c` of a node at depth `d` is looked at. */
  function Relaxed(D: map<Node, int>, Q: seq<Node>, c: Node, d: int): (map<Node, int>, seq<Node>) {
    if c in D && D[c] <= d + 1 then (D, Q) else (D[c := d + 1], Q + [c])
  }

  /** Looking at a child of `u` keeps the breadth-first state and records the child. */
  lemma RelaxKeeps(E: set<Edge>, s: Node, D: map<Node, int>, Q: seq<Node>, u: Node, d: nat, c: Node)
    requires BfsChildren(E, s, D, Q, u, d) && (u, c) in E
    ensures c in Relaxed(D, Q, c, d).0
    ensures BfsChildren(E, s, Relaxed(D, Q, c, d).0, Relaxed(D, Q, c, d).1, u, d)
  {
    if c in D {
      OldDistance(E, s, u, c, d, D[c]);
    } else {
      RecordChild(E, s, D, Q, u, d, c);
    }
  }

  /** Looking at a child records it, and keeps every depth above the floor `m`. */
  lemma RelaxRecords(D: map<Node, int>, Q: seq<Node>, c: Node, d: int, m: int)
    requires m <= d && forall v :: v in D ==> m <= D[v]
    ensures Relaxed(D, Q, c, d).0.Keys == D.Keys + {c}
    ensures forall v :: v in Relaxed(D, Q, c, d).0 ==> m <= Relaxed(D, Q, c, d).0[v]
  {
  }

  /** Each look at a child either changes nothing or lowers the termination measure. */
  lemma RelaxShrinks(N: seq<Node>, D: map<Node, int>, Q: seq<Node>, c: Node, d: int, m: int)
    requires NoDup(N) && c in N && m <= d
    ensures (c in D && D[c] <= d + 1)
      || Below(|Elems(N) - Relaxed(D, Q, c, d).0.Keys|, Total(Relaxed(D, Q, c, d).0, N, m), |Elems(N) - D.Keys|, Total(D, N, m))
  {
    if c !in D || D[c] > d + 1 {
      SetShrinks(N, D, c, d, m);
    }
  }

  /** Giving `c` a depth it lacked, or lowering its depth, lowers the termination measure. */
  lemma SetShrinks(N: seq<Node>, D: map<Node, int>, c: Node, d: int, m: int)
    requires NoDup(N) && c in N && m <= d && (c in D ==> D[c] > d + 1)
    ensures Below(|Elems(N) - D[c := d + 1].Keys|, Total(D[c := d + 1], N, m), |Elems(N) - D.Keys|, Total(D, N, m))
  {
    if c in D {
      TotalLower(D, N, m, c, d + 1);
      assert D[c := d + 1].Keys == D.Keys;
    } else {
      VisitShrinks(Elems(N), D.Keys, c);
      assert D[c := d + 1].Keys == D.Keys + {c};
    }
  }

  /** The depth map and queue after the children `cs` of a node at depth `d` are looked at in order. */
  function RelaxAll(D: map<Node, int>, Q: seq<Node>, cs: seq<Node>, d: int): (map<Node, int>, seq<Node>) {
    if cs == [] then (D, Q)
    else
      var prev := RelaxAll(D, Q, cs[..|cs| - 1], d);
      Relaxed(prev.0, prev.1, cs[|cs| - 1], d)
  }

  /** Looking at children records every one of them, keeps the queue inside the map and every depth above `m`. */
  lemma {:induction false} RelaxAllRecords(D: map<Node, int>, Q: seq<Node>, cs: seq<Node>, d: int, m: int)
    requires m <= d && (forall v :: v in D ==> m <= D[v]) && forall x :: x in Q ==> x in D
    ensures RelaxAll(D, Q, cs, d).0.Keys == D.Keys + Elems(cs)
    ensures forall v :: v in RelaxAll(D, Q, cs, d).0 ==> m <= RelaxAll(D, Q, cs, d).0[v]
    ensures forall x :: x in RelaxAll(D, Q, cs, d).1 ==> x in RelaxAll(D, Q, cs, d).0
  {
    if cs != [] {
      var init := cs[..|cs| - 1];
      RelaxAllRecords(D, Q, init, d, m);
      var prev := RelaxAll(D, Q, init, d);
      RelaxRecords(prev.0, prev.1, cs[|cs| - 1], d, m);
      assert cs == init + [cs[|cs| - 1]];
    }
  }

  /** Looking at children of `u` keeps the breadth-first state. */
  lemma {:induction false} RelaxAllKeeps(E: set<Edge>, s: Node, D: map<Node, int>, Q: seq<Node>, u: Node, d: nat, cs: seq<Node>)
    requires BfsChildren(E, s, D, Q, u, d) && forall c :: c in cs ==> (u, c) in E
    ensures BfsChildren(E, s, RelaxAll(D, Q, cs, d).0, RelaxAll(D, Q, cs, d).1, u, d)
  {
    if cs != [] {
      var init := cs[..|cs| - 1];
      assert forall c :: c in init ==> c in cs;
      RelaxAllKeeps(E, s, D, Q, u, d, init);
      var prev := RelaxAll(D, Q, init, d);
      RelaxKeeps(E, s, prev.0, prev.1, u, d, cs[|cs| - 1]);
    }
  }

  /** Looking at children either changes nothing or lowers the termination measure. */
  lemma {:induction false} RelaxAllShrinks(N: seq<Node>, D: map<Node, int>, Q: seq<Node>, cs: seq<Node>, d: int, m: int)
    requires NoDup(N) && m <= d && forall c :: c in cs ==> c in N
    ensures Below(|Elems(N) - RelaxAll(D, Q, cs, d).0.Keys|, Total(RelaxAll(D, Q, cs, d).0, N, m),
                  |Elems(N) - D.Keys|, Total(D, N, m))
      || (|Elems(N) - RelaxAll(D, Q, cs, d).0.Keys| == |Elems(N) - D.Keys|
          && Total(RelaxAll(D, Q, cs, d).0, N, m) == Total(D, N, m) && RelaxAll(D, Q, cs, d).1 == Q)
  {
    if cs != [] {
      var init := cs[..|cs| - 1];
      assert forall c :: c in init ==> c in cs;
      RelaxAllShrinks(N, D, Q, init, d, m);
      var prev := RelaxAll(D, Q, init, d);
      RelaxShrinks(N, prev.0, prev.1, cs[|cs| - 1], d, m);
    }
  }

  /** One pop of `_update_topdown`: the children of `parent` are looked at in turn. */
  method RelaxChildren(g: Digraph, root: Node, parent: Node, queue: seq<Node>, ghost blank: bool, ghost m: int)
    returns (q: seq<Node>)
    requires g.Valid() && parent in g.depth && forall x :: x in queue ==> x in g.depth
    requires forall v :: v in g.depth ==> m <= g.depth[v]
    requires blank ==> Bfs(g.EdgeSet(), root, g.depth, [parent] + queue)
    modifies g
    ensures g.Valid()
    ensures g.nodes == old(g.nodes) && g.edges == old(g.edges) && g.weight == old(g.weight) && g.info == old(g.info)
    ensures forall x :: x in q ==> x in g.depth
    ensures forall v :: v in g.depth ==> m <= g.depth[v]
    ensures blank ==> Bfs(g.EdgeSet(), root, g.depth, q)
    ensures Below(|Elems(g.nodes) - g.depth.Keys|, Total(g.depth, g.nodes, m),
                  |Elems(old(g.nodes)) - old(g.depth).Keys|, Total(old(g.depth), old(g.nodes), m))
      || (|Elems(g.nodes) - g.depth.Keys| == |Elems(old(g.nodes)) - old(g.depth).Keys|
          && Total(g.depth, g.nodes, m) == Total(old(g.depth), old(g.nodes), m) && q == queue)
  {
    var pd := g.depth[parent];
    var children := g.Successors(parent);
    ghost var E, D := g.EdgeSet(), g.depth;
    assert forall c :: c in children ==> c in g.nodes && (parent, c) in E;
    q := RelaxEach(g, pd, children, queue);
    RelaxAllShrinks(g.nodes, D, queue, children, pd, m);
    RelaxAllRecords(D, queue, children, pd, m);
    if blank {
      StartChildren(E, root, D, queue, parent);
      RelaxAllKeeps(E, root, D, queue, parent, pd, children);
      forall e | e in E && e.0 == parent ensures e.1 in g.depth {
        assert e.1 in Elems(children);
      }
      ChildrenDone(E, root, g.depth, q, parent, pd);
    }
  }

  /** The `for child in T.successors(parent)` loop of `_update_topdown`. */
  method RelaxEach(g: Digraph, pd: int, children: seq<Node>, queue: seq<Node>) returns (q: seq<Node>)
    requires g.Valid() && forall c :: c in children ==> c in g.nodes
    modifies g
    ensures g.Valid()
    ensures g.nodes == old(g.nodes) && g.edges == old(g.edges) && g.weight == old(g.weight) && g.info == old(g.info)
    ensures (g.depth, q) == RelaxAll(old(g.depth), queue, children, pd)
  {
    q := queue;
    for i := 0 to |children|
      invariant g.Valid()
      invariant g.nodes == old(g.nodes) && g.edges == old(g.edges) && g.weight == old(g.weight) && g.info == old(g.info)
      invariant (g.depth, q) == RelaxAll(old(g.depth), queue, children[..i], pd)
    {
      assert children[..i + 1][..i] == children[..i];
      q := RelaxChild(g, pd, children[i], q);
    }
    assert children[..|children|] == children;
  }

  /** One turn of the `for child in T.successors(parent)` loop: `child` takes depth `pd + 1` unless it already is as shallow. */
  method RelaxChild(g: Digraph, pd: int, child: Node, queue: seq<Node>) returns (q: seq<Node>)
    requires g.Valid() && child in g.nodes
    modifies g
    ensures g.Valid()
    ensures g.nodes == old(g.nodes) && g.edges == old(g.edges) && g.weight == old(g.weight) && g.info == old(g.info)
    ensures (g.depth, q) == Relaxed(old(g.depth), queue, child, pd)
  {
    q := queue;
    if child in g.depth && g.depth[child] <= pd + 1 {
      return;
    }
    g.SetDepth(child, pd + 1);
    q := q + [child];
  }
}

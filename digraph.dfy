/**
 * The directed graph the weaver builds and edits in place: the part of networkx's `DiGraph`
 * the weaver relies on, together with the module functions `get_root` and
 * `traverse_topdown`.
 *
 * Nodes and edges are kept in insertion order, as networkx keeps them: the successors and
 * predecessors of a node are listed in the order their edges were added, and an edge that is
 * added again keeps its place and only takes the new weight.
 */
module Digraphs {
  import opened Wrappers
  import opened Seqs
  import opened Graph

  /** The attributes `_build` stores on a cluster node: row index, level and label. */
  datatype NodeInfo = NodeInfo(index: int, level: int, partLabel: int)

  /** The heads of the edges that leave `u`, in edge order. */
  function SuccessorsIn(es: seq<Edge>, u: Node): (r: seq<Node>)
    ensures forall v :: v in r <==> (u, v) in es
    ensures NoDup(es) ==> NoDup(r)
  {
    if es == [] then []
    else
      var rest := SuccessorsIn(es[1..], u);
      if es[0].0 == u then
        if NoDup(es) then NoDupTail(es); NoDupCons(es[0].1, rest); [es[0].1] + rest
        else [es[0].1] + rest
      else rest
  }

  /** The tails of the edges that enter `v`, in edge order. */
  function PredecessorsIn(es: seq<Edge>, v: Node): (r: seq<Node>)
    ensures forall u :: u in r <==> (u, v) in es
    ensures NoDup(es) ==> NoDup(r)
  {
    if es == [] then []
    else
      var rest := PredecessorsIn(es[1..], v);
      if es[0].1 == v then
        if NoDup(es) then NoDupTail(es); NoDupCons(es[0].0, rest); [es[0].0] + rest
        else [es[0].0] + rest
      else rest
  }

  /** No edge of `E` ends at `v`. */
  predicate NoEdgeInto(E: set<Edge>, v: Node) {
    forall e :: e in E ==> e.1 != v
  }

  /** The test "is not `n`". */
  function Other(n: Node): Node -> bool {
    (x: Node) => x != n
  }

  /** The test "touches neither end at `n`". */
  function Avoids(n: Node): Edge -> bool {
    (e: Edge) => e.0 != n && e.1 != n
  }

  /** The edges of `es` that avoid the node `n`. */
  function EdgesAvoiding(es: seq<Edge>, n: Node): (r: seq<Edge>)
    ensures forall e :: e in r <==> e in es && e.0 != n && e.1 != n
    ensures NoDup(es) ==> NoDup(r)
    ensures |r| <= |es|
  {
    Filter(es, Avoids(n))
  }

  /** The edges of `es` that are not in `D`. */
  function EdgesOutside(es: seq<Edge>, D: set<Edge>): (r: seq<Edge>)
    ensures forall e :: e in r <==> e in es && e !in D
    ensures NoDup(es) ==> NoDup(r)
  {
    Filter(es, (e: Edge) => e !in D)
  }

  /** The contents of a `Digraph` as a value. */
  datatype GraphValue = GraphValue(nodes: seq<Node>, edges: seq<Edge>, weight: map<Edge, real>,
                                   info: map<Node, NodeInfo>, depth: map<Node, int>)

  class Digraph {
    /** The nodes, in insertion order. */
    var nodes: seq<Node>
    /** The edges, in insertion order. */
    var edges: seq<Edge>
    /** The `weight` attribute of every edge. */
    var weight: map<Edge, real>
    /** The `index`, `level` and `label` attributes of the cluster nodes that carry them. */
    var info: map<Node, NodeInfo>
    /** The `depth` attribute, on the nodes that carry it. */
    var depth: map<Node, int>

    /** The shape networkx maintains: distinct nodes and edges, weights on exactly the edges. */
    predicate Valid()
      reads this
    {
      NoDup(nodes) && NoDup(edges) && weight.Keys == Elems(edges)
      && (forall e :: e in edges ==> e.0 in nodes && e.1 in nodes)
      && info.Keys <= Elems(nodes) && depth.Keys <= Elems(nodes)
    }

    function Contents(): GraphValue
      reads this
    {
      GraphValue(nodes, edges, weight, info, depth)
    }

    function EdgeSet(): set<Edge>
      reads this
    {
      Elems(edges)
    }

    /** networkx's `successors(u)`. */
    function Successors(u: Node): (r: seq<Node>)
      reads this
      ensures forall v :: v in r <==> (u, v) in edges
    {
      SuccessorsIn(edges, u)
    }

    /** networkx's `predecessors(v)`. */
    function Predecessors(v: Node): (r: seq<Node>)
      reads this
      ensures forall u :: u in r <==> (u, v) in edges
    {
      PredecessorsIn(edges, v)
    }

    function OutDegree(u: Node): nat
      reads this
    {
      |Successors(u)|
    }

    function InDegree(v: Node): nat
      reads this
    {
      |Predecessors(v)|
    }

    /** networkx's `has_path(G, u, v)`. */
    predicate HasPath(u: Node, v: Node)
      reads this
    {
      v in Reach(EdgeSet(), {u})
    }

    /** An empty graph: `nx.DiGraph()`. */
    constructor ()
      ensures Valid()
      ensures nodes == [] && edges == [] && weight == map[] && info == map[] && depth == map[]
    {
      nodes := [];
      edges := [];
      weight := map[];
      info := map[];
      depth := map[];
    }

    /** `add_node(n, index=…, level=…, label=…)`: appends a new node; always sets the attributes. */
    method AddNode(n: Node, attrs: NodeInfo)
      requires Valid()
      modifies this
      ensures Valid()
      ensures nodes == if n in old(nodes) then old(nodes) else old(nodes) + [n]
      ensures info == old(info)[n := attrs]
      ensures edges == old(edges) && weight == old(weight) && depth == old(depth)
    {
      if n !in nodes {
        NoDupAppend(nodes, n);
        nodes := nodes + [n];
      }
      info := info[n := attrs];
    }

    /**
     * `add_edge(u, v, weight=w)`: adds the missing endpoints, then appends the edge, or only
     * overwrites its weight when it is already present.
     */
    method AddEdge(u: Node, v: Node, w: real)
      requires Valid()
      modifies this
      ensures Valid()
      ensures var withU := if u in old(nodes) then old(nodes) else old(nodes) + [u];
        nodes == if v in withU then withU else withU + [v]
      ensures edges == if (u, v) in old(edges) then old(edges) else old(edges) + [(u, v)]
      ensures weight == old(weight)[(u, v) := w]
      ensures forall e :: e in weight <==> e in old(weight) || e == (u, v)
      ensures forall e :: e in weight ==> weight[e] == if e == (u, v) then w else old(weight)[e]
      ensures info == old(info) && depth == old(depth)
    {
      if u !in nodes {
        NoDupAppend(nodes, u);
        nodes := nodes + [u];
      }
      if v !in nodes {
        NoDupAppend(nodes, v);
        nodes := nodes + [v];
      }
      if (u, v) !in edges {
        NoDupAppend(edges, (u, v));
        edges := edges + [(u, v)];
      }
      weight := weight[(u, v) := w];
    }

    /** `remove_edge(u, v)`, which networkx allows only on an existing edge. */
    method RemoveEdge(u: Node, v: Node)
      requires Valid() && (u, v) in edges
      modifies this
      ensures Valid()
      ensures edges == EdgesOutside(old(edges), {(u, v)})
      ensures weight == old(weight) - {(u, v)}
      ensures nodes == old(nodes) && info == old(info) && depth == old(depth)
    {
      edges := EdgesOutside(edges, {(u, v)});
      weight := weight - {(u, v)};
    }

    /** `remove_edges_from(es)`: removes every listed edge, silently skipping absent ones. */
    method RemoveEdges(es: seq<Edge>)
      requires Valid()
      modifies this
      ensures Valid()
      ensures edges == EdgesOutside(old(edges), Elems(es))
      ensures weight == old(weight) - Elems(es)
      ensures nodes == old(nodes) && info == old(info) && depth == old(depth)
    {
      edges := EdgesOutside(edges, Elems(es));
      weight := weight - Elems(es);
    }

    /** `remove_node(n)`: drops the node, its attributes and every edge touching it. */
    method RemoveNode(n: Node)
      requires Valid() && n in nodes
      modifies this
      ensures Valid()
      ensures nodes == Filter(old(nodes), Other(n))
      ensures edges == EdgesAvoiding(old(edges), n)
      ensures weight == map e | e in old(weight) && e.0 != n && e.1 != n :: old(weight)[e]
      ensures info == old(info) - {n} && depth == old(depth) - {n}
    {
      nodes := Filter(nodes, Other(n));
      edges := EdgesAvoiding(edges, n);
      weight := map e | e in weight && e.0 != n && e.1 != n :: weight[e];
      info := info - {n};
      depth := depth - {n};
    }

    /** `T.nodes[v]['depth'] = d`, which networkx allows only on an existing node. */
    method SetDepth(v: Node, d: int)
      requires Valid() && v in nodes
      modifies this
      ensures Valid()
      ensures depth == old(depth)[v := d]
      ensures nodes == old(nodes) && edges == old(edges) && weight == old(weight) && info == old(info)
    {
      depth := depth[v := d];
    }

    /** `copy()`: a new graph with the same nodes, edges and attributes. */
    method Copy() returns (c: Digraph)
      requires Valid()
      ensures fresh(c) && c.Valid()
      ensures c.nodes == nodes && c.edges == edges && c.weight == weight
      ensures c.info == info && c.depth == depth
    {
      c := new Digraph();
      c.nodes := nodes;
      c.edges := edges;
      c.weight := weight;
      c.info := info;
      c.depth := depth;
    }
  }

  /** The first node of `ns`, in order, that no edge of `es` enters. */
  function FirstSource(ns: seq<Node>, es: seq<Edge>): (r: Option<nat>)
    ensures r.None? <==> forall v :: v in ns ==> PredecessorsIn(es, v) != []
    ensures r.Some? ==> r.value < |ns| && PredecessorsIn(es, ns[r.value]) == []
    ensures r.Some? ==> forall j :: 0 <= j < r.value ==> PredecessorsIn(es, ns[j]) != []
  {
    if ns == [] then None
    else if PredecessorsIn(es, ns[0]) == [] then assert ns[0] in ns; Some(0)
    else match FirstSource(ns[1..], es)
      case None => assert forall v :: v in ns ==> v == ns[0] || v in ns[1..]; None
      case Some(k) => assert ns[k + 1] == ns[1..][k] && ns[k + 1] in ns; Some(k + 1)
  }

  /**
   * The order in which `traverse_topdown` yields the nodes of the graph `(ns, es)`: from the
   * first source, breadth-first when `front` holds and depth-first otherwise; empty when every
   * node has a parent.
   */
  function Topdown(ns: seq<Node>, es: seq<Edge>, front: bool): seq<Node>
    requires forall e :: e in es ==> e.1 in ns
  {
    match FirstSource(ns, es)
    case None => []
    case Some(k) => Visits(es, Elems(ns), [ns[k]], {}, front)
  }

  /** `get_root(T)`: the first node, in node order, with in-degree 0; `None` if there is none. */
  function GetRoot(g: Digraph): (r: Option<Node>)
    reads g
    ensures r.None? <==> forall v :: v in g.nodes ==> g.InDegree(v) > 0
    ensures r.Some? ==> r.value in g.nodes && g.InDegree(r.value) == 0
    ensures r.Some? ==> exists k :: (0 <= k < |g.nodes| && g.nodes[k] == r.value
      && forall j :: 0 <= j < k ==> g.InDegree(g.nodes[j]) > 0)
  {
    match FirstSource(g.nodes, g.edges)
    case None => None
    case Some(k) => Some(g.nodes[k])
  }

  /** A node without predecessors has no edge of the graph entering it. */
  lemma SourceNoEdgeInto(g: Digraph, v: Node)
    requires g.InDegree(v) == 0
    ensures NoEdgeInto(g.EdgeSet(), v)
  {
    forall e | e in g.EdgeSet() ensures e.1 != v {
      assert e.0 in g.Predecessors(e.1);
    }
  }

  /**
   * `traverse_topdown(T, mode)`: visits the nodes reachable from `get_root(T)` once each,
   * first-in first-out for "breadth" and last-in first-out for "depth".
   */
  method TraverseTopdown(g: Digraph, mode: string) returns (r: Result<seq<Node>>)
    requires g.Valid()
    ensures mode != "depth" && mode != "breadth" <==> r == Err(BadMode)
    ensures (mode == "depth" || mode == "breadth") && GetRoot(g).None? <==> r == Err(MissingNode)
    ensures r.Err? ==> r.error == BadMode || r.error == MissingNode
    ensures r.Ok? ==> NoDup(r.value) && |r.value| > 0 && r.value[0] == GetRoot(g).value
    ensures r.Ok? ==> Elems(r.value) == Reach(g.EdgeSet(), {GetRoot(g).value})
    ensures r.Ok? ==> r.value == Topdown(g.nodes, g.edges, mode == "breadth")
  {
    if mode != "depth" && mode != "breadth" {
      return Err(BadMode);
    }
    var top := GetRoot(g);
    if top.None? {
      // the queue starts as [None] and networkx rejects successors(None)
      return Err(MissingNode);
    }
    var root := top.value;
    ghost var R := Reach(g.EdgeSet(), {root});
    var order := Sweep(g, root, mode == "breadth", R);
    ReachLeast(g.EdgeSet(), {root}, Elems(order));
    r := Ok(order);
  }

  /**
   * The loop of `traverse_topdown`: pops the queue from the front or the back, skips visited
   * nodes, and queues the successors of every newly visited node. `R` is any set that holds
   * `root` and is closed under successors.
   */
  method Sweep(g: Digraph, root: Node, front: bool, ghost R: set<Node>) returns (order: seq<Node>)
    requires g.Valid() && root in g.nodes && root in R
    requires forall u, v :: u in R && (u, v) in g.edges ==> v in R
    ensures NoDup(order) && |order| > 0 && order[0] == root
    ensures Elems(order) <= R
    ensures Next(g.EdgeSet(), Elems(order)) <= Elems(order)
    ensures order == Visits(g.edges, Elems(g.nodes), [root], {}, front)
  {
    var queue := [root];
    var visited: set<Node> := {};
    order := [];
    ghost var N := Elems(g.nodes);
    while queue != []
      invariant SweepState(g.edges, N, R, root, front, order, queue, visited)
      decreases |N - visited|, |queue|
    {
      ghost var queue0 := queue;
      var node;
      node, queue := Pop(queue, front);
      SweepStep(g.edges, N, R, root, front, order, queue0, visited, node, queue);
      if node in visited {
        continue;
      }
      VisitShrinks(N, visited, node);
      visited := visited + {node};
      var children := g.Successors(node);
      queue := queue + children;
      order := order + [node];
    }
    assert Visits(g.edges, N, [], visited, front) == [];
  }

  /** The invariant of the `traverse_topdown` loop. */
  ghost predicate SweepState(es: seq<Edge>, N: set<Node>, R: set<Node>, root: Node, front: bool,
                             order: seq<Node>, queue: seq<Node>, visited: set<Node>) {
    visited == Elems(order) && NoDup(order)
    && (order == [] ==> queue == [root])
    && (order != [] ==> order[0] == root)
    && visited <= R
    && (forall x :: x in queue ==> x in R && x in N)
    && (forall u, v :: u in visited && (u, v) in es ==> v in visited || v in queue)
    && Yields(es, N, root, front, order, queue, visited)
  }

  /** One turn of the `traverse_topdown` loop keeps its invariant. */
  lemma SweepStep(es: seq<Edge>, N: set<Node>, R: set<Node>, root: Node, front: bool, order: seq<Node>,
                  queue: seq<Node>, visited: set<Node>, node: Node, rest: seq<Node>)
    requires SweepState(es, N, R, root, front, order, queue, visited) && queue != []
    requires forall u, v :: u in R && (u, v) in es ==> v in R
    requires node == (if front then queue[0] else queue[|queue| - 1])
    requires rest == (if front then queue[1..] else queue[..|queue| - 1])
    requires forall x :: x in queue <==> x in rest || x == node
    ensures node in N
    ensures node in visited ==> SweepState(es, N, R, root, front, order, rest, visited)
    ensures node !in visited ==>
      SweepState(es, N, R, root, front, order + [node], rest + SuccessorsIn(es, node), visited + {node})
  {
    YieldsStep(es, N, root, front, order, queue, visited, node, rest);
    if node !in visited {
      NoDupAppend(order, node);
      ElemsSnoc(order, node);
    }
  }

  /**
   * The nodes yielded so far, `order`, followed by those the loop yields from the queue `queue`
   * and the visited set `visited`, make the whole traversal from `root`.
   */
  ghost predicate Yields(es: seq<Edge>, N: set<Node>, root: Node, front: bool, order: seq<Node>,
                         queue: seq<Node>, visited: set<Node>) {
    root in N && (forall x :: x in queue ==> x in N) && (forall e :: e in es ==> e.1 in N)
    && order + Visits(es, N, queue, visited, front) == Visits(es, N, [root], {}, front)
  }

  /** One turn of the loop keeps `Yields`. */
  lemma YieldsStep(es: seq<Edge>, N: set<Node>, root: Node, front: bool, order: seq<Node>,
                   queue: seq<Node>, visited: set<Node>, node: Node, rest: seq<Node>)
    requires Yields(es, N, root, front, order, queue, visited) && queue != []
    requires node == (if front then queue[0] else queue[|queue| - 1])
    requires rest == (if front then queue[1..] else queue[..|queue| - 1])
    ensures node in visited ==> Yields(es, N, root, front, order, rest, visited)
    ensures node !in visited ==>
      Yields(es, N, root, front, order + [node], rest + SuccessorsIn(es, node), visited + {node})
  {
    assert forall x :: x in rest ==> x in queue;
    if node !in visited {
      var later := Visits(es, N, rest + SuccessorsIn(es, node), visited + {node}, front);
      assert Visits(es, N, queue, visited, front) == [node] + later;
      assert order + [node] + later == order + ([node] + later);
    }
  }

  /**
   * The nodes the `traverse_topdown` loop yields from the queue `queue` once the nodes
   * `visited` have been yielded: it pops the front (`front`) or the back of the queue, skips
   * a visited node, and otherwise yields it and queues its successors. `N` holds every node.
   */
  function Visits(es: seq<Edge>, N: set<Node>, queue: seq<Node>, visited: set<Node>, front: bool): (r: seq<Node>)
    requires forall x :: x in queue ==> x in N
    requires forall e :: e in es ==> e.1 in N
    decreases |N - visited|, |queue|
  {
    if queue == [] then []
    else
      var node := if front then queue[0] else queue[|queue| - 1];
      var rest := if front then queue[1..] else queue[..|queue| - 1];
      assert forall x :: x in rest ==> x in queue;
      if node in visited then Visits(es, N, rest, visited, front)
      else
        VisitShrinks(N, visited, node);
        [node] + Visits(es, N, rest + SuccessorsIn(es, node), visited + {node}, front)
  }

  lemma VisitShrinks(N: set<Node>, visited: set<Node>, x: Node)
    requires x in N && x !in visited
    ensures |N - (visited + {x})| < |N - visited|
  {
    assert N - (visited + {x}) < N - visited;
    SubsetCard(N - (visited + {x}), N - visited);
  }

  /** `Q.pop(0)` when `front` holds, `Q.pop(-1)` otherwise. */
  method Pop(queue: seq<Node>, front: bool) returns (node: Node, rest: seq<Node>)
    requires queue != []
    ensures node == (if front then queue[0] else queue[|queue| - 1])
    ensures rest == (if front then queue[1..] else queue[..|queue| - 1])
    ensures forall x :: x in queue <==> x in rest || x == node
    ensures |rest| == |queue| - 1
  {
    if front {
      node, rest := queue[0], queue[1..];
      assert queue == [node] + rest;
    } else {
      node, rest := queue[|queue| - 1], queue[..|queue| - 1];
      assert queue == rest + [node];
    }
  }
}

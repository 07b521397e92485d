/**
 * Partition recovery: `has_any_terminal`, `node_cluster`, `_topdown_cluster` (with its two
 * entry points `depth_cluster` and `level_cluster`) and `get_levels`.
 *
 * `_topdown_cluster` walks the hierarchy first-in first-out from the root, descending through
 * clusters whose attribute is below the requested value and collecting the boundary clusters;
 * each boundary cluster becomes the boolean row of the terminals below it, and with `flat`
 * every terminal is labelled with the 1-based index of the last row that covers it.
 */
module Recovery {
  import opened Wrappers
  import opened Seqs
  import opened Graph
  import opened Digraphs

  /** `x` has a terminal among its successors. */
  ghost predicate HasTerminalChild(E: set<Edge>, x: Node) {
    exists c :: (x, c) in E && c.Terminal?
  }

  /** `has_any_terminal(node)`: networkx rejects a node that is not in the graph. */
  method HasAnyTerminal(g: Digraph, node: Node) returns (r: Result<bool>)
    requires g.Valid()
    ensures r.Err? <==> node !in g.nodes
    ensures r.Err? ==> r.error == MissingNode
    ensures r.Ok? ==> (r.value <==> HasTerminalChild(g.EdgeSet(), node))
  {
    if node !in g.nodes {
      return Err(MissingNode);
    }
    var children := g.Successors(node);
    for i := 0 to |children|
      invariant forall j :: 0 <= j < i ==> children[j].Internal?
    {
      if children[i].Terminal? {
        assert (node, children[i]) in g.EdgeSet();
        return Ok(true);
      }
    }
    forall c | (node, c) in g.EdgeSet() ensures c.Internal? {
      assert c in children;
    }
    return Ok(false);
  }

  // node_cluster

  /** The terminals strictly below `x`: the non-tuple members of `nx.descendants(T, x)`. */
  ghost function TerminalsBelow(E: set<Edge>, x: Node): set<Node> {
    set y | y in Reach(E, {x}) && y != x && y.Terminal?
  }

  /** The nodes whose names `node_cluster` marks: the terminals below `x`, or `x` itself if there are none. */
  ghost function Marked(E: set<Edge>, x: Node): set<Node> {
    var D := TerminalsBelow(E, x);
    if D == {} then {x} else D
  }

  /** Every node of `M` is a terminal whose name `find` locates in `t`. */
  predicate Listed(t: seq<Name>, M: set<Node>) {
    forall x :: x in M ==> x.Terminal? && x.name in t
  }

  /**
   * The membership row of the terminal set `M` over the terminal list `t`: `find` marks the
   * first position holding each name.
   */
  function ClusterRow(t: seq<Name>, M: set<Node>): (row: seq<bool>)
    ensures |row| == |t|
    ensures forall x :: x in M && x.Terminal? && x.name in t ==> row[IndexOf(t, x.name).value]
    ensures forall k :: 0 <= k < |t| && row[k] ==> Terminal(t[k]) in M
    ensures NoDup(t) ==> forall k :: 0 <= k < |t| ==> (row[k] <==> Terminal(t[k]) in M)
  {
    var row := seq(|t|, k requires 0 <= k < |t| => Terminal(t[k]) in M && IndexOf(t, t[k]) == Some(k));
    if NoDup(t) then
      assert forall k :: 0 <= k < |t| ==> IndexOf(t, t[k]) == Some(k) by {
        forall k | 0 <= k < |t| ensures IndexOf(t, t[k]) == Some(k) {
          FirstIndexDistinct(t, k);
        }
      }
      row
    else row
  }

  /** In a list without repeats, `find` returns the position itself. */
  lemma FirstIndexDistinct<T>(t: seq<T>, k: nat)
    requires NoDup(t) && k < |t|
    ensures IndexOf(t, t[k]) == Some(k)
  {
  }

  /** Marking one more terminal sets the bit at the first position of its name. */
  lemma MarkOne(t: seq<Name>, M: set<Node>, x: Node)
    requires x.Terminal? && x.name in t
    ensures ClusterRow(t, M)[IndexOf(t, x.name).value := true] == ClusterRow(t, M + {x})
  {
    var j := IndexOf(t, x.name).value;
    var a := ClusterRow(t, M)[j := true];
    var b := ClusterRow(t, M + {x});
    forall k | 0 <= k < |t| ensures a[k] == b[k] {
      if k != j && Terminal(t[k]) == x {
        assert IndexOf(t, t[k]) == Some(j);
      }
    }
  }

  /** The test "a terminal of `R` other than `x`". */
  function Below(R: set<Node>, x: Node): Node -> bool {
    (y: Node) => y in R && y != x && y.Terminal?
  }

  /** Everything reachable from a node of the graph is a node of the graph. */
  lemma ReachInNodes(g: Digraph, x: Node)
    requires g.Valid() && x in g.nodes
    ensures Reach(g.EdgeSet(), {x}) <= Elems(g.nodes)
  {
    ReachLeast(g.EdgeSet(), {x}, Elems(g.nodes));
  }

  /**
   * `node_cluster(node)`: the row of the terminals below `node`, or of `node` itself when it
   * has none. A node outside the graph makes `descendants` fail; a marked node that is not a
   * listed terminal makes `find` fail.
   */
  method NodeCluster(g: Digraph, terminals: seq<Name>, node: Node) returns (r: Result<seq<bool>>)
    requires g.Valid()
    ensures node !in g.nodes ==> r == Err(MissingNode)
    ensures node in g.nodes ==> (r.Ok? <==> Listed(terminals, Marked(g.EdgeSet(), node)))
    ensures node in g.nodes && r.Err? ==> r.error == NotATerminal
    ensures r.Ok? ==> r.value == ClusterRow(terminals, Marked(g.EdgeSet(), node))
  {
    if node !in g.nodes {
      return Err(MissingNode);
    }
    var R := Reach(g.EdgeSet(), {node});
    var desc := Filter(g.nodes, Below(R, node));
    var marks := if |desc| > 0 then desc else [node];
    MarksAreMarked(g, node, desc, marks);
    r := MarkAll(terminals, marks);
  }

  /** The list `node_cluster` walks holds exactly the marked nodes. */
  lemma MarksAreMarked(g: Digraph, node: Node, desc: seq<Node>, marks: seq<Node>)
    requires g.Valid() && node in g.nodes
    requires desc == Filter(g.nodes, Below(Reach(g.EdgeSet(), {node}), node))
    requires marks == if |desc| > 0 then desc else [node]
    ensures Elems(marks) == Marked(g.EdgeSet(), node)
  {
    ReachInNodes(g, node);
    assert Elems(desc) == TerminalsBelow(g.EdgeSet(), node);
    if desc == [] {
      assert TerminalsBelow(g.EdgeSet(), node) == {};
    } else {
      assert desc[0] in TerminalsBelow(g.EdgeSet(), node);
    }
  }

  /** The loop of `node_cluster`: `out[find(terminals, d)] = True` for every marked node `d`. */
  method MarkAll(terminals: seq<Name>, marks: seq<Node>) returns (r: Result<seq<bool>>)
    ensures r.Ok? <==> Listed(terminals, Elems(marks))
    ensures r.Err? ==> r.error == NotATerminal
    ensures r.Ok? ==> r.value == ClusterRow(terminals, Elems(marks))
  {
    var out := seq(|terminals|, _ => false);
    assert out == ClusterRow(terminals, {});
    for i := 0 to |marks|
      invariant out == ClusterRow(terminals, Elems(marks[..i]))
      invariant Listed(terminals, Elems(marks[..i]))
    {
      assert Elems(marks[..i + 1]) == Elems(marks[..i]) + {marks[i]} by {
        assert marks[..i + 1] == marks[..i] + [marks[i]];
      }
      var j := if marks[i].Terminal? then IndexOf(terminals, marks[i].name) else None;
      if j.None? {
        assert marks[i] in Elems(marks);
        return Err(NotATerminal);
      }
      MarkOne(terminals, Elems(marks[..i]), marks[i]);
      out := out[j.value := true];
    }
    assert marks[..|marks|] == marks;
    return Ok(out);
  }

  // _topdown_cluster

  /** The attribute `_topdown_cluster` reads: `depth` or `level`. */
  datatype Attr = Depth | Level

  /** `nx.get_node_attributes(T, attr)`: the nodes carrying the attribute, with its value. */
  function Attrs(g: Digraph, attr: Attr): (m: map<Node, int>)
    reads g
    ensures attr == Level ==> m.Keys == g.info.Keys && forall x :: x in m ==> m[x] == g.info[x].level
    ensures attr == Depth ==> m == g.depth
  {
    match attr
    case Depth => g.depth
    case Level => map x | x in g.info :: g.info[x].level
  }

  /**
   * The edges the traversal follows: out of a cluster whose attribute is below `value`, and
   * into clusters only when it stops before terminals.
   */
  ghost function Descent(E: set<Edge>, attrs: map<Node, int>, value: int, stop: bool): set<Edge> {
    set e | e in E && e.0.Internal? && e.0 in attrs && attrs[e.0] < value && (!stop || e.1.Internal?)
  }

  /**
   * The nodes the traversal appends to `clusters`: a terminal when it does not stop before
   * terminals, a cluster at `value`, and, when it stops before terminals, a cluster below
   * `value` with a terminal child.
   */
  ghost predicate IsBoundary(E: set<Edge>, attrs: map<Node, int>, value: int, stop: bool, x: Node) {
    if x.Terminal? then !stop
    else x in attrs && (attrs[x] == value || (attrs[x] < value && stop && HasTerminalChild(E, x)))
  }

  /** The test "a child the traversal queues": any child, or only clusters when it stops before terminals. */
  function Queueable(stop: bool): Node -> bool {
    (c: Node) => !stop || c.Internal?
  }

  /**
   * The children the traversal queues after visiting `node`: the successors of a cluster whose
   * attribute is below `value`, in edge order, without the terminals when it stops before them.
   */
  function QueuedChildren(es: seq<Edge>, attrs: map<Node, int>, value: int, stop: bool, node: Node): (r: seq<Node>)
    ensures forall c :: c in r ==> (node, c) in es
  {
    if node.Internal? && node in attrs && attrs[node] < value then Filter(SuccessorsIn(es, node), Queueable(stop))
    else []
  }

  /** The queued children are exactly the heads of the edges the traversal follows out of `node`. */
  lemma QueuedDescent(es: seq<Edge>, attrs: map<Node, int>, value: int, stop: bool, node: Node)
    ensures forall c :: c in QueuedChildren(es, attrs, value, stop, node) <==> (node, c) in Descent(Elems(es), attrs, value, stop)
  {
  }

  /**
   * The boundary nodes the first-in first-out loop of `_topdown_cluster` appends to `clusters`,
   * in order, from the queue `queue` once the nodes `visited` have been visited: it pops the
   * front, skips a visited node, and otherwise appends it when it is a boundary node and queues
   * its children. `N` holds every node.
   */
  ghost function Collected(es: seq<Edge>, N: set<Node>, attrs: map<Node, int>, value: int, stop: bool,
                           queue: seq<Node>, visited: set<Node>): seq<Node>
    requires forall x :: x in queue ==> x in N
    requires forall e :: e in es ==> e.1 in N
    decreases |N - visited|, |queue|
  {
    if queue == [] then []
    else
      var node, rest := queue[0], queue[1..];
      assert forall x :: x in rest ==> x in queue;
      if node in visited then Collected(es, N, attrs, value, stop, rest, visited)
      else
        VisitShrinks(N, visited, node);
        var children := QueuedChildren(es, attrs, value, stop, node);
        assert forall c :: c in children ==> (node, c) in es;
        (if IsBoundary(Elems(es), attrs, value, stop, node) then [node] else [])
        + Collected(es, N, attrs, value, stop, rest + children, visited + {node})
  }

  /** The boundary list of the whole traversal from `root`. */
  ghost function BoundaryOrder(g: Digraph, attrs: map<Node, int>, value: int, stop: bool, root: Node): seq<Node>
    reads g
    requires g.Valid() && root in g.nodes
  {
    Collected(g.edges, Elems(g.nodes), attrs, value, stop, [root], {})
  }

  /**
   * One pass of the traversal's body for a newly visited node: whether it joins `clusters`,
   * and the children it queues. A cluster without the attribute raises KeyError.
   */
  method Visit(g: Digraph, attrs: map<Node, int>, value: int, stop: bool, node: Node)
    returns (r: Result<(bool, seq<Node>)>)
    requires g.Valid() && node in g.nodes
    ensures r.Err? <==> node.Internal? && node !in attrs
    ensures r.Err? ==> r.error == MissingNode
    ensures r.Ok? ==> (r.value.0 <==> IsBoundary(g.EdgeSet(), attrs, value, stop, node))
    ensures r.Ok? ==> r.value.1 == QueuedChildren(g.edges, attrs, value, stop, node)
  {
    if node.Terminal? {
      return Ok((!stop, []));
    }
    if node !in attrs {
      return Err(MissingNode);
    }
    if attrs[node] < value {
      var add := false;
      if stop {
        var t := HasAnyTerminal(g, node);
        add := t.value;
      }
      var children := g.Successors(node);
      var queued := [];
      for i := 0 to |children|
        invariant queued == Filter(children[..i], Queueable(stop))
      {
        assert children[..i + 1] == children[..i] + [children[i]];
        FilterAppend(children[..i], children[i], Queueable(stop));
        if stop && children[i].Terminal? {
          continue;
        }
        queued := queued + [children[i]];
      }
      assert children[..|children|] == children;
      return Ok((add, queued));
    } else if attrs[node] == value {
      return Ok((true, []));
    } else {
      // the source only logs a warning here
      return Ok((false, []));
    }
  }

  /** One edge out of a reachable node leads to a reachable node. */
  lemma ReachOneMore(E: set<Edge>, S: set<Node>, u: Node, v: Node)
    requires u in Reach(E, S) && (u, v) in E
    ensures v in Reach(E, S)
  {
    assert v in Next(E, Reach(E, S));
  }

  /**
   * The state of the traversal of `_topdown_cluster` between two iterations: what it visited
   * and queued lies in the reach of `root` along `Descent` and in the graph, every successor
   * of a visited node is visited or queued, no visited cluster lacks the attribute, and
   * `clusters` lists the visited boundary nodes once each.
   */
  ghost predicate Scanning(E: set<Edge>, attrs: map<Node, int>, value: int, stop: bool, root: Node,
                           N: set<Node>, queue: seq<Node>, visited: set<Node>, clusters: seq<Node>)
  {
    var X := Descent(E, attrs, value, stop);
    var R := Reach(X, {root});
    (root in visited || root in queue)
    && visited <= R && visited <= N
    && (forall x :: x in queue ==> x in R && x in N)
    && (forall x :: x in visited && x.Internal? ==> x in attrs)
    && (forall u, v :: u in visited && (u, v) in X ==> v in visited || v in queue)
    && NoDup(clusters)
    && (forall x :: x in clusters <==> x in visited && IsBoundary(E, attrs, value, stop, x))
  }

  /** Popping a node already visited keeps the state. */
  lemma ScanSkip(E: set<Edge>, attrs: map<Node, int>, value: int, stop: bool, root: Node, N: set<Node>,
                 before: seq<Node>, node: Node, rest: seq<Node>, visited: set<Node>, clusters: seq<Node>)
    requires Scanning(E, attrs, value, stop, root, N, before, visited, clusters)
    requires forall x :: x in before <==> x in rest || x == node
    requires node in visited
    ensures Scanning(E, attrs, value, stop, root, N, rest, visited, clusters)
  {
  }

  /** The popped node lies in the reach of `root` and in the graph. */
  lemma ScanHead(E: set<Edge>, attrs: map<Node, int>, value: int, stop: bool, root: Node, N: set<Node>,
                 before: seq<Node>, node: Node, visited: set<Node>, clusters: seq<Node>)
    requires Scanning(E, attrs, value, stop, root, N, before, visited, clusters)
    requires node in before
    ensures node in Reach(Descent(E, attrs, value, stop), {root}) && node in N
  {
  }

  /** Visiting a new node, appending it when it is a boundary node and queueing its children keeps the state. */
  lemma ScanEnter(E: set<Edge>, attrs: map<Node, int>, value: int, stop: bool, root: Node, N: set<Node>,
                  before: seq<Node>, node: Node, rest: seq<Node>, visited: set<Node>, clusters: seq<Node>,
                  add: bool, children: seq<Node>)
    requires Scanning(E, attrs, value, stop, root, N, before, visited, clusters)
    requires forall x :: x in before <==> x in rest || x == node
    requires node !in visited && (node.Internal? ==> node in attrs)
    requires add <==> IsBoundary(E, attrs, value, stop, node)
    requires forall c :: c in children <==> (node, c) in Descent(E, attrs, value, stop)
    requires forall c :: c in children ==> c in N
    ensures Scanning(E, attrs, value, stop, root, N, rest + children, visited + {node},
                     if add then clusters + [node] else clusters)
  {
    var X := Descent(E, attrs, value, stop);
    forall c | c in children ensures c in Reach(X, {root}) {
      ReachOneMore(X, {root}, node, c);
    }
    if add {
      NoDupAppend(clusters, node);
    }
  }

  /**
   * The boundary nodes collected so far, `clusters`, followed by those the loop collects from
   * the queue `queue` and the visited set `visited`, make the boundary list of the whole
   * traversal from `root`.
   */
  ghost predicate Collects(es: seq<Edge>, N: set<Node>, attrs: map<Node, int>, value: int, stop: bool, root: Node,
                           clusters: seq<Node>, queue: seq<Node>, visited: set<Node>) {
    root in N && (forall x :: x in queue ==> x in N) && (forall e :: e in es ==> e.1 in N)
    && clusters + Collected(es, N, attrs, value, stop, queue, visited)
       == Collected(es, N, attrs, value, stop, [root], {})
  }

  /** Before the first turn nothing is collected and the queue holds the root. */
  lemma CollectStart(es: seq<Edge>, N: set<Node>, attrs: map<Node, int>, value: int, stop: bool, root: Node)
    requires root in N && forall e :: e in es ==> e.1 in N
    ensures Collects(es, N, attrs, value, stop, root, [], [root], {})
  {
    assert [] + Collected(es, N, attrs, value, stop, [root], {}) == Collected(es, N, attrs, value, stop, [root], {});
  }

  /** Popping a node already visited keeps `Collects`. */
  lemma CollectSkip(es: seq<Edge>, N: set<Node>, attrs: map<Node, int>, value: int, stop: bool, root: Node,
                    clusters: seq<Node>, queue: seq<Node>, visited: set<Node>)
    requires Collects(es, N, attrs, value, stop, root, clusters, queue, visited) && queue != []
    requires queue[0] in visited
    ensures Collects(es, N, attrs, value, stop, root, clusters, queue[1..], visited)
  {
    assert forall x :: x in queue[1..] ==> x in queue;
  }

  /** A new node at the head of the queue is collected when it is a boundary node, and its children queued. */
  lemma CollectedEnter(es: seq<Edge>, N: set<Node>, attrs: map<Node, int>, value: int, stop: bool,
                       queue: seq<Node>, visited: set<Node>)
    requires forall x :: x in queue ==> x in N
    requires forall e :: e in es ==> e.1 in N
    requires queue != [] && queue[0] !in visited
    ensures forall x :: x in queue[1..] + QueuedChildren(es, attrs, value, stop, queue[0]) ==> x in N
    ensures Collected(es, N, attrs, value, stop, queue, visited)
      == (if IsBoundary(Elems(es), attrs, value, stop, queue[0]) then [queue[0]] else [])
         + Collected(es, N, attrs, value, stop, queue[1..] + QueuedChildren(es, attrs, value, stop, queue[0]),
                     visited + {queue[0]})
  {
    assert forall x :: x in queue[1..] ==> x in queue;
  }

  /** Visiting a new node, appending it when it is a boundary node and queueing its children keeps `Collects`. */
  lemma CollectEnter(es: seq<Edge>, N: set<Node>, attrs: map<Node, int>, value: int, stop: bool, root: Node,
                     clusters: seq<Node>, queue: seq<Node>, visited: set<Node>, head: seq<Node>)
    requires Collects(es, N, attrs, value, stop, root, clusters, queue, visited) && queue != []
    requires queue[0] !in visited
    requires head == if IsBoundary(Elems(es), attrs, value, stop, queue[0]) then [queue[0]] else []
    ensures Collects(es, N, attrs, value, stop, root, clusters + head,
                     queue[1..] + QueuedChildren(es, attrs, value, stop, queue[0]), visited + {queue[0]})
  {
    CollectedEnter(es, N, attrs, value, stop, queue, visited);
    var later := Collected(es, N, attrs, value, stop, queue[1..] + QueuedChildren(es, attrs, value, stop, queue[0]),
                           visited + {queue[0]});
    assert clusters + head + later == clusters + (head + later);
  }

  /** When the queue is empty, everything in reach has been visited. */
  lemma ScanDone(E: set<Edge>, attrs: map<Node, int>, value: int, stop: bool, root: Node, N: set<Node>,
                 visited: set<Node>, clusters: seq<Node>)
    requires Scanning(E, attrs, value, stop, root, N, [], visited, clusters)
    ensures visited == Reach(Descent(E, attrs, value, stop), {root})
  {
    ReachLeast(Descent(E, attrs, value, stop), {root}, visited);
  }

  /** The invariant of the `_topdown_cluster` loop: `Scanning` and `Collects`. */
  ghost predicate Traversal(es: seq<Edge>, N: set<Node>, attrs: map<Node, int>, value: int, stop: bool, root: Node,
                            queue: seq<Node>, visited: set<Node>, clusters: seq<Node>) {
    Scanning(Elems(es), attrs, value, stop, root, N, queue, visited, clusters)
    && Collects(es, N, attrs, value, stop, root, clusters, queue, visited)
  }

  /**
   * One turn of the `_topdown_cluster` loop: pop the front of the queue, skip it when visited,
   * and otherwise visit it. It fails on a cluster without the attribute, which lies in reach.
   */
  method Turn(g: Digraph, attrs: map<Node, int>, value: int, stop: bool, root: Node,
              queue: seq<Node>, visited: set<Node>, clusters: seq<Node>)
    returns (ok: bool, queue': seq<Node>, visited': set<Node>, clusters': seq<Node>)
    requires g.Valid() && queue != []
    requires Traversal(g.edges, Elems(g.nodes), attrs, value, stop, root, queue, visited, clusters)
    ensures !ok ==> exists x :: x in Reach(Descent(Elems(g.edges), attrs, value, stop), {root})
                                && x.Internal? && x !in attrs
    ensures ok ==> Traversal(g.edges, Elems(g.nodes), attrs, value, stop, root, queue', visited', clusters')
    ensures ok ==> |Elems(g.nodes) - visited'| < |Elems(g.nodes) - visited|
                   || (visited' == visited && |queue'| < |queue|)
  {
    ghost var E, N := Elems(g.edges), Elems(g.nodes);
    var node;
    node, queue' := Pop(queue, true);
    if node in visited {
      ScanSkip(E, attrs, value, stop, root, N, queue, node, queue', visited, clusters);
      CollectSkip(g.edges, N, attrs, value, stop, root, clusters, queue, visited);
      return true, queue', visited, clusters;
    }
    ScanHead(E, attrs, value, stop, root, N, queue, node, visited, clusters);
    VisitShrinks(N, visited, node);
    var step := Visit(g, attrs, value, stop, node);
    if step.Err? {
      return false, queue', visited, clusters;
    }
    var (add, children) := step.value;
    QueuedDescent(g.edges, attrs, value, stop, node);
    ScanEnter(E, attrs, value, stop, root, N, queue, node, queue', visited, clusters, add, children);
    CollectEnter(g.edges, N, attrs, value, stop, root, clusters, queue, visited, if add then [node] else []);
    visited' := visited + {node};
    clusters' := clusters;
    if add {
      clusters' := clusters + [node];
    } else {
      assert clusters + [] == clusters;
    }
    queue' := queue' + children;
    ok := true;
  }

  /**
   * The first-in first-out loop of `_topdown_cluster` from `root`: every node reachable along
   * `Descent` is visited once, and the boundary nodes among them are collected, in the order
   * `BoundaryOrder` gives. The traversal fails exactly when it reaches a cluster without the
   * attribute.
   */
  method Boundary(g: Digraph, attrs: map<Node, int>, value: int, stop: bool, root: Node)
    returns (r: Result<seq<Node>>)
    requires g.Valid() && root in g.nodes
    ensures r.Err? <==> (exists x :: x in Reach(Descent(g.EdgeSet(), attrs, value, stop), {root})
                                    && x.Internal? && x !in attrs)
    ensures r.Err? ==> r.error == MissingNode
    ensures r.Ok? ==> NoDup(r.value) && (forall x :: x in r.value <==>
                                           x in Reach(Descent(g.EdgeSet(), attrs, value, stop), {root})
                                           && IsBoundary(g.EdgeSet(), attrs, value, stop, x))
    ensures r.Ok? ==> forall x :: x in r.value ==> x in g.nodes
    ensures r.Ok? ==> r.value == BoundaryOrder(g, attrs, value, stop, root)
  {
    ghost var N := Elems(g.nodes);
    var queue := [root];
    var visited: set<Node> := {};
    var clusters := [];
    CollectStart(g.edges, N, attrs, value, stop, root);
    while queue != []
      invariant Traversal(g.edges, N, attrs, value, stop, root, queue, visited, clusters)
      decreases |N - visited|, |queue|
    {
      var ok;
      ok, queue, visited, clusters := Turn(g, attrs, value, stop, root, queue, visited, clusters);
      if !ok {
        return Err(MissingNode);
      }
    }
    ScanDone(Elems(g.edges), attrs, value, stop, root, N, visited, clusters);
    return Ok(clusters);
  }

  /** The rows `node_cluster` gives for the boundary nodes `cs`, in order. */
  ghost function Rows(E: set<Edge>, t: seq<Name>, cs: seq<Node>): seq<seq<bool>> {
    seq(|cs|, i requires 0 <= i < |cs| => ClusterRow(t, Marked(E, cs[i])))
  }

  /** `for i, node in enumerate(clusters): node_cluster(node, H[i, :])`. */
  method ClusterRows(g: Digraph, t: seq<Name>, cs: seq<Node>) returns (r: Result<seq<seq<bool>>>)
    requires g.Valid() && forall x :: x in cs ==> x in g.nodes
    ensures r.Ok? <==> forall x :: x in cs ==> Listed(t, Marked(g.EdgeSet(), x))
    ensures r.Err? ==> r.error == NotATerminal
    ensures r.Ok? ==> r.value == Rows(g.EdgeSet(), t, cs)
  {
    var H := [];
    for i := 0 to |cs|
      invariant H == Rows(g.EdgeSet(), t, cs[..i])
      invariant forall x :: x in cs[..i] ==> Listed(t, Marked(g.EdgeSet(), x))
    {
      assert cs[..i + 1] == cs[..i] + [cs[i]];
      var row := NodeCluster(g, t, cs[i]);
      if row.Err? {
        return Err(NotATerminal);
      }
      H := H + [row.value];
    }
    assert cs[..|cs|] == cs;
    return Ok(H);
  }

  /**
   * The flat label of terminal `k`: `(H * (arange(len(H)) + 1)ᵀ).max(axis=0)[k]`, which is the
   * 1-based index of the last row covering `k`, or 0 when no row covers it.
   */
  function Highest(H: seq<seq<bool>>, k: nat): (h: nat)
    ensures h <= |H|
  {
    if H == [] then 0
    else if k < |H[|H| - 1]| && H[|H| - 1][k] then |H|
    else Highest(H[..|H| - 1], k)
  }

  /** Row `i` covers terminal `k`. */
  predicate Covers(H: seq<seq<bool>>, i: nat, k: nat)
    requires i < |H|
  {
    k < |H[i]| && H[i][k]
  }

  /** The label is 0 exactly when no row covers the terminal. */
  lemma {:induction false} HighestZero(H: seq<seq<bool>>, k: nat)
    ensures Highest(H, k) == 0 <==> forall i :: 0 <= i < |H| ==> !Covers(H, i, k)
  {
    if H != [] && !Covers(H, |H| - 1, k) {
      var H' := H[..|H| - 1];
      HighestZero(H', k);
      assert forall i :: 0 <= i < |H'| ==> (Covers(H', i, k) <==> Covers(H, i, k));
    }
  }

  /** A nonzero label names a covering row, and no later row covers the terminal. */
  lemma {:induction false} HighestLast(H: seq<seq<bool>>, k: nat)
    requires Highest(H, k) > 0
    ensures Covers(H, Highest(H, k) - 1, k)
    ensures forall j :: Highest(H, k) <= j < |H| ==> !Covers(H, j, k)
  {
    var H' := H[..|H| - 1];
    if !Covers(H, |H| - 1, k) {
      HighestLast(H', k);
      assert forall i :: 0 <= i < |H'| ==> (Covers(H', i, k) <==> Covers(H, i, k));
    }
  }

  /** When the rows are disjoint, as for a partition, the label is the one row that covers the terminal. */
  lemma HighestDisjoint(H: seq<seq<bool>>, k: nat, i: nat)
    requires i < |H|
    requires forall a, b :: 0 <= a < b < |H| ==> !(Covers(H, a, k) && Covers(H, b, k))
    ensures Highest(H, k) == i + 1 <==> Covers(H, i, k)
  {
    if Highest(H, k) > 0 {
      HighestLast(H, k);
    } else {
      HighestZero(H, k);
    }
  }

  /** `h = H.max(axis=0)` over the weighted rows, for `n` terminals. */
  function Flatten(H: seq<seq<bool>>, n: nat): (h: seq<nat>)
    ensures |h| == n && forall k :: 0 <= k < n ==> h[k] <= |H|
  {
    seq(n, k requires 0 <= k < n => Highest(H, k))
  }

  /** The result of `_topdown_cluster`: the flat labels or the boolean row matrix. */
  datatype Recovered = Flat(labels: seq<nat>) | Matrix(rows: seq<seq<bool>>)

  /**
   * `_topdown_cluster(attr, value, flat=…, stop_before_terminal=…)` on the hierarchy `g` with
   * terminal list `t`. `boundary` is the list of boundary nodes the traversal collected, in the
   * order `BoundaryOrder` gives, which numbers the rows and so the flat labels.
   * Without a root the queue starts as `[None]`: `None` is then taken for a terminal, and
   * `node_cluster(None)` fails unless the traversal stops before terminals.
   */
  method TopdownCluster(g: Digraph, t: seq<Name>, attr: Attr, value: int, flat: bool, stop: bool)
    returns (r: Result<Recovered>, ghost boundary: seq<Node>)
    requires g.Valid()
    ensures GetRoot(g).None? ==> (r == Err(MissingNode) <==> !stop) && boundary == []
    ensures GetRoot(g).Some? ==> (r == Err(MissingNode) <==>
      exists x :: x in Reach(Descent(g.EdgeSet(), Attrs(g, attr), value, stop), {GetRoot(g).value})
                  && x.Internal? && x !in Attrs(g, attr))
    ensures GetRoot(g).Some? && r != Err(MissingNode) ==> NoDup(boundary) && forall x :: x in boundary <==>
      x in Reach(Descent(g.EdgeSet(), Attrs(g, attr), value, stop), {GetRoot(g).value})
      && IsBoundary(g.EdgeSet(), Attrs(g, attr), value, stop, x)
    ensures GetRoot(g).Some? && r != Err(MissingNode) ==>
      boundary == BoundaryOrder(g, Attrs(g, attr), value, stop, GetRoot(g).value)
    ensures r == Err(NotATerminal) <==> r != Err(MissingNode) && exists x :: x in boundary && !Listed(t, Marked(g.EdgeSet(), x))
    ensures r == Err(EmptyReduction) ==> flat && boundary == []
    ensures r.Ok? ==> (flat <==> r.value.Flat?)
    ensures r.Ok? && flat ==> boundary != [] && r.value.labels == Flatten(Rows(g.EdgeSet(), t, boundary), |t|)
    ensures r.Ok? && !flat ==> r.value.rows == Rows(g.EdgeSet(), t, boundary)
  {
    var attrs := Attrs(g, attr);
    var top := GetRoot(g);
    var clusters: seq<Node> := [];
    if top.None? {
      if !stop {
        return Err(MissingNode), [];
      }
    } else {
      var b := Boundary(g, attrs, value, stop, top.value);
      if b.Err? {
        return Err(MissingNode), [];
      }
      clusters := b.value;
    }
    boundary := clusters;
    var H := ClusterRows(g, t, clusters);
    if H.Err? {
      return Err(NotATerminal), boundary;
    }
    if flat {
      if |clusters| == 0 {
        return Err(EmptyReduction), boundary;
      }
      return Ok(Flat(Flatten(H.value, |t|))), boundary;
    }
    return Ok(Matrix(H.value)), boundary;
  }

  // get_levels

  /**
   * `get_levels()`: the distinct `level` attributes of the clusters, ascending. A cluster
   * without a level raises KeyError.
   */
  method GetLevels(g: Digraph) returns (r: Result<seq<int>>)
    requires g.Valid()
    ensures r.Err? <==> exists x :: x in g.nodes && x.Internal? && x !in g.info
    ensures r.Err? ==> r.error == MissingNode
    ensures r.Ok? ==> StrictlyIncreasing(r.value)
    ensures r.Ok? ==> forall l :: l in r.value <==>
      exists x :: x in g.nodes && x.Internal? && x in g.info && g.info[x].level == l
  {
    var levels := [];
    for i := 0 to |g.nodes|
      invariant forall j :: 0 <= j < i && g.nodes[j].Internal? ==> g.nodes[j] in g.info
      invariant forall l :: l in levels <==>
        exists j :: 0 <= j < i && g.nodes[j].Internal? && g.nodes[j] in g.info && g.info[g.nodes[j]].level == l
    {
      var node := g.nodes[i];
      if node.Internal? {
        if node !in g.info {
          return Err(MissingNode);
        }
        var level := g.info[node].level;
        if level !in levels {
          levels := levels + [level];
        }
      }
    }
    // `levels.sort()` on distinct values: the ascending sequence of those values
    return Ok(Unique(levels));
  }
}

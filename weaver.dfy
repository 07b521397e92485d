/**
 * The `Weaver` object: `weave` checks and expands the partitions, stores the expanded input
 * and the terminal names, runs `_build` to get the full graph and its ranked secondary edges,
 * and runs `pick` to cut the hierarchy out of a copy of the full graph. The hierarchy is then
 * read back by `get_root`, `update_depth`, `relabel`, `get_levels` and the partition recovery
 * entry points.
 */
module Weaving {
  import opened Wrappers
  import opened Seqs
  import opened Graph
  import opened Digraphs
  import opened Containment
  import opened Assignments
  import opened Candidates
  import opened Rooting
  import opened Redundancy
  import opened Attaching
  import opened Secondary
  import opened Pruning
  import Depths
  import Recovery
  import opened Expansion
  import opened Picking
  import opened Relabelling

  // The terminals setter

  /** The `terminals` argument of `weave`: `None`, a list of names, or a numpy array of names. */
  datatype TerminalsArg = NoTerminals | NameList(names: seq<Name>) | NameArray(names: seq<Name>)

  /**
   * `set_terminals` as written, for `n` terminals: `None` gives the names `0 .. n-1` and any
   * value that is not an array is copied; an array value leaves the local `terminals` unbound,
   * so the length check raises `UnboundLocalError`.
   */
  function SetTerminalsAsWritten(arg: TerminalsArg, n: nat): (r: Result<seq<Name>>)
    ensures r.Ok? ==> |r.value| == n
    ensures arg.NameArray? ==> r == Err(UnboundTerminals)
  {
    match arg
    case NoTerminals => Ok(seq(n, k => Num(k)))
    case NameList(ts) => if |ts| != n then Err(TerminalsMismatch) else Ok(ts)
    case NameArray(_) => Err(UnboundTerminals)
  }

  /** `set_terminals` as intended: an array of names is taken like a list of names. */
  function SetTerminals(arg: TerminalsArg, n: nat): (r: Result<seq<Name>>)
    ensures r.Err? <==> !arg.NoTerminals? && |arg.names| != n
    ensures r.Err? ==> r.error == TerminalsMismatch
    ensures r.Ok? ==> |r.value| == n
    ensures r.Ok? && !arg.NoTerminals? ==> r.value == arg.names
    ensures r.Ok? && arg.NoTerminals? ==> forall k :: 0 <= k < n ==> r.value[k] == Num(k)
  {
    match arg
    case NoTerminals => Ok(seq(n, k => Num(k)))
    case _ => if |arg.names| != n then Err(TerminalsMismatch) else Ok(arg.names)
  }

  /**
   * The two setters agree on `None` and on lists; an array of the right size is refused as
   * written and accepted as intended.
   */
  lemma SetTerminalsArray(arg: TerminalsArg, n: nat)
    ensures !arg.NameArray? ==> SetTerminalsAsWritten(arg, n) == SetTerminals(arg, n)
    ensures arg.NameArray? && |arg.names| == n ==>
      SetTerminalsAsWritten(arg, n).Err? && SetTerminals(arg, n) == Ok(arg.names)
  {
  }

  // The checks and the expansion of `weave`

  /** Every partition has the length of the first. */
  predicate Uniform(ps: seq<seq<int>>)
    requires ps != []
  {
    forall i :: 0 <= i < |ps| ==> |ps[i]| == |ps[0]|
  }

  /** `assume_levels` after `weave`: the flag itself, or True for `None` and for explicit levels. */
  function AssumesLevels(l: LevelsArg): bool {
    if l.Flag? then l.assumed else true
  }

  /** `clevels`: the explicit levels, or `arange(n_sets)`. */
  function LevelsFor(l: LevelsArg, nSets: nat): (c: seq<int>)
    ensures !l.Given? ==> |c| == nSets && forall i :: 0 <= i < nSets ==> c[i] == i
  {
    if l.Given? then l.values else seq(nSets, i => i)
  }

  /** The expanded input in either mode. */
  function Input(ps: seq<seq<int>>, boolean: bool, clevels: seq<int>): Expanded
    requires |clevels| == |ps|
  {
    if boolean then ExpandBoolean(ps, clevels) else Expand(ps, clevels)
  }

  /**
   * The expanded input of non-empty uniform partitions of length `n` has one level and one
   * label per row and `n` columns in every row; it has no row only in label mode with `n == 0`.
   */
  lemma InputShape(ps: seq<seq<int>>, boolean: bool, clevels: seq<int>)
    requires |clevels| == |ps| && ps != [] && Uniform(ps)
    ensures |Input(ps, boolean, clevels).levels| == |Input(ps, boolean, clevels).rows|
    ensures |Input(ps, boolean, clevels).labels| == |Input(ps, boolean, clevels).rows|
    ensures Rectangular(Input(ps, boolean, clevels).rows, |ps[0]|)
    ensures Input(ps, boolean, clevels).rows == [] <==> !boolean && |ps[0]| == 0
  {
    if !boolean {
      ExpandShape(ps, clevels, |ps[0]|);
    }
  }

  // The edges of `pick`

  /**
   * The edges `pick` hands to `prune`: those of the full graph `s`, less the ranked secondary
   * edges dropped for `p` and the ranked terminal edges dropped for `q`, then with the
   * additional edges put in.
   */
  function PickedEdges(s: EdgeState, sec: seq<Ranked>, secT: seq<Ranked>, p: real, q: real,
                       add: Option<seq<Edge>>, replace: bool): EdgeState
  {
    var D := Elems(Dropped(RankedEdges(sec), p));
    var DT := Elems(Dropped(RankedEdges(secT), q));
    var t := EdgeState(EdgesOutside(EdgesOutside(s.es, D), DT), s.W - D - DT);
    if add.Some? then AddAll(t, add.value, replace) else t
  }

  /**
   * Without additional edges, an edge of the full graph is kept exactly when neither ranking
   * drops it; in particular every edge that is not a secondary edge stays.
   */
  lemma PickedKeeps(s: EdgeState, sec: seq<Ranked>, secT: seq<Ranked>, p: real, q: real, e: Edge)
    ensures e in PickedEdges(s, sec, secT, p, q, None, false).es <==>
      e in s.es && e !in Dropped(RankedEdges(sec), p) && e !in Dropped(RankedEdges(secT), q)
  {
  }

  /** Raising either percentage never loses an edge. */
  lemma PickedMonotone(s: EdgeState, sec: seq<Ranked>, secT: seq<Ranked>, p: real, q: real, p': real, q': real)
    requires 0.0 <= p <= p' && 0.0 <= q <= q'
    ensures forall e :: e in PickedEdges(s, sec, secT, p, q, None, false).es ==>
      e in PickedEdges(s, sec, secT, p', q', None, false).es
  {
    DroppedMonotone(RankedEdges(sec), p, p');
    DroppedMonotone(RankedEdges(secT), q, q');
    forall e | e in PickedEdges(s, sec, secT, p, q, None, false).es
      ensures e in PickedEdges(s, sec, secT, p', q', None, false).es
    {
      PickedKeeps(s, sec, secT, p, q, e);
      PickedKeeps(s, sec, secT, p', q', e);
    }
  }

  /**
   * The copy of `g` that `pick` prunes: the dropped ranked edges removed, then the additional
   * edges put in; an additional edge that `g` lacks raises.
   */
  method PickedCopy(g: Digraph, sec: seq<Ranked>, secT: seq<Ranked>, p: real, q: real,
                    add: Option<seq<Edge>>, replace: bool) returns (r: Result<Digraph>)
    requires g.Valid()
    ensures r.Err? <==> add.Some? && exists e :: e in add.value && e !in g.EdgeSet()
    ensures r.Err? ==> r.error == MissingEdge
    ensures r.Ok? ==> fresh(r.value) && r.value.Valid()
    ensures r.Ok? ==> r.value.nodes == g.nodes && r.value.info == g.info && r.value.depth == g.depth
    ensures r.Ok? ==> (EdgeState(r.value.edges, r.value.weight) ==
      PickedEdges(EdgeState(g.edges, g.weight), sec, secT, p, q, add, replace))
  {
    var t := g.Copy();
    t.RemoveEdges(Dropped(RankedEdges(sec), p));
    t.RemoveEdges(Dropped(RankedEdges(secT), q));
    if add.Some? {
      var a := AddAdditional(t, g, add.value, replace);
      if a.Err? {
        return Err(a.error);
      }
    }
    return Ok(t);
  }

  // `_build`

  /** The matrix and settings of the pair loop of `_build`. */
  function PairingOf(a: Assignment, assumeLevels: bool, cutoff: real): (p: Pairing)
    requires WellFormed(a)
    ensures Ready(p) && Computed(p)
  {
    Pairing(a, ContainmentIndices(a.rows, a.rows, |a.terminals|), assumeLevels, cutoff)
  }

  /** The edges of the candidate graph `(ns, es)` after rooting and redundancy removal. */
  ghost function Thinned(ns: seq<Node>, es: seq<Edge>): set<Edge> {
    Elems(RootedEdges(ns, es)) - Redundant(Elems(RootedEdges(ns, es)))
  }

  /** The terminals attached to the thinned graph, with the clusters each one hangs from. */
  ghost function Attachments(a: Assignment, ns: seq<Node>, es: seq<Edge>): Record
    requires WellFormed(a)
  {
    AttachNodes(Thinned(ns, es), a, RootedNodes(ns, es))
  }

  /** The candidate nodes: the cluster of every row that enters a pair, and nothing else. */
  ghost predicate CandidateNodes(p: Pairing, ns: seq<Node>)
    requires Ready(p)
  {
    (forall k :: 0 <= k < |p.a.rows| ==> (Cluster(k) in ns <==> Paired(p, k)))
    && forall x :: x in ns ==> x.Internal? && x.occ == 0 && 0 <= x.idx < |p.a.rows|
  }

  /** `(ns0, es0)` is the candidate graph of the pair loop. */
  ghost predicate IsCandidateGraph(a: Assignment, assumeLevels: bool, cutoff: real, ns0: seq<Node>, es0: seq<Edge>)
    requires WellFormed(a)
  {
    Elems(es0) == CandidateEdges(PairingOf(a, assumeLevels, cutoff))
    && CandidateNodes(PairingOf(a, assumeLevels, cutoff), ns0)
  }

  /**
   * The edges `E` and nodes `N` are those of the candidate graph `(ns0, es0)` rooted, thinned
   * and with the terminals attached.
   */
  ghost predicate Assembled(a: Assignment, ns0: seq<Node>, es0: seq<Edge>, E: set<Edge>, N: set<Node>)
    requires WellFormed(a)
  {
    E == Thinned(ns0, es0) + RecordEdges(Attachments(a, ns0, es0))
    && N == Elems(RootedNodes(ns0, es0)) + RecordNodes(Attachments(a, ns0, es0))
  }

  /**
   * The weights `_build` gives: a candidate edge `(j, 0) → (i, 0)` weighs `CI[i, j]`, the
   * containment index of row `i` in row `j`; an edge out of the synthetic root or into a
   * terminal weighs 1.
   */
  ghost predicate BuiltWeights(a: Assignment, W: map<Edge, real>)
    requires WellFormed(a)
  {
    forall e :: e in W ==>
      if e.0 == Root || e.1.Terminal? then W[e] == 1.0
      else ClusterEdge(a, e) && CIndex(a.rows[e.1.idx], a.rows[e.0.idx]) == Some(W[e])
  }

  /** The weights of the pair loop are containment indices. */
  lemma CandidateWeights(p: Pairing, W: map<Edge, real>)
    requires Ready(p) && Computed(p)
    requires forall e :: e in W ==> ClusterEdge(p.a, e) && CI(p, e.1.idx, e.0.idx) == Some(W[e])
    ensures BuiltWeights(p.a, W)
  {
    forall e | e in W ensures CIndex(p.a.rows[e.1.idx], p.a.rows[e.0.idx]) == Some(W[e]) {
      assert CI(p, e.1.idx, e.0.idx) == p.ci[e.1.idx][e.0.idx];
    }
  }

  /** Rooting keeps the weights and gives the new edges out of the root weight 1. */
  lemma RootedWeights(a: Assignment, W0: map<Edge, real>, W: map<Edge, real>)
    requires WellFormed(a) && BuiltWeights(a, W0) && RootWeights(W0, W)
    ensures BuiltWeights(a, W)
  {
  }

  /**
   * Removing edges and then adding edges into terminals with weight 1 keeps the weights `_build`
   * gives.
   */
  lemma AttachedWeights(a: Assignment, W0: map<Edge, real>, W: map<Edge, real>, R: set<Edge>)
    requires WellFormed(a) && BuiltWeights(a, W0)
    requires W.Keys <= W0.Keys + R && forall e :: e in R ==> e.1.Terminal?
    requires forall e :: e in W ==> if e in W0 then W[e] == W0[e] else W[e] == 1.0
    ensures BuiltWeights(a, W)
  {
  }

  /**
   * In the rooted candidate graph, with or without the terminal edges, a cluster that the
   * synthetic root enters has no other parent.
   */
  lemma RootChildAlone(ns0: seq<Node>, es0: seq<Edge>, R: set<Edge>, E: set<Edge>, v: Node)
    requires forall e :: e in es0 ==> e.0 != Root
    requires forall e :: e in R ==> e.1.Terminal?
    requires E <= Elems(RootedEdges(ns0, es0)) + R
    requires (Root, v) in E && v.Internal?
    ensures forall u :: (u, v) in E ==> u == Root
  {
    var S := SourcesOf(ns0, es0);
    assert |S| > 1;
    assert (Root, v) in RootEdges(S);
    var k :| 0 <= k < |S| && RootEdges(S)[k] == (Root, v);
    assert v in S;
    SourcesMembers(ns0, es0, v);
    forall u | (u, v) in E ensures u == Root {
      assert (u, v) in es0 || (u, v) in RootEdges(S);
    }
  }

  /** A sequence without repeats that holds one value only has at most one element. */
  lemma NoDupConstant<T>(s: seq<T>, c: T)
    requires NoDup(s) && forall x :: x in s ==> x == c
    ensures |s| <= 1
  {
    if |s| > 1 {
      FirstTwo(s);
    }
  }

  lemma FirstTwo<T>(s: seq<T>)
    requires NoDup(s) && |s| > 1
    ensures s[0] in s && s[1] in s && s[0] != s[1]
  {
  }

  /**
   * In the full graph, a cluster with several parents has no edge from the synthetic root,
   * so its in-edges are candidate edges weighted with containment indices.
   */
  lemma BuiltIndexWeighted(a: Assignment, ns0: seq<Node>, es0: seq<Edge>, s: Snapshot)
    requires WellFormed(a) && s.a == a && Sound(s) && BuiltWeights(a, s.W)
    requires forall e :: e in es0 ==> e.0 != Root
    requires Elems(s.es) == Thinned(ns0, es0) + RecordEdges(Attachments(a, ns0, es0))
    ensures IndexWeighted(s)
  {
    var R := RecordEdges(Attachments(a, ns0, es0));
    forall e | e in s.es && e.1.Internal? && |PredecessorsIn(s.es, e.1)| > 1
      ensures ClusterEdge(s.a, e) && CIndex(s.a.rows[e.1.idx], s.a.rows[e.0.idx]) == Some(s.W[e])
    {
      if e.0 == Root {
        RootChildAlone(ns0, es0, R, Elems(s.es), e.1);
        NoDupConstant(PredecessorsIn(s.es, e.1), Root);
      }
    }
  }

  /** No candidate edge leaves the synthetic root. */
  lemma CandidatesBelowRoot(p: Pairing)
    requires Ready(p)
    ensures forall e :: e in CandidateEdges(p) ==> e.0 != Root
  {
  }

  /** Some node of a candidate graph with a source is a cluster of a row. */
  lemma SourceRow(p: Pairing, ns: seq<Node>, es: seq<Edge>)
    requires Ready(p) && CandidateNodes(p, ns) && RootOf(ns, es).Ok?
    ensures |p.a.rows| > 0
  {
    var roots := SourcesOf(ns, es);
    SourcesMembers(ns, es, roots[0]);
  }

  /**
   * The graph part of `_build`: the candidate graph `(ns0, es0)`, its root, and, when it has
   * one, the rooted graph without redundant edges and with the terminals attached.
   */
  method FullGraph(a: Assignment, assumeLevels: bool, cutoff: real)
    returns (g: Digraph, root: Result<Node>, ghost ns0: seq<Node>, ghost es0: seq<Edge>)
    requires WellFormed(a)
    ensures fresh(g) && g.Valid() && g.depth == map[]
    ensures IsCandidateGraph(a, assumeLevels, cutoff, ns0, es0)
    ensures root == RootOf(ns0, es0)
    ensures root.Ok? ==> Assembled(a, ns0, es0, g.EdgeSet(), Elems(g.nodes))
    ensures root.Ok? ==> forall x :: x in g.nodes ==> InRows(a, x)
    ensures BuiltWeights(a, g.weight)
  {
    var p := PairingOf(a, assumeLevels, cutoff);
    g := new Digraph();
    AddCandidates(g, p);
    CandidateWeights(p, g.weight);
    ns0, es0 := g.nodes, g.edges;
    ghost var W0 := g.weight;
    root := AddRoot(g);
    RootedWeights(a, W0, g.weight);
    if root.Ok? {
      SourceRow(p, ns0, es0);
      Thin(g, a, ns0, es0);
    }
  }

  /** Redundancy removal and terminal attachment on the rooted candidate graph `(ns0, es0)`. */
  method Thin(g: Digraph, a: Assignment, ghost ns0: seq<Node>, ghost es0: seq<Edge>)
    requires WellFormed(a) && |a.rows| > 0 && g.Valid()
    requires g.nodes == RootedNodes(ns0, es0) && g.EdgeSet() == Elems(RootedEdges(ns0, es0))
    requires forall x :: x in ns0 ==> x.Internal? && 0 <= x.idx < |a.rows|
    requires BuiltWeights(a, g.weight)
    modifies g
    ensures g.Valid() && g.depth == old(g.depth)
    ensures Assembled(a, ns0, es0, g.EdgeSet(), Elems(g.nodes))
    ensures forall x :: x in g.nodes ==> InRows(a, x)
    ensures BuiltWeights(a, g.weight)
  {
    RemoveRedundant(g);
    ghost var W1 := g.weight;
    var rec := AttachTerminals(g, a);
    AttachedWeights(a, W1, g.weight, RecordEdges(rec));
    forall x | x in g.nodes ensures InRows(a, x) {
      assert x in Elems(RootedNodes(ns0, es0)) || x.Terminal?;
    }
  }

  /**
   * `t` is the full graph `_build` makes of the candidate graph `(ns0, es0)` of `a`, and `r` the
   * ranking of its secondary edges: no depths yet, the edges and nodes of `Assembled`, the
   * weights of `BuiltWeights`, and the secondary edges of `SecondaryEdges`, whose ranking can
   * only fail for want of a path from the top node.
   */
  ghost predicate FullBuilt(a: Assignment, ns0: seq<Node>, es0: seq<Edge>, t: GraphValue,
                            r: Result<(seq<Ranked>, seq<Ranked>)>)
    requires WellFormed(a) && RootOf(ns0, es0).Ok?
  {
    var s := Snapshot(a, t.edges, t.weight, RootOf(ns0, es0).value);
    t.depth == map[] && Assembled(a, ns0, es0, Elems(t.edges), Elems(t.nodes)) && BuiltWeights(a, t.weight)
    && Sound(s) && r == SecondaryEdges(s, t.nodes) && (r.Err? ==> r.error == NoPath)
  }

  /**
   * The whole of `_build` on the assignment `a`: `null` when the candidate graph has no
   * parentless node, otherwise the full graph `g`, with contents `t`, and the result of
   * ranking its secondary edges.
   */
  method BuildFrom(a: Assignment, assumeLevels: bool, cutoff: real)
    returns (g: Digraph?, r: Result<(seq<Ranked>, seq<Ranked>)>, ghost t: GraphValue,
             ghost ns0: seq<Node>, ghost es0: seq<Edge>)
    requires WellFormed(a)
    ensures IsCandidateGraph(a, assumeLevels, cutoff, ns0, es0)
    ensures g == null <==> RootOf(ns0, es0).Err?
    ensures g != null ==> fresh(g) && g.Valid() && g.Contents() == t && FullBuilt(a, ns0, es0, t, r)
  {
    var root;
    g, root, ns0, es0 := FullGraph(a, assumeLevels, cutoff);
    t := g.Contents();
    if root.Err? {
      return null, Err(NoRoot), t, ns0, es0;
    }
    r := FindSecondary(g, a, root.value);
    ghost var s := Snapshot(a, g.edges, g.weight, root.value);
    CandidatesBelowRoot(PairingOf(a, assumeLevels, cutoff));
    BuiltIndexWeighted(a, ns0, es0, s);
    SecondaryNoPath(s, g.nodes);
  }

  // `pick`, after the edge choices

  /**
   * The graph `pick` hands to `prune`: the nodes and attributes of the full graph `t` with the
   * edges and weights of `PickedEdges`.
   */
  function Picked(t: GraphValue, sec: seq<Ranked>, secT: seq<Ranked>, p: real, q: real,
                  add: Option<seq<Edge>>, replace: bool): GraphValue
  {
    var s := PickedEdges(EdgeState(t.edges, t.weight), sec, secT, p, q, add, replace);
    GraphValue(t.nodes, s.es, s.W, t.info, t.depth)
  }

  /**
   * What `prune(strict_single_branch=strict)` makes of the graph `t0`, up to the depths that
   * `update_depth` writes afterwards: `t` is the result of removing the dead ends and then
   * collapsing the single branches in breadth-first order (`PrunedBy`); every leaf terminal
   * survives, no cluster is left without a child, and, on an acyclic graph whose terminals are
   * leaves, the paths between surviving nodes are kept and every surviving node lies above a
   * terminal.
   */
  ghost predicate PrunedFrom(t: GraphValue, t0: GraphValue, strict: bool) {
    var N, E, N0, E0 := t.nodes, Elems(t.edges), t0.nodes, Elems(t0.edges);
    PrunesTo(t0, t.(depth := map[]), strict)
    && (forall x :: x in N0 && x.Terminal? && x !in Tails(E0) ==> x in N)
    && (forall x :: x in N && x.Internal? ==> x in Tails(E))
    && (Acyclic(E0) && TerminalsAreLeaves(E0) ==>
          Acyclic(E) && ReachKept(E, E0, Elems(N)) && forall x :: x in N ==> !Dead(E, x))
  }

  /** The graph has a root, and its depths are exactly the distances of the nodes below it. */
  ghost predicate DepthsFromRoot(h: Digraph)
    reads h
  {
    GetRoot(h).Some?
    && h.depth.Keys == Reach(h.EdgeSet(), {GetRoot(h).value})
    && Depths.Exact(h.EdgeSet(), GetRoot(h).value, h.depth)
    && h.depth[GetRoot(h).value] == 0
  }

  /**
   * `pick` up to `prune`, on the full graph `g`: the picked copy, pruned. `t` is `null` when an
   * additional edge is missing from `g` or when `prune` raises for want of a root.
   */
  method PickFrom(g: Digraph, sec: seq<Ranked>, secT: seq<Ranked>, p: real, q: real,
                  add: Option<seq<Edge>>, replace: bool, strict: bool) returns (t: Digraph?, r: Result<()>)
    requires g.Valid() && g.depth == map[]
    ensures r.Ok? <==> t != null
    ensures (add.Some? && exists e :: e in add.value && e !in g.EdgeSet()) ==> r == Err(MissingEdge)
    ensures r.Err? ==> r.error in {MissingEdge, MissingNode}
    ensures t != null ==> fresh(t) && t.Valid() && t.depth == map[]
    ensures t != null ==> PrunedFrom(t.Contents(), Picked(g.Contents(), sec, secT, p, q, add, replace), strict)
  {
    var c := PickedCopy(g, sec, secT, p, q, add, replace);
    if c.Err? {
      return null, Err(c.error);
    }
    t := c.value;
    assert t.Contents() == Picked(g.Contents(), sec, secT, p, q, add, replace);
    var pr := Prune(t, strict);
    if pr.Err? {
      return null, Err(pr.error);
    }
    assert t.depth.Keys == {};
    assert t.Contents().(depth := map[]) == t.Contents();
    r := Ok(());
  }

  /** `pick` on the full graph `g`: the pruned picked copy, and then its depths from its root. */
  method PickHierarchy(g: Digraph, sec: seq<Ranked>, secT: seq<Ranked>, p: real, q: real,
                       add: Option<seq<Edge>>, replace: bool, strict: bool) returns (t: Digraph?, r: Result<()>)
    requires g.Valid() && g.depth == map[]
    ensures r.Ok? ==> t != null && DepthsFromRoot(t)
    ensures (add.Some? && exists e :: e in add.value && e !in g.EdgeSet()) ==> r == Err(MissingEdge) && t == null
    ensures r.Err? ==> r.error in {MissingEdge, MissingNode}
    ensures t != null ==> fresh(t) && t.Valid()
    ensures t != null ==> PrunedFrom(t.Contents(), Picked(g.Contents(), sec, secT, p, q, add, replace), strict)
  {
    t, r := PickFrom(g, sec, secT, p, q, add, replace, strict);
    if t != null {
      ghost var top, before := GetRoot(t), t.Contents();
      r := Depths.UpdateDepth(t);
      assert GetRoot(t) == top;
      assert t.Contents().(depth := map[]) == before.(depth := map[]);
    }
  }

  /** The expansion `weave` stores: the one of partitions that pass the checks before it. */
  function StoredInput(ps: seq<seq<int>>, boolean: bool, l: LevelsArg): Option<Expanded> {
    if ps == [] || !Uniform(ps) || |LevelsFor(l, |ps|)| != |ps| then None
    else
      var e := Input(ps, boolean, LevelsFor(l, |ps|));
      if e.rows == [] then None else Some(e)
  }

  // `weave`, up to `_build`

  /**
   * The checks of `weave` and the input they store: the expansion and the terminal names, or
   * the first error, in the order the source raises them.
   */
  function Prepared(ps: seq<seq<int>>, terms: TerminalsArg, boolean: bool, l: LevelsArg): Result<(Expanded, seq<Name>)> {
    if ps == [] then Err(EmptyPartitions)
    else if !Uniform(ps) then Err(LengthMismatch)
    else if |LevelsFor(l, |ps|)| != |ps| then Err(LevelsMismatch)
    else
      var e := Input(ps, boolean, LevelsFor(l, |ps|));
      if e.rows == [] then Err(EmptyStack)
      else match SetTerminals(terms, |e.rows[0]|)
        case Err(x) => Err(x)
        case Ok(ts) => Ok((e, ts))
  }

  /**
   * Whatever passes the checks is a well-formed input for `_build`: one level and one label
   * per row, and one name per column, the columns being the terminals of the partitions.
   */
  lemma PreparedWellFormed(ps: seq<seq<int>>, terms: TerminalsArg, boolean: bool, l: LevelsArg)
    requires Prepared(ps, terms, boolean, l).Ok?
    ensures var (e, ts) := Prepared(ps, terms, boolean, l).value;
      WellFormed(Assignment(e.rows, e.levels, e.labels, ts)) && |ts| == |ps[0]|
  {
    InputShape(ps, boolean, LevelsFor(l, |ps|));
  }

  /**
   * The errors of the checks: no partition, partitions of different lengths, a wrong number
   * of levels, label mode on empty partitions, or a wrong number of terminal names.
   */
  lemma PreparedErrors(ps: seq<seq<int>>, terms: TerminalsArg, boolean: bool, l: LevelsArg)
    ensures Prepared(ps, terms, boolean, l) == Err(EmptyPartitions) <==> ps == []
    ensures Prepared(ps, terms, boolean, l) == Err(LengthMismatch) <==> ps != [] && !Uniform(ps)
    ensures Prepared(ps, terms, boolean, l) == Err(LevelsMismatch) <==>
      ps != [] && Uniform(ps) && l.Given? && |l.values| != |ps|
    ensures Prepared(ps, terms, boolean, l) == Err(EmptyStack) <==>
      ps != [] && Uniform(ps) && |LevelsFor(l, |ps|)| == |ps| && !boolean && |ps[0]| == 0
    ensures Prepared(ps, terms, boolean, l) == Err(TerminalsMismatch) <==>
      ps != [] && Uniform(ps) && |LevelsFor(l, |ps|)| == |ps| && (boolean || |ps[0]| > 0)
      && !terms.NoTerminals? && |terms.names| != |ps[0]|
    ensures Prepared(ps, terms, boolean, l).Err? ==> (Prepared(ps, terms, boolean, l).error in
      {EmptyPartitions, LengthMismatch, LevelsMismatch, EmptyStack, TerminalsMismatch})
  {
    if ps != [] && Uniform(ps) && |LevelsFor(l, |ps|)| == |ps| {
      InputShape(ps, boolean, LevelsFor(l, |ps|));
    }
  }

  /**
   * The checks of `weave`, in the source's order: the expansion it stores (when it gets that
   * far) and the terminal names, or the error it raises.
   */
  method Prepare(ps: seq<seq<int>>, terms: TerminalsArg, boolean: bool, l: LevelsArg)
    returns (e: Option<Expanded>, r: Result<seq<Name>>)
    ensures PreparedAs(ps, terms, boolean, l, e, r)
  {
    if |ps| == 0 {
      return None, Err(EmptyPartitions);
    }
    if exists i :: 0 <= i < |ps| && |ps[i]| != |ps[0]| {
      return None, Err(LengthMismatch);
    }
    if |LevelsFor(l, |ps|)| != |ps| {
      return None, Err(LevelsMismatch);
    }
    e, r := PrepareChecked(ps, terms, boolean, l);
  }

  /** What `Prepare` yields: the stored input, and the terminal names or the error of the checks. */
  ghost predicate PreparedAs(ps: seq<seq<int>>, terms: TerminalsArg, boolean: bool, l: LevelsArg,
    e: Option<Expanded>, r: Result<seq<Name>>)
  {
    && e == StoredInput(ps, boolean, l)
    && (r.Err? <==> Prepared(ps, terms, boolean, l).Err?)
    && (r.Err? ==> r.error == Prepared(ps, terms, boolean, l).error)
    && (r.Ok? ==> (e.Some? && r.value == Prepared(ps, terms, boolean, l).value.1
      && WellFormed(Assignment(e.value.rows, e.value.levels, e.value.labels, r.value))))
  }

  /** The checks after the first three: the expansion, then the terminal names. */
  method PrepareChecked(ps: seq<seq<int>>, terms: TerminalsArg, boolean: bool, l: LevelsArg)
    returns (e: Option<Expanded>, r: Result<seq<Name>>)
    requires ps != [] && Uniform(ps) && |LevelsFor(l, |ps|)| == |ps|
    ensures PreparedAs(ps, terms, boolean, l, e, r)
  {
    var clevels := LevelsFor(l, |ps|);
    var x := ExpandInput(ps, boolean, clevels);
    InputShape(ps, boolean, clevels);
    if !boolean && |x.rows| == 0 {
      return None, Err(EmptyStack);
    }
    e := Some(x);
    r := SetTerminals(terms, |x.rows[0]|);
    if r.Ok? {
      PreparedWellFormed(ps, terms, boolean, l);
    }
  }

  /** Lines 222-237: the boolean partitions as they are, or their expansion into one row per cluster. */
  method ExpandInput(ps: seq<seq<int>>, boolean: bool, clevels: seq<int>) returns (x: Expanded)
    requires |clevels| == |ps|
    ensures x == Input(ps, boolean, clevels)
  {
    if boolean {
      x := ExpandBoolean(ps, clevels);
    } else {
      x := ExpandPartitions(ps, clevels);
    }
  }

  /**
   * `h` is `g` relabelled by `m`: `m` renames every node carrying the attribute `attr` in
   * `g`, `h` holds the renamed nodes, edges and attributes, and when every cluster carries
   * the attribute no two nodes are merged.
   */
  ghost predicate Relabelled(g: Digraph, attr: Recovery.Attr, m: map<Node, Node>, h: Digraph)
    reads g, h
  {
    IsMapping(g.nodes, Recovery.Attrs(g, attr), m, |g.nodes|)
    && h.nodes == RenamedNodes(g.nodes, m) && h.edges == RenamedEdges(g.edges, m)
    && h.weight == RenamedWeight(g.edges, g.weight, m)
    && h.info == RenamedAttr(g.nodes, g.info, m) && h.depth == RenamedAttr(g.nodes, g.depth, m)
    && ((forall x :: x in g.nodes && x.Internal? ==> x in Recovery.Attrs(g, attr)) ==>
          Injective(m, g.nodes) && |h.nodes| == |g.nodes|)
  }

  /** The renaming `relabel` computes from the attribute `attr`, and the renamed copy of `g`. */
  method RelabelHierarchy(g: Digraph, attr: Recovery.Attr) returns (h: Digraph, m: map<Node, Node>)
    requires g.Valid()
    ensures fresh(h) && h.Valid() && Relabelled(g, attr, m, h)
  {
    var attrs := Recovery.Attrs(g, attr);
    m := Mapping(g.nodes, attrs);
    if forall x :: x in g.nodes && x.Internal? ==> x in attrs {
      RelabelMergesNothing(g.nodes, attrs, m);
      RenamedNodesCount(g.nodes, m);
    }
    h := RelabelNodes(g, m);
  }

  /** The attribute `relabel` renames by: `level` with assumed levels, `depth` otherwise. */
  function AttrOf(assumeLevels: bool): Recovery.Attr {
    if assumeLevels then Recovery.Level else Recovery.Depth
  }

  /** What `_topdown_cluster` promises about its result `r` and its boundary clusters. */
  ghost predicate TopdownResult(g: Digraph, t: seq<Name>, attr: Recovery.Attr, value: int, flat: bool, stop: bool,
                                r: Result<Recovery.Recovered>, boundary: seq<Node>)
    reads g
  {
    var E, A := g.EdgeSet(), Recovery.Attrs(g, attr);
    (GetRoot(g).None? ==> (r == Err(MissingNode) <==> !stop) && boundary == [])
    && (GetRoot(g).Some? ==> (r == Err(MissingNode) <==>
         exists x :: x in Reach(Recovery.Descent(E, A, value, stop), {GetRoot(g).value}) && x.Internal? && x !in A))
    && (GetRoot(g).Some? && r != Err(MissingNode) ==> NoDup(boundary) && forall x :: x in boundary <==>
         x in Reach(Recovery.Descent(E, A, value, stop), {GetRoot(g).value}) && Recovery.IsBoundary(E, A, value, stop, x))
    && (g.Valid() && GetRoot(g).Some? && r != Err(MissingNode) ==> boundary == Recovery.BoundaryOrder(g, A, value, stop, GetRoot(g).value))
    && (r == Err(NotATerminal) <==> r != Err(MissingNode) && exists x :: x in boundary && !Recovery.Listed(t, Recovery.Marked(E, x)))
    && (r == Err(EmptyReduction) ==> flat && boundary == [])
    && (r.Ok? ==> (flat <==> r.value.Flat?))
    && (r.Ok? && flat ==> boundary != [] && r.value.labels == Recovery.Flatten(Recovery.Rows(E, t, boundary), |t|))
    && (r.Ok? && !flat ==> r.value.rows == Recovery.Rows(E, t, boundary))
  }

  // The weaver

  class Weaver {
    /** `assume_levels`: parents are only looked for on strictly higher levels. */
    var assumeLevels: bool
    /** `_assignment`: the membership rows of the clusters. */
    var assignment: Option<seq<seq<bool>>>
    /** `_levels` and `_labels`: the level and the label of every cluster. */
    var levels: Option<seq<int>>
    var labels: Option<seq<int>>
    /** `_terminals`: the terminal names. */
    var terminals: Option<seq<Name>>
    /** `hier`: the picked hierarchy. */
    var hier: Digraph?
    /** `_full`: the graph of all parents `_build` found. */
    var full: Digraph?
    /** `_secondary_edges` and `_secondary_terminal_edges`: the ranked alternative parents. */
    var secondary: Option<seq<Ranked>>
    var secondaryTerminal: Option<seq<Ranked>>

    /**
     * Both graphs are well formed, the full graph carries no depths and is never the
     * hierarchy, the secondary edges come with a full graph and the hierarchy with names.
     */
    ghost predicate Valid()
      reads this, hier, full
    {
      (hier != null ==> hier.Valid() && terminals.Some?)
      && (full != null ==> full.Valid() && full.depth == map[] && hier != full)
      && (secondary.Some? ==> full != null && terminals.Some?)
    }

    /** `__init__`: nothing is built yet and levels are not assumed. */
    constructor()
      ensures Valid() && !assumeLevels
      ensures assignment.None? && levels.None? && labels.None? && terminals.None?
      ensures hier == null && full == null && secondary.None? && secondaryTerminal.None?
    {
      assumeLevels := false;
      assignment, levels, labels, terminals := None, None, None, None;
      hier, full := null, null;
      secondary, secondaryTerminal := None, None;
    }

    /** The stored input, as `_build` reads it. */
    function Current(): (a: Assignment)
      reads this
      requires assignment.Some? && levels.Some? && labels.Some? && terminals.Some?
      ensures a.rows == assignment.value && a.terminals == terminals.value
    {
      Assignment(assignment.value, levels.value, labels.value, terminals.value)
    }

    /**
     * The hierarchy is what `pick` makes of the full graph for the percentages `p` and `q`, the
     * additional edges and `strict_single_branch`: the graph handed to `prune` is `Picked`, the
     * hierarchy is that graph pruned (`PrunedFrom`: dead ends removed, single branches
     * collapsed with summed weights), and its depths are the distances from the root.
     */
    ghost predicate PickedFrom(p: real, q: real, add: Option<seq<Edge>>, replace: bool, strict: bool)
      reads this, hier, full
    {
      hier != null && full != null && secondary.Some? && secondaryTerminal.Some?
      && PrunedFrom(hier.Contents(),
           Picked(full.Contents(), secondary.value, secondaryTerminal.value, p, q, add, replace), strict)
      && DepthsFromRoot(hier)
    }

    /**
     * The stored input is well formed, `(ns0, es0)` is its candidate graph and the full graph
     * is that graph rooted, thinned and with the terminals attached.
     */
    ghost predicate BuiltFrom(cutoff: real, ns0: seq<Node>, es0: seq<Edge>)
      reads this, full
    {
      assignment.Some? && levels.Some? && labels.Some? && terminals.Some? && WellFormed(Current())
      && IsCandidateGraph(Current(), assumeLevels, cutoff, ns0, es0)
      && full != null && Assembled(Current(), ns0, es0, Elems(full.Contents().edges), Elems(full.Contents().nodes))
      && BuiltWeights(Current(), full.Contents().weight)
    }

    /**
     * `_build(cutoff=…)` on the stored input. `ns0` and `es0` are the nodes and edges of the
     * candidate graph. Without a parentless node it raises (`roots[0]`) before anything is
     * stored; otherwise `_full` is the rooted, thinned graph with the terminals attached, and
     * the secondary edges are stored when they can be ranked.
     */
    method Build(cutoff: real)
      returns (r: Result<()>, ghost a: Assignment, ghost t: GraphValue, ghost sec: Result<(seq<Ranked>, seq<Ranked>)>,
               ghost ns0: seq<Node>, ghost es0: seq<Edge>)
      requires Valid()
      requires assignment.Some? && levels.Some? && labels.Some? && terminals.Some?
      requires WellFormed(Current())
      modifies this
      ensures Valid()
      ensures assumeLevels == old(assumeLevels) && assignment == old(assignment) && levels == old(levels)
      ensures labels == old(labels) && terminals == old(terminals) && hier == old(hier)
      ensures a == Current() && WellFormed(a)
      ensures IsCandidateGraph(a, assumeLevels, cutoff, ns0, es0)
      ensures RootOf(ns0, es0).Err? ==> r == Err(NoRoot)
      ensures RootOf(ns0, es0).Err? ==>
        full == old(full) && secondary == old(secondary) && secondaryTerminal == old(secondaryTerminal)
      ensures RootOf(ns0, es0).Ok? ==> full != null && fresh(full) && full.Contents() == t && FullBuilt(a, ns0, es0, t, sec)
      ensures RootOf(ns0, es0).Ok? ==>
        (r.Ok? <==> sec.Ok?) && (r.Err? ==> r == Err(sec.error))
        && (r.Ok? ==> secondary == Some(sec.value.0) && secondaryTerminal == Some(sec.value.1))
        && (r.Err? ==> secondary == old(secondary) && secondaryTerminal == old(secondaryTerminal))
    {
      a := Current();
      var g, res;
      g, res, t, ns0, es0 := BuildFrom(Current(), assumeLevels, cutoff);
      sec := res;
      if g == null {
        return Err(NoRoot), a, t, sec, ns0, es0;
      }
      Keep(g, res);
      r := if res.Ok? then Ok(()) else Err(res.error);
    }

    /**
     * The assignments at the end of `_build`: `_full` is `g`, and the secondary edges are
     * replaced only when they could be ranked.
     */
    method Keep(g: Digraph, res: Result<(seq<Ranked>, seq<Ranked>)>)
      requires Valid() && terminals.Some? && g.Valid() && g.depth == map[] && g != hier
      modifies this
      ensures Valid() && full == g
      ensures assumeLevels == old(assumeLevels) && assignment == old(assignment) && levels == old(levels)
      ensures labels == old(labels) && terminals == old(terminals) && hier == old(hier)
      ensures res.Ok? ==> secondary == Some(res.value.0) && secondaryTerminal == Some(res.value.1)
      ensures res.Err? ==> secondary == old(secondary) && secondaryTerminal == old(secondaryTerminal)
    {
      full := g;
      if res.Ok? {
        secondary, secondaryTerminal := Some(res.value.0), Some(res.value.1);
      }
    }

    /**
     * `pick(p, percentage_terminal_edges=q, additional=…, replace=…, strict_single_branch=…)`:
     * raises unless `_build` stored the secondary edges; the hierarchy is stored once `prune`
     * succeeds, and its depths are then computed from its root.
     */
    method Pick(p: real, q: real, add: Option<seq<Edge>>, replace: bool, strict: bool) returns (r: Result<Digraph>)
      requires Valid()
      modifies this
      ensures Valid()
      ensures assumeLevels == old(assumeLevels) && assignment == old(assignment) && levels == old(levels)
      ensures labels == old(labels) && terminals == old(terminals) && full == old(full)
      ensures secondary == old(secondary) && secondaryTerminal == old(secondaryTerminal)
      ensures secondary.None? || secondaryTerminal.None? ==> r == Err(NotBuilt) && hier == old(hier)
      ensures (secondary.Some? && secondaryTerminal.Some? && add.Some?
        && exists e :: e in add.value && e !in full.EdgeSet()) ==> r == Err(MissingEdge) && hier == old(hier)
      ensures r.Err? ==> r.error in {NotBuilt, MissingEdge, MissingNode}
      ensures r.Ok? ==> r.value == hier && PickedFrom(p, q, add, replace, strict)
    {
      if secondary.None? || secondaryTerminal.None? {
        return Err(NotBuilt);
      }
      var t, pr := PickHierarchy(full, secondary.value, secondaryTerminal.value, p, q, add, replace, strict);
      if t != null {
        hier := t;
      }
      if pr.Err? {
        return Err(pr.error);
      }
      r := Ok(t);
    }

    /**
     * `update_depth()`: raises before a hierarchy exists; otherwise records the distance of
     * every node below the root, and raises when the hierarchy has no root.
     */
    method UpdateDepth() returns (r: Result<()>)
      requires Valid()
      modifies hier
      ensures Valid()
      ensures hier == null ==> r == Err(NotBuilt)
      ensures hier != null ==> hier.nodes == old(hier.nodes) && hier.edges == old(hier.edges)
      ensures hier != null ==> hier.weight == old(hier.weight) && hier.info == old(hier.info)
      ensures hier != null ==> (r.Err? <==> GetRoot(hier).None?) && (r.Err? ==> r.error == MissingNode)
      ensures hier != null && r.Ok? && old(hier.depth) == map[] ==> DepthsFromRoot(hier)
    {
      if hier == null {
        return Err(NotBuilt);
      }
      ghost var top := GetRoot(hier);
      r := Depths.UpdateDepth(hier);
      assert GetRoot(hier) == top;
    }

    /** `root` (`get_root()`): the first node of the hierarchy without a parent. */
    function RootNode(): (r: Result<Option<Node>>)
      reads this, hier
      ensures r == Err(NotBuilt) <==> hier == null
      ensures r.Ok? ==> r.value == GetRoot(hier)
      ensures r.Ok? && r.value.Some? ==> r.value.value in hier.nodes && hier.InDegree(r.value.value) == 0
      ensures r.Ok? && r.value.None? ==> forall v :: v in hier.nodes ==> hier.InDegree(v) > 0
    {
      if hier == null then Err(NotBuilt) else Ok(GetRoot(hier))
    }

    /**
     * `relabel()`: the clusters carrying the `level` attribute (with assumed levels) or the
     * `depth` attribute (otherwise) are renamed `(value, k)`, `k` counting the earlier clusters
     * with that value; the hierarchy is replaced by a renamed copy and the renaming returned.
     */
    method Relabel() returns (r: Result<map<Node, Node>>)
      requires Valid()
      modifies this
      ensures Valid()
      ensures assumeLevels == old(assumeLevels) && assignment == old(assignment) && levels == old(levels)
      ensures labels == old(labels) && terminals == old(terminals) && full == old(full)
      ensures secondary == old(secondary) && secondaryTerminal == old(secondaryTerminal)
      ensures old(hier) == null ==> r == Err(NotBuilt) && hier == null
      ensures old(hier) != null ==>
        r.Ok? && hier != null && fresh(hier) && Relabelled(old(hier), AttrOf(assumeLevels), r.value, hier)
    {
      if hier == null {
        return Err(NotBuilt);
      }
      var h, mapping := RelabelHierarchy(hier, AttrOf(assumeLevels));
      hier := h;
      return Ok(mapping);
    }

    /** `get_levels()`: the distinct levels of the clusters of the hierarchy, ascending. */
    method GetLevels() returns (r: Result<seq<int>>)
      requires Valid()
      ensures hier == null ==> r == Err(NotBuilt)
      ensures hier != null ==> (r.Err? <==> exists x :: x in hier.nodes && x.Internal? && x !in hier.info)
      ensures hier != null && r.Err? ==> r.error == MissingNode
      ensures hier != null && r.Ok? ==> StrictlyIncreasing(r.value) && forall l :: l in r.value <==>
        exists x :: x in hier.nodes && x.Internal? && x in hier.info && hier.info[x].level == l
    {
      if hier == null {
        return Err(NotBuilt);
      }
      r := Recovery.GetLevels(hier);
    }

    /** `has_any_terminal(node)`: whether `node` has a terminal child in the hierarchy. */
    method HasAnyTerminal(node: Node) returns (r: Result<bool>)
      requires Valid()
      ensures hier == null ==> r == Err(NotBuilt)
      ensures hier != null ==> (r.Err? <==> node !in hier.nodes) && (r.Err? ==> r.error == MissingNode)
      ensures hier != null && r.Ok? ==> (r.value <==> Recovery.HasTerminalChild(hier.EdgeSet(), node))
    {
      if hier == null {
        return Err(NotBuilt);
      }
      r := Recovery.HasAnyTerminal(hier, node);
    }

    /** `node_cluster(node)`: the terminals below `node`, as a row over the terminal names. */
    method NodeCluster(node: Node) returns (r: Result<seq<bool>>)
      requires Valid()
      ensures hier == null ==> r == Err(NotBuilt)
      ensures hier != null && node !in hier.nodes ==> r == Err(MissingNode)
      ensures hier != null && node in hier.nodes ==>
        (r.Ok? <==> Recovery.Listed(terminals.value, Recovery.Marked(hier.EdgeSet(), node)))
        && (r.Err? ==> r.error == NotATerminal)
      ensures hier != null && r.Ok? ==>
        r.value == Recovery.ClusterRow(terminals.value, Recovery.Marked(hier.EdgeSet(), node))
    {
      if hier == null {
        return Err(NotBuilt);
      }
      r := Recovery.NodeCluster(hier, terminals.value, node);
    }

    /** `depth_cluster(value, flat=…, stop_before_terminal=…)`: the partition at a depth. */
    method DepthCluster(value: int, flat: bool, stop: bool) returns (r: Result<Recovery.Recovered>, ghost boundary: seq<Node>)
      requires Valid()
      ensures hier == null ==> r == Err(NotBuilt)
      ensures hier != null ==> TopdownResult(hier, terminals.value, Recovery.Depth, value, flat, stop, r, boundary)
    {
      if hier == null {
        return Err(NotBuilt), [];
      }
      r, boundary := Recovery.TopdownCluster(hier, terminals.value, Recovery.Depth, value, flat, stop);
    }

    /**
     * `level_cluster(value, flat=…, stop_before_terminal=…)`: the partition at a level. The
     * warning it logs when levels were not assumed is not modelled.
     */
    method LevelCluster(value: int, flat: bool, stop: bool) returns (r: Result<Recovery.Recovered>, ghost boundary: seq<Node>)
      requires Valid()
      ensures hier == null ==> r == Err(NotBuilt)
      ensures hier != null ==> TopdownResult(hier, terminals.value, Recovery.Level, value, flat, stop, r, boundary)
    {
      if hier == null {
        return Err(NotBuilt), [];
      }
      r, boundary := Recovery.TopdownCluster(hier, terminals.value, Recovery.Level, value, flat, stop);
    }

    /**
     * The checks of `weave(partitions, terminals=…, boolean=…, levels=…)` and what it stores:
     * `assume_levels` once the partitions are known to be uniform, the expansion before the
     * terminal names are checked, and the terminal names last.
     */
    method Store(ps: seq<seq<int>>, terms: TerminalsArg, boolean: bool, l: LevelsArg) returns (r: Result<()>)
      requires Valid()
      modifies this
      ensures Valid()
      ensures hier == old(hier) && full == old(full)
      ensures secondary == old(secondary) && secondaryTerminal == old(secondaryTerminal)
      ensures ps == [] || !Uniform(ps) ==> assumeLevels == old(assumeLevels)
      ensures ps != [] && Uniform(ps) ==> assumeLevels == AssumesLevels(l)
      ensures StoredInput(ps, boolean, l).None? ==>
        assignment == old(assignment) && levels == old(levels) && labels == old(labels)
      ensures StoredInput(ps, boolean, l).Some? ==> (var e := StoredInput(ps, boolean, l).value;
        assignment == Some(e.rows) && levels == Some(e.levels) && labels == Some(e.labels))
      ensures r.Err? <==> Prepared(ps, terms, boolean, l).Err?
      ensures r.Err? ==> r.error == Prepared(ps, terms, boolean, l).error && terminals == old(terminals)
      ensures r.Ok? ==> (terminals == Some(Prepared(ps, terms, boolean, l).value.1)
        && assignment.Some? && levels.Some? && labels.Some? && WellFormed(Current()))
    {
      var e, ts := Prepare(ps, terms, boolean, l);
      var assumed := if ps != [] && Uniform(ps) then AssumesLevels(l) else assumeLevels;
      var rows, lvls, lbls := assignment, levels, labels;
      if e.Some? {
        rows, lvls, lbls := Some(e.value.rows), Some(e.value.levels), Some(e.value.labels);
      }
      var names := if ts.Ok? then Some(ts.value) else terminals;
      assumeLevels, assignment, levels, labels, terminals := assumed, rows, lvls, lbls, names;
      r := if ts.Ok? then Ok(()) else Err(ts.error);
    }

    /**
     * `weave(partitions, …, top=…, cutoff=…, …)`: the checks and the stored input of `Store`,
     * then `_build` and `pick`; the hierarchy is returned.
     */
    method Weave(ps: seq<seq<int>>, terms: TerminalsArg, boolean: bool, l: LevelsArg, top: real, q: real,
                 cutoff: real, add: Option<seq<Edge>>, replace: bool, strict: bool)
      returns (r: Result<Digraph>, ghost ns0: seq<Node>, ghost es0: seq<Edge>)
      requires Valid()
      modifies this
      ensures Valid()
      ensures Prepared(ps, terms, boolean, l).Err? ==>
        r == Err(Prepared(ps, terms, boolean, l).error) && hier == old(hier) && full == old(full)
      ensures r.Ok? ==> r.value == hier && PickedFrom(top, q, add, replace, strict) && BuiltFrom(cutoff, ns0, es0)
    {
      ns0, es0 := [], [];
      var s := Store(ps, terms, boolean, l);
      if s.Err? {
        return Err(s.error), ns0, es0;
      }
      var b;
      ghost var a, t, sec;
      b, a, t, sec, ns0, es0 := Build(cutoff);
      if b.Err? {
        return Err(b.error), ns0, es0;
      }
      r := Pick(top, q, add, replace, strict);
    }
  }
}

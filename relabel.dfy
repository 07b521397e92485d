/**
 * `relabel`: every cluster node that carries the chosen attribute (its depth, or its level when
 * levels were assumed) is renamed `(value, k)`, `k` counting the earlier nodes with the same
 * value; then the graph is copied under the new names as `nx.relabel_nodes` does, merging any
 * nodes that end up with the same name.
 */
module Relabelling {
  import opened Seqs
  import opened Graph
  import opened Digraphs

  /** A node `relabel` renames: a cluster node carrying the attribute. */
  predicate Mapped(attrs: map<Node, int>, x: Node) {
    x.Internal? && x in attrs
  }

  /** `map_indices[v]` after the first `k` nodes: how many of them are renamed with the value `v`. */
  function Earlier(ns: seq<Node>, attrs: map<Node, int>, v: int, k: nat): nat
    requires k <= |ns|
  {
    if k == 0 then 0
    else Earlier(ns, attrs, v, k - 1) + if Mapped(attrs, ns[k - 1]) && attrs[ns[k - 1]] == v then 1 else 0
  }

  /**
   * `mapping` is what the loop of `relabel` holds after the first `k` nodes: the renamed nodes
   * among them, each sent to its value and the number of earlier nodes with that value.
   */
  ghost predicate IsMapping(ns: seq<Node>, attrs: map<Node, int>, mapping: map<Node, Node>, k: nat)
    requires k <= |ns|
  {
    (forall x :: x in mapping <==> x in ns[..k] && Mapped(attrs, x))
    && forall j :: 0 <= j < k && Mapped(attrs, ns[j]) ==>
      mapping[ns[j]] == Internal(attrs[ns[j]], Earlier(ns, attrs, attrs[ns[j]], j))
  }

  /** The counter of `map_indices`, read with the `defaultdict` default 0. */
  function CountOf(counts: map<int, nat>, v: int): nat {
    if v in counts then counts[v] else 0
  }

  /** The loop of `relabel` over the nodes carrying the attribute, in node order. */
  method Mapping(ns: seq<Node>, attrs: map<Node, int>) returns (mapping: map<Node, Node>)
    requires NoDup(ns)
    ensures IsMapping(ns, attrs, mapping, |ns|)
  {
    mapping := map[];
    var counts: map<int, nat> := map[];
    for k := 0 to |ns|
      invariant IsMapping(ns, attrs, mapping, k)
      invariant forall v :: CountOf(counts, v) == Earlier(ns, attrs, v, k)
    {
      var node := ns[k];
      MappingStep(ns, attrs, mapping, k);
      ghost var prev := counts;
      if node.Internal? && node in attrs {
        var value := attrs[node];
        var idx := CountOf(counts, value);
        mapping := mapping[node := Internal(value, idx)];
        counts := counts[value := idx + 1];
      }
      CountStep(ns, attrs, prev, counts, k, k + 1);
    }
  }

  /** One more node: a renamed node gets its value and the count of its value so far. */
  lemma MappingStep(ns: seq<Node>, attrs: map<Node, int>, mapping: map<Node, Node>, k: nat)
    requires NoDup(ns) && k < |ns| && IsMapping(ns, attrs, mapping, k)
    ensures !Mapped(attrs, ns[k]) ==> IsMapping(ns, attrs, mapping, k + 1)
    ensures Mapped(attrs, ns[k]) ==>
      IsMapping(ns, attrs, mapping[ns[k] := Internal(attrs[ns[k]], Earlier(ns, attrs, attrs[ns[k]], k))], k + 1)
  {
    assert ns[..k + 1] == ns[..k] + [ns[k]];
    if Mapped(attrs, ns[k]) {
      MappingAdd(ns, attrs, mapping, k);
    }
  }

  lemma MappingAdd(ns: seq<Node>, attrs: map<Node, int>, mapping: map<Node, Node>, k: nat)
    requires NoDup(ns) && k < |ns| && IsMapping(ns, attrs, mapping, k) && Mapped(attrs, ns[k])
    requires ns[..k + 1] == ns[..k] + [ns[k]]
    ensures IsMapping(ns, attrs, mapping[ns[k] := Internal(attrs[ns[k]], Earlier(ns, attrs, attrs[ns[k]], k))], k + 1)
  {
    var x := ns[k];
    var m := mapping[x := Internal(attrs[x], Earlier(ns, attrs, attrs[x], k))];
    forall y ensures y in m <==> y in ns[..k + 1] && Mapped(attrs, y) {
      assert y in ns[..k + 1] <==> y in ns[..k] || y == x;
    }
    forall j | 0 <= j < k + 1 && Mapped(attrs, ns[j])
      ensures m[ns[j]] == Internal(attrs[ns[j]], Earlier(ns, attrs, attrs[ns[j]], j))
    {
      if j < k {
        assert ns[j] != x;
      }
    }
  }

  /** One more node: the counter of its value goes up when it is renamed. */
  lemma CountStep(ns: seq<Node>, attrs: map<Node, int>, counts: map<int, nat>, next: map<int, nat>, k: nat, j: nat)
    requires j == k + 1 <= |ns| && forall v :: CountOf(counts, v) == Earlier(ns, attrs, v, k)
    requires next == if Mapped(attrs, ns[k]) then counts[attrs[ns[k]] := CountOf(counts, attrs[ns[k]]) + 1] else counts
    ensures forall v :: CountOf(next, v) == Earlier(ns, attrs, v, j)
  {
  }

  /** The count for a value never decreases along the nodes, and grows past a renamed node with that value. */
  lemma {:induction false} EarlierGrows(ns: seq<Node>, attrs: map<Node, int>, v: int, i: nat, j: nat)
    requires i < j <= |ns| && Mapped(attrs, ns[i]) && attrs[ns[i]] == v
    ensures Earlier(ns, attrs, v, i) < Earlier(ns, attrs, v, j)
    decreases j
  {
    if j > i + 1 {
      EarlierGrows(ns, attrs, v, i, j - 1);
    }
  }

  /** No two renamed nodes receive the same new name. */
  lemma MappingInjective(ns: seq<Node>, attrs: map<Node, int>, mapping: map<Node, Node>)
    requires NoDup(ns) && IsMapping(ns, attrs, mapping, |ns|)
    ensures forall x, y :: x in mapping && y in mapping && mapping[x] == mapping[y] ==> x == y
  {
    assert ns[..|ns|] == ns;
    forall x, y | x in mapping && y in mapping && mapping[x] == mapping[y] ensures x == y {
      var i :| 0 <= i < |ns| && ns[i] == x;
      var j :| 0 <= j < |ns| && ns[j] == y;
      if i != j {
        NamesApart(ns, attrs, i, j);
      }
    }
  }

  /** Two renamed nodes at different positions get different names. */
  lemma NamesApart(ns: seq<Node>, attrs: map<Node, int>, i: nat, j: nat)
    requires i < |ns| && j < |ns| && i != j && Mapped(attrs, ns[i]) && Mapped(attrs, ns[j])
    ensures Internal(attrs[ns[i]], Earlier(ns, attrs, attrs[ns[i]], i))
      != Internal(attrs[ns[j]], Earlier(ns, attrs, attrs[ns[j]], j))
  {
    if i < j {
      EarlierGrows(ns, attrs, attrs[ns[i]], i, j);
    } else {
      EarlierGrows(ns, attrs, attrs[ns[j]], j, i);
    }
  }

  /** `mapping.get(n, n)`. */
  function Image(f: map<Node, Node>, x: Node): Node {
    if x in f then f[x] else x
  }

  function EdgeImage(f: map<Node, Node>, e: Edge): Edge {
    (Image(f, e.0), Image(f, e.1))
  }

  /** The renaming keeps the nodes of `ns` apart. */
  predicate Injective(f: map<Node, Node>, ns: seq<Node>) {
    forall x, y :: x in ns && y in ns && Image(f, x) == Image(f, y) ==> x == y
  }

  /** The nodes of the copy: the new names in node order, each once. */
  function RenamedNodes(ns: seq<Node>, f: map<Node, Node>): (r: seq<Node>)
    ensures NoDup(r)
    ensures forall y :: y in r <==> exists x :: x in ns && Image(f, x) == y
  {
    if ns == [] then []
    else
      var init := ns[..|ns| - 1];
      var r := RenamedNodes(init, f);
      var y := Image(f, ns[|ns| - 1]);
      assert forall x :: x in ns <==> x in init || x == ns[|ns| - 1];
      if y in r then r else NoDupAppend(r, y); r + [y]
  }

  /** The edges of the copy: the renamed edges in edge order, each once. */
  function RenamedEdges(es: seq<Edge>, f: map<Node, Node>): (r: seq<Edge>)
    ensures NoDup(r)
    ensures forall d :: d in r <==> exists e :: e in es && EdgeImage(f, e) == d
  {
    if es == [] then []
    else
      var init := es[..|es| - 1];
      var r := RenamedEdges(init, f);
      var d := EdgeImage(f, es[|es| - 1]);
      assert forall e :: e in es <==> e in init || e == es[|es| - 1];
      if d in r then r else NoDupAppend(r, d); r + [d]
  }

  /** The edge weights of the copy: when edges merge, the last one's weight. */
  function RenamedWeight(es: seq<Edge>, W: map<Edge, real>, f: map<Node, Node>): (R: map<Edge, real>)
    ensures forall d :: d in R <==> exists e :: e in es && e in W && EdgeImage(f, e) == d
  {
    if es == [] then map[]
    else
      var init := es[..|es| - 1];
      var R := RenamedWeight(init, W, f);
      var e := es[|es| - 1];
      assert forall x :: x in es <==> x in init || x == e;
      if e in W then R[EdgeImage(f, e) := W[e]] else R
  }

  /**
   * A node attribute of the copy: the attribute dictionaries are copied in node order, so
   * when nodes merge the last one's dictionary wins, with or without this attribute.
   */
  function RenamedAttr<V>(ns: seq<Node>, M: map<Node, V>, f: map<Node, Node>): (R: map<Node, V>)
    ensures forall y :: y in R ==> exists x :: x in ns && x in M && Image(f, x) == y
  {
    if ns == [] then map[]
    else
      var init := ns[..|ns| - 1];
      var R := RenamedAttr(init, M, f);
      var x := ns[|ns| - 1];
      assert forall z :: z in init ==> z in ns;
      if x in M then R[Image(f, x) := M[x]] else R - {Image(f, x)}
  }

  /** Without merges the copy has as many nodes as the original. */
  lemma {:induction false} RenamedNodesCount(ns: seq<Node>, f: map<Node, Node>)
    requires NoDup(ns) && Injective(f, ns)
    ensures |RenamedNodes(ns, f)| == |ns|
  {
    if ns != [] {
      var init, x := ns[..|ns| - 1], ns[|ns| - 1];
      assert forall z :: z in init ==> z in ns && z != x;
      RenamedNodesCount(init, f);
    }
  }

  /** Without merges every node keeps its attribute under its new name, and gains none. */
  lemma {:induction false} RenamedAttrKeeps<V>(ns: seq<Node>, M: map<Node, V>, f: map<Node, Node>)
    requires Injective(f, ns)
    ensures forall x :: x in ns ==> (Image(f, x) in RenamedAttr(ns, M, f) <==> x in M)
    ensures forall x :: x in ns && x in M ==> RenamedAttr(ns, M, f)[Image(f, x)] == M[x]
  {
    if ns != [] {
      var init, x := ns[..|ns| - 1], ns[|ns| - 1];
      assert forall z :: z in ns <==> z in init || z == x;
      RenamedAttrKeeps(init, M, f);
    }
  }

  /** Without merges every edge keeps its weight under its new name. */
  lemma {:induction false} RenamedWeightKeeps(es: seq<Edge>, W: map<Edge, real>, f: map<Node, Node>, ns: seq<Node>)
    requires Injective(f, ns) && forall e :: e in es ==> e.0 in ns && e.1 in ns
    ensures forall e :: e in es && e in W ==> RenamedWeight(es, W, f)[EdgeImage(f, e)] == W[e]
  {
    if es != [] {
      var init, e := es[..|es| - 1], es[|es| - 1];
      assert forall d :: d in es <==> d in init || d == e;
      RenamedWeightKeeps(init, W, f, ns);
    }
  }

  /** Without merges the copy has an edge between two new names exactly when the original had it between the old ones. */
  lemma RenamedEdgesKeep(es: seq<Edge>, f: map<Node, Node>, ns: seq<Node>)
    requires Injective(f, ns) && forall e :: e in es ==> e.0 in ns && e.1 in ns
    ensures forall u, v :: u in ns && v in ns ==> ((Image(f, u), Image(f, v)) in RenamedEdges(es, f) <==> (u, v) in es)
  {
    forall u, v | u in ns && v in ns && (Image(f, u), Image(f, v)) in RenamedEdges(es, f) ensures (u, v) in es {
      var e :| e in es && EdgeImage(f, e) == (Image(f, u), Image(f, v));
    }
    forall u, v | (u, v) in es ensures (Image(f, u), Image(f, v)) in RenamedEdges(es, f) {
      assert EdgeImage(f, (u, v)) == (Image(f, u), Image(f, v));
    }
  }

  /**
   * When every cluster node carries the attribute, the renaming of `relabel` merges nothing:
   * renamed clusters get distinct names and terminals keep theirs.
   */
  lemma RelabelMergesNothing(ns: seq<Node>, attrs: map<Node, int>, mapping: map<Node, Node>)
    requires NoDup(ns) && IsMapping(ns, attrs, mapping, |ns|)
    requires forall x :: x in ns && x.Internal? ==> x in attrs
    ensures Injective(mapping, ns)
  {
    MappingInjective(ns, attrs, mapping);
    assert ns[..|ns|] == ns;
    forall x, y | x in ns && y in ns && Image(mapping, x) == Image(mapping, y) ensures x == y {
      var i :| 0 <= i < |ns| && ns[i] == x;
      var j :| 0 <= j < |ns| && ns[j] == y;
      assert x.Internal? ==> mapping[x] == Internal(attrs[x], Earlier(ns, attrs, attrs[x], i));
      assert y.Internal? ==> mapping[y] == Internal(attrs[y], Earlier(ns, attrs, attrs[y], j));
    }
  }

  /** The renamed edges join renamed nodes and carry exactly the renamed weights. */
  lemma RenamedShape(ns: seq<Node>, es: seq<Edge>, W: map<Edge, real>, f: map<Node, Node>)
    requires W.Keys == Elems(es) && forall e :: e in es ==> e.0 in ns && e.1 in ns
    ensures forall d :: d in RenamedEdges(es, f) ==> d.0 in RenamedNodes(ns, f) && d.1 in RenamedNodes(ns, f)
    ensures RenamedWeight(es, W, f).Keys == Elems(RenamedEdges(es, f))
  {
    forall d | d in RenamedEdges(es, f) ensures d.0 in RenamedNodes(ns, f) && d.1 in RenamedNodes(ns, f) {
      var e :| e in es && EdgeImage(f, e) == d;
    }
    forall d ensures d in RenamedWeight(es, W, f) <==> d in RenamedEdges(es, f) {
      if d in RenamedEdges(es, f) {
        var e :| e in es && EdgeImage(f, e) == d;
        assert e in W;
      }
    }
  }

  /** A renamed attribute sits on renamed nodes only. */
  lemma RenamedAttrWithin<V>(ns: seq<Node>, M: map<Node, V>, f: map<Node, Node>)
    ensures RenamedAttr(ns, M, f).Keys <= Elems(RenamedNodes(ns, f))
  {
    forall y | y in RenamedAttr(ns, M, f) ensures y in RenamedNodes(ns, f) {
      var x :| x in ns && x in M && Image(f, x) == y;
    }
  }

  /** `nx.relabel_nodes(g, f, copy=True)`: a new graph under the new names. */
  method RelabelNodes(g: Digraph, f: map<Node, Node>) returns (h: Digraph)
    requires g.Valid()
    ensures fresh(h) && h.Valid()
    ensures h.nodes == RenamedNodes(g.nodes, f) && h.edges == RenamedEdges(g.edges, f)
    ensures h.weight == RenamedWeight(g.edges, g.weight, f)
    ensures h.info == RenamedAttr(g.nodes, g.info, f) && h.depth == RenamedAttr(g.nodes, g.depth, f)
  {
    h := new Digraph();
    h.nodes := RenamedNodes(g.nodes, f);
    h.edges := RenamedEdges(g.edges, f);
    h.weight := RenamedWeight(g.edges, g.weight, f);
    h.info := RenamedAttr(g.nodes, g.info, f);
    h.depth := RenamedAttr(g.nodes, g.depth, f);
    RenamedShape(g.nodes, g.edges, g.weight, f);
    RenamedAttrWithin(g.nodes, g.info, f);
    RenamedAttrWithin(g.nodes, g.depth, f);
  }
}

/**
 * The edge choices of `pick`: which ranked secondary edges a copy of the full graph loses for a
 * percentage, and how the user's `additional` edges are put in, optionally replacing the
 * other parents of their child.
 */
module Picking {
  import opened Wrappers
  import opened Seqs
  import opened Graph
  import opened Digraphs
  import opened Secondary

  /** `[x[0] for x in ranked]`: the edges of a ranking, best first. */
  function RankedEdges(rs: seq<Ranked>): (es: seq<Edge>)
    ensures |es| == |rs| && forall k :: 0 <= k < |rs| ==> es[k] == rs[k].0
  {
    seq(|rs|, k requires 0 <= k < |rs| => rs[k].0)
  }

  /**
   * The ranked edges `pick` removes for the percentage `p`: all of them at 0, the tail after
   * the first `int(len * p / 100.)` below 100, none from 100 on.
   */
  function Dropped(es: seq<Edge>, p: real): seq<Edge> {
    if p == 0.0 then es
    else if p < 100.0 then SliceFrom(es, Trunc(|es| as real * p / 100.0))
    else []
  }

  /** Whatever the percentage, the removed edges are a suffix of the ranking. */
  lemma DroppedSuffix(es: seq<Edge>, p: real) returns (n: nat)
    ensures n <= |es| && Dropped(es, p) == es[n..]
  {
    if p == 0.0 {
      n := 0;
    } else if p < 100.0 {
      var t := Trunc(|es| as real * p / 100.0);
      n := if t >= |es| then |es| else if t >= 0 then t else if |es| + t < 0 then 0 else |es| + t;
    } else {
      n := |es|;
    }
  }

  /**
   * For a percentage strictly between 0 and 100, exactly the first `n` ranked edges survive,
   * `n` being `len * p / 100` rounded down.
   */
  lemma DroppedTop(es: seq<Edge>, p: real) returns (n: nat)
    requires 0.0 < p < 100.0
    ensures n as real <= |es| as real * p / 100.0 < n as real + 1.0
    ensures n == Trunc(|es| as real * p / 100.0)
    ensures n <= |es| && Dropped(es, p) == es[n..]
  {
    var x := |es| as real * p / 100.0;
    assert 0.0 <= x <= |es| as real by {
      assert |es| as real * p <= |es| as real * 100.0;
    }
    n := Trunc(x);
  }

  /** A larger percentage keeps more: an edge removed at `q` is removed at every `p <= q`. */
  lemma DroppedMonotone(es: seq<Edge>, p: real, q: real)
    requires 0.0 <= p <= q
    ensures forall e :: e in Dropped(es, q) ==> e in Dropped(es, p)
  {
    if p != 0.0 && q < 100.0 {
      var np, nq := DroppedCounts(es, p, q);
      SuffixWithin(es, np, nq);
    }
  }

  lemma SuffixWithin(es: seq<Edge>, i: nat, j: nat)
    requires i <= j <= |es|
    ensures forall e :: e in es[j..] ==> e in es[i..]
  {
    assert es[j..] == es[i..][j - i..];
  }

  lemma DroppedCounts(es: seq<Edge>, p: real, q: real) returns (np: nat, nq: nat)
    requires 0.0 < p <= q < 100.0
    ensures np <= nq <= |es| && Dropped(es, p) == es[np..] && Dropped(es, q) == es[nq..]
  {
    np := DroppedTop(es, p);
    nq := DroppedTop(es, q);
    CountMonotone(es, p, q);
  }

  lemma CountMonotone(es: seq<Edge>, p: real, q: real)
    requires 0.0 <= p <= q
    ensures Trunc(|es| as real * p / 100.0) <= Trunc(|es| as real * q / 100.0)
  {
    var x, y := |es| as real * p / 100.0, |es| as real * q / 100.0;
    assert |es| as real * p <= |es| as real * q;
    assert 0.0 <= x <= y;
    assert (Trunc(x) as real) < Trunc(y) as real + 1.0;
  }

  /** The edges of `es` ending at `v`: what `replace` removes before adding an edge into `v`. */
  function InEdges(es: seq<Edge>, v: Node): (r: seq<Edge>)
    ensures forall e :: e in r <==> e in es && e.1 == v
  {
    var ps := PredecessorsIn(es, v);
    var r := seq(|ps|, k requires 0 <= k < |ps| => (ps[k], v));
    assert forall e :: e in r ==> e.0 in ps && e.1 == v;
    assert forall e :: e in es && e.1 == v ==> e.0 in ps && r[IndexOf(ps, e.0).value] == e;
    r
  }

  /** The edges of the graph being picked, with their weights. */
  datatype EdgeState = EdgeState(es: seq<Edge>, W: map<Edge, real>)

  /** One additional edge: drop the other parents of its child if `replace`, then add it with weight 1. */
  function AddOne(s: EdgeState, e: Edge, replace: bool): EdgeState {
    var gone := Elems(InEdges(s.es, e.1));
    var es := if replace then EdgesOutside(s.es, gone) else s.es;
    var W := if replace then s.W - gone else s.W;
    EdgeState(if e in es then es else es + [e], W[e := 1.0])
  }

  /** The additional edges, in order. */
  function AddAll(s: EdgeState, add: seq<Edge>, replace: bool): EdgeState {
    if add == [] then s else AddOne(AddAll(s, add[..|add| - 1], replace), add[|add| - 1], replace)
  }

  /** The source of the last additional edge into `v`, if any. */
  function LastInto(add: seq<Edge>, v: Node): (r: Option<Node>)
    ensures r.None? <==> forall e :: e in add ==> e.1 != v
    ensures r.Some? ==> (r.value, v) in add
  {
    if add == [] then None
    else if add[|add| - 1].1 == v then Some(add[|add| - 1].0)
    else
      var r := LastInto(add[..|add| - 1], v);
      assert forall e :: e in add ==> e in add[..|add| - 1] || e == add[|add| - 1];
      r
  }

  /**
   * Without `replace` the additional edges join the graph: the edges are the old ones and the
   * added ones, the added ones weigh 1 and the others keep their weight.
   */
  lemma {:induction false} AddAllKeeps(s: EdgeState, add: seq<Edge>)
    ensures NoDup(s.es) ==> NoDup(AddAll(s, add, false).es)
    ensures forall e :: e in AddAll(s, add, false).es <==> e in s.es || e in add
    ensures forall e :: e in AddAll(s, add, false).W <==> e in s.W || e in add
    ensures forall e :: e in AddAll(s, add, false).W ==>
      AddAll(s, add, false).W[e] == if e in add then 1.0 else s.W[e]
  {
    if add != [] {
      var init := add[..|add| - 1];
      AddAllKeeps(s, init);
      assert forall e :: e in add <==> e in init || e == add[|add| - 1];
      var t := AddAll(s, init, false);
      if NoDup(s.es) && add[|add| - 1] !in t.es {
        NoDupAppend(t.es, add[|add| - 1]);
      }
    }
  }

  /**
   * With `replace`, every child of an additional edge ends with exactly one parent, the
   * source of the last additional edge into it, at weight 1; the parents of every other node
   * are untouched.
   */
  lemma {:induction false} AddAllReplaces(s: EdgeState, add: seq<Edge>, v: Node)
    ensures LastInto(add, v).Some? ==>
      forall u :: (u, v) in AddAll(s, add, true).es <==> u == LastInto(add, v).value
    ensures LastInto(add, v).Some? ==>
      ((LastInto(add, v).value, v) in AddAll(s, add, true).W && AddAll(s, add, true).W[(LastInto(add, v).value, v)] == 1.0)
    ensures LastInto(add, v).None? ==> forall u :: (u, v) in AddAll(s, add, true).es <==> (u, v) in s.es
    ensures LastInto(add, v).None? ==> forall u :: (u, v) in s.W ==>
      (u, v) in AddAll(s, add, true).W && AddAll(s, add, true).W[(u, v)] == s.W[(u, v)]
  {
    if add != [] {
      var init, e := add[..|add| - 1], add[|add| - 1];
      AddAllReplaces(s, init, v);
      var t := AddAll(s, init, true);
      var gone := Elems(InEdges(t.es, e.1));
      if e.1 == v {
        forall u ensures (u, v) in AddAll(s, add, true).es <==> u == e.0 {
          assert (u, v) in EdgesOutside(t.es, gone) ==> (u, v) !in gone;
        }
      } else {
        assert forall u :: (u, v) !in gone;
      }
    }
  }

  /**
   * The `additional` loop of `pick` on the copy `t` of the full graph `g`: an edge that `g`
   * lacks raises, otherwise the edges are added in order as `AddAll` says.
   */
  method AddAdditional(t: Digraph, g: Digraph, add: seq<Edge>, replace: bool) returns (r: Result<()>)
    requires t.Valid() && g.Valid() && t != g
    requires forall x :: x in g.nodes ==> x in t.nodes
    modifies t
    ensures t.Valid() && t.nodes == old(t.nodes) && t.info == old(t.info) && t.depth == old(t.depth)
    ensures r.Err? <==> exists e :: e in add && e !in g.EdgeSet()
    ensures r.Err? ==> r.error == MissingEdge
    ensures r.Ok? ==> EdgeState(t.edges, t.weight) == AddAll(EdgeState(old(t.edges), old(t.weight)), add, replace)
  {
    ghost var s0 := EdgeState(t.edges, t.weight);
    var known := g.edges;
    for k := 0 to |add|
      invariant t.Valid() && t.nodes == old(t.nodes) && t.info == old(t.info) && t.depth == old(t.depth)
      invariant Known(add, k, known)
      invariant EdgeState(t.edges, t.weight) == AddAll(s0, add[..k], replace)
    {
      var e := add[k];
      if e !in known {
        assert e in add && e !in g.EdgeSet();
        return Err(MissingEdge);
      }
      KnownStep(add, k, known);
      AddAllStep(s0, add, k, replace);
      AddEdgeTo(t, e, replace);
    }
    assert add[..|add|] == add;
    return Ok(());
  }

  /** The first `k` additional edges are all among `known`. */
  predicate Known(add: seq<Edge>, k: nat, known: seq<Edge>) {
    forall j :: 0 <= j < k && j < |add| ==> add[j] in known
  }

  lemma KnownStep(add: seq<Edge>, k: nat, known: seq<Edge>)
    requires k < |add| && Known(add, k, known) && add[k] in known
    ensures Known(add, k + 1, known)
  {
  }

  lemma AddAllStep(s: EdgeState, add: seq<Edge>, k: nat, replace: bool)
    requires k < |add|
    ensures AddAll(s, add[..k + 1], replace) == AddOne(AddAll(s, add[..k], replace), add[k], replace)
  {
    assert add[..k + 1][..k] == add[..k];
  }

  /** One pass of the loop: the other parents of `e.1` go if `replace`, then `e` is added with weight 1. */
  method AddEdgeTo(t: Digraph, e: Edge, replace: bool)
    requires t.Valid() && e.0 in t.nodes && e.1 in t.nodes
    modifies t
    ensures t.Valid() && t.nodes == old(t.nodes) && t.info == old(t.info) && t.depth == old(t.depth)
    ensures EdgeState(t.edges, t.weight) == AddOne(EdgeState(old(t.edges), old(t.weight)), e, replace)
  {
    if replace {
      t.RemoveEdges(InEdges(t.edges, e.1));
    }
    t.AddEdge(e.0, e.1, 1.0);
  }
}

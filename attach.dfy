/**
 * The fourth step of `_build`: attaching every terminal to the clusters that contain it.
 * `attached_record[t]` lists the clusters `t` hangs under. A new cluster holding `t` scans that
 * list from the back: it is skipped when one of them lies below it; a listed cluster above it
 * loses its edge to `t`.
 *
 * This module holds the value-level account of that loop. Paths are read in the graph `D` of
 * cluster edges: edges into terminals never lie on a path between clusters.
 */
module Attaching {
  import opened Seqs
  import opened Graph
  import opened Containment
  import opened Assignments
  import opened Digraphs

  /** `attached_record`: the clusters each terminal is attached to, in attachment order. */
  type Record = map<Name, seq<Node>>

  /** `attached_record[t]`, which is empty for a terminal not seen yet (a `defaultdict`). */
  function Attached(rec: Record, t: Name): seq<Node> {
    if t in rec then rec[t] else []
  }

  /**
   * The loop `for other in reversed(attached)` for a new cluster `x`: the list left behind,
   * and whether `x` is skipped because it has a path to a listed cluster.
   */
  function Scan(D: set<Edge>, A: seq<Node>, x: Node): (r: (seq<Node>, bool))
    ensures forall y :: y in r.0 ==> y in A
    ensures r.1 ==> r.0 != []
    ensures x in A ==> r.1
    ensures NoDup(A) ==> NoDup(r.0)
    decreases |A|
  {
    if A == [] then ([], false)
    else
      var o := A[|A| - 1];
      assert A == A[..|A| - 1] + [o];
      assert x in Reach(D, {x});
      if o in Reach(D, {x}) then (A, true)
      else if x in Reach(D, {o}) then Scan(D, A[..|A| - 1], x)
      else
        var r := Scan(D, A[..|A| - 1], x);
        assert NoDup(A) ==> NoDup(A[..|A| - 1]) && o !in r.0;
        (r.0 + [o], r.1)
  }

  /** One pass of the loop body for cluster `x`: the scan, then `attached.append(x)` unless skipped. */
  function AttachStep(D: set<Edge>, A: seq<Node>, x: Node): (r: seq<Node>)
    ensures r != []
    ensures forall y :: y in r ==> y in A || y == x
    ensures NoDup(A) ==> NoDup(r)
  {
    var s := Scan(D, A, x);
    if s.1 then s.0 else s.0 + [x]
  }

  /** The list after the clusters `xs` were offered to `t` in turn, starting from `A`. */
  function AttachFrom(D: set<Edge>, A: seq<Node>, xs: seq<Node>): (r: seq<Node>)
    ensures xs != [] ==> r != []
    ensures forall y :: y in r ==> y in A || y in xs
    decreases |xs|
  {
    if xs == [] then A
    else AttachStep(D, AttachFrom(D, A, xs[..|xs| - 1]), xs[|xs| - 1])
  }

  /** The members of `S` with no other member of `S` below them. */
  ghost function Minimal(D: set<Edge>, S: set<Node>): set<Node> {
    set y | y in S && forall z :: z in S && z in Reach(D, {y}) ==> z == y
  }

  /** No member of `A` has a path to another. */
  ghost predicate Antichain(D: set<Edge>, A: seq<Node>) {
    forall u, v :: u in A && v in A && v in Reach(D, {u}) ==> u == v
  }

  /**
   * When `x` has a path to a listed cluster of an antichain, the scan stops there and removes
   * nothing: no cluster above `x` can come first, since it would lie above that one too.
   */
  lemma {:induction false} ScanSkip(D: set<Edge>, A: seq<Node>, x: Node, d: Node)
    requires Acyclic(D) && Antichain(D, A)
    requires d in A && d in Reach(D, {x})
    ensures Scan(D, A, x) == (A, true)
    decreases |A|
  {
    var o := A[|A| - 1];
    var init := A[..|A| - 1];
    assert A == init + [o];
    if o !in Reach(D, {x}) {
      assert d != o;
      assert d in init;
      if x in Reach(D, {o}) {
        ReachTrans(D, o, x, d);
        assert false;
      }
      forall u, v | u in init && v in init && v in Reach(D, {u}) ensures u == v {
        assert u in A && v in A;
      }
      ScanSkip(D, init, x, d);
    }
  }

  /** When `x` has no path to a listed cluster, the scan keeps exactly those not above `x`. */
  lemma {:induction false} ScanKeep(D: set<Edge>, A: seq<Node>, x: Node)
    requires forall y :: y in A ==> y !in Reach(D, {x})
    ensures !Scan(D, A, x).1
    ensures forall y :: y in Scan(D, A, x).0 <==> y in A && x !in Reach(D, {y})
    ensures NoDup(A) ==> NoDup(Scan(D, A, x).0)
    decreases |A|
  {
    if A != [] {
      var o := A[|A| - 1];
      var init := A[..|A| - 1];
      assert A == init + [o];
      ScanKeep(D, init, x);
    }
  }

  /** Below every member of a set lies a minimal one, in an acyclic graph. */
  lemma MinimalBelow(D: set<Edge>, S: set<Node>, z: Node) returns (m: Node)
    requires Acyclic(D) && z in S
    ensures m in Minimal(D, S) && m in Reach(D, {z})
    decreases |Reach(D, {z})|
  {
    if z in Minimal(D, S) {
      m := z;
    } else {
      var z' :| z' in S && z' in Reach(D, {z}) && z' != z;
      AcyclicRanked(D);
      RankDrops(D, ReachRank(D), z, z');
      m := MinimalBelow(D, S, z');
      ReachTrans(D, z, z', m);
    }
  }

  /** The minimal members of a set form an antichain. */
  lemma MinimalAntichain(D: set<Edge>, S: set<Node>, A: seq<Node>)
    requires Elems(A) == Minimal(D, S)
    ensures Antichain(D, A)
  {
    forall u, v | u in A && v in A && v in Reach(D, {u}) ensures u == v {
      assert u in Elems(A) && v in Elems(A);
    }
  }

  /**
   * One step keeps the list equal to the minimal clusters offered so far: a cluster below a
   * listed one is skipped, otherwise it replaces the listed clusters above it.
   */
  lemma StepMinimal(D: set<Edge>, S: set<Node>, A: seq<Node>, x: Node)
    requires Acyclic(D) && NoDup(A) && Elems(A) == Minimal(D, S)
    ensures Elems(AttachStep(D, A, x)) == Minimal(D, S + {x})
    ensures NoDup(AttachStep(D, A, x))
  {
    MinimalAntichain(D, S, A);
    if d :| d in A && d in Reach(D, {x}) {
      ScanSkip(D, A, x, d);
      StepSkipped(D, S, A, x, d);
    } else {
      ScanKeep(D, A, x);
      StepAppended(D, S, A, x);
    }
  }

  lemma StepSkipped(D: set<Edge>, S: set<Node>, A: seq<Node>, x: Node, d: Node)
    requires Acyclic(D) && Elems(A) == Minimal(D, S)
    requires d in A && d in Reach(D, {x})
    ensures Minimal(D, S + {x}) == Minimal(D, S)
  {
    assert d in Elems(A);
    forall y | y in Minimal(D, S) ensures y in Minimal(D, S + {x}) {
      forall z | z in S + {x} && z in Reach(D, {y}) ensures z == y {
        if z == x {
          ReachTrans(D, y, x, d);
          assert d == y;
        }
      }
    }
    forall y | y in Minimal(D, S + {x}) ensures y in Minimal(D, S) {
      if y == x {
        assert d in S + {x};
        assert d == y;
      }
    }
  }

  lemma StepAppended(D: set<Edge>, S: set<Node>, A: seq<Node>, x: Node)
    requires Acyclic(D) && Elems(A) == Minimal(D, S)
    requires forall y :: y in A ==> y !in Reach(D, {x})
    ensures Minimal(D, S + {x}) == (set y | y in A && x !in Reach(D, {y})) + {x}
  {
    forall z | z in S + {x} && z in Reach(D, {x}) ensures z == x {
      if z != x {
        var m := MinimalBelow(D, S, z);
        ReachTrans(D, x, z, m);
        assert false;
      }
    }
    assert x in Minimal(D, S + {x});
    forall y | y in A && x !in Reach(D, {y}) ensures y in Minimal(D, S + {x}) {
      assert y in Elems(A);
    }
    forall y | y in Minimal(D, S + {x}) && y != x ensures y in A && x !in Reach(D, {y}) {
      assert y in Minimal(D, S);
      assert y in Elems(A);
    }
  }

  /** Offering clusters in turn leaves the minimal ones, each once. */
  lemma {:induction false} AttachFromMinimal(D: set<Edge>, S: set<Node>, A: seq<Node>, xs: seq<Node>)
    requires Acyclic(D) && NoDup(A) && Elems(A) == Minimal(D, S)
    ensures Elems(AttachFrom(D, A, xs)) == Minimal(D, S + Elems(xs))
    ensures NoDup(AttachFrom(D, A, xs))
    decreases |xs|
  {
    if xs != [] {
      var init, x := xs[..|xs| - 1], xs[|xs| - 1];
      assert xs == init + [x];
      AttachFromMinimal(D, S, A, init);
      StepMinimal(D, S + Elems(init), AttachFrom(D, A, init), x);
      assert S + Elems(xs) == S + Elems(init) + {x};
    }
  }

  /** Offering `xs` then `ys` is offering `xs + ys`. */
  lemma {:induction false} AttachFromAppend(D: set<Edge>, A: seq<Node>, xs: seq<Node>, ys: seq<Node>)
    ensures AttachFrom(D, AttachFrom(D, A, xs), ys) == AttachFrom(D, A, xs + ys)
    decreases |ys|
  {
    if ys != [] {
      var init := ys[..|ys| - 1];
      assert (xs + ys)[..|xs + ys| - 1] == xs + init;
      assert (xs + ys)[|xs + ys| - 1] == ys[|ys| - 1];
      AttachFromAppend(D, A, xs, init);
    } else {
      assert xs + ys == xs;
    }
  }

  /** `x` is a cluster node naming a row; the root `(-1, 0)` is not one and is passed over. */
  predicate IsRow(a: Assignment, x: Node) {
    x.Internal? && 0 <= x.idx < |a.rows|
  }

  /** The loop `for i in x` for cluster `x`, over its first `c` columns. */
  function AttachColumns(D: set<Edge>, a: Assignment, rec: Record, x: Node, c: nat): Record
    requires WellFormed(a) && IsRow(a, x) && c <= |a.terminals|
    decreases c
  {
    if c == 0 then rec
    else
      var r := AttachColumns(D, a, rec, x, c - 1);
      if a.rows[x.idx][c - 1] then
        var t := a.terminals[c - 1];
        r[t := AttachStep(D, Attached(r, t), x)]
      else r
  }

  /** The loop `for node in nodes` over the nodes `xs`, from an empty record. */
  function AttachNodes(D: set<Edge>, a: Assignment, xs: seq<Node>): Record
    requires WellFormed(a)
    decreases |xs|
  {
    if xs == [] then map[]
    else
      var r := AttachNodes(D, a, xs[..|xs| - 1]);
      var x := xs[|xs| - 1];
      if IsRow(a, x) then AttachColumns(D, a, r, x, |a.terminals|) else r
  }

  /** The clusters offered to terminal `t` by cluster `x` within its first `c` columns. */
  function RowOffers(a: Assignment, t: Name, x: Node, c: nat): seq<Node>
    requires WellFormed(a) && IsRow(a, x) && c <= |a.terminals|
  {
    if c == 0 then []
    else RowOffers(a, t, x, c - 1) + (if a.rows[x.idx][c - 1] && a.terminals[c - 1] == t then [x] else [])
  }

  /** The clusters offered to terminal `t`, in the order the loops offer them. */
  function Offers(a: Assignment, t: Name, xs: seq<Node>): seq<Node>
    requires WellFormed(a)
  {
    if xs == [] then []
    else
      var x := xs[|xs| - 1];
      Offers(a, t, xs[..|xs| - 1]) + (if IsRow(a, x) then RowOffers(a, t, x, |a.terminals|) else [])
  }

  /** Row `i` contains terminal `t` in one of its first `c` columns. */
  ghost predicate HoldsWithin(a: Assignment, i: nat, t: Name, c: nat)
    requires WellFormed(a) && i < |a.rows| && c <= |a.terminals|
  {
    exists k :: 0 <= k < c && a.rows[i][k] && a.terminals[k] == t
  }

  /** The cluster nodes of `xs` whose row contains terminal `t`. */
  ghost function Holders(a: Assignment, t: Name, xs: seq<Node>): set<Node>
    requires WellFormed(a)
  {
    set x | x in xs && IsRow(a, x) && HoldsWithin(a, x.idx, t, |a.terminals|)
  }

  lemma {:induction false} RowOffersMembers(a: Assignment, t: Name, x: Node, c: nat)
    requires WellFormed(a) && IsRow(a, x) && c <= |a.terminals|
    ensures forall y :: y in RowOffers(a, t, x, c) <==> y == x && HoldsWithin(a, x.idx, t, c)
  {
    if c > 0 {
      RowOffersMembers(a, t, x, c - 1);
      if a.rows[x.idx][c - 1] && a.terminals[c - 1] == t {
        assert HoldsWithin(a, x.idx, t, c);
      } else if HoldsWithin(a, x.idx, t, c) {
        var k :| 0 <= k < c && a.rows[x.idx][k] && a.terminals[k] == t;
        assert HoldsWithin(a, x.idx, t, c - 1);
      }
    }
  }

  lemma {:induction false} OffersMembers(a: Assignment, t: Name, xs: seq<Node>)
    requires WellFormed(a)
    ensures Elems(Offers(a, t, xs)) == Holders(a, t, xs)
  {
    if xs != [] {
      var init, x := xs[..|xs| - 1], xs[|xs| - 1];
      assert xs == init + [x];
      OffersMembers(a, t, init);
      var extra := if IsRow(a, x) then RowOffers(a, t, x, |a.terminals|) else [];
      assert Offers(a, t, xs) == Offers(a, t, init) + extra;
      if IsRow(a, x) {
        RowOffersMembers(a, t, x, |a.terminals|);
      }
      forall y ensures y in Offers(a, t, xs) <==> y in Holders(a, t, xs) {
        assert y in xs <==> y in init || y == x;
        assert y in Offers(a, t, xs) <==> y in Offers(a, t, init) || y in extra;
        assert y in Offers(a, t, init) <==> y in Elems(Offers(a, t, init));
      }
    }
  }

  /** Within one cluster's columns, terminal `t` sees exactly the offers made to it. */
  lemma {:induction false} ColumnsPerTerminal(D: set<Edge>, a: Assignment, rec: Record, x: Node, c: nat, t: Name)
    requires WellFormed(a) && IsRow(a, x) && c <= |a.terminals|
    ensures Attached(AttachColumns(D, a, rec, x, c), t) == AttachFrom(D, Attached(rec, t), RowOffers(a, t, x, c))
    ensures t in AttachColumns(D, a, rec, x, c) <==> t in rec || RowOffers(a, t, x, c) != []
  {
    if c > 0 {
      ColumnsPerTerminal(D, a, rec, x, c - 1, t);
      if a.rows[x.idx][c - 1] && a.terminals[c - 1] == t {
        ColumnHit(D, a, rec, x, c, t);
      } else {
        ColumnMiss(D, a, rec, x, c, t);
      }
    }
  }

  lemma ColumnHit(D: set<Edge>, a: Assignment, rec: Record, x: Node, c: nat, t: Name)
    requires WellFormed(a) && IsRow(a, x) && 0 < c <= |a.terminals|
    requires a.rows[x.idx][c - 1] && a.terminals[c - 1] == t
    requires Attached(AttachColumns(D, a, rec, x, c - 1), t) == AttachFrom(D, Attached(rec, t), RowOffers(a, t, x, c - 1))
    ensures Attached(AttachColumns(D, a, rec, x, c), t) == AttachFrom(D, Attached(rec, t), RowOffers(a, t, x, c))
    ensures t in AttachColumns(D, a, rec, x, c) && RowOffers(a, t, x, c) != []
  {
    var prev := RowOffers(a, t, x, c - 1);
    var r := AttachColumns(D, a, rec, x, c - 1);
    var B := Attached(rec, t);
    var V := AttachStep(D, Attached(r, t), x);
    assert AttachColumns(D, a, rec, x, c) == r[t := V];
    assert Attached(r[t := V], t) == V;
    assert RowOffers(a, t, x, c) == prev + [x];
    assert (prev + [x])[..|prev + [x]| - 1] == prev;
    assert AttachFrom(D, B, prev + [x]) == AttachStep(D, AttachFrom(D, B, prev), x);
  }

  lemma ColumnMiss(D: set<Edge>, a: Assignment, rec: Record, x: Node, c: nat, t: Name)
    requires WellFormed(a) && IsRow(a, x) && 0 < c <= |a.terminals|
    requires !(a.rows[x.idx][c - 1] && a.terminals[c - 1] == t)
    ensures Attached(AttachColumns(D, a, rec, x, c), t) == Attached(AttachColumns(D, a, rec, x, c - 1), t)
    ensures t in AttachColumns(D, a, rec, x, c) <==> t in AttachColumns(D, a, rec, x, c - 1)
    ensures RowOffers(a, t, x, c) == RowOffers(a, t, x, c - 1)
  {
    var prev := RowOffers(a, t, x, c - 1);
    var r := AttachColumns(D, a, rec, x, c - 1);
    if a.rows[x.idx][c - 1] {
      var u := a.terminals[c - 1];
      assert AttachColumns(D, a, rec, x, c) == r[u := AttachStep(D, Attached(r, u), x)];
    }
    assert RowOffers(a, t, x, c) == prev + [];
  }

  /** Across the whole loop, terminal `t` sees exactly the offers made to it. */
  lemma {:induction false} NodesPerTerminal(D: set<Edge>, a: Assignment, xs: seq<Node>, t: Name)
    requires WellFormed(a)
    ensures Attached(AttachNodes(D, a, xs), t) == AttachFrom(D, [], Offers(a, t, xs))
    ensures t in AttachNodes(D, a, xs) <==> Offers(a, t, xs) != []
  {
    if xs != [] {
      var init, x := xs[..|xs| - 1], xs[|xs| - 1];
      NodesPerTerminal(D, a, init, t);
      if IsRow(a, x) {
        var r := AttachNodes(D, a, init);
        ColumnsPerTerminal(D, a, r, x, |a.terminals|, t);
        AttachFromAppend(D, [], Offers(a, t, init), RowOffers(a, t, x, |a.terminals|));
      } else {
        assert Offers(a, t, xs) == Offers(a, t, init) + [] == Offers(a, t, init);
        assert AttachNodes(D, a, xs) == AttachNodes(D, a, init);
        assert Attached(AttachNodes(D, a, xs), t) == AttachFrom(D, [], Offers(a, t, xs));
        assert t in AttachNodes(D, a, xs) <==> Offers(a, t, xs) != [];
      }
    }
  }

  /**
   * On an acyclic cluster graph, each terminal ends up attached to exactly the minimal
   * clusters containing it, each once; no two of them lie on one path.
   */
  lemma AttachedMinimal(D: set<Edge>, a: Assignment, xs: seq<Node>, t: Name)
    requires WellFormed(a) && Acyclic(D)
    ensures Elems(Attached(AttachNodes(D, a, xs), t)) == Minimal(D, Holders(a, t, xs))
    ensures NoDup(Attached(AttachNodes(D, a, xs), t))
    ensures Antichain(D, Attached(AttachNodes(D, a, xs), t))
  {
    NodesPerTerminal(D, a, xs, t);
    OffersMembers(a, t, xs);
    assert Elems<Node>([]) == Minimal(D, {});
    AttachFromMinimal(D, {}, [], Offers(a, t, xs));
    assert {} + Elems(Offers(a, t, xs)) == Holders(a, t, xs);
    MinimalAntichain(D, Holders(a, t, xs), Attached(AttachNodes(D, a, xs), t));
  }

  /**
   * On any graph, a terminal gets a record exactly when some cluster contains it, and then it
   * hangs under at least one cluster, each of which contains it.
   */
  lemma AttachedCover(D: set<Edge>, a: Assignment, xs: seq<Node>, t: Name)
    requires WellFormed(a)
    ensures t in AttachNodes(D, a, xs) <==> Holders(a, t, xs) != {}
    ensures t in AttachNodes(D, a, xs) ==>
      AttachNodes(D, a, xs)[t] != [] && Elems(AttachNodes(D, a, xs)[t]) <= Holders(a, t, xs)
  {
    NodesPerTerminal(D, a, xs, t);
    OffersMembers(a, t, xs);
    var o := Offers(a, t, xs);
    if o != [] {
      assert o[0] in Elems(o);
    }
  }

  /** The edges from the clusters `A` into terminal `t`. */
  ghost function TEdges(A: seq<Node>, t: Name): set<Edge> {
    set y | y in A :: (y, Terminal(t))
  }

  /** The edges into terminals that a record stands for. */
  ghost function RecordEdges(rec: Record): set<Edge> {
    set t, y | t in rec && y in rec[t] :: (y, Terminal(t))
  }

  /** The terminal nodes of a record's terminals. */
  ghost function RecordNodes(rec: Record): set<Node> {
    set t | t in rec :: Terminal(t)
  }

  /** Every list of the record names distinct cluster nodes. */
  ghost predicate RecordOK(rec: Record) {
    forall t :: t in rec ==> NoDup(rec[t]) && forall y :: y in rec[t] ==> y.Internal?
  }

  /** Every edge joins two cluster nodes. */
  ghost predicate ClusterGraph(D: set<Edge>) {
    forall e :: e in D ==> e.0.Internal? && e.1.Internal?
  }

  /** Every edge leads from a cluster node into a terminal. */
  ghost predicate IntoTerminals(T: set<Edge>) {
    forall e :: e in T ==> e.0.Internal? && e.1.Terminal?
  }

  /** Edges into terminals add no path between cluster nodes: terminals have no children. */
  lemma ClusterPaths(D: set<Edge>, T: set<Edge>, x: Node, y: Node)
    requires ClusterGraph(D) && IntoTerminals(T) && y.Internal?
    ensures y in Reach(D + T, {x}) <==> y in Reach(D, {x})
  {
    ReachMonoEdges(D, D + T, {x});
    var R := Reach(D, {x});
    var C := R + Targets(T);
    forall w | w in Next(D + T, C) ensures w in C {
      var e :| e in D + T && e.0 in C && e.1 == w;
      if e in D {
        assert e.0 in R;
        assert w in Next(D, R);
      } else {
        assert w in Targets(T);
      }
    }
    ReachLeast(D + T, {x}, C);
  }

  lemma RecordEdgesUpdate(D: set<Edge>, rec: Record, t: Name, A': seq<Node>)
    requires ClusterGraph(D)
    ensures (D + RecordEdges(rec)) - TEdges(Attached(rec, t), t) + TEdges(A', t)
      == D + RecordEdges(rec[t := A'])
  {
  }

  lemma RecordNodesUpdate(N: set<Node>, ns: seq<Node>, ns0: seq<Node>, rec: Record, t: Name, A': seq<Node>)
    requires ns == if Terminal(t) in ns0 then ns0 else ns0 + [Terminal(t)]
    requires Elems(ns0) == N + RecordNodes(rec)
    ensures Elems(ns) == N + RecordNodes(rec[t := A'])
  {
    assert RecordNodes(rec[t := A']) == RecordNodes(rec) + {Terminal(t)};
    assert Elems(ns) == Elems(ns0) + {Terminal(t)};
  }

  lemma RecordEdgesShape(D: set<Edge>, rec: Record, t: Name)
    requires ClusterGraph(D) && RecordOK(rec)
    ensures D <= D + RecordEdges(rec) && IntoTerminals(D + RecordEdges(rec) - D)
    ensures TEdges(Attached(rec, t), t) <= D + RecordEdges(rec)
    ensures forall y :: (y, Terminal(t)) in D + RecordEdges(rec) ==> y in Attached(rec, t)
  {
  }

  /**
   * `_build`, lines 352-382: attaches the terminals to the clusters holding them, over a
   * snapshot of the nodes, passing over the root `(-1, 0)`. The record is the one the
   * value-level loop computes, and the graph gains exactly its edges, each of weight 1.
   */
  method AttachTerminals(g: Digraph, a: Assignment) returns (rec: Record)
    requires g.Valid() && WellFormed(a)
    requires forall x :: x in g.nodes ==> x.Internal? && (x.idx == -1 || 0 <= x.idx < |a.rows|)
    modifies g
    ensures g.Valid()
    ensures rec == AttachNodes(old(g.EdgeSet()), a, old(g.nodes))
    ensures g.EdgeSet() == old(g.EdgeSet()) + RecordEdges(rec)
    ensures Elems(g.nodes) == Elems(old(g.nodes)) + RecordNodes(rec)
    ensures forall e :: e in g.weight ==>
      if e in old(g.EdgeSet()) then g.weight[e] == old(g.weight)[e] else g.weight[e] == 1.0
    ensures g.info == old(g.info) && g.depth == old(g.depth)
  {
    var nodes := g.nodes;
    ghost var D := g.EdgeSet();
    ghost var W := g.weight;
    rec := map[];
    for k := 0 to |nodes|
      invariant g.Valid() && g.info == old(g.info) && g.depth == old(g.depth)
      invariant rec == AttachNodes(D, a, nodes[..k]) && RecordOK(rec)
      invariant g.EdgeSet() == D + RecordEdges(rec)
      invariant Elems(g.nodes) == Elems(nodes) + RecordNodes(rec)
      invariant forall e :: e in g.weight ==> if e in D then g.weight[e] == W[e] else g.weight[e] == 1.0
    {
      var x := nodes[k];
      assert nodes[..k + 1][..k] == nodes[..k];
      if x.idx != -1 {
        rec := AttachRow(g, D, W, Elems(nodes), a, rec, x);
      }
    }
    assert nodes[..|nodes|] == nodes;
  }

  /** The loop `for i in x` for one cluster: offers it to every terminal its row holds. */
  method AttachRow(g: Digraph, ghost D: set<Edge>, ghost W: map<Edge, real>, ghost N: set<Node>,
                   a: Assignment, rec: Record, x: Node) returns (rec': Record)
    requires WellFormed(a) && IsRow(a, x) && g.Valid() && x in N && N <= Elems(g.nodes)
    requires ClusterGraph(D) && RecordOK(rec) && g.EdgeSet() == D + RecordEdges(rec) && D <= W.Keys
    requires Elems(g.nodes) == N + RecordNodes(rec)
    requires forall e :: e in g.weight ==> if e in D then g.weight[e] == W[e] else g.weight[e] == 1.0
    modifies g
    ensures g.Valid() && g.info == old(g.info) && g.depth == old(g.depth)
    ensures rec' == AttachColumns(D, a, rec, x, |a.terminals|) && RecordOK(rec')
    ensures g.EdgeSet() == D + RecordEdges(rec')
    ensures Elems(g.nodes) == N + RecordNodes(rec')
    ensures forall e :: e in g.weight ==> if e in D then g.weight[e] == W[e] else g.weight[e] == 1.0
  {
    rec' := rec;
    for c := 0 to |a.terminals|
      invariant g.Valid() && g.info == old(g.info) && g.depth == old(g.depth)
      invariant rec' == AttachColumns(D, a, rec, x, c) && RecordOK(rec')
      invariant g.EdgeSet() == D + RecordEdges(rec')
      invariant Elems(g.nodes) == N + RecordNodes(rec')
      invariant forall e :: e in g.weight ==> if e in D then g.weight[e] == W[e] else g.weight[e] == 1.0
    {
      if a.rows[x.idx][c] {
        rec' := AttachCell(g, D, W, N, rec', x, a.terminals[c]);
      }
    }
  }

  /** One cell of the row of `x` that holds terminal `t`: offers `x` to `t`. */
  method AttachCell(g: Digraph, ghost D: set<Edge>, ghost W: map<Edge, real>, ghost N: set<Node>,
                    rec: Record, x: Node, t: Name) returns (rec': Record)
    requires g.Valid() && x in N && x.Internal?
    requires ClusterGraph(D) && RecordOK(rec) && g.EdgeSet() == D + RecordEdges(rec) && D <= W.Keys
    requires Elems(g.nodes) == N + RecordNodes(rec)
    requires forall e :: e in g.weight ==> if e in D then g.weight[e] == W[e] else g.weight[e] == 1.0
    modifies g
    ensures g.Valid() && g.info == old(g.info) && g.depth == old(g.depth)
    ensures rec' == rec[t := AttachStep(D, Attached(rec, t), x)] && RecordOK(rec')
    ensures g.EdgeSet() == D + RecordEdges(rec')
    ensures Elems(g.nodes) == N + RecordNodes(rec')
    ensures forall e :: e in g.weight ==> if e in D then g.weight[e] == W[e] else g.weight[e] == 1.0
  {
    var A := Attached(rec, t);
    RecordEdgesShape(D, rec, t);
    ghost var ns0 := g.nodes;
    var A' := AttachOne(g, D, A, x, t);
    RecordEdgesUpdate(D, rec, t, A');
    RecordNodesUpdate(N, g.nodes, ns0, rec, t, A');
    rec' := rec[t := A'];
  }

  /**
   * `_build`, lines 370-382, for cluster `x` and terminal `t`: the reversed scan over the
   * clusters `A` already holding `t`, then the edge `x → t` of weight 1 and
   * `attached.append(x)` unless `x` has a path to one of them.
   */
  method AttachOne(g: Digraph, ghost D: set<Edge>, A: seq<Node>, x: Node, t: Name) returns (r: seq<Node>)
    requires g.Valid() && x in g.nodes && x.Internal?
    requires ClusterGraph(D) && D <= g.EdgeSet() && IntoTerminals(g.EdgeSet() - D)
    requires NoDup(A) && TEdges(A, t) <= g.EdgeSet()
    requires forall y :: (y, Terminal(t)) in g.EdgeSet() ==> y in A
    modifies g
    ensures g.Valid()
    ensures r == AttachStep(D, A, x)
    ensures g.EdgeSet() == old(g.EdgeSet()) - TEdges(A, t) + TEdges(r, t)
    ensures g.nodes == if Terminal(t) in old(g.nodes) then old(g.nodes) else old(g.nodes) + [Terminal(t)]
    ensures forall e :: e in g.weight ==>
      (e in old(g.weight) && g.weight[e] == old(g.weight)[e]) || (e == (x, Terminal(t)) && g.weight[e] == 1.0)
    ensures g.info == old(g.info) && g.depth == old(g.depth)
  {
    var cur, skip := ScanAttached(g, D, A, x, t);
    if skip {
      var other := cur[0];
      assert (other, Terminal(t)) in TEdges(cur, t);
      assert (other, Terminal(t)) in g.EdgeSet();
      r := cur;
    } else {
      g.AddEdge(x, Terminal(t), 1.0);
      r := cur + [x];
    }
  }

  /**
   * The loop `for other in reversed(attached)`: stops at the first cluster below `x`; removes
   * every cluster above `x` met before, with its edge into `t`.
   */
  method ScanAttached(g: Digraph, ghost D: set<Edge>, A: seq<Node>, x: Node, t: Name)
      returns (cur: seq<Node>, skip: bool)
    requires g.Valid() && x.Internal?
    requires ClusterGraph(D) && D <= g.EdgeSet() && IntoTerminals(g.EdgeSet() - D)
    requires NoDup(A) && TEdges(A, t) <= g.EdgeSet()
    modifies g
    ensures g.Valid()
    ensures (cur, skip) == Scan(D, A, x)
    ensures g.EdgeSet() == old(g.EdgeSet()) - TEdges(A, t) + TEdges(cur, t)
    ensures TEdges(cur, t) <= g.EdgeSet()
    ensures g.nodes == old(g.nodes) && g.info == old(g.info) && g.depth == old(g.depth)
    ensures forall e :: e in g.weight ==> e in old(g.weight) && g.weight[e] == old(g.weight)[e]
  {
    ghost var E0 := g.EdgeSet();
    ghost var W0 := g.weight;
    assert forall y :: y in A ==> (y, Terminal(t)) in g.EdgeSet() - D;
    cur := A;
    var k := |A|;
    ghost var tail: seq<Node> := [];
    skip := false;
    ScanStart(D, A, x);
    while k > 0
      invariant 0 <= k <= |A| && !skip
      invariant g.Valid() && g.nodes == old(g.nodes) && g.info == old(g.info) && g.depth == old(g.depth)
      invariant ScanState(D, E0, A, x, t, k, cur, tail, g.EdgeSet())
      invariant WeightsWithin(g.weight, W0)
    {
      ghost var W1 := g.weight;
      cur, tail, skip := ScanOne(g, D, E0, A, x, t, k, cur, tail);
      WithinTrans(g.weight, W1, W0);
      if skip {
        break;
      }
      k := k - 1;
    }
    if !skip {
      assert A[..0] == [];
    }
  }

  /**
   * One turn of the scan at `other = attached[k - 1]`: a descendant of `x` stops the scan, an
   * ancestor of `x` is removed with its edge into `t`, any other cluster is kept.
   */
  method ScanOne(g: Digraph, ghost D: set<Edge>, ghost E0: set<Edge>, A: seq<Node>, x: Node, t: Name,
                 k: nat, cur: seq<Node>, ghost tail: seq<Node>)
      returns (cur': seq<Node>, ghost tail': seq<Node>, stop: bool)
    requires g.Valid() && x.Internal? && 0 < k
    requires ClusterGraph(D) && D <= E0 && IntoTerminals(E0 - D) && TEdges(A, t) <= E0
    requires ScanState(D, E0, A, x, t, k, cur, tail, g.EdgeSet())
    modifies g
    ensures g.Valid() && g.nodes == old(g.nodes) && g.info == old(g.info) && g.depth == old(g.depth)
    ensures WeightsWithin(g.weight, old(g.weight))
    ensures stop ==> Scan(D, A, x) == (cur, true) && cur' == cur && g.EdgeSet() == old(g.EdgeSet())
    ensures !stop ==> ScanState(D, E0, A, x, t, k - 1, cur', tail', g.EdgeSet())
  {
    var other := A[k - 1];
    LoopPaths(D, E0, A, cur, t, x, other);
    cur', tail', stop := cur, tail, false;
    if g.HasPath(x, other) {
      // `other` is a descendant of `x`: skip
      ScanStop(D, A, x, k, cur, tail);
      stop := true;
    } else if g.HasPath(other, x) {
      // `x` is a descendant of `other`: remove `other`
      ScanDrop(D, A, x, k, cur, tail);
      cur' := DropAttached(g, E0, A, cur, other, t);
    } else {
      ScanPass(D, A, x, k, cur, tail);
      tail' := [other] + tail;
    }
  }

  /** `Scanning`, with `E` the edge set the scan has left so far. */
  ghost predicate ScanState(D: set<Edge>, E0: set<Edge>, A: seq<Node>, x: Node, t: Name,
                            k: nat, cur: seq<Node>, tail: seq<Node>, E: set<Edge>) {
    Scanning(D, A, x, k, cur, tail) && E == E0 - TEdges(A, t) + TEdges(cur, t)
  }

  /** The state of the scan after the clusters from index `k` on: `tail` is what it kept of them. */
  ghost predicate Scanning(D: set<Edge>, A: seq<Node>, x: Node, k: nat, cur: seq<Node>, tail: seq<Node>) {
    k <= |A| && cur == A[..k] + tail && NoDup(cur) && Elems(cur) <= Elems(A)
    && Scan(D, A, x) == (Scan(D, A[..k], x).0 + tail, Scan(D, A[..k], x).1)
  }

  lemma ScanStart(D: set<Edge>, A: seq<Node>, x: Node)
    requires NoDup(A)
    ensures Scanning(D, A, x, |A|, A, [])
  {
    assert A[..|A|] == A;
    assert Scan(D, A, x).0 + [] == Scan(D, A, x).0;
  }

  lemma ScanStop(D: set<Edge>, A: seq<Node>, x: Node, k: nat, cur: seq<Node>, tail: seq<Node>)
    requires 0 < k && Scanning(D, A, x, k, cur, tail) && A[k - 1] in Reach(D, {x})
    ensures Scan(D, A, x) == (cur, true)
  {
    ScanUnfold(D, A, k, x);
  }

  lemma ScanDrop(D: set<Edge>, A: seq<Node>, x: Node, k: nat, cur: seq<Node>, tail: seq<Node>)
    requires 0 < k && Scanning(D, A, x, k, cur, tail)
    requires A[k - 1] !in Reach(D, {x}) && x in Reach(D, {A[k - 1]})
    ensures A[k - 1] in cur && Scanning(D, A, x, k - 1, RemoveFirst(cur, A[k - 1]), tail)
  {
    ScanUnfold(D, A, k, x);
    DropStep(A, k, tail, cur);
  }

  lemma ScanPass(D: set<Edge>, A: seq<Node>, x: Node, k: nat, cur: seq<Node>, tail: seq<Node>)
    requires 0 < k && Scanning(D, A, x, k, cur, tail)
    requires A[k - 1] !in Reach(D, {x}) && x !in Reach(D, {A[k - 1]})
    ensures Scanning(D, A, x, k - 1, cur, [A[k - 1]] + tail)
  {
    ScanUnfold(D, A, k, x);
    var o := A[k - 1];
    var rest := Scan(D, A[..k - 1], x);
    assert Scan(D, A[..k], x) == (rest.0 + [o], rest.1);
    assert A[..k] == A[..k - 1] + [o];
    PassAssoc(rest.0, o, tail);
    PassAssoc(A[..k - 1], o, tail);
    assert Scan(D, A, x) == (rest.0 + ([o] + tail), rest.1);
    assert cur == A[..k - 1] + ([o] + tail);
  }

  lemma PassAssoc<T>(a: seq<T>, o: T, b: seq<T>)
    ensures (a + [o]) + b == a + ([o] + b)
  {
  }

  lemma DropStep(A: seq<Node>, k: nat, tail: seq<Node>, cur: seq<Node>)
    requires 0 < k <= |A| && cur == A[..k] + tail && NoDup(cur)
    ensures RemoveFirst(cur, A[k - 1]) == A[..k - 1] + tail
    ensures A[k - 1] in cur
  {
    assert cur[k - 1] == A[k - 1];
    RemoveFirstAt(cur, k - 1);
    assert cur[..k - 1] == A[..k - 1];
    assert cur[k..] == tail;
  }

  /** The unfolding of `Scan` at the `k`-th listed cluster. */
  lemma ScanUnfold(D: set<Edge>, A: seq<Node>, k: nat, x: Node)
    requires 0 < k <= |A|
    ensures var o := A[k - 1];
      var rest := Scan(D, A[..k - 1], x);
      Scan(D, A[..k], x) ==
        if o in Reach(D, {x}) then (A[..k], true)
        else if x in Reach(D, {o}) then rest
        else (rest.0 + [o], rest.1)
  {
    assert A[..k][..k - 1] == A[..k - 1];
  }

  lemma KeepsTerminalEdges(D: set<Edge>, E0: set<Edge>, A: seq<Node>, cur: seq<Node>, t: Name)
    requires ClusterGraph(D) && D <= E0 && IntoTerminals(E0 - D)
    requires TEdges(A, t) <= E0 && Elems(cur) <= Elems(A)
    ensures D <= E0 - TEdges(A, t) + TEdges(cur, t)
    ensures IntoTerminals(E0 - TEdges(A, t) + TEdges(cur, t) - D)
    ensures TEdges(cur, t) <= E0 - TEdges(A, t) + TEdges(cur, t)
  {
    forall e | e in TEdges(cur, t) ensures e in TEdges(A, t) {
      assert e.0 in Elems(cur);
    }
  }

  /** Every weight of `W` is the weight `W0` gives the same edge. */
  ghost predicate WeightsWithin(W: map<Edge, real>, W0: map<Edge, real>) {
    forall e :: e in W ==> e in W0 && W[e] == W0[e]
  }

  lemma WithinTrans(W2: map<Edge, real>, W1: map<Edge, real>, W0: map<Edge, real>)
    requires WeightsWithin(W2, W1) && WeightsWithin(W1, W0)
    ensures WeightsWithin(W2, W0)
  {
  }

  /** `attached.remove(other)` and `G.remove_edge(other, ter)`. */
  method DropAttached(g: Digraph, ghost E0: set<Edge>, ghost A: seq<Node>, cur: seq<Node>, other: Node, t: Name)
      returns (r: seq<Node>)
    requires g.Valid() && NoDup(cur) && other in cur && Elems(cur) <= Elems(A)
    requires g.EdgeSet() == E0 - TEdges(A, t) + TEdges(cur, t)
    modifies g
    ensures g.Valid()
    ensures r == RemoveFirst(cur, other) && NoDup(r) && Elems(r) <= Elems(A)
    ensures g.EdgeSet() == E0 - TEdges(A, t) + TEdges(r, t)
    ensures g.nodes == old(g.nodes) && g.info == old(g.info) && g.depth == old(g.depth)
    ensures WeightsWithin(g.weight, old(g.weight))
  {
    assert (other, Terminal(t)) in TEdges(cur, t);
    r := RemoveFirst(cur, other);
    g.RemoveEdge(other, Terminal(t));
    assert TEdges(r, t) == TEdges(cur, t) - {(other, Terminal(t))};
    forall e | e in TEdges(cur, t) ensures e in TEdges(A, t) {
      assert e.0 in Elems(cur);
    }
  }

  /** During the scan, paths between `x` and a listed cluster are paths between clusters. */
  lemma LoopPaths(D: set<Edge>, E0: set<Edge>, A: seq<Node>, cur: seq<Node>, t: Name, x: Node, o: Node)
    requires ClusterGraph(D) && D <= E0 && IntoTerminals(E0 - D) && x.Internal?
    requires TEdges(A, t) <= E0 && Elems(cur) <= Elems(A) && o in A
    ensures var E := E0 - TEdges(A, t) + TEdges(cur, t);
      (o in Reach(E, {x}) <==> o in Reach(D, {x})) && (x in Reach(E, {o}) <==> x in Reach(D, {o}))
  {
    assert (o, Terminal(t)) in TEdges(A, t);
    assert forall y :: y in A ==> (y, Terminal(t)) in E0 - D;
    KeepsTerminalEdges(D, E0, A, cur, t);
    var E := E0 - TEdges(A, t) + TEdges(cur, t);
    assert D + (E - D) == E;
    ClusterPaths(D, E - D, x, o);
    ClusterPaths(D, E - D, o, x);
  }
}

/**
 * The last step of `_build`: for every node with several parents, rank its in-edges and set
 * aside all but the best one as "secondary" edges, which `pick` may later drop. A cluster ranks
 * its parents by the Jaccard index of the two clusters, a terminal by the parent's distance
 * from the top node; the deepest parent of a terminal is kept.
 *
 * Python's `sorted(..., reverse=True)` and `list.sort(..., reverse=True)` are stable: equal
 * keys keep their order. `SortDesc` is that sort, specified by being ordered, a permutation and
 * stable.
 */
module Secondary {
  import opened Wrappers
  import opened Seqs
  import opened Graph
  import opened Containment
  import opened Assignments
  import opened Digraphs

  /** An edge with its ranking key: a Jaccard score, or a distance stored as a real. */
  type Ranked = (Edge, real)

  // Stable sort by descending key.

  predicate SortedDesc(s: seq<Ranked>) {
    forall i, j :: 0 <= i < j < |s| ==> s[i].1 >= s[j].1
  }

  /** Inserts `x` after every element whose key is at least `x`'s. */
  function InsertDesc(x: Ranked, s: seq<Ranked>): (r: seq<Ranked>)
    ensures multiset(r) == multiset(s) + multiset{x} && |r| == |s| + 1
  {
    if s == [] || s[0].1 < x.1 then [x] + s
    else
      assert s == [s[0]] + s[1..];
      [s[0]] + InsertDesc(x, s[1..])
  }

  lemma {:induction false} InsertSorted(x: Ranked, s: seq<Ranked>)
    requires SortedDesc(s)
    ensures SortedDesc(InsertDesc(x, s))
  {
    if s == [] || s[0].1 < x.1 {
      assert forall j :: 0 <= j < |s| ==> s[j].1 <= s[0].1;
    } else {
      var rest := InsertDesc(x, s[1..]);
      InsertSorted(x, s[1..]);
      InsertBelow(x, s[1..], s[0].1);
      var r := [s[0]] + rest;
      forall i, j | 0 <= i < j < |r| ensures r[i].1 >= r[j].1 {
        if i == 0 {
          assert r[j] == rest[j - 1];
          assert r[j] in rest;
        } else {
          assert r[i] == rest[i - 1] && r[j] == rest[j - 1];
        }
      }
    }
  }

  /** Inserting adds no key above a bound that `x` and `s` keep. */
  lemma InsertBelow(x: Ranked, s: seq<Ranked>, b: real)
    requires x.1 <= b && forall j :: 0 <= j < |s| ==> s[j].1 <= b
    ensures forall y :: y in InsertDesc(x, s) ==> y.1 <= b
  {
    forall y | y in InsertDesc(x, s) ensures y.1 <= b {
      assert y in multiset(InsertDesc(x, s));
    }
  }

  /** `sorted(s, key=lambda x: x[1], reverse=True)`. */
  function SortDesc(s: seq<Ranked>): (r: seq<Ranked>)
    ensures multiset(r) == multiset(s) && |r| == |s|
    ensures SortedDesc(r)
  {
    if s == [] then []
    else
      assert s == s[..|s| - 1] + [s[|s| - 1]];
      var init := SortDesc(s[..|s| - 1]);
      InsertSorted(s[|s| - 1], init);
      InsertDesc(s[|s| - 1], init)
  }

  function HasKey(k: real): Ranked -> bool {
    (x: Ranked) => x.1 == k
  }

  /** Inserting into an ordered sequence puts `x` after the elements with its key. */
  lemma {:induction false} InsertStable(x: Ranked, s: seq<Ranked>, k: real)
    requires SortedDesc(s)
    ensures Filter(InsertDesc(x, s), HasKey(k)) == Filter(s, HasKey(k)) + (if x.1 == k then [x] else [])
  {
    if s == [] {
    } else if s[0].1 < x.1 {
      assert ([x] + s)[1..] == s;
      if x.1 == k {
        assert forall j :: 0 <= j < |s| ==> s[j].1 <= s[0].1;
        FilterNone(s, HasKey(k));
      }
    } else {
      var rest := InsertDesc(x, s[1..]);
      InsertStable(x, s[1..], k);
      assert ([s[0]] + rest)[1..] == rest;
    }
  }

  /** The sort is stable: the elements with any one key keep their relative order. */
  lemma {:induction false} SortStable(s: seq<Ranked>, k: real)
    ensures Filter(SortDesc(s), HasKey(k)) == Filter(s, HasKey(k))
  {
    if s != [] {
      var init, x := s[..|s| - 1], s[|s| - 1];
      SortStable(init, k);
      InsertStable(x, SortDesc(init), k);
      FilterLast(s, HasKey(k));
    }
  }

  /**
   * The first element of the sorted sequence is the earliest element of `s` with the largest
   * key: `ranked_edges[0]` is the best parent, the first listed among equally good ones.
   */
  lemma SortHead(s: seq<Ranked>) returns (i: nat)
    requires s != []
    ensures i < |s| && SortDesc(s)[0] == s[i]
    ensures forall x :: x in s ==> x.1 <= s[i].1
    ensures forall j :: 0 <= j < i ==> s[j].1 < s[i].1
  {
    var r := SortDesc(s);
    var m := r[0].1;
    assert r[0] in multiset(s);
    forall x | x in s ensures x.1 <= m {
      assert x in multiset(r);
      var j :| 0 <= j < |r| && r[j] == x;
    }
    assert r == [r[0]] + r[1..];
    assert Filter(r, HasKey(m))[0] == r[0];
    SortStable(s, m);
    i := FilterHead(s, HasKey(m));
  }

  // The scores.

  /**
   * The score of parent `p` for cluster `v`, with `w` the weight of the edge `p → v`:
   * `usize = w·|v|`, `j = usize / (|v| + |p| - usize)`.
   */
  function Jaccard(w: real, nsize: nat, psize: nat): Result<real> {
    var usize := w * nsize as real;
    var d := nsize as real + psize as real - usize;
    if d == 0.0 then Err(ZeroDivision) else Ok(usize / d)
  }

  /**
   * When the weight is the containment index of the child row `a` in the parent row `b`, the
   * score is their Jaccard index |a ∩ b| / |a ∪ b|, so it is always defined.
   */
  lemma JaccardIsIndex(a: seq<bool>, b: seq<bool>)
    requires |a| == |b| && Count(a) > 0
    ensures Count(UnionRow(a, b)) > 0 && Overlap(a, b) <= Count(UnionRow(a, b))
    ensures Jaccard(CIndex(a, b).value, Count(a), Count(b))
      == Ok(Ratio(Overlap(a, b), Count(UnionRow(a, b))))
  {
    var o, c, m, u := Overlap(a, b), Count(a), Count(b), Count(UnionRow(a, b));
    assert u == c + m - o by { UnionCount(a, b); }
    JaccardOf(CIndex(a, b).value, c, m, o, u);
    RatioIs(o, u);
  }

  lemma RatioIs(o: nat, u: nat)
    requires 0 < u && o <= u
    ensures Ratio(o, u) == o as real / u as real
  {
  }

  lemma JaccardOf(w: real, n: nat, m: nat, o: nat, u: nat)
    requires 0 < n && o <= n && o <= m && u == n + m - o && w == o as real / n as real
    ensures Jaccard(w, n, m) == Ok(o as real / u as real)
  {
    DivMulNamed(o as real, n as real, w);
    var usize := w * n as real;
    var d := n as real + m as real - usize;
    assert usize == o as real && d == u as real;
    JaccardDefined(w, n, m, usize, d);
  }

  /** The score is defined exactly when the denominator `|v| + |p| - usize` is not zero. */
  lemma JaccardDefined(w: real, nsize: nat, psize: nat, usize: real, d: real)
    requires usize == w * nsize as real && d == nsize as real + psize as real - usize
    ensures Jaccard(w, nsize, psize) == if d == 0.0 then Err(ZeroDivision) else Ok(usize / d)
  {
  }

  /** What the loop reads: the assignment, `G`'s edges and weights, and the top node. */
  datatype Snapshot = Snapshot(a: Assignment, es: seq<Edge>, W: map<Edge, real>, root: Node)

  /** `node_size` can read the row of `x`. */
  predicate InRows(a: Assignment, x: Node) {
    x.Internal? ==> -|a.rows| <= x.idx < |a.rows|
  }

  predicate Sound(s: Snapshot) {
    WellFormed(s.a) && NoDup(s.es)
    && forall e :: e in s.es ==> e in s.W && InRows(s.a, e.0) && InRows(s.a, e.1)
  }

  /** The key of the in-edge `p → v`: the Jaccard score for a cluster, the depth of `p` for a terminal. */
  function Key(s: Snapshot, v: Node, p: Node): Result<real>
    requires Sound(s) && (p, v) in s.es
  {
    if v.Internal? then Jaccard(s.W[(p, v)], NodeSize(s.a, v), NodeSize(s.a, p))
    else match ShortestPathLength(Elems(s.es), s.root, p)
      case None => Err(NoPath)
      case Some(d) => Ok(d as real)
  }

  /**
   * A terminal's key is defined exactly when its parent lies below the top node, and is then
   * the parent's distance from it, a whole number.
   */
  lemma TerminalKey(s: Snapshot, v: Node, p: Node)
    requires Sound(s) && (p, v) in s.es && v.Terminal?
    ensures Key(s, v, p).Ok? <==> p in Reach(Elems(s.es), {s.root})
    ensures Key(s, v, p).Ok? ==> (Key(s, v, p).value == Key(s, v, p).value.Floor as real
      && Key(s, v, p).value >= 0.0 && IsDistance(Elems(s.es), s.root, p, Key(s, v, p).value.Floor))
  {
  }

  /** The list of ranked in-edges, in parent order; the first failing key raises. */
  function Ranking(s: Snapshot, v: Node, ps: seq<Node>): (r: Result<seq<Ranked>>)
    requires Sound(s) && forall p :: p in ps ==> (p, v) in s.es
    ensures r.Ok? ==> |r.value| == |ps|
  {
    if ps == [] then Ok([])
    else match Ranking(s, v, ps[..|ps| - 1])
      case Err(e) => Err(e)
      case Ok(rs) =>
        match Key(s, v, ps[|ps| - 1])
          case Err(e) => Err(e)
          case Ok(k) => Ok(rs + [((ps[|ps| - 1], v), k)])
  }

  /** The ranking fails exactly when one key does, and otherwise pairs each parent with its key. */
  lemma RankingShape(s: Snapshot, v: Node, ps: seq<Node>)
    requires Sound(s) && forall p :: p in ps ==> (p, v) in s.es
    ensures Ranking(s, v, ps).Ok? <==> forall p :: p in ps ==> Key(s, v, p).Ok?
    ensures Ranking(s, v, ps).Ok? ==>
      forall i :: 0 <= i < |ps| ==> Ranking(s, v, ps).value[i] == ((ps[i], v), Key(s, v, ps[i]).value)
  {
    RankingOk(s, v, ps);
    RankingPairs(s, v, ps);
  }

  lemma {:induction false} RankingOk(s: Snapshot, v: Node, ps: seq<Node>)
    requires Sound(s) && forall p :: p in ps ==> (p, v) in s.es
    ensures Ranking(s, v, ps).Ok? <==> forall p :: p in ps ==> Key(s, v, p).Ok?
  {
    if ps != [] {
      var init := ps[..|ps| - 1];
      RankingOk(s, v, init);
      assert ps == init + [ps[|ps| - 1]];
    }
  }

  lemma {:induction false} RankingPairs(s: Snapshot, v: Node, ps: seq<Node>)
    requires Sound(s) && forall p :: p in ps ==> (p, v) in s.es
    ensures Ranking(s, v, ps).Ok? ==> forall i :: 0 <= i < |ps| ==>
      Key(s, v, ps[i]).Ok? && Ranking(s, v, ps).value[i] == ((ps[i], v), Key(s, v, ps[i]).value)
  {
    if ps != [] && Ranking(s, v, ps).Ok? {
      var init := ps[..|ps| - 1];
      RankingPairs(s, v, init);
      var rs := Ranking(s, v, init).value;
      assert Ranking(s, v, ps).value == rs + [((ps[|ps| - 1], v), Key(s, v, ps[|ps| - 1]).value)];
      forall i | 0 <= i < |ps|
        ensures Key(s, v, ps[i]).Ok? && Ranking(s, v, ps).value[i] == ((ps[i], v), Key(s, v, ps[i]).value)
      {
        if i < |ps| - 1 {
          assert ps[i] == init[i];
        }
      }
    }
  }

  /** The in-edges of `v` set aside: every one but the best, for a node with several parents. */
  function Demoted(s: Snapshot, v: Node): Result<seq<Ranked>>
    requires Sound(s)
  {
    var ps := PredecessorsIn(s.es, v);
    if |ps| <= 1 then Ok([])
    else match Ranking(s, v, ps)
      case Err(e) => Err(e)
      case Ok(rs) => Ok(SortDesc(rs)[1..])
  }

  /**
   * For a node with several parents, exactly one in-edge is kept: from the parent whose key is
   * largest, the first in parent order among equals. Every other in-edge is set aside with its key.
   */
  lemma DemotedInto(s: Snapshot, v: Node) returns (best: nat)
    requires Sound(s) && |PredecessorsIn(s.es, v)| > 1 && Demoted(s, v).Ok?
    ensures forall p :: p in PredecessorsIn(s.es, v) ==> Key(s, v, p).Ok?
    ensures best < |PredecessorsIn(s.es, v)|
    ensures forall p :: p in PredecessorsIn(s.es, v) ==>
      Key(s, v, p).value <= Key(s, v, PredecessorsIn(s.es, v)[best]).value
    ensures forall j :: 0 <= j < best ==>
      Key(s, v, PredecessorsIn(s.es, v)[j]).value < Key(s, v, PredecessorsIn(s.es, v)[best]).value
    ensures forall r :: r in Demoted(s, v).value <==>
      r.0.1 == v && r.0.0 in PredecessorsIn(s.es, v) && r.0.0 != PredecessorsIn(s.es, v)[best]
      && r.1 == Key(s, v, r.0.0).value
  {
    var ps := PredecessorsIn(s.es, v);
    RankingShape(s, v, ps);
    var rs := Ranking(s, v, ps).value;
    best := SortHead(rs);
    BestKey(s, v, ps, rs, best);
    RankedDistinct(s, v, ps, rs);
    TailOfSorted(rs, best);
    DemotedMembers(s, v, ps, rs, best, SortDesc(rs)[1..]);
  }

  /** The head of the sort has the largest key, and no earlier parent has that key. */
  lemma BestKey(s: Snapshot, v: Node, ps: seq<Node>, rs: seq<Ranked>, best: nat)
    requires Sound(s) && forall p :: p in ps ==> (p, v) in s.es && Key(s, v, p).Ok?
    requires |rs| == |ps| && best < |ps|
    requires forall i :: 0 <= i < |ps| ==> rs[i] == ((ps[i], v), Key(s, v, ps[i]).value)
    requires forall x :: x in rs ==> x.1 <= rs[best].1
    requires forall j :: 0 <= j < best ==> rs[j].1 < rs[best].1
    ensures forall p :: p in ps ==> Key(s, v, p).value <= Key(s, v, ps[best]).value
    ensures forall j :: 0 <= j < best ==> Key(s, v, ps[j]).value < Key(s, v, ps[best]).value
  {
    forall p | p in ps ensures Key(s, v, p).value <= Key(s, v, ps[best]).value {
      var i :| 0 <= i < |ps| && ps[i] == p;
      assert rs[i] in rs;
    }
  }

  /** Whatever holds the ranked in-edges but the best one holds those from the other parents. */
  lemma DemotedMembers(s: Snapshot, v: Node, ps: seq<Node>, rs: seq<Ranked>, best: nat, tail: seq<Ranked>)
    requires Sound(s) && NoDup(ps) && forall p :: p in ps ==> (p, v) in s.es && Key(s, v, p).Ok?
    requires |rs| == |ps| && best < |ps|
    requires forall i :: 0 <= i < |ps| ==> rs[i] == ((ps[i], v), Key(s, v, ps[i]).value)
    requires forall r :: r in tail <==> r in rs && r != rs[best]
    ensures forall r :: r in tail <==>
      r.0.1 == v && r.0.0 in ps && r.0.0 != ps[best] && r.1 == Key(s, v, r.0.0).value
  {
    forall r | r in rs && r != rs[best]
      ensures r.0.1 == v && r.0.0 in ps && r.0.0 != ps[best] && r.1 == Key(s, v, r.0.0).value
    {
      var i :| 0 <= i < |rs| && rs[i] == r;
    }
    forall r: Ranked | r.0.1 == v && r.0.0 in ps && r.0.0 != ps[best] && r.1 == Key(s, v, r.0.0).value
      ensures r in rs && r != rs[best]
    {
      var i :| 0 <= i < |ps| && ps[i] == r.0.0;
      assert rs[i] == r;
    }
  }

  /** Distinct parents give distinct ranked edges. */
  lemma RankedDistinct(s: Snapshot, v: Node, ps: seq<Node>, rs: seq<Ranked>)
    requires NoDup(ps) && |rs| == |ps| && forall i :: 0 <= i < |ps| ==> rs[i].0.0 == ps[i]
    ensures NoDup(rs)
  {
  }

  /** Without repeats, the sorted sequence minus its head is the input minus that element. */
  lemma TailOfSorted(rs: seq<Ranked>, best: nat)
    requires best < |rs| && NoDup(rs) && SortDesc(rs)[0] == rs[best]
    ensures forall r :: r in SortDesc(rs)[1..] <==> r in rs && r != rs[best]
  {
    var sorted := SortDesc(rs);
    assert sorted == [sorted[0]] + sorted[1..];
    assert multiset(sorted) == multiset{sorted[0]} + multiset(sorted[1..]);
    NoDupOnce(rs, rs[best]);
    forall r ensures r in sorted[1..] <==> r in rs && r != rs[best] {
      if r in sorted[1..] {
        assert r in multiset(rs);
      }
      if r in rs && r != rs[best] {
        assert r in multiset(sorted);
      }
    }
  }

  lemma {:induction false} NoDupOnce(s: seq<Ranked>, x: Ranked)
    requires NoDup(s)
    ensures multiset(s)[x] <= 1
  {
    if s != [] {
      NoDupTail(s);
      NoDupOnce(s[1..], x);
      assert s == [s[0]] + s[1..];
    }
  }

  /** The two lists the node loop builds, before their final sort. */
  function Collect(s: Snapshot, ns: seq<Node>): Result<(seq<Ranked>, seq<Ranked>)>
    requires Sound(s)
  {
    if ns == [] then Ok(([], []))
    else match Collect(s, ns[..|ns| - 1])
      case Err(e) => Err(e)
      case Ok(acc) =>
        var v := ns[|ns| - 1];
        match Demoted(s, v)
          case Err(e) => Err(e)
          case Ok(more) => if v.Internal? then Ok((acc.0 + more, acc.1)) else Ok((acc.0, acc.1 + more))
  }

  /** `_secondary_edges` and `_secondary_terminal_edges`: the collected lists, sorted by key. */
  function SecondaryEdges(s: Snapshot, ns: seq<Node>): Result<(seq<Ranked>, seq<Ranked>)>
    requires Sound(s)
  {
    match Collect(s, ns)
      case Err(e) => Err(e)
      case Ok(acc) => Ok((SortDesc(acc.0), SortDesc(acc.1)))
  }

  /** Every element that `Demoted` sets aside is an in-edge of its node. */
  lemma DemotedTarget(s: Snapshot, v: Node, r: Ranked)
    requires Sound(s) && Demoted(s, v).Ok? && r in Demoted(s, v).value
    ensures r.0.1 == v
  {
    var best := DemotedInto(s, v);
  }

  /**
   * The loop fails exactly when some node's ranking does; otherwise the cluster list holds the
   * set-aside in-edges of the clusters and the terminal list those of the terminals.
   */
  lemma {:induction false} CollectMembers(s: Snapshot, ns: seq<Node>)
    requires Sound(s)
    ensures Collect(s, ns).Ok? <==> forall v :: v in ns ==> Demoted(s, v).Ok?
    ensures Collect(s, ns).Ok? ==> forall r ::
      (r in Collect(s, ns).value.0 <==>
        r.0.1 in ns && r.0.1.Internal? && r in Demoted(s, r.0.1).value)
      && (r in Collect(s, ns).value.1 <==>
        r.0.1 in ns && r.0.1.Terminal? && r in Demoted(s, r.0.1).value)
  {
    if ns != [] {
      var init, v := ns[..|ns| - 1], ns[|ns| - 1];
      CollectMembers(s, init);
      assert ns == init + [v];
      if Collect(s, ns).Ok? {
        forall r | r in Demoted(s, v).value ensures r.0.1 == v {
          DemotedTarget(s, v, r);
        }
      }
    }
  }

  /** A failure at a prefix of the nodes is the failure of the whole loop. */
  lemma {:induction false} CollectErr(s: Snapshot, ns: seq<Node>, k: nat)
    requires Sound(s) && k <= |ns| && Collect(s, ns[..k]).Err?
    ensures Collect(s, ns) == Collect(s, ns[..k])
    decreases |ns| - k
  {
    if k < |ns| {
      assert ns[..k + 1][..k] == ns[..k];
      CollectErr(s, ns, k + 1);
    } else {
      assert ns[..k] == ns;
    }
  }

  /** A failure at a prefix of the parents is the failure of the whole ranking. */
  lemma {:induction false} RankingErr(s: Snapshot, v: Node, ps: seq<Node>, k: nat)
    requires Sound(s) && forall p :: p in ps ==> (p, v) in s.es
    requires k <= |ps| && Ranking(s, v, ps[..k]).Err?
    ensures Ranking(s, v, ps) == Ranking(s, v, ps[..k])
    decreases |ps| - k
  {
    if k < |ps| {
      assert ps[..k + 1][..k] == ps[..k];
      RankingErr(s, v, ps, k + 1);
    } else {
      assert ps[..k] == ps;
    }
  }

  // The ranking errors on the full graph.

  /**
   * Every in-edge of a cluster with several parents joins two clusters and weighs the
   * containment index of the child's row in the parent's row.
   */
  ghost predicate IndexWeighted(s: Snapshot)
    requires Sound(s)
  {
    forall e :: e in s.es && e.1.Internal? && |PredecessorsIn(s.es, e.1)| > 1 ==>
      ClusterEdge(s.a, e) && CIndex(s.a.rows[e.1.idx], s.a.rows[e.0.idx]) == Some(s.W[e])
  }

  /**
   * On such a graph, a cluster ranks each of its parents by the Jaccard index of the two rows,
   * |v ∩ p| / |v ∪ p|, which is always defined.
   */
  lemma ClusterKey(s: Snapshot, v: Node, p: Node)
    requires Sound(s) && IndexWeighted(s) && (p, v) in s.es && v.Internal? && |PredecessorsIn(s.es, v)| > 1
    ensures ClusterEdge(s.a, (p, v))
    ensures Count(UnionRow(s.a.rows[v.idx], s.a.rows[p.idx])) > 0
    ensures Overlap(s.a.rows[v.idx], s.a.rows[p.idx]) <= Count(UnionRow(s.a.rows[v.idx], s.a.rows[p.idx]))
    ensures Key(s, v, p) == Ok(Ratio(Overlap(s.a.rows[v.idx], s.a.rows[p.idx]),
                                     Count(UnionRow(s.a.rows[v.idx], s.a.rows[p.idx]))))
  {
    var e := (p, v);
    assert ClusterEdge(s.a, e) && CIndex(s.a.rows[v.idx], s.a.rows[p.idx]) == Some(s.W[e]);
    JaccardIsIndex(s.a.rows[v.idx], s.a.rows[p.idx]);
  }

  /** When no key of a parent fails but for want of a path, neither does the ranking. */
  lemma {:induction false} RankingNoPath(s: Snapshot, v: Node, ps: seq<Node>)
    requires Sound(s) && forall p :: p in ps ==> (p, v) in s.es
    requires forall p :: p in ps && Key(s, v, p).Err? ==> Key(s, v, p).error == NoPath
    ensures Ranking(s, v, ps).Err? ==> Ranking(s, v, ps).error == NoPath
  {
    if ps != [] {
      RankingNoPath(s, v, ps[..|ps| - 1]);
      assert ps[|ps| - 1] in ps;
    }
  }

  /**
   * On such a graph a cluster's in-edges are always ranked, and a terminal's ranking fails
   * only for a parent below no path from the top node.
   */
  lemma DemotedNoPath(s: Snapshot, v: Node)
    requires Sound(s) && IndexWeighted(s)
    ensures v.Internal? ==> Demoted(s, v).Ok?
    ensures Demoted(s, v).Err? ==> Demoted(s, v).error == NoPath
  {
    var ps := PredecessorsIn(s.es, v);
    if |ps| > 1 {
      forall p | p in ps
        ensures (Key(s, v, p).Err? ==> Key(s, v, p).error == NoPath) && (v.Internal? ==> Key(s, v, p).Ok?)
      {
        if v.Internal? {
          ClusterKey(s, v, p);
        }
      }
      RankingNoPath(s, v, ps);
      if v.Internal? {
        RankingOk(s, v, ps);
      }
    }
  }

  /** The node loop over such a graph can only fail for want of a path. */
  lemma {:induction false} CollectNoPath(s: Snapshot, ns: seq<Node>)
    requires Sound(s) && IndexWeighted(s)
    ensures Collect(s, ns).Err? ==> Collect(s, ns).error == NoPath
  {
    if ns != [] {
      CollectNoPath(s, ns[..|ns| - 1]);
      DemotedNoPath(s, ns[|ns| - 1]);
    }
  }

  /**
   * Ranking the secondary edges of such a graph never divides by zero: the only error left is
   * a terminal's parent that the top node does not reach.
   */
  lemma SecondaryNoPath(s: Snapshot, ns: seq<Node>)
    requires Sound(s) && IndexWeighted(s)
    ensures SecondaryEdges(s, ns).Err? ==> SecondaryEdges(s, ns).error == NoPath
  {
    CollectNoPath(s, ns);
  }

  /**
   * `_build`, lines 394-431: for each node with several parents, ranks its in-edges and keeps all
   * but the first as secondary edges; then sorts both lists by key.
   */
  method FindSecondary(g: Digraph, a: Assignment, root: Node) returns (r: Result<(seq<Ranked>, seq<Ranked>)>)
    requires g.Valid() && WellFormed(a) && forall x :: x in g.nodes ==> InRows(a, x)
    ensures Sound(Snapshot(a, g.edges, g.weight, root))
    ensures r == SecondaryEdges(Snapshot(a, g.edges, g.weight, root), g.nodes)
  {
    var s := Snapshot(a, g.edges, g.weight, root);
    var nodes := g.nodes;
    var cs: seq<Ranked>, ts: seq<Ranked> := [], [];
    for k := 0 to |nodes|
      invariant Collect(s, nodes[..k]) == Ok((cs, ts))
    {
      var v := nodes[k];
      assert nodes[..k + 1][..k] == nodes[..k];
      var parents := g.Predecessors(v);
      if |parents| > 1 {
        var ranked := RankParents(s, v, parents);
        if ranked.Err? {
          CollectErr(s, nodes, k + 1);
          assert nodes[..|nodes|] == nodes;
          return Err(ranked.error);
        }
        var edges := SortDesc(ranked.value);
        assert Demoted(s, v) == Ok(edges[1..]);
        if v.Internal? {
          cs := cs + edges[1..];
        } else {
          ts := ts + edges[1..];
        }
      } else {
        assert Demoted(s, v) == Ok([]);
        assert cs + [] == cs && ts + [] == ts;
      }
    }
    assert nodes[..|nodes|] == nodes;
    r := Ok((SortDesc(cs), SortDesc(ts)));
  }

  /** The loop over the parents of one node that computes their keys. */
  method RankParents(s: Snapshot, v: Node, ps: seq<Node>) returns (r: Result<seq<Ranked>>)
    requires Sound(s) && forall p :: p in ps ==> (p, v) in s.es
    ensures r == Ranking(s, v, ps)
  {
    var rs: seq<Ranked> := [];
    for i := 0 to |ps|
      invariant Ranking(s, v, ps[..i]) == Ok(rs)
    {
      var p := ps[i];
      var key := ParentKey(s, v, p);
      RankingStep(s, v, ps, i);
      if key.Err? {
        RankingErr(s, v, ps, i + 1);
        assert ps[..|ps|] == ps;
        return Err(key.error);
      }
      rs := rs + [((p, v), key.value)];
    }
    assert ps[..|ps|] == ps;
    r := Ok(rs);
  }

  /** The ranking of one more parent extends the ranking so far, or fails with that parent's key. */
  lemma RankingStep(s: Snapshot, v: Node, ps: seq<Node>, i: nat)
    requires Sound(s) && forall p :: p in ps ==> (p, v) in s.es
    requires i < |ps| && Ranking(s, v, ps[..i]).Ok?
    ensures Key(s, v, ps[i]).Err? ==> Ranking(s, v, ps[..i + 1]) == Err(Key(s, v, ps[i]).error)
    ensures Key(s, v, ps[i]).Ok? ==>
      Ranking(s, v, ps[..i + 1]) == Ok(Ranking(s, v, ps[..i]).value + [((ps[i], v), Key(s, v, ps[i]).value)])
  {
    assert ps[..i + 1][..i] == ps[..i];
  }

  /** One iteration: the Jaccard score of a cluster's parent, or the depth of a terminal's. */
  method ParentKey(s: Snapshot, v: Node, p: Node) returns (r: Result<real>)
    requires Sound(s) && (p, v) in s.es
    ensures r == Key(s, v, p)
  {
    if v.Internal? {
      var nsize, psize := NodeSize(s.a, v), NodeSize(s.a, p);
      var w := s.W[(p, v)];
      var usize := w * nsize as real;
      var d := nsize as real + psize as real - usize;
      JaccardDefined(w, nsize, psize, usize, d);
      if d == 0.0 {
        return Err(ZeroDivision);
      }
      r := Ok(usize / d);
    } else {
      var steps := ShortestPathLength(Elems(s.es), s.root, p);
      if steps.None? {
        return Err(NoPath);
      }
      r := Ok(steps.value as real);
    }
  }
}

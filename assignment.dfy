/**
 * The expanded input of `_build`: one boolean membership row per cluster (`_assignment`),
 * with the cluster's level (`_levels`) and label (`_labels`), and the terminal names
 * (`terminals`). Cluster `i` becomes the graph node `(i, 0)`.
 */
module Assignments {
  import opened Wrappers
  import opened Containment
  import opened Graph
  import opened Digraphs

  datatype Assignment = Assignment(
    rows: seq<seq<bool>>,
    levels: seq<int>,
    labels: seq<int>,
    terminals: seq<Name>)

  /** One level and one label per row, and one column per terminal in every row. */
  predicate WellFormed(a: Assignment) {
    |a.levels| == |a.rows| && |a.labels| == |a.rows| && Rectangular(a.rows, |a.terminals|)
  }

  /** The graph node of cluster `i`. */
  function Cluster(i: int): Node {
    Internal(i, 0)
  }

  /** The attributes `_build` stores on the node of cluster `i`. */
  function InfoOf(a: Assignment, i: nat): NodeInfo
    requires WellFormed(a) && i < |a.rows|
  {
    NodeInfo(i, a.levels[i], a.labels[i])
  }

  /** A matrix of containment indices, read `CI[i][j]`. */
  type Matrix = seq<seq<Option<real>>>

  /**
   * What the pair loop of `_build` reads: the assignment, the matrix `CI` it computed from the
   * rows, whether levels are assumed, and the cutoff.
   */
  datatype Pairing = Pairing(a: Assignment, ci: Matrix, assumeLevels: bool, cutoff: real)

  /** The assignment is well formed and `ci` is square with one row per cluster. */
  predicate Ready(p: Pairing) {
    WellFormed(p.a) && |p.ci| == |p.a.rows| && forall i :: 0 <= i < |p.ci| ==> |p.ci[i]| == |p.a.rows|
  }

  /** `ci` is `containment_indices_boolean(L, L)` of the rows. */
  predicate Computed(p: Pairing)
    requires WellFormed(p.a)
  {
    p.ci == ContainmentIndices(p.a.rows, p.a.rows, |p.a.terminals|)
  }

  /** The pair `(i, j)` is enumerated: any two distinct clusters, or a strictly higher level. */
  predicate Allowed(p: Pairing, i: nat, j: nat)
    requires Ready(p) && i < |p.a.rows| && j < |p.a.rows|
  {
    if p.assumeLevels then p.a.levels[i] > p.a.levels[j] else i != j
  }

  /** CI[i, j]: how much of cluster `i` lies in cluster `j`; `None` for an empty row (NaN). */
  function CI(p: Pairing, i: nat, j: nat): Option<real>
    requires Ready(p) && i < |p.a.rows| && j < |p.a.rows|
  {
    p.ci[i][j]
  }

  /** The pair proposes the edge `(j, 0) → (i, 0)`: it is enumerated and CI[i, j] ≥ cutoff. */
  predicate Proposed(p: Pairing, i: nat, j: nat)
    requires Ready(p) && i < |p.a.rows| && j < |p.a.rows|
  {
    Allowed(p, i, j) && CI(p, i, j).Some? && CI(p, i, j).value >= p.cutoff
  }

  /**
   * The proposed edge `(j, 0) → (i, 0)` survives the opposite proposal: that one is absent,
   * has a strictly smaller index, or ties and was enumerated later (`i < j`).
   */
  predicate Kept(p: Pairing, i: nat, j: nat)
    requires Ready(p) && i < |p.a.rows| && j < |p.a.rows|
  {
    Proposed(p, i, j)
    && (!Proposed(p, j, i)
        || CI(p, i, j).value > CI(p, j, i).value
        || (CI(p, i, j).value == CI(p, j, i).value && i < j))
  }

  /** The candidate graph's edge set: `(j, 0) → (i, 0)` for every kept pair. */
  function CandidateEdges(p: Pairing): set<Edge>
    requires Ready(p)
  {
    set i, j | 0 <= i < |p.a.rows| && 0 <= j < |p.a.rows| && Kept(p, i, j) :: (Cluster(j), Cluster(i))
  }

  /**
   * A rank under which every candidate edge descends: minus the level when levels are assumed,
   * otherwise the row size with ties broken by the row index.
   */
  function PairRank(p: Pairing): Node -> int
    requires Ready(p)
  {
    (x: Node) =>
      if x.Internal? && 0 <= x.idx < |p.a.rows| then
        if p.assumeLevels then -p.a.levels[x.idx] else Count(p.a.rows[x.idx]) * |p.a.rows| + x.idx
      else 0
  }

  /**
   * A kept edge goes from a strictly higher level, or, without levels and with a positive
   * cutoff, from a strictly larger cluster or an equally large one with a larger index.
   */
  lemma KeptDescends(p: Pairing, i: nat, j: nat)
    requires Ready(p) && Computed(p) && (p.assumeLevels || p.cutoff > 0.0)
    requires i < |p.a.rows| && j < |p.a.rows| && Kept(p, i, j)
    ensures PairRank(p)(Cluster(j)) > PairRank(p)(Cluster(i))
  {
    if !p.assumeLevels {
      var ri, rj := p.a.rows[i], p.a.rows[j];
      assert CI(p, i, j) == CIndex(ri, rj) && CI(p, j, i) == CIndex(rj, ri);
      CIndexPositive(ri, rj);
      CIndexOrder(ri, rj);
      assert Count(ri) < Count(rj) || (Count(ri) == Count(rj) && i < j);
      RankOrder(Count(ri), Count(rj), i, j, |p.a.rows|);
    }
  }

  lemma RankOrder(ci: nat, cj: nat, i: nat, j: nat, n: nat)
    requires i < n && j < n && (ci < cj || (ci == cj && i < j))
    ensures cj * n + j > ci * n + i
  {
    if ci < cj {
      var d := cj - ci;
      MulDistributes(ci, d, n);
      MulAtLeast(d, n);
    }
  }

  lemma MulDistributes(x: nat, d: nat, n: nat)
    ensures (x + d) * n == x * n + d * n
  {
  }

  lemma MulAtLeast(d: nat, n: nat)
    requires d >= 1
    ensures d * n >= n
  {
    MulDistributes(d - 1, 1, n);
  }

  /**
   * With levels assumed, or with a positive cutoff, the candidate graph has no cycle: the
   * reason `_build` never has to check for one before adding an edge.
   */
  lemma CandidateAcyclic(p: Pairing)
    requires Ready(p) && Computed(p) && (p.assumeLevels || p.cutoff > 0.0)
    ensures Acyclic(CandidateEdges(p))
  {
    var rank := PairRank(p);
    forall e | e in CandidateEdges(p) ensures rank(e.0) > rank(e.1) {
      var i, j :| 0 <= i < |p.a.rows| && 0 <= j < |p.a.rows| && Kept(p, i, j) && e == (Cluster(j), Cluster(i));
      KeptDescends(p, i, j);
    }
    RankAcyclic(CandidateEdges(p), rank);
  }

  /** `e` joins two cluster nodes of the assignment. */
  predicate ClusterEdge(a: Assignment, e: Edge) {
    e.0.Internal? && e.0.occ == 0 && 0 <= e.0.idx < |a.rows|
    && e.1.Internal? && e.1.occ == 0 && 0 <= e.1.idx < |a.rows|
  }

  /** `_build`'s `node_size`: a cluster's row count, 1 for a terminal; index -1 reads the last row. */
  function NodeSize(a: Assignment, x: Node): nat
    requires WellFormed(a)
    requires x.Internal? ==> -|a.rows| <= x.idx < |a.rows|
  {
    if x.Terminal? then 1
    else if x.idx >= 0 then Count(a.rows[x.idx])
    else Count(a.rows[|a.rows| + x.idx])
  }
}

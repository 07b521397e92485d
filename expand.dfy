/**
 * The input expansion of `weave`: every partition is a list of labels, one per terminal, and
 * every distinct label of every partition becomes one boolean membership row, recorded with
 * the level of its partition and its label. In boolean mode each partition is itself one row,
 * a nonzero label marking membership.
 */
module Expansion {
  import opened Seqs

  /**
   * The `levels` argument of `weave`: a flag (the default is `False`), `None`, or one explicit
   * level per partition.
   */
  datatype LevelsArg = Flag(assumed: bool) | NoLevels | Given(values: seq<int>)

  /** The expanded input: the rows of `_assignment`, with `_levels` and `_labels`. */
  datatype Expanded = Expanded(rows: seq<seq<bool>>, levels: seq<int>, labels: seq<int>)

  /** `p == label`: the terminals partition `p` puts in the cluster labelled `v`. */
  function LabelRow(p: seq<int>, v: int): seq<bool> {
    seq(|p|, k requires 0 <= k < |p| => p[k] == v)
  }

  /** `astype(bool)` on a partition: a nonzero label marks membership. */
  function BoolRow(p: seq<int>): seq<bool> {
    seq(|p|, k requires 0 <= k < |p| => p[k] != 0)
  }

  /** Boolean mode: one row per partition, each labelled True, with the partition's level. */
  function ExpandBoolean(ps: seq<seq<int>>, clevels: seq<int>): (e: Expanded)
    requires |clevels| == |ps|
    ensures |e.rows| == |ps| && e.levels == clevels && |e.labels| == |ps|
    ensures forall i :: 0 <= i < |ps| ==> e.rows[i] == BoolRow(ps[i]) && e.labels[i] == 1
  {
    Expanded(seq(|ps|, i requires 0 <= i < |ps| => BoolRow(ps[i])), clevels, seq(|ps|, _ => 1))
  }

  /** The rows of partition `p` for the labels `us`, in order. */
  function RowsFor(p: seq<int>, us: seq<int>): seq<seq<bool>> {
    seq(|us|, m requires 0 <= m < |us| => LabelRow(p, us[m]))
  }

  /** `np.unique` of every partition: its distinct labels in increasing order. */
  function UniqueLabels(ps: seq<seq<int>>): (uss: seq<seq<int>>)
    ensures |uss| == |ps|
    ensures forall i :: 0 <= i < |ps| ==> uss[i] == Unique(ps[i])
  {
    seq(|ps|, i requires 0 <= i < |ps| => Unique(ps[i]))
  }

  /** The number of rows the first `i` partitions give: where partition `i`'s rows start. */
  function Offset(uss: seq<seq<int>>, i: nat): nat
    requires i <= |uss|
  {
    if i == 0 then 0 else Offset(uss, i - 1) + |uss[i - 1]|
  }

  /**
   * The loop `for i, p in enumerate(partitions): for label in np.unique(p)` over the first `i`
   * partitions, where `uss[i]` stands for the distinct labels of partition `i`.
   */
  function ExpandUpTo(ps: seq<seq<int>>, uss: seq<seq<int>>, clevels: seq<int>, i: nat): (e: Expanded)
    requires i <= |ps| && |uss| == |ps| && |clevels| == |ps|
    ensures |e.rows| == Offset(uss, i) && |e.levels| == Offset(uss, i) && |e.labels| == Offset(uss, i)
  {
    if i == 0 then Expanded([], [], [])
    else
      var e := ExpandUpTo(ps, uss, clevels, i - 1);
      Expanded(e.rows + RowsFor(ps[i - 1], uss[i - 1]), e.levels + seq(|uss[i - 1]|, _ => clevels[i - 1]),
        e.labels + uss[i - 1])
  }

  /** The expansion of all partitions. */
  function Expand(ps: seq<seq<int>>, clevels: seq<int>): Expanded
    requires |clevels| == |ps|
  {
    ExpandUpTo(ps, UniqueLabels(ps), clevels, |ps|)
  }

  /** Later partitions only append: the rows of the first `i` partitions stay where they are. */
  lemma {:induction false} ExpandPrefix(ps: seq<seq<int>>, uss: seq<seq<int>>, clevels: seq<int>, i: nat, j: nat, r: nat)
    requires i <= j <= |ps| && |uss| == |ps| && |clevels| == |ps| && r < Offset(uss, i)
    ensures r < |ExpandUpTo(ps, uss, clevels, j).rows|
    ensures ExpandUpTo(ps, uss, clevels, j).rows[r] == ExpandUpTo(ps, uss, clevels, i).rows[r]
    ensures ExpandUpTo(ps, uss, clevels, j).levels[r] == ExpandUpTo(ps, uss, clevels, i).levels[r]
    ensures ExpandUpTo(ps, uss, clevels, j).labels[r] == ExpandUpTo(ps, uss, clevels, i).labels[r]
    decreases j - i
  {
    if i < j {
      ExpandPrefix(ps, uss, clevels, i, j - 1, r);
    }
  }

  /**
   * Row `Offset(i) + m` is the row of partition `i` for its `m`-th label, with the level of
   * partition `i` and that label.
   */
  lemma ExpandBlock(ps: seq<seq<int>>, uss: seq<seq<int>>, clevels: seq<int>, i: nat, m: nat)
    requires i < |ps| && |uss| == |ps| && |clevels| == |ps| && m < |uss[i]|
    ensures Offset(uss, i) + m < |ExpandUpTo(ps, uss, clevels, |ps|).rows|
    ensures ExpandUpTo(ps, uss, clevels, |ps|).rows[Offset(uss, i) + m] == LabelRow(ps[i], uss[i][m])
    ensures ExpandUpTo(ps, uss, clevels, |ps|).levels[Offset(uss, i) + m] == clevels[i]
    ensures ExpandUpTo(ps, uss, clevels, |ps|).labels[Offset(uss, i) + m] == uss[i][m]
  {
    var e0, a := ExpandUpTo(ps, uss, clevels, i), ExpandUpTo(ps, uss, clevels, i + 1);
    var r := Offset(uss, i) + m;
    assert a.rows == e0.rows + RowsFor(ps[i], uss[i]);
    assert a.levels == e0.levels + seq(|uss[i]|, _ => clevels[i]);
    assert a.labels == e0.labels + uss[i];
    assert a.rows[r] == RowsFor(ps[i], uss[i])[m];
    ExpandPrefix(ps, uss, clevels, i + 1, |ps|, r);
  }

  /** Every row lies in the block of exactly one partition. */
  lemma {:induction false} BlockOf(uss: seq<seq<int>>, j: nat, r: nat) returns (i: nat, m: nat)
    requires j <= |uss| && r < Offset(uss, j)
    ensures i < j && m < |uss[i]| && r == Offset(uss, i) + m
  {
    if r >= Offset(uss, j - 1) {
      i, m := j - 1, r - Offset(uss, j - 1);
    } else {
      i, m := BlockOf(uss, j - 1, r);
    }
  }

  /**
   * Row `Offset(i) + m` of the expansion is the membership row of the `m`-th smallest label of
   * partition `i`, with the level of partition `i` and that label.
   */
  lemma ExpandAt(ps: seq<seq<int>>, clevels: seq<int>, i: nat, m: nat)
    requires i < |ps| && |clevels| == |ps| && m < |Unique(ps[i])|
    ensures Offset(UniqueLabels(ps), i) + m < |Expand(ps, clevels).rows|
    ensures Expand(ps, clevels).rows[Offset(UniqueLabels(ps), i) + m] == LabelRow(ps[i], Unique(ps[i])[m])
    ensures Expand(ps, clevels).levels[Offset(UniqueLabels(ps), i) + m] == clevels[i]
    ensures Expand(ps, clevels).labels[Offset(UniqueLabels(ps), i) + m] == Unique(ps[i])[m]
  {
    ExpandBlock(ps, UniqueLabels(ps), clevels, i, m);
  }

  /**
   * Soundness of the expansion: every row is the membership row of one label of one
   * partition, carrying that partition's level and that label.
   */
  lemma ExpandSound(ps: seq<seq<int>>, clevels: seq<int>, r: nat) returns (i: nat)
    requires |clevels| == |ps|
    requires r < |Expand(ps, clevels).rows|
    ensures i < |ps| && |Expand(ps, clevels).levels| == |Expand(ps, clevels).rows|
    ensures |Expand(ps, clevels).labels| == |Expand(ps, clevels).rows|
    ensures Expand(ps, clevels).labels[r] in ps[i]
    ensures Expand(ps, clevels).rows[r] == LabelRow(ps[i], Expand(ps, clevels).labels[r])
    ensures Expand(ps, clevels).levels[r] == clevels[i]
  {
    var uss := UniqueLabels(ps);
    var m;
    i, m := BlockOf(uss, |ps|, r);
    ExpandBlock(ps, uss, clevels, i, m);
    assert uss[i][m] in Unique(ps[i]);
  }

  /**
   * Completeness of the expansion: for every partition and every terminal, the row of the
   * terminal's label in that partition is present, holds the terminal, and carries the
   * partition's level.
   */
  lemma ExpandCovers(ps: seq<seq<int>>, clevels: seq<int>, i: nat, k: nat) returns (r: nat)
    requires |clevels| == |ps| && i < |ps| && k < |ps[i]|
    ensures r < |Expand(ps, clevels).rows| && |Expand(ps, clevels).levels| == |Expand(ps, clevels).rows|
    ensures |Expand(ps, clevels).labels| == |Expand(ps, clevels).rows|
    ensures Expand(ps, clevels).rows[r] == LabelRow(ps[i], ps[i][k]) && Expand(ps, clevels).rows[r][k]
    ensures Expand(ps, clevels).labels[r] == ps[i][k] && Expand(ps, clevels).levels[r] == clevels[i]
  {
    var uss := UniqueLabels(ps);
    assert ps[i][k] in uss[i];
    var m :| 0 <= m < |uss[i]| && uss[i][m] == ps[i][k];
    ExpandBlock(ps, uss, clevels, i, m);
    r := Offset(uss, i) + m;
  }

  /**
   * With partitions of one common length `n`, every row has `n` columns, and there are no
   * rows at all exactly when `n` is 0, which is when `np.vstack` has nothing to stack.
   */
  lemma ExpandShape(ps: seq<seq<int>>, clevels: seq<int>, n: nat)
    requires |clevels| == |ps| && ps != [] && forall i :: 0 <= i < |ps| ==> |ps[i]| == n
    ensures forall r :: 0 <= r < |Expand(ps, clevels).rows| ==> |Expand(ps, clevels).rows[r]| == n
    ensures Expand(ps, clevels).rows == [] <==> n == 0
  {
    forall r | 0 <= r < |Expand(ps, clevels).rows| ensures |Expand(ps, clevels).rows[r]| == n {
      var i := ExpandSound(ps, clevels, r);
    }
    if n > 0 {
      var r := ExpandCovers(ps, clevels, 0, 0);
    } else if Expand(ps, clevels).rows != [] {
      var i := ExpandSound(ps, clevels, 0);
    }
  }

  /**
   * The expansion loop of `weave`. The caller has checked that there are partitions and
   * that `clevels` has one level per partition.
   */
  method ExpandPartitions(ps: seq<seq<int>>, clevels: seq<int>) returns (e: Expanded)
    requires |clevels| == |ps|
    ensures e == Expand(ps, clevels)
  {
    e := ExpandAll(ps, UniqueLabels(ps), clevels);
  }

  /** The outer loop, over the partitions and their distinct labels `uss`. */
  method ExpandAll(ps: seq<seq<int>>, uss: seq<seq<int>>, clevels: seq<int>) returns (e: Expanded)
    requires |uss| == |ps| && |clevels| == |ps|
    ensures e == ExpandUpTo(ps, uss, clevels, |ps|)
  {
    var rows: seq<seq<bool>> := [];
    var levels: seq<int> := [];
    var labels: seq<int> := [];
    for i := 0 to |ps|
      invariant Expanded(rows, levels, labels) == ExpandUpTo(ps, uss, clevels, i)
    {
      rows, levels, labels := ExpandOne(ps[i], uss[i], clevels[i], rows, levels, labels);
    }
    e := Expanded(rows, levels, labels);
  }

  /** The inner loop: the rows of one partition, appended in label order. */
  method ExpandOne(p: seq<int>, us: seq<int>, level: int, rows0: seq<seq<bool>>, levels0: seq<int>, labels0: seq<int>)
    returns (rows: seq<seq<bool>>, levels: seq<int>, labels: seq<int>)
    ensures rows == rows0 + RowsFor(p, us)
    ensures levels == levels0 + seq(|us|, _ => level)
    ensures labels == labels0 + us
  {
    rows, levels, labels := rows0, levels0, labels0;
    for m := 0 to |us|
      invariant rows == rows0 + RowsFor(p, us[..m])
      invariant levels == levels0 + seq(m, _ => level)
      invariant labels == labels0 + us[..m]
    {
      assert RowsFor(p, us[..m + 1]) == RowsFor(p, us[..m]) + [LabelRow(p, us[m])];
      assert seq(m + 1, _ => level) == seq(m, _ => level) + [level];
      assert us[..m + 1] == us[..m] + [us[m]];
      rows := rows + [LabelRow(p, us[m])];
      levels := levels + [level];
      labels := labels + [us[m]];
    }
    assert us[..|us|] == us;
  }
}

/**
 * The containment index between clusters, `containment_indices_boolean`:
 * CI[i, j] = |A_i ∩ B_j| / |A_i|, over boolean membership rows.
 * Division by an empty row gives numpy's nan, modelled as `None`.
 */
module Containment {
  import opened Wrappers

  /** Number of terminals in a membership row (`count_nonzero`). */
  function Count(a: seq<bool>): (r: nat)
    ensures r <= |a|
  {
    if a == [] then 0 else (if a[0] then 1 else 0) + Count(a[1..])
  }

  /** Number of terminals in both rows: one entry of the product A·Bᵀ. */
  function Overlap(a: seq<bool>, b: seq<bool>): (r: nat)
    requires |a| == |b|
    ensures r <= Count(a) && r <= Count(b)
  {
    if a == [] then 0 else (if a[0] && b[0] then 1 else 0) + Overlap(a[1..], b[1..])
  }

  /** Every member of `a` is a member of `b`. */
  predicate SubsetRow(a: seq<bool>, b: seq<bool>)
    requires |a| == |b|
  {
    forall k :: 0 <= k < |a| && a[k] ==> b[k]
  }

  /** The element-wise union of two rows. */
  function UnionRow(a: seq<bool>, b: seq<bool>): (u: seq<bool>)
    requires |a| == |b|
    ensures |u| == |a| && forall k :: 0 <= k < |a| ==> (u[k] <==> a[k] || b[k])
  {
    seq(|a|, k requires 0 <= k < |a| => a[k] || b[k])
  }

  /** The overlap of two rows is the size of the first exactly when it is contained in the second. */
  lemma {:induction false} OverlapFullIffSubset(a: seq<bool>, b: seq<bool>)
    requires |a| == |b|
    ensures Overlap(a, b) == Count(a) <==> SubsetRow(a, b)
  {
    if a != [] {
      OverlapFullIffSubset(a[1..], b[1..]);
      if SubsetRow(a, b) {
        assert SubsetRow(a[1..], b[1..]) by {
          forall k | 0 <= k < |a[1..]| && a[1..][k] ensures b[1..][k] { assert a[k + 1]; }
        }
      }
      if Overlap(a, b) == Count(a) {
        assert a[0] ==> b[0];
        forall k | 0 <= k < |a| && a[k] ensures b[k] {
          if k > 0 { assert a[1..][k - 1]; }
        }
      }
    }
  }

  /** Inclusion–exclusion on rows: |a ∪ b| = |a| + |b| - |a ∩ b|. */
  lemma {:induction false} UnionCount(a: seq<bool>, b: seq<bool>)
    requires |a| == |b|
    ensures Count(UnionRow(a, b)) == Count(a) + Count(b) - Overlap(a, b)
  {
    if a != [] {
      UnionCount(a[1..], b[1..]);
      assert UnionRow(a, b)[1..] == UnionRow(a[1..], b[1..]);
    }
  }

  /** The containment index of row `a` in row `b`; `None` stands for numpy's nan (empty `a`). */
  function CIndex(a: seq<bool>, b: seq<bool>): (r: Option<real>)
    requires |a| == |b|
    ensures r.None? <==> Count(a) == 0
    ensures r.Some? ==> 0.0 <= r.value <= 1.0 && r.value == Ratio(Overlap(a, b), Count(a))
  {
    if Count(a) == 0 then None else Some(Ratio(Overlap(a, b), Count(a)))
  }

  /** `o / c` over the reals, for a part `o` of a whole `c`. */
  function Ratio(o: nat, c: nat): (r: real)
    requires 0 < c && o <= c
    ensures 0.0 <= r <= 1.0
  {
    DivBounds(o as real, c as real);
    o as real / c as real
  }

  /** Every row of the matrix has `n` columns. */
  predicate Rectangular(A: seq<seq<bool>>, n: nat) {
    forall i :: 0 <= i < |A| ==> |A[i]| == n
  }

  /** `containment_indices_boolean(A, B)`: the full matrix of containment indices. */
  function ContainmentIndices(A: seq<seq<bool>>, B: seq<seq<bool>>, n: nat): (CI: seq<seq<Option<real>>>)
    requires Rectangular(A, n) && Rectangular(B, n)
    ensures |CI| == |A| && forall i :: 0 <= i < |A| ==> |CI[i]| == |B|
    ensures forall i, j :: 0 <= i < |A| && 0 <= j < |B| ==> CI[i][j] == CIndex(A[i], B[j])
  {
    seq(|A|, i requires 0 <= i < |A| => seq(|B|, j requires 0 <= j < |B| => CIndex(A[i], B[j])))
  }

  /** The index is 1 exactly when the first row is contained in the second. */
  lemma {:induction false} CIndexOneIffSubset(a: seq<bool>, b: seq<bool>)
    requires |a| == |b| && Count(a) > 0
    ensures CIndex(a, b) == Some(1.0) <==> SubsetRow(a, b)
  {
    OverlapFullIffSubset(a, b);
    RatioOneIff(Overlap(a, b), Count(a));
  }

  /** A nonempty row is fully contained in itself: CI[i, i] = 1. */
  lemma CIndexDiagonal(a: seq<bool>)
    requires Count(a) > 0
    ensures CIndex(a, a) == Some(1.0)
  {
    CIndexOneIffSubset(a, a);
  }

  /** `o` is at least the fraction `k` of `c`: o ≥ k·c, over the reals. */
  predicate AtLeastFraction(o: nat, c: nat, k: real) {
    o as real >= k * c as real
  }

  /** Comparing the index with a cutoff is comparing the overlap with cutoff·|a|, over the reals. */
  lemma {:induction false} CIndexAtLeast(a: seq<bool>, b: seq<bool>, cutoff: real)
    requires |a| == |b| && Count(a) > 0
    ensures CIndex(a, b).value >= cutoff <==> AtLeastFraction(Overlap(a, b), Count(a), cutoff)
  {
    RatioAtLeast(Overlap(a, b), Count(a), cutoff);
  }

  /** The positions at or after `i` held by both rows. */
  function SharedFrom(a: seq<bool>, b: seq<bool>, i: nat): set<int>
    requires |a| == |b|
  {
    set k | i <= k < |a| && a[k] && b[k]
  }

  /** The overlap counts exactly the positions the two rows share: |{k : A[i,k] ∧ B[j,k]}|. */
  lemma OverlapIsShared(a: seq<bool>, b: seq<bool>)
    requires |a| == |b|
    ensures Overlap(a, b) == |SharedFrom(a, b, 0)|
  {
    OverlapSuffix(a, b, 0);
  }

  lemma {:induction false} OverlapSuffix(a: seq<bool>, b: seq<bool>, i: nat)
    requires |a| == |b| && i <= |a|
    ensures Overlap(a[i..], b[i..]) == |SharedFrom(a, b, i)|
    decreases |a| - i
  {
    if i == |a| {
      assert SharedFrom(a, b, i) == {};
    } else {
      OverlapSuffix(a, b, i + 1);
      assert a[i..][1..] == a[i + 1..] && b[i..][1..] == b[i + 1..];
      assert SharedFrom(a, b, i) == (if a[i] && b[i] then {i} else {}) + SharedFrom(a, b, i + 1);
    }
  }

  /** A row's size counts its members: count_nonzero. */
  lemma CountIsShared(a: seq<bool>)
    ensures Count(a) == |SharedFrom(a, a, 0)|
  {
    OverlapFullIffSubset(a, a);
    OverlapIsShared(a, a);
  }


  /**
   * For two nonempty rows that share a terminal, the larger of the two indices belongs to the
   * smaller row, and the indices tie exactly when the rows have the same size.
   */
  lemma {:induction false} CIndexOrder(a: seq<bool>, b: seq<bool>)
    requires |a| == |b| && Count(a) > 0 && Count(b) > 0 && Overlap(a, b) > 0
    ensures CIndex(a, b).value > CIndex(b, a).value <==> Count(a) < Count(b)
    ensures CIndex(a, b).value == CIndex(b, a).value <==> Count(a) == Count(b)
  {
    OverlapSymmetric(a, b);
    RatioCompare(Overlap(a, b), Count(a), Count(b));
  }

  /** A positive index means the rows share a terminal. */
  lemma CIndexPositive(a: seq<bool>, b: seq<bool>)
    requires |a| == |b| && Count(a) > 0 && CIndex(a, b).value > 0.0
    ensures Overlap(a, b) > 0
  {
  }

  // Real-arithmetic steps, kept apart so that each proof sees only a few terms.

  lemma RatioOneIff(o: nat, c: nat)
    requires 0 < c && o <= c
    ensures Ratio(o, c) == 1.0 <==> o == c
  {
    DivOneIff(o as real, c as real);
  }

  lemma RatioAtLeast(o: nat, c: nat, k: real)
    requires 0 < c && o <= c
    ensures Ratio(o, c) >= k <==> AtLeastFraction(o, c, k)
  {
    DivAtLeast(o as real, c as real, k);
  }

  lemma RatioCompare(o: nat, ca: nat, cb: nat)
    requires 0 < o <= ca && o <= cb
    ensures Ratio(o, ca) > Ratio(o, cb) <==> ca < cb
    ensures Ratio(o, ca) == Ratio(o, cb) <==> ca == cb
  {
    DivCompare(o as real, ca as real, cb as real);
  }

  lemma DivMul(o: real, c: real)
    requires c != 0.0
    ensures o / c * c == o
  {
  }

  lemma DivMulNamed(o: real, c: real, r: real)
    requires c > 0.0 && r == o / c
    ensures r * c == o
  {
    DivMul(o, c);
  }

  lemma DivOneIff(o: real, c: real)
    requires c > 0.0
    ensures o / c == 1.0 <==> o == c
  {
    DivMul(o, c);
  }

  lemma DivBounds(o: real, c: real)
    requires 0.0 <= o <= c && c > 0.0
    ensures 0.0 <= o / c <= 1.0
  {
    DivMul(o, c);
  }

  lemma MulMono(x: real, y: real, c: real)
    requires c > 0.0
    ensures x <= y <==> x * c <= y * c
    ensures x < y <==> x * c < y * c
  {
  }

  lemma DivAtLeast(o: real, c: real, k: real)
    requires c > 0.0
    ensures o / c >= k <==> o >= k * c
  {
    DivMul(o, c);
    MulMono(k, o / c, c);
  }

  lemma DivCompare(o: real, ca: real, cb: real)
    requires o > 0.0 && ca > 0.0 && cb > 0.0
    ensures o / ca > o / cb <==> ca < cb
    ensures o / ca == o / cb <==> ca == cb
  {
    DivMul(o, ca);
    DivMul(o, cb);
    var x, y := o / ca, o / cb;
    assert x * ca == y * cb;
    MulMono(y, x, ca);
    MulMono(x, y, cb);
    if x > y { MulMono(ca, cb, y); }
    if ca < cb { MulMono(ca, cb, y); }
  }

  lemma {:induction false} OverlapSymmetric(a: seq<bool>, b: seq<bool>)
    requires |a| == |b|
    ensures Overlap(a, b) == Overlap(b, a)
  {
    if a != [] { OverlapSymmetric(a[1..], b[1..]); }
  }
}

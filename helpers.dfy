/**
 * The two small module-level helpers of the weaver: `all_equal`, built on the runs that
 * `itertools.groupby` yields, and `boolize`.
 */
module Helpers {
  import opened Seqs

  /**
   * The keys `itertools.groupby(s)` yields: one per maximal run of equal neighbours, in order.
   */
  function RunKeys<T(==)>(s: seq<T>): (r: seq<T>)
    ensures |r| <= |s|
    ensures s != [] ==> r != [] && r[0] == s[0] && r[|r| - 1] == s[|s| - 1]
    ensures forall k :: 0 <= k < |r| - 1 ==> r[k] != r[k + 1]
  {
    if |s| <= 1 then s
    else
      var r := RunKeys(s[..|s| - 1]);
      if s[|s| - 1] == s[|s| - 2] then r else r + [s[|s| - 1]]
  }

  /**
   * `all_equal(s)`: `next(g, True) and not next(g, False)` on `g = groupby(s)`, that is, the
   * sequence has at most one run.
   */
  function AllEqual<T(==)>(s: seq<T>): bool {
    |RunKeys(s)| <= 1
  }

  /** `all_equal` holds exactly when any two elements are equal; in particular on `[]`. */
  lemma {:induction false} AllEqualIff<T>(s: seq<T>)
    ensures AllEqual(s) <==> forall i, j :: 0 <= i < |s| && 0 <= j < |s| ==> s[i] == s[j]
  {
    if |s| > 1 {
      var init := s[..|s| - 1];
      AllEqualIff(init);
      if AllEqual(s) {
        assert RunKeys(s) == RunKeys(init) by {
          assert |RunKeys(init)| >= 1;
        }
        forall i, j | 0 <= i < |s| && 0 <= j < |s| ensures s[i] == s[j] {
          if i < |s| - 1 && j < |s| - 1 {
            assert s[i] == init[i] && s[j] == init[j];
          } else {
            assert s[|s| - 1] == init[|s| - 2];
            assert s[i] == init[0] || i == |s| - 1;
            assert s[j] == init[0] || j == |s| - 1;
            assert init[|s| - 2] == init[0];
          }
        }
      } else {
        var r := RunKeys(s);
        assert r[0] != r[1];
        assert r[0] == s[0];
        var k :| 0 <= k < |s| && s[k] == r[1] by {
          RunKeysFrom(s, 1);
        }
      }
    }
  }

  /** Every run key is an element of the sequence. */
  lemma {:induction false} RunKeysFrom<T>(s: seq<T>, m: nat)
    requires m < |RunKeys(s)|
    ensures RunKeys(s)[m] in s
  {
    if |s| > 1 {
      var init := s[..|s| - 1];
      if m < |RunKeys(init)| {
        RunKeysFrom(init, m);
      }
    }
  }

  /** The Python values `boolize` is applied to. */
  datatype Scalar = BoolValue(b: bool) | IntValue(i: int) | FloatValue(x: real)

  /** `boolize(x)`: a `bool` stays as it is, anything else is `bool(int(x))`. */
  function Boolize(v: Scalar): bool {
    match v
    case BoolValue(b) => b
    case IntValue(i) => i != 0
    case FloatValue(x) => Trunc(x) != 0
  }

  /**
   * `int` truncates toward zero, so a float is true exactly when its magnitude reaches 1:
   * `boolize(0.5)` and `boolize(-0.5)` are both false.
   */
  lemma BoolizeFloat(x: real)
    ensures Boolize(FloatValue(x)) <==> x <= -1.0 || 1.0 <= x
  {
    var t := Trunc(x);
    if x >= 0.0 {
      assert t as real <= x < t as real + 1.0;
    } else {
      assert -x >= 0.0;
      assert (-x).Floor as real <= -x < (-x).Floor as real + 1.0;
    }
  }

  /** A whole float and the integer it holds boolize alike. */
  lemma BoolizeWhole(i: int)
    ensures Boolize(FloatValue(i as real)) == Boolize(IntValue(i))
  {
    BoolizeFloat(i as real);
  }
}

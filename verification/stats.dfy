/** Sample statistics used by the rate computation (`hvscan.meanAndVar`).

    `numpy.ma.mean` is the arithmetic mean and `numpy.ma.var` is the
    population variance, the mean squared deviation from the mean (no
    degrees-of-freedom correction). Both are computed here in exact
    arithmetic.
 */
module Stats {

  function Sum(s: seq<real>): real {
    if s == [] then 0.0 else s[0] + Sum(s[1..])
  }

  /** Multiplication kept as a named function, so that facts about squares
      are stated once, in `SquarePositive`, and used by name. */
  function Times(a: real, b: real): real {
    a * b
  }

  function Square(d: real): real {
    Times(d, d)
  }

  /** The sum of squared deviations of the elements from `m`. */
  function SumSquaredDeviations(s: seq<real>, m: real): real {
    if s == [] then 0.0 else Square(s[0] - m) + SumSquaredDeviations(s[1..], m)
  }

  function Mean(s: seq<real>): real
    requires |s| > 0
  {
    Sum(s) / |s| as real
  }

  /** Population variance: the mean squared deviation from the mean. */
  function Variance(s: seq<real>): real
    requires |s| > 0
  {
    SumSquaredDeviations(s, Mean(s)) / |s| as real
  }

  /** The largest element, as Python's `max` returns it. */
  function Max(s: seq<real>): (m: real)
    requires |s| > 0
    ensures m in s
    ensures forall i :: 0 <= i < |s| ==> s[i] <= m
  {
    if |s| == 1 then s[0]
    else
      var rest := Max(s[1..]);
      assert forall i :: 1 <= i < |s| ==> s[i] == s[1..][i - 1];
      if s[0] >= rest then s[0] else rest
  }

  function Min(s: seq<real>): (m: real)
    requires |s| > 0
    ensures m in s
    ensures forall i :: 0 <= i < |s| ==> m <= s[i]
  {
    if |s| == 1 then s[0]
    else
      var rest := Min(s[1..]);
      assert forall i :: 1 <= i < |s| ==> s[i] == s[1..][i - 1];
      if s[0] <= rest then s[0] else rest
  }

  /** `meanAndVar`: the mean and the population variance of a non-empty
      sample. The variance is never negative, so its square root is
      defined. */
  function MeanAndVar(s: seq<real>): (r: (real, real))
    requires |s| > 0
    ensures r.1 >= 0.0
  {
    VarianceNonNegative(s);
    (Mean(s), Variance(s))
  }

  /** The mean returned by `meanAndVar` lies between the sample's extremes. */
  lemma MeanAndVarBounds(s: seq<real>)
    requires |s| > 0
    ensures Min(s) <= MeanAndVar(s).0 <= Max(s)
  {
    MeanWithin(s, Min(s), Max(s));
  }

  lemma {:induction false} SumSquaredDeviationsNonNegative(s: seq<real>, m: real)
    ensures SumSquaredDeviations(s, m) >= 0.0
  {
    if s != [] {
      SumSquaredDeviationsNonNegative(s[1..], m);
      if s[0] != m {
        SquarePositive(s[0] - m);
      }
    }
  }

  /** A sum of elements bounded by `lo` and `hi` lies between `n * lo` and `n * hi`. */
  lemma {:induction false} SumBounds(s: seq<real>, lo: real, hi: real)
    requires forall i :: 0 <= i < |s| ==> lo <= s[i] <= hi
    ensures |s| as real * lo <= Sum(s) <= |s| as real * hi
  {
    if s != [] {
      assert forall i :: 0 <= i < |s[1..]| ==> s[1..][i] == s[i + 1];
      SumBounds(s[1..], lo, hi);
    }
  }

  /** Real division by a positive count keeps bounds. */
  lemma QuotientBounds(a: real, k: nat, lo: real, hi: real)
    requires k > 0 && k as real * lo <= a <= k as real * hi
    ensures lo <= a / k as real <= hi
  {
    var n := k as real;
    assert (a / n) * n == a;
  }

  /** The mean of elements bounded by `lo` and `hi` is bounded by them too. */
  lemma MeanWithin(s: seq<real>, lo: real, hi: real)
    requires |s| > 0
    requires forall i :: 0 <= i < |s| ==> lo <= s[i] <= hi
    ensures lo <= Mean(s) <= hi
  {
    SumBounds(s, lo, hi);
    QuotientBounds(Sum(s), |s|, lo, hi);
  }

  lemma VarianceNonNegative(s: seq<real>)
    requires |s| > 0
    ensures Variance(s) >= 0.0
  {
    var d := SumSquaredDeviations(s, Mean(s));
    SumSquaredDeviationsNonNegative(s, Mean(s));
    QuotientBounds(d, |s|, 0.0, d);
  }

  /** The squared deviations from `m` vanish exactly when every element is `m`. */
  lemma {:induction false} ZeroDeviations(s: seq<real>, m: real)
    ensures SumSquaredDeviations(s, m) == 0.0 <==> forall i :: 0 <= i < |s| ==> s[i] == m
  {
    if s != [] {
      ZeroDeviations(s[1..], m);
      SumSquaredDeviationsNonNegative(s[1..], m);
      assert forall i :: 1 <= i < |s| ==> s[i] == s[1..][i - 1];
      if s[0] != m {
        SquarePositive(s[0] - m);
      }
    }
  }

  lemma ProductPositive(a: real, b: real)
    requires a > 0.0 && b > 0.0
    ensures Times(a, b) > 0.0
  {
  }

  /** The square of a non-zero number is positive. */
  lemma SquarePositive(d: real)
    requires d != 0.0
    ensures Square(d) > 0.0
  {
    if d > 0.0 {
      ProductPositive(d, d);
    } else {
      ProductPositive(-d, -d);
      assert Times(d, d) == Times(-d, -d);
    }
  }

  /** A zero quotient by a positive count has a zero numerator. */
  lemma QuotientZero(a: real, k: nat)
    requires k > 0
    ensures a / k as real == 0.0 <==> a == 0.0
  {
    var n := k as real;
    assert (a / n) * n == a;
  }

  /** The variance is zero exactly when the sample is constant, and then
      the mean is that constant. */
  lemma VarianceZeroIffConstant(s: seq<real>)
    requires |s| > 0
    ensures MeanAndVar(s).1 == 0.0 <==> forall i :: 0 <= i < |s| ==> s[i] == s[0]
    ensures (forall i :: 0 <= i < |s| ==> s[i] == s[0]) ==> MeanAndVar(s) == (s[0], 0.0)
  {
    var m := Mean(s);
    QuotientZero(SumSquaredDeviations(s, m), |s|);
    ZeroDeviations(s, m);
    ZeroDeviations(s, s[0]);
    if forall i :: 0 <= i < |s| ==> s[i] == s[0] {
      MeanWithin(s, s[0], s[0]);
    }
  }
}

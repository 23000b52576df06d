/** The data `plotRaw` and `plotRate` hand to the plotting layer, without
    the plotting: the raw counts against |HV| with missing readings removed,
    the rate series of a signal channel, and that series normalised to its
    peak.
 */
module Plots {
  import opened Outcome
  import opened Stats
  import opened Ingest
  import Winnow
  import opened Rates
  import opened Sequences

  /** `[abs(x) for x in xs]`. */
  function Abs(xs: seq<real>): (r: seq<real>)
    ensures |r| == |xs|
    ensures forall i :: 0 <= i < |xs| ==> r[i] >= 0.0 && (r[i] == xs[i] || r[i] == -xs[i])
  {
    seq(|xs|, i requires 0 <= i < |xs| => if xs[i] < 0.0 then -xs[i] else xs[i])
  }

  /** `ns` is `ys` scaled down by `m`: each element times `m` gives back
      the element of `ys`. */
  predicate ScaledBy(ns: seq<real>, ys: seq<real>, m: real) {
    |ns| == |ys| && forall i :: 0 <= i < |ys| ==> Times(ns[i], m) == ys[i]
  }

  /** `ebs` is `eys` with every scale divided by `m` and every variance kept. */
  predicate BarsScaledBy(ebs: seq<ErrorBar>, eys: seq<ErrorBar>, m: real) {
    |ebs| == |eys| &&
    forall i :: 0 <= i < |eys| ==> Times(ebs[i].scale, m) == eys[i].scale && ebs[i].variance == eys[i].variance
  }

  /** Each element divided by `m`. */
  function Divide(ys: seq<real>, m: real): (r: seq<real>)
    requires m != 0.0
    ensures ScaledBy(r, ys, m)
  {
    seq(|ys|, i requires 0 <= i < |ys| => ys[i] / m)
  }

  /** Each error bar divided by `m`: the scale is divided, the variance
      under the square root is kept. */
  function DivideBars(eys: seq<ErrorBar>, m: real): (r: seq<ErrorBar>)
    requires m != 0.0
    ensures BarsScaledBy(r, eys, m)
  {
    seq(|eys|, i requires 0 <= i < |eys| => ErrorBar(eys[i].scale / m, eys[i].variance))
  }

  /** In `plotRate`: divide the rates and their error bars by the largest
      rate. `max` of an empty list raises `ValueError`. The rates are numpy
      floats, so a largest rate of 0 gives infinities and NaN without an
      exception; that case is reported as `DivisionByZero` here. */
  function Normalise(ys: seq<real>, eys: seq<ErrorBar>): (r: Result<(seq<real>, seq<ErrorBar>)>)
    ensures r.Ok? <==> |ys| > 0 && Max(ys) != 0.0
    ensures |ys| == 0 ==> r == Err(EmptySequence)
    ensures |ys| > 0 && Max(ys) == 0.0 ==> r == Err(DivisionByZero)
    ensures r.Ok? ==> ScaledBy(r.value.0, ys, Max(ys)) && BarsScaledBy(r.value.1, eys, Max(ys))
  {
    if |ys| == 0 then Err(EmptySequence)
    else
      var m := Max(ys);
      if m == 0.0 then Err(DivisionByZero)
      else Ok((Divide(ys, m), DivideBars(eys, m)))
  }

  /** A factor that scales a positive `m` to at most `m` is at most 1, and
      one that scales it to exactly `m` is 1. */
  lemma FactorAtMostOne(a: real, b: real, m: real)
    requires m > 0.0 && Times(a, m) == b && b <= m
    ensures a <= 1.0
    ensures b == m ==> a == 1.0
  {
    assert (a - 1.0) * m == b - m;
  }

  /** Scaling down by a positive peak puts the peak at exactly 1. */
  lemma ScaledPeak(ns: seq<real>, ys: seq<real>, m: real)
    requires |ys| > 0 && m == Max(ys) && m > 0.0 && ScaledBy(ns, ys, m)
    ensures Max(ns) == 1.0
  {
    var k :| 0 <= k < |ys| && ys[k] == m;
    FactorAtMostOne(ns[k], ys[k], m);
    forall i | 0 <= i < |ns|
      ensures ns[i] <= 1.0
    {
      FactorAtMostOne(ns[i], ys[i], m);
    }
    assert Max(ns) >= ns[k];
  }

  /** With a positive peak, the normalised series peaks at exactly 1. */
  lemma NormalisedPeak(ys: seq<real>, eys: seq<ErrorBar>)
    requires |ys| > 0 && Max(ys) > 0.0
    ensures Normalise(ys, eys).Ok? && Max(Normalise(ys, eys).value.0) == 1.0
  {
    ScaledPeak(Normalise(ys, eys).value.0, ys, Max(ys));
  }

  /** Scaling down by a positive factor keeps the order of the elements. */
  lemma ScaledOrder(ns: seq<real>, ys: seq<real>, m: real)
    requires m > 0.0 && ScaledBy(ns, ys, m)
    ensures forall i, j :: 0 <= i < |ys| && 0 <= j < |ys| ==> (ys[i] <= ys[j] <==> ns[i] <= ns[j])
  {
    forall i, j | 0 <= i < |ys| && 0 <= j < |ys|
      ensures ys[i] <= ys[j] <==> ns[i] <= ns[j]
    {
      FactorOrder(ns[i], ns[j], m);
    }
  }

  /** Multiplying by a positive `m` keeps the order. */
  lemma FactorOrder(a: real, b: real, m: real)
    requires m > 0.0
    ensures a <= b <==> Times(a, m) <= Times(b, m)
  {
    assert Times(b, m) - Times(a, m) == (b - a) * m;
  }

  /** With a positive peak, normalising keeps the order of the rates. */
  lemma NormalisePreservesOrder(ys: seq<real>, eys: seq<ErrorBar>)
    requires |ys| > 0 && Max(ys) > 0.0
    ensures Normalise(ys, eys).Ok?
    ensures var ny := Normalise(ys, eys).value.0;
            forall i, j :: 0 <= i < |ys| && 0 <= j < |ys| ==> (ys[i] <= ys[j] <==> ny[i] <= ny[j])
  {
    ScaledOrder(Normalise(ys, eys).value.0, ys, Max(ys));
  }

  /** Normalising a normalised series with a positive peak changes nothing. */
  lemma NormaliseIdempotent(ys: seq<real>, eys: seq<ErrorBar>)
    requires |ys| > 0 && Max(ys) > 0.0
    ensures var n := Normalise(ys, eys).value;
            Normalise(n.0, n.1) == Ok(n)
  {
    NormalisedPeak(ys, eys);
    var n := Normalise(ys, eys).value;
    assert Divide(n.0, 1.0) == n.0;
    assert DivideBars(n.1, 1.0) == n.1;
  }

  lemma NormaliseExample()
    ensures Normalise([4.0, 8.0, 2.0], []) == Ok(([0.5, 1.0, 0.25], []))
  {
    var ys := [4.0, 8.0, 2.0];
    assert Max(ys) == 8.0 by {
      assert Max(ys[1..]) == 8.0 by { assert ys[1..][1..] == [2.0]; }
    }
    assert Divide(ys, 8.0) == [0.5, 1.0, 0.25];
  }

  /** In `plotRaw`: the raw counts of column `hdr` against |HV|, with the
      missing readings winnowed out. A missing column raises `KeyError`. */
  function RawSeries(t: Table, hdr: string): (r: Result<(seq<real>, seq<real>)>)
    ensures r.Ok? <==> "HV" in t.columns && hdr in t.columns
    ensures r.Ok? ==> |r.value.0| == |r.value.1|
    ensures r.Ok? ==> forall k :: 0 <= k < |r.value.0| ==> r.value.0[k] >= 0.0 && r.value.1[k] >= 0.0
    ensures r.Ok? ==> Winnow.Zip(r.value.0, r.value.1) ==
                      Winnow.KeepValid(Winnow.Zip(Abs(t.columns["HV"]), t.columns[hdr]))
  {
    if "HV" !in t.columns then Err(MissingColumn("HV"))
    else if hdr !in t.columns then Err(MissingColumn(hdr))
    else
      var xin := Abs(t.columns["HV"]);
      WinnowKeepsNonNegativeX(xin, t.columns[hdr]);
      Winnow.WinnowIsFilteredZip(xin, t.columns[hdr]);
      Ok(Winnow.Winnow(xin, t.columns[hdr]))
  }

  /** Every x kept by `winnow` is one of the input x's, so non-negative
      x's stay non-negative. */
  lemma {:induction false} WinnowKeepsNonNegativeX(xs: seq<real>, ys: seq<real>)
    requires forall i :: 0 <= i < |xs| ==> xs[i] >= 0.0
    ensures forall k :: 0 <= k < |Winnow.Winnow(xs, ys).0| ==> Winnow.Winnow(xs, ys).0[k] >= 0.0
  {
    if xs != [] && ys != [] {
      assert forall i :: 0 <= i < |xs[1..]| ==> xs[1..][i] == xs[i + 1];
      WinnowKeepsNonNegativeX(xs[1..], ys[1..]);
      var rest := Winnow.Winnow(xs[1..], ys[1..]);
      if ys[0] >= 0.0 {
        assert forall k :: 1 <= k < |rest.0| + 1 ==> ([xs[0]] + rest.0)[k] == rest.0[k - 1];
      }
    }
  }

  /** The rows behind the rate series of channel `hdr`: |HV|, the channel's
      counts and the LED counts. */
  function RateInputs(t: Table, hdr: string): seq<Sample>
    requires "HV" in t.columns && "led" in t.columns && hdr in t.columns
  {
    Samples(Abs(t.columns["HV"]), t.columns[hdr], t.columns["led"])
  }

  /** In `plotRate`: the rate series of signal channel `hdr`. The columns
      are looked up in the order HV, led, `hdr`; a missing one raises
      `KeyError`. */
  function RateSeries(t: Table, hdr: string): (r: Result<Series>)
    requires "HV" in t.columns && "led" in t.columns && hdr in t.columns ==> GroupsDefined(RateInputs(t, hdr))
    ensures "HV" !in t.columns ==> r == Err(MissingColumn("HV"))
    ensures "HV" in t.columns && "led" !in t.columns ==> r == Err(MissingColumn("led"))
    ensures "HV" in t.columns && "led" in t.columns && hdr !in t.columns ==> r == Err(MissingColumn(hdr))
    ensures "HV" in t.columns && "led" in t.columns && hdr in t.columns ==>
              r == CalcRate(Abs(t.columns["HV"]), t.columns[hdr], t.columns["led"])
  {
    if "HV" !in t.columns then Err(MissingColumn("HV"))
    else if "led" !in t.columns then Err(MissingColumn("led"))
    else if hdr !in t.columns then Err(MissingColumn(hdr))
    else CalcRate(Abs(t.columns["HV"]), t.columns[hdr], t.columns["led"])
  }

  /** The rate series exists when the rows can be indexed, and then its
      HV values are the distinct |HV| of the rows that have a non-negative
      count of `hdr` and a non-zero LED count, in ascending order. */
  lemma RateSeriesKeys(t: Table, hdr: string)
    requires "HV" in t.columns && "led" in t.columns && hdr in t.columns
    requires GroupsDefined(RateInputs(t, hdr))
    ensures var hv, cs, led := Abs(t.columns["HV"]), t.columns[hdr], t.columns["led"];
            RateSeries(t, hdr).Ok? <==> Indexable(hv, cs, led)
    ensures var hv, cs, led := Abs(t.columns["HV"]), t.columns[hdr], t.columns["led"];
            RateSeries(t, hdr).Ok? ==>
              StrictlyAscending(RateSeries(t, hdr).value.x) &&
              forall h :: h in RateSeries(t, hdr).value.x <==>
                exists i :: 0 <= i < |hv| && i < |led| && hv[i] == h && cs[i] >= 0.0 && led[i] != 0.0
  {
    var hv, cs, led := Abs(t.columns["HV"]), t.columns[hdr], t.columns["led"];
    if Indexable(hv, cs, led) {
      CalcRateKeys(hv, cs, led);
    }
  }

  /** In `plotRate`: the rate series of `hdr` normalised to its peak rate.
      The HV values and x-errors are unchanged. */
  function NormalisedRateSeries(t: Table, hdr: string): (r: Result<Series>)
    requires "HV" in t.columns && "led" in t.columns && hdr in t.columns ==> GroupsDefined(RateInputs(t, hdr))
    ensures r.Ok? <==> RateSeries(t, hdr).Ok? && |RateSeries(t, hdr).value.y| > 0 && Max(RateSeries(t, hdr).value.y) != 0.0
    ensures r.Ok? ==> var s := RateSeries(t, hdr).value;
              Parallel(r.value) && r.value.x == s.x && r.value.ex == s.ex &&
              ScaledBy(r.value.y, s.y, Max(s.y)) && BarsScaledBy(r.value.ey, s.ey, Max(s.y))
  {
    var s :- RateSeries(t, hdr);
    var n :- Normalise(s.y, s.ey);
    Ok(Series(s.x, n.0, s.ex, n.1))
  }
}

/** `hvscan.calcRate`: background-subtracted signal rate per LED trigger,
    one point per high-voltage setting.

    Each row of the scan is a sample: the absolute HV setting, the count of
    one signal channel, and the LED trigger count. Rows with a negative
    count (a missing reading) are ignored. Among the rest, rows with no LED
    triggers measure the background and rows with LED triggers measure the
    signal. For every distinct HV value that has at least one signal row
    the rate is (mean signal - mean background) / mean LED count, with the
    variance propagated from the three population variances.
 */
module Rates {
  import opened Outcome
  import opened Sequences
  import opened Stats

  datatype Sample = Sample(hv: real, count: real, led: real)

  /** The rows of one HV value, split as the grouping loop splits them. */
  datatype Group = Group(bkg: seq<real>, cts: seq<real>, led: seq<real>)

  /** An error bar of `scale * sqrt(variance)`. `calcRate` produces scale 1;
      normalisation divides the scale. The square root itself is left out. */
  datatype ErrorBar = ErrorBar(scale: real, variance: real)

  /** The four parallel lists `calcRate` returns: X, Y, eX, eY. */
  datatype Series = Series(x: seq<real>, y: seq<real>, ex: seq<real>, ey: seq<ErrorBar>)

  predicate IsBackground(s: Sample) {
    s.count >= 0.0 && s.led == 0.0
  }

  predicate IsSignal(s: Sample) {
    s.count >= 0.0 && s.led != 0.0
  }

  /** Some signal row has HV value `hv`. */
  predicate HasSignal(ss: seq<Sample>, hv: real) {
    exists i :: 0 <= i < |ss| && ss[i].hv == hv && IsSignal(ss[i])
  }

  /** `calcRate` indexes `Yin[i]` for every row of `Xin`, and `LEDin[i]`
      for every row whose count is non-negative; anything shorter raises
      `IndexError`. */
  predicate Indexable(xin: seq<real>, yin: seq<real>, ledin: seq<real>) {
    |yin| >= |xin| && forall i :: |ledin| <= i < |xin| ==> yin[i] < 0.0
  }

  /** The rows as samples. A row beyond the end of `LEDin` gets LED count 0;
      for an indexable input such a row has a negative count, so its LED
      count is never looked at. */
  function Samples(xin: seq<real>, yin: seq<real>, ledin: seq<real>): (ss: seq<Sample>)
    ensures |ss| == Shorter(xin, yin)
    ensures forall i :: 0 <= i < |ss| ==> ss[i].hv == xin[i] && ss[i].count == yin[i]
    ensures forall i :: 0 <= i < |ss| ==> ss[i].led == if i < |ledin| then ledin[i] else 0.0
    ensures Indexable(xin, yin, ledin) ==> |ss| == |xin|
    ensures Indexable(xin, yin, ledin) ==>
              forall i :: 0 <= i < |ss| && ss[i].count >= 0.0 ==> i < |ledin| && ss[i].led == ledin[i]
  {
    seq(Shorter(xin, yin), i requires 0 <= i < Shorter(xin, yin) =>
      Sample(xin[i], yin[i], if i < |ledin| then ledin[i] else 0.0))
  }

  // ---------------------------------------------------------------------
  // The distinct HV values in ascending order

  /** Inserts `x` into a strictly ascending list unless it is already there. */
  function Insert(s: seq<real>, x: real): (r: seq<real>)
    requires StrictlyAscending(s)
    ensures StrictlyAscending(r)
    ensures forall y :: y in r <==> y in s || y == x
  {
    if s == [] then [x]
    else if x < s[0] then [x] + s
    else if x == s[0] then s
    else
      var rest := Insert(s[1..], x);
      InsertBehindHead(s, x, rest);
      [s[0]] + rest
  }

  /** Putting the head back in front of the insertion into the tail keeps
      the list ascending and adds exactly `x`. */
  lemma InsertBehindHead(s: seq<real>, x: real, rest: seq<real>)
    requires StrictlyAscending(s) && s != [] && s[0] < x
    requires StrictlyAscending(rest)
    requires forall y :: y in rest <==> y in s[1..] || y == x
    ensures StrictlyAscending([s[0]] + rest)
    ensures forall y :: y in [s[0]] + rest <==> y in s || y == x
  {
    assert s == [s[0]] + s[1..];
    forall y | y in rest
      ensures s[0] < y
    {
      if y != x {
        var j :| 0 <= j < |s[1..]| && s[1..][j] == y;
        assert s[j + 1] == y;
      }
    }
    var r := [s[0]] + rest;
    forall i, j | 0 <= i < j < |r|
      ensures r[i] < r[j]
    {
      assert r[j] == rest[j - 1];
      if i > 0 {
        assert r[i] == rest[i - 1];
      } else {
        assert rest[j - 1] in rest;
      }
    }
  }

  /** `X` after the de-duplicating loop and `X.sort()`. */
  function SortedKeys(xs: seq<real>): (keys: seq<real>)
    ensures StrictlyAscending(keys)
    ensures forall y :: y in keys <==> y in xs
  {
    if xs == [] then []
    else
      var init := xs[..|xs| - 1];
      assert xs == init + [xs[|xs| - 1]];
      Insert(SortedKeys(init), xs[|xs| - 1])
  }

  /** In a strictly ascending list the head is the least element and the
      tail holds everything else. */
  lemma AscendingHead(a: seq<real>)
    requires StrictlyAscending(a) && a != []
    ensures forall y :: y in a ==> a[0] <= y
    ensures forall y :: y in a[1..] <==> y in a && y != a[0]
  {
    forall y | y in a
      ensures a[0] <= y
    {
      var j :| 0 <= j < |a| && a[j] == y;
      assert j > 0 ==> a[0] < a[j];
    }
    forall y
      ensures y in a[1..] <==> y in a && y != a[0]
    {
      if y in a[1..] {
        var j :| 0 <= j < |a[1..]| && a[1..][j] == y;
        assert a[j + 1] == y && a[0] < a[j + 1];
      }
      if y in a && y != a[0] {
        var j :| 0 <= j < |a| && a[j] == y;
        assert j > 0 && a[1..][j - 1] == y;
      }
    }
  }

  /** A strictly ascending list is determined by its elements, so
      `SortedKeys` is the only sorted, duplicate-free listing of the input's
      values. */
  lemma {:induction false} AscendingUnique(a: seq<real>, b: seq<real>)
    requires StrictlyAscending(a) && StrictlyAscending(b)
    requires forall y :: y in a <==> y in b
    ensures a == b
  {
    MembersNonEmpty(a, b);
    MembersNonEmpty(b, a);
    if a != [] {
      AscendingHead(a);
      AscendingHead(b);
      assert a[0] in b && b[0] in a;
      assert a[0] == b[0];
      assert StrictlyAscending(a[1..]) && StrictlyAscending(b[1..]);
      AscendingUnique(a[1..], b[1..]);
      assert a == [a[0]] + a[1..] && b == [b[0]] + b[1..];
    }
  }

  lemma MembersNonEmpty(a: seq<real>, b: seq<real>)
    requires forall y :: y in a ==> y in b
    ensures a != [] ==> b != []
  {
    if a != [] {
      var y := a[0];
      assert y in a;
    }
  }

  lemma SortedKeysUnique(xs: seq<real>, keys: seq<real>)
    requires StrictlyAscending(keys)
    requires forall y :: y in keys <==> y in xs
    ensures keys == SortedKeys(xs)
  {
    AscendingUnique(keys, SortedKeys(xs));
  }

  // ---------------------------------------------------------------------
  // Grouping by HV value

  /** The inner loop over the rows for one HV value: counts of background
      rows, counts of signal rows, and the LED counts of the signal rows,
      each in row order. */
  function Collect(ss: seq<Sample>, hv: real): (g: Group)
    ensures |g.cts| == |g.led|
  {
    if ss == [] then Group([], [], [])
    else
      var g := Collect(ss[1..], hv);
      var s := ss[0];
      if s.hv != hv || s.count < 0.0 then g
      else if s.led == 0.0 then Group([s.count] + g.bkg, g.cts, g.led)
      else Group(g.bkg, [s.count] + g.cts, [s.led] + g.led)
  }

  /** Grouping goes row by row: the group of a concatenation is the
      concatenation of the groups. */
  lemma {:induction false} CollectAppend(a: seq<Sample>, b: seq<Sample>, hv: real)
    ensures var ga, gb, g := Collect(a, hv), Collect(b, hv), Collect(a + b, hv);
            g == Group(ga.bkg + gb.bkg, ga.cts + gb.cts, ga.led + gb.led)
  {
    if a == [] {
      assert a + b == b;
    } else {
      assert (a + b)[1..] == a[1..] + b;
      CollectAppend(a[1..], b, hv);
      var ga', gb := Collect(a[1..], hv), Collect(b, hv);
      assert [a[0].count] + (ga'.bkg + gb.bkg) == ([a[0].count] + ga'.bkg) + gb.bkg;
      assert [a[0].count] + (ga'.cts + gb.cts) == ([a[0].count] + ga'.cts) + gb.cts;
      assert [a[0].led] + (ga'.led + gb.led) == ([a[0].led] + ga'.led) + gb.led;
    }
  }

  /** Where one row ends up when the group of `hv` is collected. */
  datatype Filing = Skipped | AsBackground(count: real) | AsSignal(count: real, led: real)

  function Filed(s: Sample, hv: real): Filing {
    if s.hv == hv && IsBackground(s) then AsBackground(s.count)
    else if s.hv == hv && IsSignal(s) then AsSignal(s.count, s.led)
    else Skipped
  }

  function Filings(ss: seq<Sample>, hv: real): seq<Filing> {
    seq(|ss|, i requires 0 <= i < |ss| => Filed(ss[i], hv))
  }

  /** The signal counts of a group paired with their LED counts. */
  function SignalPairs(g: Group): seq<(real, real)>
    requires |g.cts| == |g.led|
  {
    seq(|g.cts|, i requires 0 <= i < |g.cts| => (g.cts[i], g.led[i]))
  }

  /** Grouping loses and invents no background count: each occurs in the
      group as often as rows of `hv` are filed as background with it. */
  lemma {:induction false} CollectBackgroundCounts(ss: seq<Sample>, hv: real)
    ensures forall c :: Count(Collect(ss, hv).bkg, c) == Count(Filings(ss, hv), AsBackground(c))
  {
    if ss != [] {
      CollectBackgroundCounts(ss[1..], hv);
      var g, g' := Collect(ss, hv), Collect(ss[1..], hv);
      var f, rest := Filed(ss[0], hv), Filings(ss[1..], hv);
      assert Filings(ss, hv) == [f] + rest;
      assert g.bkg == if f.AsBackground? then [ss[0].count] + g'.bkg else g'.bkg;
      forall c
        ensures Count(g.bkg, c) == Count([f] + rest, AsBackground(c))
      {
        CountCons(f, rest, AsBackground(c));
        if f.AsBackground? {
          CountCons(ss[0].count, g'.bkg, c);
        }
      }
    }
  }

  /** Likewise for the signal: each (count, LED) pair occurs in the group
      as often as signal rows of `hv` carry it. */
  lemma {:induction false} CollectSignalCounts(ss: seq<Sample>, hv: real)
    ensures forall c, l :: Count(SignalPairs(Collect(ss, hv)), (c, l)) == Count(Filings(ss, hv), AsSignal(c, l))
  {
    if ss != [] {
      CollectSignalCounts(ss[1..], hv);
      var g, g' := Collect(ss, hv), Collect(ss[1..], hv);
      var f, rest := Filed(ss[0], hv), Filings(ss[1..], hv);
      var p, ps := (ss[0].count, ss[0].led), SignalPairs(g');
      assert Filings(ss, hv) == [f] + rest;
      assert SignalPairs(g) == if f.AsSignal? then [p] + ps else ps;
      forall c, l
        ensures Count(SignalPairs(g), (c, l)) == Count([f] + rest, AsSignal(c, l))
      {
        CountCons(f, rest, AsSignal(c, l));
        if f.AsSignal? {
          CountCons(p, ps, (c, l));
        }
      }
    }
  }

  /** The rows of `hv` of each kind. */
  predicate BackgroundRow(ss: seq<Sample>, i: int, hv: real)
    requires 0 <= i < |ss|
  {
    ss[i].hv == hv && IsBackground(ss[i])
  }

  predicate SignalRow(ss: seq<Sample>, i: int, hv: real)
    requires 0 <= i < |ss|
  {
    ss[i].hv == hv && IsSignal(ss[i])
  }

  /** The background holds exactly the counts of the background rows of
      `hv`. */
  lemma {:induction false} BackgroundMembers(ss: seq<Sample>, hv: real)
    ensures forall c :: c in Collect(ss, hv).bkg <==>
              exists i :: 0 <= i < |ss| && BackgroundRow(ss, i, hv) && ss[i].count == c
    ensures forall c :: Count(Collect(ss, hv).bkg, c) == Count(Filings(ss, hv), AsBackground(c))
  {
    CollectBackgroundCounts(ss, hv);
    if ss != [] {
      BackgroundMembers(ss[1..], hv);
      var g, g' := Collect(ss, hv), Collect(ss[1..], hv);
      forall c
        ensures c in g.bkg <==> exists i :: 0 <= i < |ss| && BackgroundRow(ss, i, hv) && ss[i].count == c
      {
        if c in g.bkg {
          if !(BackgroundRow(ss, 0, hv) && ss[0].count == c) {
            assert c in g'.bkg;
            var j :| 0 <= j < |ss[1..]| && BackgroundRow(ss[1..], j, hv) && ss[1..][j].count == c;
            assert BackgroundRow(ss, j + 1, hv) && ss[j + 1].count == c;
          }
        }
        if exists i :: 0 <= i < |ss| && BackgroundRow(ss, i, hv) && ss[i].count == c {
          var i :| 0 <= i < |ss| && BackgroundRow(ss, i, hv) && ss[i].count == c;
          if i > 0 {
            assert BackgroundRow(ss[1..], i - 1, hv) && ss[1..][i - 1].count == c;
            assert c in g'.bkg;
          }
        }
      }
    }
  }

  /** The signal holds exactly the counts of the signal rows of `hv`, and
      the LED list holds their LED counts. Rows with negative counts land in
      neither the background nor the signal. */
  lemma {:induction false} SignalMembers(ss: seq<Sample>, hv: real)
    ensures forall c :: c in Collect(ss, hv).cts <==>
              exists i :: 0 <= i < |ss| && SignalRow(ss, i, hv) && ss[i].count == c
    ensures forall l :: l in Collect(ss, hv).led <==>
              exists i :: 0 <= i < |ss| && SignalRow(ss, i, hv) && ss[i].led == l
    ensures forall c, l :: Count(SignalPairs(Collect(ss, hv)), (c, l)) == Count(Filings(ss, hv), AsSignal(c, l))
  {
    CollectSignalCounts(ss, hv);
    if ss != [] {
      SignalMembers(ss[1..], hv);
      var g, g' := Collect(ss, hv), Collect(ss[1..], hv);
      forall c
        ensures c in g.cts <==> exists i :: 0 <= i < |ss| && SignalRow(ss, i, hv) && ss[i].count == c
      {
        if c in g.cts {
          if !(SignalRow(ss, 0, hv) && ss[0].count == c) {
            assert c in g'.cts;
            var j :| 0 <= j < |ss[1..]| && SignalRow(ss[1..], j, hv) && ss[1..][j].count == c;
            assert SignalRow(ss, j + 1, hv) && ss[j + 1].count == c;
          }
        }
        if exists i :: 0 <= i < |ss| && SignalRow(ss, i, hv) && ss[i].count == c {
          var i :| 0 <= i < |ss| && SignalRow(ss, i, hv) && ss[i].count == c;
          if i > 0 {
            assert SignalRow(ss[1..], i - 1, hv) && ss[1..][i - 1].count == c;
            assert c in g'.cts;
          }
        }
      }
      forall l
        ensures l in g.led <==> exists i :: 0 <= i < |ss| && SignalRow(ss, i, hv) && ss[i].led == l
      {
        if l in g.led {
          if !(SignalRow(ss, 0, hv) && ss[0].led == l) {
            assert l in g'.led;
            var j :| 0 <= j < |ss[1..]| && SignalRow(ss[1..], j, hv) && ss[1..][j].led == l;
            assert SignalRow(ss, j + 1, hv) && ss[j + 1].led == l;
          }
        }
        if exists i :: 0 <= i < |ss| && SignalRow(ss, i, hv) && ss[i].led == l {
          var i :| 0 <= i < |ss| && SignalRow(ss, i, hv) && ss[i].led == l;
          if i > 0 {
            assert SignalRow(ss[1..], i - 1, hv) && ss[1..][i - 1].led == l;
            assert l in g'.led;
          }
        }
      }
    }
  }

  /** A group has signal rows exactly when its HV value has a signal row. */
  lemma CollectHasSignal(ss: seq<Sample>, hv: real)
    ensures |Collect(ss, hv).cts| > 0 <==> HasSignal(ss, hv)
  {
    SignalMembers(ss, hv);
    var g := Collect(ss, hv);
    if |g.cts| > 0 {
      assert g.cts[0] in g.cts;
      var i :| 0 <= i < |ss| && SignalRow(ss, i, hv) && ss[i].count == g.cts[0];
    }
    if HasSignal(ss, hv) {
      var i :| 0 <= i < |ss| && ss[i].hv == hv && IsSignal(ss[i]);
      assert SignalRow(ss, i, hv);
      assert ss[i].count in g.cts;
    }
  }

  // ---------------------------------------------------------------------
  // The rate of one group

  /** The group can be reduced: the background is not empty and the mean
      LED count is not zero. Outside this, numpy produces NaN or infinity. */
  predicate Defined(g: Group) {
    |g.bkg| > 0 && |g.cts| > 0 && |g.led| > 0 && Mean(g.led) != 0.0
  }

  /** Every HV value with a signal row has a group that can be reduced. */
  predicate GroupsDefined(ss: seq<Sample>) {
    forall i {:trigger IsSignal(ss[i])} :: 0 <= i < |ss| && IsSignal(ss[i]) ==> Defined(Collect(ss, ss[i].hv))
  }

  /** In `calcRate`: the background-subtracted rate per LED trigger, the
      solution `r` of `r * aled == acts - abkg`. */
  function RateOf(acts: real, abkg: real, aled: real): (r: real)
    requires aled != 0.0
    ensures r * aled == acts - abkg
  {
    (acts - abkg) / aled
  }

  /** In `calcRate`: the variance of the rate, propagated from the variances of
      the three means. It is the solution `v` of
      `v * aled^2 == vcts + vbkg + vled * r^2`, and it is never negative
      when the three variances are not, so its square root is defined. */
  function RateVariance(vcts: real, vbkg: real, vled: real, aled: real, r: real): (v: real)
    requires aled != 0.0
    ensures v * aled * aled == vcts + vbkg + vled * r * r
    ensures vcts >= 0.0 && vbkg >= 0.0 && vled >= 0.0 ==> v >= 0.0
  {
    VarianceSolves(vcts, vbkg, vled, aled, r);
    PropagatedNonNegative(vcts, vbkg, vled, aled, r);
    vcts / aled / aled + vbkg / aled / aled + vled / aled / aled * r * r
  }

  /** In `calcRate`: the rate of a group and its variance, from the means
      and population variances of the background, the signal and the LED
      counts. The variance is never negative. */
  function GroupRate(g: Group): (r: (real, real))
    requires Defined(g)
    ensures r.1 >= 0.0
  {
    var (abkg, vbkg) := MeanAndVar(g.bkg);
    var (acts, vcts) := MeanAndVar(g.cts);
    var (aled, vled) := MeanAndVar(g.led);
    var rate := RateOf(acts, abkg, aled);
    (rate, RateVariance(vcts, vbkg, vled, aled, rate))
  }

  /** When every LED count is one, the rate is the difference of the means
      and its variance is the sum of the two variances. */
  lemma GroupRateUnitLed(g: Group)
    requires Defined(g)
    requires forall k :: 0 <= k < |g.led| ==> g.led[k] == 1.0
    ensures GroupRate(g).0 == Mean(g.cts) - Mean(g.bkg)
    ensures GroupRate(g).1 == Variance(g.cts) + Variance(g.bkg)
  {
    VarianceZeroIffConstant(g.led);
  }

  lemma QuotientSquare(x: real, a: real)
    requires a != 0.0
    ensures x / a / a * a * a == x
  {
    var y := x / a;
    assert y * a == x;
  }

  lemma VarianceSolves(vcts: real, vbkg: real, vled: real, a: real, r: real)
    requires a != 0.0
    ensures (vcts / a / a + vbkg / a / a + vled / a / a * r * r) * a * a == vcts + vbkg + vled * r * r
  {
    QuotientSquare(vcts, a);
    QuotientSquare(vbkg, a);
    QuotientSquare(vled, a);
    var p, q, u := vcts / a / a, vbkg / a / a, vled / a / a;
    assert (p + q + u * r * r) * a * a == p * a * a + q * a * a + (u * a * a) * r * r;
  }

  lemma QuotientSquareNonNegative(x: real, a: real)
    requires a != 0.0 && x >= 0.0
    ensures x / a / a >= 0.0
  {
    var y := x / a;
    if a > 0.0 {
      assert y >= 0.0;
    } else {
      assert y <= 0.0;
    }
  }

  lemma PropagatedNonNegative(vcts: real, vbkg: real, vled: real, a: real, r: real)
    requires a != 0.0
    ensures vcts >= 0.0 && vbkg >= 0.0 && vled >= 0.0 ==>
            vcts / a / a + vbkg / a / a + vled / a / a * r * r >= 0.0
  {
    if vcts >= 0.0 && vbkg >= 0.0 && vled >= 0.0 {
      QuotientSquareNonNegative(vcts, a);
      QuotientSquareNonNegative(vbkg, a);
      QuotientSquareNonNegative(vled, a);
      var u := vled / a / a;
      assert u * r * r >= 0.0;
    }
  }

  // ---------------------------------------------------------------------
  // Emitting the points

  function EmptySeries(): Series {
    Series([], [], [], [])
  }

  /** All four lists have the same length. */
  predicate Parallel(out: Series) {
    |out.x| == |out.y| == |out.ex| == |out.ey|
  }

  /** A group with signal rows can be reduced. */
  lemma SignalGroupDefined(ss: seq<Sample>, hv: real)
    requires GroupsDefined(ss) && |Collect(ss, hv).cts| > 0
    ensures Defined(Collect(ss, hv))
  {
    CollectHasSignal(ss, hv);
    var i :| 0 <= i < |ss| && ss[i].hv == hv && IsSignal(ss[i]);
  }

  /** The loop over the HV values in `keys`: a point for every value with
      signal rows, skipping the others. */
  function Emit(keys: seq<real>, ss: seq<Sample>): (out: Series)
    requires GroupsDefined(ss)
    ensures Parallel(out)
    ensures forall k :: 0 <= k < |out.x| ==> out.ex[k] == 0.0 && out.ey[k].scale == 1.0
    ensures forall k :: 0 <= k < |out.x| ==> out.ey[k].variance >= 0.0
  {
    if keys == [] then EmptySeries()
    else
      var rest := Emit(keys[1..], ss);
      var g := Collect(ss, keys[0]);
      if |g.cts| > 0 then
        SignalGroupDefined(ss, keys[0]);
        Prepend(keys[0], GroupRate(g), rest)
      else
        rest
  }

  /** The point `(hv, rate)` with a zero x-error and the rate's error bar,
      in front of `out`. */
  function Prepend(hv: real, rate: (real, real), out: Series): Series {
    Series([hv] + out.x, [rate.0] + out.y, [0.0] + out.ex, [ErrorBar(1.0, rate.1)] + out.ey)
  }

  /** The emitted HV values are the keys that have signal rows, in key order. */
  lemma {:induction false} EmitKeys(keys: seq<real>, ss: seq<Sample>)
    requires GroupsDefined(ss)
    ensures IsSubsequence(Emit(keys, ss).x, keys)
    ensures forall h :: h in Emit(keys, ss).x <==> h in keys && HasSignal(ss, h)
  {
    if keys != [] {
      EmitKeys(keys[1..], ss);
      CollectHasSignal(ss, keys[0]);
      var rest := Emit(keys[1..], ss);
      assert keys == [keys[0]] + keys[1..];
      if |Collect(ss, keys[0]).cts| > 0 {
        SubsequenceCons(keys[0], rest.x, keys[1..]);
      } else {
        SubsequenceSkip(keys[0], rest.x, keys[1..]);
      }
    }
  }

  /** `(y, v)` is the rate and the rate variance of the rows of `hv`. */
  predicate IsGroupPoint(ss: seq<Sample>, hv: real, y: real, v: real) {
    Defined(Collect(ss, hv)) && (y, v) == GroupRate(Collect(ss, hv))
  }

  /** Every point of `out` is the rate of its HV value's group. */
  predicate AllGroupPoints(ss: seq<Sample>, out: Series)
    requires Parallel(out)
  {
    forall k :: 0 <= k < |out.x| ==> IsGroupPoint(ss, out.x[k], out.y[k], out.ey[k].variance)
  }

  /** Each point is the rate of its HV value's group. */
  lemma {:induction false} EmitRates(keys: seq<real>, ss: seq<Sample>)
    requires GroupsDefined(ss)
    ensures AllGroupPoints(ss, Emit(keys, ss))
  {
    if keys != [] {
      EmitRates(keys[1..], ss);
      var g := Collect(ss, keys[0]);
      if |g.cts| > 0 {
        SignalGroupDefined(ss, keys[0]);
        PrependPoint(ss, keys[0], GroupRate(g), Emit(keys[1..], ss));
      }
    }
  }

  /** A group point in front of group points gives group points. */
  lemma PrependPoint(ss: seq<Sample>, hv: real, rate: (real, real), rest: Series)
    requires Parallel(rest) && AllGroupPoints(ss, rest)
    requires IsGroupPoint(ss, hv, rate.0, rate.1)
    ensures Parallel(Prepend(hv, rate, rest)) && AllGroupPoints(ss, Prepend(hv, rate, rest))
  {
    var out := Prepend(hv, rate, rest);
    forall k | 0 <= k < |out.x|
      ensures IsGroupPoint(ss, out.x[k], out.y[k], out.ey[k].variance)
    {
      if k > 0 {
        assert out.x[k] == rest.x[k - 1] && out.y[k] == rest.y[k - 1] && out.ey[k] == rest.ey[k - 1];
      }
    }
  }

  /** A subsequence of a strictly ascending list is strictly ascending. */
  lemma {:induction false} AscendingSubsequence(a: seq<real>, b: seq<real>)
    requires IsSubsequence(a, b) && StrictlyAscending(b)
    ensures StrictlyAscending(a)
    decreases |b|
  {
    if a != [] {
      if a[0] == b[0] {
        AscendingSubsequence(a[1..], b[1..]);
        SubsequenceMembers(a[1..], b[1..]);
        forall i, j | 0 <= i < j < |a|
          ensures a[i] < a[j]
        {
          assert a[j] == a[1..][j - 1];
          assert a[j] in b[1..];
          if i > 0 {
            assert a[i] == a[1..][i - 1];
          }
        }
      } else {
        AscendingSubsequence(a, b[1..]);
      }
    }
  }

  // ---------------------------------------------------------------------
  // calcRate

  /** `calcRate(Xin, Yin, LEDin)`. An input too short for the indexing of
      the grouping loop is an `IndexError`. */
  function CalcRate(xin: seq<real>, yin: seq<real>, ledin: seq<real>): (r: Result<Series>)
    requires GroupsDefined(Samples(xin, yin, ledin))
    ensures r.Ok? <==> Indexable(xin, yin, ledin)
    ensures r.Err? ==> r.fault == IndexOutOfRange
    ensures r.Ok? ==> Parallel(r.value) && StrictlyAscending(r.value.x)
    ensures r.Ok? ==> forall h :: h in r.value.x ==> h in xin
    ensures r.Ok? ==> forall k :: 0 <= k < |r.value.x| ==> r.value.ex[k] == 0.0 && r.value.ey[k].scale == 1.0
    ensures r.Ok? ==> forall k :: 0 <= k < |r.value.x| ==> r.value.ey[k].variance >= 0.0
  {
    if !Indexable(xin, yin, ledin) then Err(IndexOutOfRange)
    else
      var keys := SortedKeys(xin);
      var out := Emit(keys, Samples(xin, yin, ledin));
      EmitKeys(keys, Samples(xin, yin, ledin));
      AscendingSubsequence(out.x, keys);
      Ok(out)
  }

  /** An HV value is in the output exactly when some row with that value
      has a non-negative count and a non-zero LED count. */
  lemma CalcRateKeys(xin: seq<real>, yin: seq<real>, ledin: seq<real>)
    requires GroupsDefined(Samples(xin, yin, ledin))
    requires Indexable(xin, yin, ledin)
    ensures forall h :: h in CalcRate(xin, yin, ledin).value.x <==>
              exists i :: 0 <= i < |xin| && i < |ledin| && xin[i] == h && yin[i] >= 0.0 && ledin[i] != 0.0
  {
    var ss := Samples(xin, yin, ledin);
    EmitKeys(SortedKeys(xin), ss);
    forall h
      ensures HasSignal(ss, h) <==>
              exists i :: 0 <= i < |xin| && i < |ledin| && xin[i] == h && yin[i] >= 0.0 && ledin[i] != 0.0
    {
      if HasSignal(ss, h) {
        var i :| 0 <= i < |ss| && ss[i].hv == h && IsSignal(ss[i]);
        assert i < |ledin|;
      }
      if exists i :: 0 <= i < |xin| && i < |ledin| && xin[i] == h && yin[i] >= 0.0 && ledin[i] != 0.0 {
        var i :| 0 <= i < |xin| && i < |ledin| && xin[i] == h && yin[i] >= 0.0 && ledin[i] != 0.0;
        assert ss[i].hv == h && IsSignal(ss[i]);
      }
    }
    forall h | HasSignal(ss, h)
      ensures h in xin
    {
      var i :| 0 <= i < |ss| && ss[i].hv == h && IsSignal(ss[i]);
      assert xin[i] == h;
    }
  }

  /** Each output point is the rate of the rows of its HV value: with `g`
      those rows, `Y[k]` and the variance under `eY[k]` are `GroupRate(g)`. */
  lemma CalcRateValues(xin: seq<real>, yin: seq<real>, ledin: seq<real>)
    requires GroupsDefined(Samples(xin, yin, ledin))
    requires Indexable(xin, yin, ledin)
    ensures var out := CalcRate(xin, yin, ledin).value;
            forall k :: 0 <= k < |out.x| ==>
              IsGroupPoint(Samples(xin, yin, ledin), out.x[k], out.y[k], out.ey[k].variance)
  {
    var ss := Samples(xin, yin, ledin);
    EmitRates(SortedKeys(xin), ss);
    assert CalcRate(xin, yin, ledin).value == Emit(SortedKeys(xin), ss);
    assert AllGroupPoints(ss, Emit(SortedKeys(xin), ss));
  }

  /** The rows of the example scan: HV 100 has background 2 and signal 10
      and 12 on one LED trigger each; HV 200 has background 3 and signal 20. */
  function ExampleRows(): seq<Sample> {
    [Sample(100.0, 2.0, 0.0), Sample(100.0, 10.0, 1.0), Sample(100.0, 12.0, 1.0),
     Sample(200.0, 3.0, 0.0), Sample(200.0, 20.0, 1.0)]
  }

  lemma ExampleSamples()
    ensures Samples([100.0, 100.0, 100.0, 200.0, 200.0], [2.0, 10.0, 12.0, 3.0, 20.0], [0.0, 1.0, 1.0, 0.0, 1.0])
            == ExampleRows()
  {
  }

  lemma ExampleGroups()
    ensures Collect(ExampleRows(), 100.0) == Group([2.0], [10.0, 12.0], [1.0, 1.0])
    ensures Collect(ExampleRows(), 200.0) == Group([3.0], [20.0], [1.0])
  {
    var ss := ExampleRows();
    assert ss[1..][1..][1..][1..][1..] == [];
    assert Collect(ss[1..][1..][1..][1..], 100.0) == Group([], [], []);
    assert Collect(ss[1..][1..][1..], 100.0) == Group([], [], []);
    assert Collect(ss[1..][1..], 100.0) == Group([], [12.0], [1.0]);
    assert Collect(ss[1..][1..][1..][1..], 200.0) == Group([], [20.0], [1.0]);
    assert Collect(ss[1..][1..][1..], 200.0) == Group([3.0], [20.0], [1.0]);
    assert Collect(ss[1..][1..], 200.0) == Group([3.0], [20.0], [1.0]);
  }

  lemma ExampleKeys()
    ensures SortedKeys([100.0, 100.0, 100.0, 200.0, 200.0]) == [100.0, 200.0]
  {
    SortedKeysUnique([100.0, 100.0, 100.0, 200.0, 200.0], [100.0, 200.0]);
  }

  lemma ExampleDefined()
    ensures Defined(Group([2.0], [10.0, 12.0], [1.0, 1.0]))
    ensures Defined(Group([3.0], [20.0], [1.0]))
  {
    assert Mean([1.0, 1.0]) == 1.0;
  }

  /** The rates of the two example groups. */
  lemma ExampleRate100(g: Group)
    requires g == Group([2.0], [10.0, 12.0], [1.0, 1.0])
    ensures Defined(g) && GroupRate(g) == (9.0, 1.0)
  {
    ExampleDefined();
    assert MeanAndVar(g.led) == (1.0, 0.0) by { VarianceZeroIffConstant(g.led); }
    assert MeanAndVar(g.bkg) == (2.0, 0.0) by { VarianceZeroIffConstant(g.bkg); }
    assert MeanAndVar(g.cts) == (11.0, 1.0) by {
      var s := g.cts;
      assert Sum(s) == 22.0;
      assert Mean(s) == 11.0;
      assert Square(10.0 - 11.0) == 1.0 && Square(12.0 - 11.0) == 1.0;
      assert SumSquaredDeviations(s, 11.0) == 2.0;
    }
  }

  lemma ExampleRate200(g: Group)
    requires g == Group([3.0], [20.0], [1.0])
    ensures Defined(g) && GroupRate(g) == (17.0, 0.0)
  {
    ExampleDefined();
    assert MeanAndVar(g.led) == (1.0, 0.0) by { VarianceZeroIffConstant(g.led); }
    assert MeanAndVar(g.bkg) == (3.0, 0.0) by { VarianceZeroIffConstant(g.bkg); }
    assert MeanAndVar(g.cts) == (20.0, 0.0) by { VarianceZeroIffConstant(g.cts); }
  }

  lemma ExampleGroupsDefined()
    ensures GroupsDefined(ExampleRows())
  {
    ExampleGroups();
    ExampleDefined();
    var ss := ExampleRows();
    forall i | 0 <= i < |ss| && IsSignal(ss[i])
      ensures Defined(Collect(ss, ss[i].hv))
    {
      assert ss[i].hv == 100.0 || ss[i].hv == 200.0;
    }
  }

  /** The example's groups have signal rows and the rates 9 and 17. */
  lemma ExamplePoints()
    ensures |Collect(ExampleRows(), 100.0).cts| > 0 && |Collect(ExampleRows(), 200.0).cts| > 0
    ensures Defined(Collect(ExampleRows(), 100.0)) && GroupRate(Collect(ExampleRows(), 100.0)) == (9.0, 1.0)
    ensures Defined(Collect(ExampleRows(), 200.0)) && GroupRate(Collect(ExampleRows(), 200.0)) == (17.0, 0.0)
  {
    ExampleGroups();
    ExampleRate100(Collect(ExampleRows(), 100.0));
    ExampleRate200(Collect(ExampleRows(), 200.0));
  }

  /** Emission over the two example HV values, for rows whose groups have
      the example's rates. */
  lemma ExampleEmit(ss: seq<Sample>)
    requires GroupsDefined(ss)
    requires |Collect(ss, 100.0).cts| > 0 && |Collect(ss, 200.0).cts| > 0
    requires Defined(Collect(ss, 100.0)) && GroupRate(Collect(ss, 100.0)) == (9.0, 1.0)
    requires Defined(Collect(ss, 200.0)) && GroupRate(Collect(ss, 200.0)) == (17.0, 0.0)
    ensures Emit([100.0, 200.0], ss)
            == Series([100.0, 200.0], [9.0, 17.0], [0.0, 0.0], [ErrorBar(1.0, 1.0), ErrorBar(1.0, 0.0)])
  {
    assert [100.0, 200.0][1..] == [200.0];
    assert [200.0][1..] == [];
    assert Emit([200.0], ss) == Series([200.0], [17.0], [0.0], [ErrorBar(1.0, 0.0)]);
  }

  /** `calcRate` on the example scan gives the rates 9 and 17 at HV 100 and
      200; the first has variance 1 from its two signal counts. */
  lemma ExampleScan()
    ensures var xin, yin, ledin := [100.0, 100.0, 100.0, 200.0, 200.0], [2.0, 10.0, 12.0, 3.0, 20.0], [0.0, 1.0, 1.0, 0.0, 1.0];
            GroupsDefined(Samples(xin, yin, ledin)) &&
            CalcRate(xin, yin, ledin) == Ok(Series([100.0, 200.0], [9.0, 17.0], [0.0, 0.0], [ErrorBar(1.0, 1.0), ErrorBar(1.0, 0.0)]))
  {
    ExampleSamples();
    ExampleGroupsDefined();
    ExampleKeys();
    ExamplePoints();
    ExampleEmit(ExampleRows());
  }
}

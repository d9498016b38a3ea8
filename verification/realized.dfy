/** The realized-vol half of the table (`compute_realized_vol`): for every
    swap tenor with enough visible history, the annualized rolling standard
    deviation of its daily changes in basis points, one value per window,
    read at the latest date. */
module Realized {
  import opened Options
  import opened Stats
  import opened Rolling
  import opened Series
  import Volatility

  datatype RealizedRow = RealizedRow(tenor: nat, vols: seq<Option<real>>)

  /** `max(windows)` of an empty window list raises as soon as one tenor is
      examined. */
  datatype RealizedError = EmptyWindowList

  /** The realized vol of a percent-quoted rate series over the last `w`
      daily changes: the rolling sample std of `(s - s.shift(1)) * 100` with
      `w // 2` minimum periods, read at the last position and multiplied by
      sqrt(252); NaN when the series is shorter than the window. When
      defined it is the sample std of the changes, in basis points, between
      the last `DiffsInWindow(|s| - 1, w) + 1` rates, annualized. */
  function WindowVol(s: seq<real>, w: nat, sqrt: Root): (r: Option<real>)
    requires |s| > 0
    ensures r.Some? <==>
      |s| >= w && Volatility.DiffsInWindow(|s| - 1, w) >= Volatility.Max2(w / 2, 2)
    ensures r.Some? ==> r.value >= 0.0
    ensures r.Some? ==>
      r.value == Volatility.Scaled(Volatility.TrailingStd(s, w, Volatility.BpScale(true), sqrt), Volatility.Sqrt252(sqrt))
  {
    if |s| >= w then
      var scale := Volatility.BpScale(true);
      var factor := Volatility.Sqrt252(sqrt);
      var diffs := Volatility.ScaledDiffs(s, scale);
      DiffsShape(s, diffs);
      DiffsPresent(diffs, w);
      Volatility.RollingIsTrailing(s, scale, |s| - 1, w, w / 2, factor, sqrt);
      assert s[..|s|] == s;
      Volatility.ScaleOpt(RollingStd(diffs, |s| - 1, w, w / 2, sqrt), factor)
    else None
  }

  lemma DiffsPresent(diffs: seq<Option<real>>, w: nat)
    requires |diffs| > 0 && diffs[0].None?
    requires forall k :: 1 <= k < |diffs| ==> diffs[k].Some?
    ensures |Present(WindowAt(diffs, |diffs| - 1, w))| == Volatility.DiffsInWindow(|diffs| - 1, w)
  {
    PresentInDifferenceWindow(diffs, |diffs| - 1, w);
  }

  lemma DiffsShape(s: seq<real>, diffs: seq<Option<real>>)
    requires |s| > 0
    requires diffs == Volatility.ScaledDiffs(s, Volatility.BpScale(true))
    ensures |diffs| == |s| && diffs[0].None?
    ensures forall k :: 1 <= k < |diffs| ==> diffs[k].Some?
  {
  }

  /** A window of at least three days over a series at least that long
      always has a value. */
  lemma WindowVolDefined(s: seq<real>, w: nat, sqrt: Root)
    requires 3 <= w <= |s|
    ensures WindowVol(s, w, sqrt).Some?
  {
    assert Volatility.DiffsInWindow(|s| - 1, w) >= w - 1;
  }

  /** A rate that never moved has zero realized vol over every window. */
  lemma WindowVolOfConstant(s: seq<real>, w: nat, sqrt: Root)
    requires |s| > 0
    requires forall i :: 0 <= i < |s| ==> s[i] == s[0]
    ensures WindowVol(s, w, sqrt).Some? ==> WindowVol(s, w, sqrt).value == 0.0
  {
    var wv := WindowVol(s, w, sqrt);
    if wv.Some? {
      var std := Volatility.TrailingStd(s, w, Volatility.BpScale(true), sqrt);
      Volatility.TrailingStdOfConstant(s, w, Volatility.BpScale(true), sqrt, s[0]);
      Volatility.ScaledZero(std, 0.0, Volatility.Sqrt252(sqrt));
    }
  }

  /** On a series of positive percent-quoted rates, the table's realized
      vol is the helper library's realized vol (with its default
      annualization and percent quotes) at the latest date: the two differ
      only in the minimum number of periods (`w // 2` here, `min(5, w // 2)`
      there), so wherever the table has a value the library has the same
      one. */
  lemma WindowVolAgreesWithLibrary(s: seq<real>, w: nat, sqrt: Root)
    requires |s| > 0
    requires forall i :: 0 <= i < |s| ==> s[i] > 0.0
    requires WindowVol(s, w, sqrt).Some?
    ensures Volatility.CalculateRealizedVol(s, w, sqrt)[|s| - 1] == WindowVol(s, w, sqrt)
  {
    Volatility.MinPeriodsAtMostHalf(w);
    LibraryAtLatest(s, w, sqrt, Volatility.CalculateRealizedVol(s, w, sqrt));
    SameDefinedValue(Volatility.CalculateRealizedVol(s, w, sqrt)[|s| - 1], WindowVol(s, w, sqrt),
                     Volatility.Scaled(Volatility.TrailingStd(s, w, Volatility.BpScale(true), sqrt), Volatility.Sqrt252(sqrt)));
  }

  /** Two defined options carrying the same value are equal. */
  lemma SameDefinedValue(a: Option<real>, b: Option<real>, v: real)
    requires b.Some? && a.Some?
    requires a.value == v && b.value == v
    ensures a == b
  {
  }

  /** The library's realized vol at the latest of a series of positive
      rates, as the table's terms state it. */
  lemma LibraryAtLatest(s: seq<real>, w: nat, sqrt: Root, lib: seq<Option<real>>)
    requires |s| > 0
    requires forall i :: 0 <= i < |s| ==> s[i] > 0.0
    requires lib == Volatility.CalculateRealizedVol(s, w, sqrt)
    ensures |lib| == |s|
    ensures lib[|s| - 1].Some? <==>
      Volatility.DiffsInWindow(|s| - 1, w) >= Volatility.Max2(Volatility.RealizedMinPeriods(w), 2)
    ensures lib[|s| - 1].Some? ==>
      lib[|s| - 1].value == Volatility.Scaled(Volatility.TrailingStd(s, w, Volatility.BpScale(true), sqrt), Volatility.Sqrt252(sqrt))
  {
    var n := |s| - 1;
    AllPositiveKept(s);
    Volatility.WholePrefix(s);
    if lib[n].Some? {
      assert Volatility.RealizedAt(s, n, w, true, true, sqrt, lib[n].value);
      assert Volatility.AnnualFactor(true, sqrt) == Volatility.Sqrt252(sqrt);
    }
  }

  /** A series of positive rates survives the filter whole, and so does
      every prefix of it. */
  lemma AllPositiveKept(s: seq<real>)
    requires |s| > 0
    requires forall i :: 0 <= i < |s| ==> s[i] > 0.0
    ensures Volatility.PositiveRates(s) == s
    ensures Volatility.CountPositive(s[..|s| - 1]) == |s| - 1
  {
    var p := s[..|s| - 1];
    assert forall i :: 0 <= i < |p| ==> p[i] == s[i];
    Volatility.PositiveRatesOfPositive(p);
    assert Volatility.CountPositive(p) == |p|;
    Volatility.PositiveRatesOfPositive(s);
  }

  /** The realized vols of one series, one per window. */
  function SeriesRealized(s: seq<real>, windows: seq<nat>, sqrt: Root): (r: seq<Option<real>>)
    requires |s| > 0
    ensures |r| == |windows|
    ensures forall k :: 0 <= k < |windows| ==> r[k] == WindowVol(s, windows[k], sqrt)
  {
    seq(|windows|, k requires 0 <= k < |windows| => WindowVol(s, windows[k], sqrt))
  }

  /** A tenor is examined only when its series is at least as long as the
      longest window. */
  predicate LongEnough(s: seq<real>, windows: seq<nat>) {
    |s| > 0 && forall k :: 0 <= k < |windows| ==> |s| >= windows[k]
  }

  /** The realized vols of tenor `t`, or `None` when it is skipped. */
  function TenorRealized(obs: seq<RateObs>, asOf: int, t: nat, windows: seq<nat>, sqrt: Root)
    : (r: Option<seq<Option<real>>>)
    ensures r.Some? <==> LongEnough(RateSeries(obs, asOf, t), windows)
  {
    var s := RateSeries(obs, asOf, t);
    if LongEnough(s, windows) then Some(SeriesRealized(s, windows, sqrt)) else None
  }

  /** Pairs each tenor with its realized vols, in order, dropping the
      skipped tenors. Its contract only bounds the length: which rows it
      holds is `RowsForMembers`, and that their tenors stay distinct is
      `RowsForDistinct`. */
  function RowsFor(tenors: seq<nat>, ms: seq<Option<seq<Option<real>>>>): (r: seq<RealizedRow>)
    requires |ms| == |tenors|
    ensures |r| <= |tenors|
  {
    if |tenors| == 0 then []
    else
      var rest := RowsFor(tenors[1..], ms[1..]);
      if ms[0].Some? then [RealizedRow(tenors[0], ms[0].value)] + rest else rest
  }

  lemma {:induction false} RowsForMembers(tenors: seq<nat>, ms: seq<Option<seq<Option<real>>>>)
    requires |ms| == |tenors|
    ensures forall row :: row in RowsFor(tenors, ms) <==>
      exists j :: 0 <= j < |tenors| && ms[j].Some? && row == RealizedRow(tenors[j], ms[j].value)
  {
    if |tenors| > 0 {
      RowsForMembers(tenors[1..], ms[1..]);
      forall row ensures row in RowsFor(tenors, ms) <==>
        exists j :: 0 <= j < |tenors| && ms[j].Some? && row == RealizedRow(tenors[j], ms[j].value)
      {
        if row in RowsFor(tenors[1..], ms[1..]) {
          var j :| 0 <= j < |tenors| - 1 && ms[1..][j].Some? && row == RealizedRow(tenors[1..][j], ms[1..][j].value);
          assert ms[j + 1].Some? && row == RealizedRow(tenors[j + 1], ms[j + 1].value);
        }
        if exists j :: 0 <= j < |tenors| && ms[j].Some? && row == RealizedRow(tenors[j], ms[j].value) {
          var j :| 0 <= j < |tenors| && ms[j].Some? && row == RealizedRow(tenors[j], ms[j].value);
          if j > 0 {
            assert ms[1..][j - 1].Some? && row == RealizedRow(tenors[1..][j - 1], ms[1..][j - 1].value);
          }
        }
      }
    }
  }

  lemma {:induction false} RowsForDistinct(tenors: seq<nat>, ms: seq<Option<seq<Option<real>>>>)
    requires |ms| == |tenors|
    requires forall i, j :: 0 <= i < j < |tenors| ==> tenors[i] != tenors[j]
    ensures forall i, j :: 0 <= i < j < |RowsFor(tenors, ms)| ==>
      RowsFor(tenors, ms)[i].tenor != RowsFor(tenors, ms)[j].tenor
  {
    if |tenors| > 0 {
      var rest := RowsFor(tenors[1..], ms[1..]);
      RowsForDistinct(tenors[1..], ms[1..]);
      if ms[0].Some? {
        RowsForMembers(tenors[1..], ms[1..]);
        var r := RowsFor(tenors, ms);
        assert r == [RealizedRow(tenors[0], ms[0].value)] + rest;
        forall i | 0 <= i < |rest| ensures rest[i].tenor != tenors[0] {
          assert rest[i] in rest;
        }
        assert forall i :: 1 <= i < |r| ==> r[i] == rest[i - 1];
      }
    }
  }

  /** The windows `compute_realized_vol` uses when none are given (its
      own default list, equal to the configured realized-vol windows). */
  const DefaultWindows: seq<nat> := [10, 20, 60, 90, 120, 180]

  /** `compute_realized_vol(swap_rates, as_of_date, windows)`: one row per
      tenor whose visible series is at least as long as every window,
      holding that series' realized vol for each window in list order. An
      empty window list fails as soon as some rate is visible. */
  function ComputeRealizedVol(obs: seq<RateObs>, asOf: int, sqrt: Root, windows: seq<nat> := DefaultWindows)
    : (r: Result<seq<RealizedRow>, RealizedError>)
    ensures r.Failure? <==> |windows| == 0 && exists i :: 0 <= i < |obs| && obs[i].date <= asOf
    ensures r.Success? ==> forall t :: (exists row :: row in r.value && row.tenor == t) <==>
      LongEnough(RateSeries(obs, asOf, t), windows)
    ensures r.Success? ==> forall row :: row in r.value ==>
      LongEnough(RateSeries(obs, asOf, row.tenor), windows) &&
      row.vols == SeriesRealized(RateSeries(obs, asOf, row.tenor), windows, sqrt)
    ensures r.Success? ==> forall i, j :: 0 <= i < j < |r.value| ==> r.value[i].tenor != r.value[j].tenor
  {
    var vis := VisibleRates(obs, asOf);
    var tenors := RateTenors(vis);
    VisibleTenorsExist(obs, asOf, tenors);
    if |windows| == 0 && |tenors| > 0 then
      Failure(EmptyWindowList)
    else
      var ms := seq(|tenors|, j requires 0 <= j < |tenors| => TenorRealized(obs, asOf, tenors[j], windows, sqrt));
      RowsOfTenors(obs, asOf, tenors, ms, windows, sqrt, RowsFor(tenors, ms));
      Success(RowsFor(tenors, ms))
  }

  /** With a non-empty window list, a tenor has a row iff it has at least
      one visible observation and no fewer than the longest window. */
  lemma RowIffEnoughObservations(obs: seq<RateObs>, asOf: int, sqrt: Root, windows: seq<nat>, t: nat)
    requires |windows| > 0
    ensures ComputeRealizedVol(obs, asOf, sqrt, windows).Success?
    ensures (exists row :: row in ComputeRealizedVol(obs, asOf, sqrt, windows).value && row.tenor == t) <==>
      |RatePositions(obs, asOf, t)| > 0 &&
      forall k :: 0 <= k < |windows| ==> |RatePositions(obs, asOf, t)| >= windows[k]
  {
    RateSeriesIsSortedVisibleHistory(obs, asOf, t);
  }

  lemma VisibleTenorsExist(obs: seq<RateObs>, asOf: int, tenors: seq<nat>)
    requires tenors == RateTenors(VisibleRates(obs, asOf))
    ensures |tenors| > 0 <==> exists i :: 0 <= i < |obs| && obs[i].date <= asOf
  {
    var vis := VisibleRates(obs, asOf);
    if exists i :: 0 <= i < |obs| && obs[i].date <= asOf {
      var i :| 0 <= i < |obs| && obs[i].date <= asOf;
      assert obs[i] in vis;
      var j :| 0 <= j < |vis| && vis[j] == obs[i];
      assert vis[j].tenor in tenors;
    }
    if |tenors| > 0 {
      assert tenors[0] in tenors;
      var j :| 0 <= j < |vis| && vis[j].tenor == tenors[0];
      assert vis[j] in vis;
      var i :| 0 <= i < |obs| && obs[i] == vis[j];
    }
  }

  lemma TenorIsVisible(obs: seq<RateObs>, asOf: int, tenors: seq<nat>, t: nat)
    requires tenors == RateTenors(VisibleRates(obs, asOf))
    requires |RateSeries(obs, asOf, t)| > 0
    ensures t in tenors
  {
    assert |RateSeries(obs, asOf, t)| == |RatePoints(VisibleRates(obs, asOf), t)|;
  }

  lemma RowsOfTenors(obs: seq<RateObs>, asOf: int, tenors: seq<nat>, ms: seq<Option<seq<Option<real>>>>,
                     windows: seq<nat>, sqrt: Root, r: seq<RealizedRow>)
    requires tenors == RateTenors(VisibleRates(obs, asOf))
    requires |ms| == |tenors|
    requires forall j :: 0 <= j < |tenors| ==> ms[j] == TenorRealized(obs, asOf, tenors[j], windows, sqrt)
    requires r == RowsFor(tenors, ms)
    ensures forall t :: (exists row :: row in r && row.tenor == t) <==>
      LongEnough(RateSeries(obs, asOf, t), windows)
    ensures forall row :: row in r ==>
      LongEnough(RateSeries(obs, asOf, row.tenor), windows) &&
      row.vols == SeriesRealized(RateSeries(obs, asOf, row.tenor), windows, sqrt)
    ensures forall i, j :: 0 <= i < j < |r| ==> r[i].tenor != r[j].tenor
  {
    RowsForDistinct(tenors, ms);
    RowsHoldTheirSeries(obs, asOf, tenors, ms, windows, sqrt, r);
    RowsCoverLongTenors(obs, asOf, tenors, ms, windows, sqrt, r);
  }

  lemma RowsHoldTheirSeries(obs: seq<RateObs>, asOf: int, tenors: seq<nat>, ms: seq<Option<seq<Option<real>>>>,
                            windows: seq<nat>, sqrt: Root, r: seq<RealizedRow>)
    requires |ms| == |tenors|
    requires forall j :: 0 <= j < |tenors| ==> ms[j] == TenorRealized(obs, asOf, tenors[j], windows, sqrt)
    requires r == RowsFor(tenors, ms)
    ensures forall row :: row in r ==>
      LongEnough(RateSeries(obs, asOf, row.tenor), windows) &&
      row.vols == SeriesRealized(RateSeries(obs, asOf, row.tenor), windows, sqrt)
  {
    RowsForMembers(tenors, ms);
    forall row | row in r
      ensures LongEnough(RateSeries(obs, asOf, row.tenor), windows)
      ensures row.vols == SeriesRealized(RateSeries(obs, asOf, row.tenor), windows, sqrt)
    {
      var j :| 0 <= j < |tenors| && ms[j].Some? && row == RealizedRow(tenors[j], ms[j].value);
    }
  }

  lemma RowsCoverLongTenors(obs: seq<RateObs>, asOf: int, tenors: seq<nat>, ms: seq<Option<seq<Option<real>>>>,
                            windows: seq<nat>, sqrt: Root, r: seq<RealizedRow>)
    requires tenors == RateTenors(VisibleRates(obs, asOf))
    requires |ms| == |tenors|
    requires forall j :: 0 <= j < |tenors| ==> ms[j] == TenorRealized(obs, asOf, tenors[j], windows, sqrt)
    requires r == RowsFor(tenors, ms)
    ensures forall t :: (exists row :: row in r && row.tenor == t) <==>
      LongEnough(RateSeries(obs, asOf, t), windows)
  {
    RowsForMembers(tenors, ms);
    forall t ensures (exists row :: row in r && row.tenor == t) <==>
      LongEnough(RateSeries(obs, asOf, t), windows)
    {
      if LongEnough(RateSeries(obs, asOf, t), windows) {
        TenorIsVisible(obs, asOf, tenors, t);
        var j :| 0 <= j < |tenors| && tenors[j] == t;
        assert ms[j].Some?;
        assert RealizedRow(tenors[j], ms[j].value) in r;
      }
      if exists row :: row in r && row.tenor == t {
        var row :| row in r && row.tenor == t;
        var j :| 0 <= j < |tenors| && ms[j].Some? && row == RealizedRow(tenors[j], ms[j].value);
      }
    }
  }

  /** With the default windows (10 to 180 days) every emitted value is
      defined. */
  lemma DefaultWindowsAllDefined(s: seq<real>, sqrt: Root)
    requires LongEnough(s, DefaultWindows)
    ensures forall k :: 0 <= k < |DefaultWindows| ==>
      SeriesRealized(s, DefaultWindows, sqrt)[k].Some?
  {
    forall k | 0 <= k < |DefaultWindows|
      ensures SeriesRealized(s, DefaultWindows, sqrt)[k].Some?
    {
      WindowVolDefined(s, DefaultWindows[k], sqrt);
    }
  }
}

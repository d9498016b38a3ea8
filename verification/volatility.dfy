/** The volatility helper library (src/volatility.py): shifted differences,
    realized volatility from swap rates, rolling statistics, the z-score and
    the daily/annualized unit conversions. */
module Volatility {
  import opened Options
  import opened Stats
  import opened Rolling
  import Config

  /** sqrt(TRADING_DAYS_PER_YEAR), the annualization factor. */
  function Sqrt252(sqrt: Root): (r: real)
    ensures r > 0.0
  {
    sqrt(Config.TradingDaysPerYear as real)
  }

  // ---------------------------------------------------------------- changes

  /** `data - data.shift(p)`: the change over `p` positions, undefined for
      the first `p` positions. */
  function Change(data: seq<real>, p: nat): (r: seq<Option<real>>)
    ensures |r| == |data|
    ensures forall i :: 0 <= i < |data| ==> (r[i].Some? <==> i >= p)
    ensures forall i :: p <= i < |data| ==> data[i - p] + r[i].value == data[i]
  {
    seq(|data|, i requires 0 <= i < |data| => if i >= p then Some(data[i] - data[i - p]) else None)
  }

  /** The periods `calculate_changes` uses when none are given: 1 day, 1
      week and 1 month of trading days. */
  const DefaultChangePeriods: seq<nat> := [1, 5, 20]

  /** `calculate_changes`: one change column per requested period. */
  function CalculateChanges(data: seq<real>, periods: seq<nat> := DefaultChangePeriods): (r: seq<seq<Option<real>>>)
    ensures |r| == |periods|
    ensures forall k :: 0 <= k < |periods| ==> |r[k]| == |data|
    ensures forall k, i :: 0 <= k < |periods| && 0 <= i < |data| ==>
      (r[k][i].Some? <==> i >= periods[k])
    ensures forall k, i :: 0 <= k < |periods| && periods[k] <= i < |data| ==>
      data[i - periods[k]] + r[k][i].value == data[i]
  {
    seq(|periods|, k requires 0 <= k < |periods| => Change(data, periods[k]))
  }

  /** Called with its default periods, `calculate_changes` gives the 1-day,
      1-week and 1-month changes. */
  lemma DefaultChangesAreDayWeekMonth(data: seq<real>)
    ensures CalculateChanges(data) == [Change(data, 1), Change(data, 5), Change(data, 20)]
  {
  }

  // ------------------------------------------------------- realized vol

  /** The strictly positive rates, in order (`rates[rates > 0]`). */
  function PositiveRates(rates: seq<real>): (r: seq<real>)
    ensures |r| <= |rates|
    ensures forall x :: x in r ==> x > 0.0
  {
    if |rates| == 0 then []
    else
      var last := rates[|rates| - 1];
      PositiveRates(rates[..|rates| - 1]) + (if last > 0.0 then [last] else [])
  }

  function CountPositive(rates: seq<real>): nat {
    |PositiveRates(rates)|
  }

  lemma {:induction false} PositiveRatesConcat(a: seq<real>, b: seq<real>)
    ensures PositiveRates(a + b) == PositiveRates(a) + PositiveRates(b)
  {
    if |b| == 0 {
      assert a + b == a;
    } else {
      assert (a + b)[..|a + b| - 1] == a + b[..|b| - 1];
      PositiveRatesConcat(a, b[..|b| - 1]);
    }
  }

  /** A series without non-positive rates is kept whole. */
  lemma {:induction false} PositiveRatesOfPositive(rates: seq<real>)
    requires forall i :: 0 <= i < |rates| ==> rates[i] > 0.0
    ensures PositiveRates(rates) == rates
  {
    if |rates| > 0 {
      PositiveRatesOfPositive(rates[..|rates| - 1]);
      assert rates == rates[..|rates| - 1] + [rates[|rates| - 1]];
    }
  }

  /** Every positive rate's place in the cleaned series holds that rate. */
  lemma PositiveRateIndex(rates: seq<real>, i: nat)
    requires i < |rates| && rates[i] > 0.0
    ensures CountPositive(rates[..i]) < CountPositive(rates)
    ensures PositiveRates(rates)[CountPositive(rates[..i])] == rates[i]
  {
    var a, x, b := rates[..i], rates[i], rates[i + 1..];
    assert rates == (a + [x]) + b;
    PositiveRatesConcat(a + [x], b);
    PositiveRatesConcat(a, [x]);
    SinglePositive(x);
    var pa, pb := PositiveRates(a), PositiveRates(b);
    assert PositiveRates(rates) == pa + [x] + pb;
    assert (pa + [x] + pb)[|pa|] == x;
  }

  lemma SinglePositive(x: real)
    requires x > 0.0
    ensures PositiveRates([x]) == [x]
  {
    assert [x][..0] == [];
  }

  lemma PrefixCountsBelowTotal(rates: seq<real>)
    ensures forall i :: 0 <= i < |rates| && rates[i] > 0.0 ==> CountPositive(rates[..i]) < CountPositive(rates)
  {
    forall i | 0 <= i < |rates| && rates[i] > 0.0
      ensures CountPositive(rates[..i]) < CountPositive(rates)
    {
      PositiveRateIndex(rates, i);
    }
  }

  /** Differences between consecutive entries scaled to basis points; the
      first position has no predecessor (`(s - s.shift(1)) * scale`). */
  function ScaledDiffs(s: seq<real>, scale: real): (r: seq<Option<real>>)
    ensures |r| == |s|
    ensures |s| > 0 ==> r[0].None?
    ensures forall j {:trigger r[j]} :: 1 <= j < |s| ==> r[j] == Some(Scaled(s[j] - s[j - 1], scale))
  {
    seq(|s|, j requires 0 <= j < |s| => if j == 0 then None else Some(Scaled(s[j] - s[j - 1], scale)))
  }

  /** `x` times `k`. */
  function Scaled(x: real, k: real): real {
    x * k
  }

  /** Basis points per unit of rate: 100 for percent quotes, 10000 for decimals. */
  function BpScale(ratesInPercent: bool): real {
    if ratesInPercent then 100.0 else 10000.0
  }

  /** `min(5, window // 2)`. */
  function RealizedMinPeriods(window: nat): nat {
    if window / 2 < 5 then window / 2 else 5
  }

  lemma MinPeriodsAtMostHalf(window: nat)
    ensures RealizedMinPeriods(window) <= window / 2
  {
  }

  /** Number of defined differences in the window ending at position j of a
      difference series. */
  function DiffsInWindow(j: nat, w: nat): nat {
    if w <= j then w else j
  }

  function Max2(a: nat, b: nat): nat {
    if a < b then b else a
  }

  /** `realized_vol.reindex(rates.index)`: the values computed on the
      positive rates are put back at the positions those rates came from;
      every other position is undefined. */
  function Reindex(rates: seq<real>, vals: seq<Option<real>>): (r: seq<Option<real>>)
    requires |vals| == CountPositive(rates)
    ensures |r| == |rates|
    decreases |rates|
  {
    if |rates| == 0 then []
    else
      var n := |rates| - 1;
      if rates[n] > 0.0 then
        Reindex(rates[..n], vals[..|vals| - 1]) + [vals[|vals| - 1]]
      else
        Reindex(rates[..n], vals) + [None]
  }

  lemma {:induction false} ReindexAt(rates: seq<real>, vals: seq<Option<real>>, i: nat)
    requires |vals| == CountPositive(rates)
    requires i < |rates|
    ensures rates[i] > 0.0 ==> CountPositive(rates[..i]) < |vals|
    ensures Reindex(rates, vals)[i] == (if rates[i] > 0.0 then vals[CountPositive(rates[..i])] else None)
    decreases |rates|
  {
    var n := |rates| - 1;
    var front := rates[..n];
    if i < n {
      assert front[..i] == rates[..i];
      if rates[n] > 0.0 {
        ReindexAt(front, vals[..|vals| - 1], i);
      } else {
        ReindexAt(front, vals, i);
      }
    } else {
      assert rates[..i] == front;
    }
  }

  lemma ReindexAll(rates: seq<real>, vals: seq<Option<real>>)
    requires |vals| == CountPositive(rates)
    ensures forall i :: 0 <= i < |rates| && rates[i] > 0.0 ==> CountPositive(rates[..i]) < |vals|
    ensures forall i :: 0 <= i < |rates| ==>
      Reindex(rates, vals)[i] == (if rates[i] > 0.0 then vals[CountPositive(rates[..i])] else None)
  {
    forall i | 0 <= i < |rates|
      ensures rates[i] > 0.0 ==> CountPositive(rates[..i]) < |vals|
      ensures Reindex(rates, vals)[i] == (if rates[i] > 0.0 then vals[CountPositive(rates[..i])] else None)
    {
      ReindexAt(rates, vals, i);
    }
  }

  /** The scaled changes between consecutive entries of a plain series:
      entry i is `(t[i + 1] - t[i]) * scale`. */
  function ConsecutiveChanges(t: seq<real>, scale: real): (r: seq<real>)
    ensures |r| == if |t| == 0 then 0 else |t| - 1
    ensures forall i :: 0 <= i < |r| ==> r[i] == Scaled(t[i + 1] - t[i], scale)
  {
    if |t| == 0 then [] else seq(|t| - 1, i requires 0 <= i < |t| - 1 => Scaled(t[i + 1] - t[i], scale))
  }

  /** The scaled changes between the last `k + 1` entries of `t`, where
      `k = DiffsInWindow(|t| - 1, window)` is the number of changes a
      window of that width holds at the last entry. */
  function TrailingChanges(t: seq<real>, window: nat, scale: real): (r: seq<real>)
    requires |t| > 0
    ensures |r| == DiffsInWindow(|t| - 1, window)
  {
    ConsecutiveChanges(t[|t| - 1 - DiffsInWindow(|t| - 1, window)..], scale)
  }

  /** The unannualized realized vol read at the last entry of `t`: the
      sample std of its trailing changes. This is the reference the rolling
      computations below are proved against. */
  function TrailingStd(t: seq<real>, window: nat, scale: real, sqrt: Root): real
    requires |t| > 0 && DiffsInWindow(|t| - 1, window) >= 2
  {
    SampleStd(TrailingChanges(t, window, scale), sqrt)
  }

  /** The defined values in the window ending at j of the shifted
      differences are the changes between the last `DiffsInWindow(j, w) + 1`
      entries of the series up to j. */
  lemma DiffWindowIsChanges(s: seq<real>, scale: real, j: nat, w: nat)
    requires j < |s|
    ensures Present(WindowAt(ScaledDiffs(s, scale), j, w)) ==
      ConsecutiveChanges(s[j - DiffsInWindow(j, w) .. j + 1], scale)
  {
    if w <= j {
      DiffWindowFull(s, scale, j, w);
    } else {
      DiffWindowFromStart(s, scale, j, w);
    }
  }

  lemma DiffWindowFull(s: seq<real>, scale: real, j: nat, w: nat)
    requires w <= j < |s|
    ensures Present(WindowAt(ScaledDiffs(s, scale), j, w)) == ConsecutiveChanges(s[j - w .. j + 1], scale)
  {
    var d := ScaledDiffs(s, scale);
    var win := WindowAt(d, j, w);
    var t := s[j - w .. j + 1];
    forall m | 0 <= m < |win| ensures win[m] == Some(Scaled(t[m + 1] - t[m], scale)) {
      assert win[m] == d[j + 1 - w + m];
    }
    PresentIsChanges(win, t, scale);
  }

  lemma DiffWindowFromStart(s: seq<real>, scale: real, j: nat, w: nat)
    requires j < |s| && j < w
    ensures Present(WindowAt(ScaledDiffs(s, scale), j, w)) == ConsecutiveChanges(s[..j + 1], scale)
  {
    var d := ScaledDiffs(s, scale);
    var win := WindowAt(d, j, w);
    var t := s[..j + 1];
    var tail := win[1..];
    assert win[0] == d[0];
    forall m | 0 <= m < |tail| ensures tail[m] == Some(Scaled(t[m + 1] - t[m], scale)) {
      assert tail[m] == d[m + 1];
    }
    PresentSkipsUndefined(win);
    PresentIsChanges(tail, t, scale);
  }

  lemma PresentSkipsUndefined(win: seq<Option<real>>)
    requires |win| > 0 && win[0].None?
    ensures Present(win) == Present(win[1..])
  {
  }

  lemma PresentIsChanges(win: seq<Option<real>>, t: seq<real>, scale: real)
    requires |t| == |win| + 1
    requires forall m {:trigger win[m]} :: 0 <= m < |win| ==> win[m] == Some(Scaled(t[m + 1] - t[m], scale))
    ensures Present(win) == ConsecutiveChanges(t, scale)
  {
    assert forall m :: 0 <= m < |win| ==> win[m].Some?;
    PresentAllDefined(win);
  }

  /** A defined rolling std of the shifted differences at j is the
      trailing std of the series up to j. */
  lemma RollingStdIsTrailing(s: seq<real>, scale: real, j: nat, w: nat, minp: nat, sqrt: Root)
    requires j < |s|
    ensures RollingStd(ScaledDiffs(s, scale), j, w, minp, sqrt).Some? ==>
      && DiffsInWindow(j, w) >= 2
      && RollingStd(ScaledDiffs(s, scale), j, w, minp, sqrt).value == TrailingStd(s[..j + 1], w, scale, sqrt)
  {
    var d := ScaledDiffs(s, scale);
    var rs := RollingStd(d, j, w, minp, sqrt);
    if rs.Some? {
      PresentInDifferenceWindow(d, j, w);
      DiffWindowIsChanges(s, scale, j, w);
      var k := DiffsInWindow(j, w);
      var u := s[..j + 1];
      assert u[|u| - 1 - k..] == s[j - k .. j + 1];
      var xs := TrailingChanges(u, w, scale);
      assert rs.value == SampleStd(xs, sqrt);
    }
  }

  /** The same, scaled by a positive factor. */
  lemma RollingIsTrailing(s: seq<real>, scale: real, j: nat, w: nat, minp: nat, factor: real, sqrt: Root)
    requires j < |s| && factor > 0.0
    ensures ScaleOpt(RollingStd(ScaledDiffs(s, scale), j, w, minp, sqrt), factor).Some? ==>
      && DiffsInWindow(j, w) >= 2
      && ScaleOpt(RollingStd(ScaledDiffs(s, scale), j, w, minp, sqrt), factor).value ==
         Scaled(TrailingStd(s[..j + 1], w, scale, sqrt), factor)
  {
    RollingStdIsTrailing(s, scale, j, w, minp, sqrt);
  }

  /** A rate series that never moved has zero trailing realized vol. */
  lemma TrailingStdOfConstant(t: seq<real>, window: nat, scale: real, sqrt: Root, c: real)
    requires |t| > 0 && DiffsInWindow(|t| - 1, window) >= 2
    requires forall i :: 0 <= i < |t| ==> t[i] == c
    ensures TrailingStd(t, window, scale, sqrt) == 0.0
  {
    var u := t[|t| - 1 - DiffsInWindow(|t| - 1, window)..];
    var ch := TrailingChanges(t, window, scale);
    ChangesOfConstant(u, scale, c);
    assert ch == ConsecutiveChanges(u, scale);
    ConstantHasZeroVariance(ch);
  }

  lemma ChangesOfConstant(u: seq<real>, scale: real, c: real)
    requires forall i :: 0 <= i < |u| ==> u[i] == c
    ensures forall m :: 0 <= m < |ConsecutiveChanges(u, scale)| ==> ConsecutiveChanges(u, scale)[m] == 0.0
  {
    var ch := ConsecutiveChanges(u, scale);
    forall m | 0 <= m < |ch| ensures ch[m] == 0.0 {
      ScaledZero(u[m + 1], u[m], scale);
    }
  }

  lemma ScaledZero(a: real, b: real, k: real)
    requires a == b
    ensures Scaled(a - b, k) == 0.0
  {
  }

  /** sqrt(252) when annualizing, 1 otherwise. */
  function AnnualFactor(annualize: bool, sqrt: Root): (r: real)
    ensures r > 0.0
  {
    if annualize then Sqrt252(sqrt) else 1.0
  }

  /** The rolling realized vol on the cleaned (positive) rates: the rolling
      sample std of the scaled differences with `min(5, window // 2)`
      minimum periods, times sqrt(252) when annualizing. */
  function RollingRealized(clean: seq<real>, window: nat, annualize: bool, ratesInPercent: bool, sqrt: Root)
    : (r: seq<Option<real>>)
    requires |clean| > 0
    ensures |r| == |clean|
    ensures forall j :: 0 <= j < |clean| ==>
      (r[j].Some? <==> DiffsInWindow(j, window) >= Max2(RealizedMinPeriods(window), 2))
    ensures forall j :: 0 <= j < |clean| && r[j].Some? ==> r[j].value >= 0.0
    ensures forall j :: 0 <= j < |clean| && r[j].Some? ==>
      DiffsInWindow(j, window) >= 2 &&
      r[j].value == Scaled(TrailingStd(clean[..j + 1], window, BpScale(ratesInPercent), sqrt), AnnualFactor(annualize, sqrt))
  {
    var scale := BpScale(ratesInPercent);
    var diffs := ScaledDiffs(clean, scale);
    var factor := AnnualFactor(annualize, sqrt);
    var rolled := seq(|clean|, j requires 0 <= j < |clean| =>
      ScaleOpt(RollingStd(diffs, j, window, RealizedMinPeriods(window), sqrt), factor));
    RealizedGate(clean, diffs, rolled, window, factor, sqrt);
    RealizedValues(clean, scale, rolled, window, factor, sqrt);
    rolled
  }

  lemma RealizedGate(clean: seq<real>, diffs: seq<Option<real>>, rolled: seq<Option<real>>,
                     window: nat, factor: real, sqrt: Root)
    requires |clean| > 0 && factor > 0.0
    requires |diffs| == |clean| && diffs[0].None?
    requires forall j :: 1 <= j < |diffs| ==> diffs[j].Some?
    requires |rolled| == |clean|
    requires forall j :: 0 <= j < |clean| ==>
      rolled[j] == ScaleOpt(RollingStd(diffs, j, window, RealizedMinPeriods(window), sqrt), factor)
    ensures forall j :: 0 <= j < |clean| ==>
      (rolled[j].Some? <==> DiffsInWindow(j, window) >= Max2(RealizedMinPeriods(window), 2))
  {
    forall j | 0 <= j < |clean|
      ensures rolled[j].Some? <==> DiffsInWindow(j, window) >= Max2(RealizedMinPeriods(window), 2)
    {
      PresentInDifferenceWindow(diffs, j, window);
    }
  }

  lemma RealizedValues(clean: seq<real>, scale: real, rolled: seq<Option<real>>,
                       window: nat, factor: real, sqrt: Root)
    requires factor > 0.0 && |rolled| == |clean|
    requires forall j :: 0 <= j < |clean| ==>
      rolled[j] == ScaleOpt(RollingStd(ScaledDiffs(clean, scale), j, window, RealizedMinPeriods(window), sqrt), factor)
    ensures forall j :: 0 <= j < |clean| && rolled[j].Some? ==>
      DiffsInWindow(j, window) >= 2 && rolled[j].value == Scaled(TrailingStd(clean[..j + 1], window, scale, sqrt), factor)
  {
    forall j | 0 <= j < |clean| && rolled[j].Some?
      ensures DiffsInWindow(j, window) >= 2 && rolled[j].value == Scaled(TrailingStd(clean[..j + 1], window, scale, sqrt), factor)
    {
      RollingIsTrailing(clean, scale, j, window, RealizedMinPeriods(window), factor, sqrt);
    }
  }

  /** Multiplies a defined value by a positive factor (annualization). */
  function ScaleOpt(o: Option<real>, factor: real): (r: Option<real>)
    requires factor > 0.0
    ensures r.Some? <==> o.Some?
    ensures o.Some? && o.value >= 0.0 ==> r.value >= 0.0
  {
    match o
    case None => None
    case Some(v) => Some(Scaled(v, factor))
  }

  /** `v` is the realized vol at position i of `rates`: the trailing
      realized vol of the positive rates up to and including position i.
      It depends on nothing after position i. */
  predicate RealizedAt(rates: seq<real>, i: nat, window: nat, annualize: bool, ratesInPercent: bool,
                       sqrt: Root, v: real)
    requires i < |rates|
  {
    var t := PositiveRates(rates[..i + 1]);
    && |t| > 0
    && DiffsInWindow(|t| - 1, window) >= 2
    && v == Scaled(TrailingStd(t, window, BpScale(ratesInPercent), sqrt), AnnualFactor(annualize, sqrt))
  }

  /** `calculate_realized_vol(rates, window, annualize, rates_in_percent)`:
      rates that are not strictly positive are dropped, the rolling
      realized vol is computed on the survivors, and the result is put back
      on the positions of the input. */
  function CalculateRealizedVol(rates: seq<real>, window: nat, sqrt: Root,
                                annualize: bool := true, ratesInPercent: bool := true)
    : (r: seq<Option<real>>)
    ensures |r| == |rates|
    ensures CountPositive(rates) < 2 ==> forall i :: 0 <= i < |rates| ==> r[i].None?
    ensures forall i :: 0 <= i < |rates| ==>
      (r[i].Some? <==>
        rates[i] > 0.0 &&
        DiffsInWindow(CountPositive(rates[..i]), window) >= Max2(RealizedMinPeriods(window), 2))
    ensures forall i :: 0 <= i < |rates| && r[i].Some? ==> r[i].value >= 0.0
    ensures forall i :: 0 <= i < |rates| && r[i].Some? ==>
      RealizedAt(rates, i, window, annualize, ratesInPercent, sqrt, r[i].value)
  {
    var clean := PositiveRates(rates);
    if |clean| < 2 then
      NoSurvivorsUndefined(rates, window);
      seq(|rates|, i => None)
    else
      var vals := RollingRealized(clean, window, annualize, ratesInPercent, sqrt);
      ReindexAll(rates, vals);
      ReindexedRealizedAt(rates, window, annualize, ratesInPercent, sqrt, vals);
      Reindex(rates, vals)
  }

  lemma ReindexedRealizedAt(rates: seq<real>, window: nat, annualize: bool, ratesInPercent: bool, sqrt: Root,
                            vals: seq<Option<real>>)
    requires |PositiveRates(rates)| > 0
    requires vals == RollingRealized(PositiveRates(rates), window, annualize, ratesInPercent, sqrt)
    ensures forall i :: 0 <= i < |rates| && Reindex(rates, vals)[i].Some? ==>
      RealizedAt(rates, i, window, annualize, ratesInPercent, sqrt, Reindex(rates, vals)[i].value)
  {
    forall i | 0 <= i < |rates| && Reindex(rates, vals)[i].Some?
      ensures RealizedAt(rates, i, window, annualize, ratesInPercent, sqrt, Reindex(rates, vals)[i].value)
    {
      ReindexAt(rates, vals, i);
      if rates[i] > 0.0 {
        RealizedAtPositive(rates, i, window, annualize, ratesInPercent, sqrt, vals);
      }
    }
  }

  /** The value the positive rates carry for the rate at `i` is the
      realized vol over the positive rates up to `i`. */
  lemma RealizedAtPositive(rates: seq<real>, i: nat, window: nat, annualize: bool, ratesInPercent: bool, sqrt: Root,
                           vals: seq<Option<real>>)
    requires i < |rates| && rates[i] > 0.0 && |PositiveRates(rates)| > 0
    requires vals == RollingRealized(PositiveRates(rates), window, annualize, ratesInPercent, sqrt)
    ensures CountPositive(rates[..i]) < |vals|
    ensures vals[CountPositive(rates[..i])].Some? ==>
      RealizedAt(rates, i, window, annualize, ratesInPercent, sqrt, vals[CountPositive(rates[..i])].value)
  {
    PositivePrefix(rates, i);
  }

  /** The positive rates up to and including a positive rate at i are the
      first `CountPositive(rates[..i]) + 1` positive rates. */
  lemma PositivePrefix(rates: seq<real>, i: nat)
    requires i < |rates| && rates[i] > 0.0
    ensures CountPositive(rates[..i]) < CountPositive(rates)
    ensures PositiveRates(rates[..i + 1]) == PositiveRates(rates)[..CountPositive(rates[..i]) + 1]
  {
    var a, b := rates[..i + 1], rates[i + 1..];
    SplitAt(rates, i);
    PositiveRatesConcat(a, b);
    PositiveRatesSnoc(rates[..i], rates[i]);
    var pa, pb := PositiveRates(a), PositiveRates(b);
    PrefixOfConcat(pa, pb);
  }

  lemma WholePrefix<T>(s: seq<T>)
    ensures s[..|s|] == s
  {
  }

  lemma SplitAt<T>(s: seq<T>, i: nat)
    requires i < |s|
    ensures s == s[..i + 1] + s[i + 1..]
    ensures s[..i + 1] == s[..i] + [s[i]]
  {
  }

  lemma PositiveRatesSnoc(p: seq<real>, x: real)
    requires x > 0.0
    ensures PositiveRates(p + [x]) == PositiveRates(p) + [x]
  {
    assert (p + [x])[..|p|] == p;
  }

  lemma PrefixOfConcat<T>(x: seq<T>, y: seq<T>)
    ensures (x + y)[..|x|] == x
  {
  }



  lemma NoSurvivorsUndefined(rates: seq<real>, window: nat)
    requires CountPositive(rates) < 2
    ensures forall i :: 0 <= i < |rates| && rates[i] > 0.0 ==>
      DiffsInWindow(CountPositive(rates[..i]), window) < 2
  {
    forall i | 0 <= i < |rates| && rates[i] > 0.0
      ensures DiffsInWindow(CountPositive(rates[..i]), window) < 2
    {
      PositiveRateIndex(rates, i);
    }
  }

  /** When every positive rate is the same, every defined realized vol is 0. */
  lemma RealizedVolOfConstantRates(rates: seq<real>, c: real, window: nat, annualize: bool,
                                   ratesInPercent: bool, sqrt: Root)
    requires forall i :: 0 <= i < |rates| && rates[i] > 0.0 ==> rates[i] == c
    ensures forall i :: 0 <= i < |rates| ==>
      var r := CalculateRealizedVol(rates, window, sqrt, annualize, ratesInPercent);
      r[i].Some? ==> r[i].value == 0.0
  {
    var r := CalculateRealizedVol(rates, window, sqrt, annualize, ratesInPercent);
    forall i | 0 <= i < |rates| && r[i].Some? ensures r[i].value == 0.0 {
      RealizedAtOfConstant(rates, i, c, window, annualize, ratesInPercent, sqrt, r[i].value);
    }
  }

  lemma RealizedAtOfConstant(rates: seq<real>, i: nat, c: real, window: nat, annualize: bool,
                             ratesInPercent: bool, sqrt: Root, v: real)
    requires i < |rates|
    requires forall k :: 0 <= k < |rates| && rates[k] > 0.0 ==> rates[k] == c
    requires RealizedAt(rates, i, window, annualize, ratesInPercent, sqrt, v)
    ensures v == 0.0
  {
    var t := PositiveRates(rates[..i + 1]);
    CleanPrefixIsConstant(rates, i, c, t);
    TrailingStdOfConstant(t, window, BpScale(ratesInPercent), sqrt, c);
    ScaledZero(TrailingStd(t, window, BpScale(ratesInPercent), sqrt), 0.0, AnnualFactor(annualize, sqrt));
  }

  lemma CleanPrefixIsConstant(rates: seq<real>, i: nat, c: real, t: seq<real>)
    requires i < |rates| && t == PositiveRates(rates[..i + 1])
    requires forall k :: 0 <= k < |rates| && rates[k] > 0.0 ==> rates[k] == c
    ensures forall k :: 0 <= k < |t| ==> t[k] == c
  {
    CleanIsConstant(rates[..i + 1], c);
  }

  lemma CleanIsConstant(rates: seq<real>, c: real)
    requires forall i :: 0 <= i < |rates| && rates[i] > 0.0 ==> rates[i] == c
    ensures forall k :: 0 <= k < |PositiveRates(rates)| ==> PositiveRates(rates)[k] == c
  {
    if |rates| > 0 {
      CleanIsConstant(rates[..|rates| - 1], c);
    }
  }

  /** The annualized realized vol is the raw one times sqrt(252), position by position. */
  lemma AnnualizedIsScaledRaw(rates: seq<real>, window: nat, ratesInPercent: bool, sqrt: Root)
    ensures forall i :: 0 <= i < |rates| ==>
      CalculateRealizedVol(rates, window, sqrt, true, ratesInPercent)[i] ==
      ScaleOpt(CalculateRealizedVol(rates, window, sqrt, false, ratesInPercent)[i], Sqrt252(sqrt))
  {
    var clean := PositiveRates(rates);
    if |clean| >= 2 {
      var ann := RollingRealized(clean, window, true, ratesInPercent, sqrt);
      var raw := RollingRealized(clean, window, false, ratesInPercent, sqrt);
      assert forall j :: 0 <= j < |clean| ==> ann[j] == ScaleOpt(raw[j], Sqrt252(sqrt));
      ReindexAll(rates, ann);
      ReindexAll(rates, raw);
    }
  }

  /** A rate that is not strictly positive, inserted anywhere, leaves every
      other position's realized vol unchanged and is itself undefined: the
      differences are taken between consecutive surviving rates. */
  lemma NonPositiveRateIsSkipped(rates: seq<real>, i: nat, x: real, window: nat, annualize: bool,
                                 ratesInPercent: bool, sqrt: Root)
    requires i <= |rates| && x <= 0.0
    ensures CalculateRealizedVol(rates[..i] + [x] + rates[i..], window, sqrt, annualize, ratesInPercent) ==
      CalculateRealizedVol(rates, window, sqrt, annualize, ratesInPercent)[..i] + [None] +
      CalculateRealizedVol(rates, window, sqrt, annualize, ratesInPercent)[i..]
  {
    var rates' := rates[..i] + [x] + rates[i..];
    SkipKeepsClean(rates, i, x);
    var r := CalculateRealizedVol(rates, window, sqrt, annualize, ratesInPercent);
    var r' := CalculateRealizedVol(rates', window, sqrt, annualize, ratesInPercent);
    var clean := PositiveRates(rates);
    if |clean| >= 2 {
      var vals := RollingRealized(clean, window, annualize, ratesInPercent, sqrt);
      assert r == Reindex(rates, vals);
      assert r' == Reindex(rates', vals);
      ReindexSkip(rates, i, x, vals);
    } else {
      assert forall k :: 0 <= k < |r'| ==> r'[k].None?;
      assert forall k :: 0 <= k < |r| ==> r[k].None?;
      assert |r'| == |r[..i] + [None] + r[i..]|;
    }
  }

  lemma ReindexSkip(rates: seq<real>, i: nat, x: real, vals: seq<Option<real>>)
    requires i <= |rates| && x <= 0.0
    requires |vals| == CountPositive(rates)
    requires PositiveRates(rates[..i] + [x] + rates[i..]) == PositiveRates(rates)
    ensures Reindex(rates[..i] + [x] + rates[i..], vals) ==
      Reindex(rates, vals)[..i] + [None] + Reindex(rates, vals)[i..]
  {
    var rates' := rates[..i] + [x] + rates[i..];
    var r := Reindex(rates, vals);
    var r' := Reindex(rates', vals);
    var expected := r[..i] + [None] + r[i..];
    forall k | 0 <= k < |rates'| ensures r'[k] == expected[k] {
      ReindexAt(rates', vals, k);
      if k < i {
        SkipPrefixBefore(rates, i, x, k);
        ReindexAt(rates, vals, k);
      } else if k > i {
        SkipPrefixAfter(rates, i, x, k);
        ReindexAt(rates, vals, k - 1);
      }
    }
    assert |r'| == |expected|;
  }

  lemma SkipKeepsClean(rates: seq<real>, i: nat, x: real)
    requires i <= |rates| && x <= 0.0
    ensures PositiveRates(rates[..i] + [x] + rates[i..]) == PositiveRates(rates)
  {
    assert rates == rates[..i] + rates[i..];
    SkipMiddle(rates[..i], x, rates[i..]);
  }

  lemma SkipMiddle(a: seq<real>, x: real, b: seq<real>)
    requires x <= 0.0
    ensures PositiveRates(a + [x] + b) == PositiveRates(a + b)
  {
    PositiveRatesConcat(a + [x], b);
    PositiveRatesConcat(a, [x]);
    PositiveRatesConcat(a, b);
    SingleNonPositive(x);
  }

  lemma SingleNonPositive(x: real)
    requires x <= 0.0
    ensures PositiveRates([x]) == []
  {
    assert [x][..0] == [];
  }

  lemma SkipPrefixBefore(rates: seq<real>, i: nat, x: real, k: nat)
    requires k < i <= |rates|
    ensures (rates[..i] + [x] + rates[i..])[k] == rates[k]
    ensures (rates[..i] + [x] + rates[i..])[..k] == rates[..k]
  {
  }

  lemma SkipPrefixAfter(rates: seq<real>, i: nat, x: real, k: nat)
    requires i < k <= |rates| && x <= 0.0
    ensures (rates[..i] + [x] + rates[i..])[k] == rates[k - 1]
    ensures CountPositive((rates[..i] + [x] + rates[i..])[..k]) == CountPositive(rates[..k - 1])
  {
    var rates' := rates[..i] + [x] + rates[i..];
    assert rates'[..k] == rates[..i] + [x] + rates[i..k - 1];
    assert rates[..k - 1] == rates[..i] + rates[i..k - 1];
    SkipKeepsClean(rates[..k - 1], i, x);
    assert (rates[..k - 1])[..i] == rates[..i];
    assert (rates[..k - 1])[i..] == rates[i..k - 1];
  }

  /** `calculate_realized_vol_multiple_windows`: one column per window,
      REALIZED_VOL_WINDOWS when no list is given. */
  function CalculateRealizedVolMultipleWindows(rates: seq<real>, sqrt: Root, windows: Option<seq<nat>> := None,
                                               ratesInPercent: bool := true, annualize: bool := true)
    : (r: seq<seq<Option<real>>>)
    ensures windows.None? ==> |r| == |Config.RealizedVolWindows|
    ensures windows.Some? ==> |r| == |windows.value|
    ensures forall k :: 0 <= k < |r| ==>
      r[k] == CalculateRealizedVol(rates, windows.GetOr(Config.RealizedVolWindows)[k], sqrt, annualize, ratesInPercent)
    ensures forall k :: 0 <= k < |r| ==> |r[k]| == |rates|
    ensures forall k, i :: 0 <= k < |r| && 0 <= i < |rates| ==>
      (r[k][i].Some? <==>
        rates[i] > 0.0 &&
        DiffsInWindow(CountPositive(rates[..i]), windows.GetOr(Config.RealizedVolWindows)[k]) >=
          Max2(RealizedMinPeriods(windows.GetOr(Config.RealizedVolWindows)[k]), 2))
  {
    var ws := windows.GetOr(Config.RealizedVolWindows);
    seq(|ws|, k requires 0 <= k < |ws| => CalculateRealizedVol(rates, ws[k], sqrt, annualize, ratesInPercent))
  }

  // ------------------------------------------------------ rolling stats

  datatype RollingStatsRow = RollingStatsRow(mean: Option<real>, std: Option<real>, min: Option<real>, max: Option<real>)

  /** Number of observations in the window of width w ending at position i. */
  function WindowLen(i: nat, w: nat): nat {
    if w <= i + 1 then w else i + 1
  }

  /** The statistics of one window, with `window // 2` minimum periods. */
  function WindowStats(win: seq<real>, window: nat, sqrt: Root): RollingStatsRow {
    var ok := |win| >= window / 2 && |win| >= 1;
    RollingStatsRow(
      if ok then Some(Mean(win)) else None,
      if |win| >= window / 2 && |win| >= 2 then Some(SampleStd(win, sqrt)) else None,
      if ok then Some(Min(win)) else None,
      if ok then Some(Max(win)) else None)
  }

  /** What a row of rolling statistics says about its window `win`: which
      statistics are present, and what their values are. */
  predicate DescribesWindow(row: RollingStatsRow, win: seq<real>, window: nat, sqrt: Root) {
    PresentAsRequired(row, |win|, window) && ValuesOfWindow(row, win, sqrt)
  }

  /** Mean, min and max are present once the window holds `window // 2`
      values and at least one; the std once it holds `window // 2` and at
      least two. */
  predicate PresentAsRequired(row: RollingStatsRow, n: nat, window: nat) {
    && (row.mean.Some? <==> n >= window / 2 && n >= 1)
    && (row.min.Some? <==> row.mean.Some?)
    && (row.max.Some? <==> row.mean.Some?)
    && (row.std.Some? <==> n >= window / 2 && n >= 2)
  }

  /** The mean is the window's mean; the std is the window's sample std; min and max are values of the window that bound all of
      it. */
  predicate ValuesOfWindow(row: RollingStatsRow, win: seq<real>, sqrt: Root) {
    && (row.mean.Some? ==> |win| >= 1 && row.mean.value == Mean(win))
    && (row.std.Some? ==> |win| >= 2 && row.std.value >= 0.0 && row.std.value == SampleStd(win, sqrt))
    && (row.min.Some? ==> IsLeast(row.min.value, win))
    && (row.max.Some? ==> IsGreatest(row.max.value, win))
    && (row.mean.Some? && row.min.Some? && row.max.Some? ==> row.min.value <= row.mean.value <= row.max.value)
  }

  /** `x` is a value of `win` and no value of `win` is smaller. */
  predicate IsLeast(x: real, win: seq<real>) {
    x in win && forall k :: 0 <= k < |win| ==> x <= win[k]
  }

  /** `x` is a value of `win` and no value of `win` is larger. */
  predicate IsGreatest(x: real, win: seq<real>) {
    x in win && forall k :: 0 <= k < |win| ==> win[k] <= x
  }

  /** The window `calculate_rolling_stats` uses when none is given. */
  const DefaultRollingWindow: nat := 20

  /** `calculate_rolling_stats(data, window)`: rolling mean, std, min and max
      with `window // 2` minimum periods. */
  function CalculateRollingStats(data: seq<real>, sqrt: Root, window: nat := DefaultRollingWindow)
    : (r: seq<RollingStatsRow>)
    ensures |r| == |data|
    ensures forall i :: 0 <= i < |data| ==> DescribesWindow(r[i], WindowAt(data, i, window), window, sqrt)
  {
    var r := seq(|data|, i requires 0 <= i < |data| => WindowStats(WindowAt(data, i, window), window, sqrt));
    StatsFacts(data, window, sqrt, r);
    r
  }

  lemma StatsFacts(data: seq<real>, window: nat, sqrt: Root, r: seq<RollingStatsRow>)
    requires |r| == |data|
    requires forall i :: 0 <= i < |data| ==> r[i] == WindowStats(WindowAt(data, i, window), window, sqrt)
    ensures forall i :: 0 <= i < |data| ==> DescribesWindow(r[i], WindowAt(data, i, window), window, sqrt)
  {
    forall i | 0 <= i < |data|
      ensures DescribesWindow(r[i], WindowAt(data, i, window), window, sqrt)
    {
      WindowStatsDescribe(WindowAt(data, i, window), window, sqrt);
    }
  }

  lemma WindowStatsDescribe(win: seq<real>, window: nat, sqrt: Root)
    ensures DescribesWindow(WindowStats(win, window, sqrt), win, window, sqrt)
  {
    WindowStatsPresence(win, window, sqrt);
    WindowStatsValues(win, window, sqrt);
  }

  lemma WindowStatsPresence(win: seq<real>, window: nat, sqrt: Root)
    ensures PresentAsRequired(WindowStats(win, window, sqrt), |win|, window)
  {
  }

  lemma WindowStatsValues(win: seq<real>, window: nat, sqrt: Root)
    ensures ValuesOfWindow(WindowStats(win, window, sqrt), win, sqrt)
  {
    if |win| >= 1 {
      MeanWithinMinMax(win);
    }
  }

  /** On constant data every defined rolling mean, min and max is that
      constant and every defined rolling std is zero. */
  lemma RollingStatsOfConstant(data: seq<real>, window: nat, sqrt: Root, c: real, i: nat)
    requires i < |data|
    requires forall j :: 0 <= j < |data| ==> data[j] == c
    ensures var row := CalculateRollingStats(data, sqrt, window)[i];
      && (row.mean.Some? ==> row.mean.value == c && row.min.value == c && row.max.value == c)
      && (row.std.Some? ==> row.std.value == 0.0)
  {
    var row := CalculateRollingStats(data, sqrt, window)[i];
    var win := WindowAt(data, i, window);
    assert DescribesWindow(row, win, window, sqrt);
    assert forall k :: 0 <= k < |win| ==> win[k] == c;
    if row.mean.Some? {
      SumConstant(win, c);
    }
    if row.std.Some? {
      ConstantHasZeroVariance(win);
    }
  }

  // ------------------------------------------------------------ z-score

  /** The window `calculate_z_score` uses when none is given. */
  const DefaultZScoreWindow: nat := 60

  /** `calculate_z_score(current, history, window)`: the standard score of
      `current` against the last `window` values of the history. */
  function CalculateZScore(current: real, history: seq<real>, sqrt: Root, window: nat := DefaultZScoreWindow): (r: Option<real>)
    ensures r.None? <==>
      |history| < window || window < 2 || SampleVariance(history[|history| - window..]) == 0.0
    ensures r.Some? ==>
      var recent := history[|history| - window..];
      r.value * SampleStd(recent, sqrt) + Mean(recent) == current
  {
    if |history| < window then None
    else
      var recent := history[|history| - window..];
      if |recent| < 2 then None
      else
        var sd := SampleStd(recent, sqrt);
        if sd == 0.0 then None
        else
          var z := (current - Mean(recent)) / sd;
          assert z * sd == current - Mean(recent);
          Some(z)
  }

  /** A history whose last `window` values are all equal has no z-score. */
  lemma ZScoreOfFlatHistory(current: real, history: seq<real>, window: nat, sqrt: Root)
    requires 2 <= window <= |history|
    requires forall i :: |history| - window <= i < |history| ==> history[i] == history[|history| - 1]
    ensures CalculateZScore(current, history, sqrt, window).None?
  {
    var recent := history[|history| - window..];
    assert forall i :: 0 <= i < |recent| ==> recent[i] == history[|history| - window + i];
    ConstantHasZeroVariance(recent);
  }

  // -------------------------------------------------------- conversions

  /** `convert_normal_vol_to_daily_bp_vol`. */
  function ConvertNormalVolToDailyBpVol(annualized: real, sqrt: Root): real {
    annualized / Sqrt252(sqrt)
  }

  /** `convert_daily_bp_vol_to_annualized`. */
  function ConvertDailyBpVolToAnnualized(daily: real, sqrt: Root): real {
    daily * Sqrt252(sqrt)
  }

  /** The two conversions undo each other, in both orders. */
  lemma ConversionsAreInverse(x: real, sqrt: Root)
    ensures ConvertDailyBpVolToAnnualized(ConvertNormalVolToDailyBpVol(x, sqrt), sqrt) == x
    ensures ConvertNormalVolToDailyBpVol(ConvertDailyBpVolToAnnualized(x, sqrt), sqrt) == x
  {
    var k := Sqrt252(sqrt);
    assert (x / k) * k == x;
    assert (x * k) / k == x;
  }
}

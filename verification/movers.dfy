/** The largest-mover flags (`add_highlighting_flags`): an instrument is
    flagged when the absolute value of its current 1-day, 1-week or 1-month
    change equals the largest absolute change of that horizon over a
    trailing window of its history. */
module Movers {
  import opened Options
  import opened Stats
  import Implied

  datatype Flags = Flags(largest1d: bool, largest1w: bool, largest1m: bool)

  const NoFlags: Flags := Flags(false, false, false)

  /** Series shorter than this get no flag at all. */
  const MinFlagHistory: nat := 21

  /** A flag horizon: changes over `period` positions, compared over the
      last `lookback` positions, examined only once the series has
      `minLen` values. */
  datatype Horizon = Horizon(period: nat, lookback: nat, minLen: nat)

  const OneDay: Horizon := Horizon(1, 10, 11)
  const OneWeek: Horizon := Horizon(5, 20, 26)
  const OneMonth: Horizon := Horizon(20, 120, 141)

  /** First position of the comparison window: the last `lookback`
      positions, skipping those with no value `period` positions before. */
  function WindowStart(n: nat, h: Horizon): nat {
    if n < h.lookback + h.period then h.period
    else n - h.lookback
  }

  /** `abs(s[i] - s[i - period])` for every position `i` of the window. */
  function AbsChanges(s: seq<real>, h: Horizon): (r: seq<real>)
    ensures |r| == if WindowStart(|s|, h) < |s| then |s| - WindowStart(|s|, h) else 0
    ensures forall k :: 0 <= k < |r| ==>
      var i := WindowStart(|s|, h) + k;
      h.period <= i < |s| && r[k] == Abs(s[i] - s[i - h.period])
  {
    var lo := WindowStart(|s|, h);
    if lo < |s| then
      seq(|s| - lo, k requires 0 <= k < |s| - lo => Abs(s[lo + k] - s[lo + k - h.period]))
    else []
  }

  /** Once the series is long enough, the window holds exactly `lookback`
      changes and ends with the latest one. */
  lemma FullWindow(s: seq<real>, h: Horizon)
    requires h.lookback >= 1 && |s| >= h.lookback + h.period
    ensures |AbsChanges(s, h)| == h.lookback
    ensures AbsChanges(s, h)[h.lookback - 1] == Abs(s[|s| - 1] - s[|s| - 1 - h.period])
  {
  }

  /** `top` is one of the values of `w` and no value of `w` exceeds it. */
  predicate IsTop(w: seq<real>, top: real) {
    top in w && forall k :: 0 <= k < |w| ==> w[k] <= top
  }

  /** One flag: the series is long enough, the window is non-empty, the
      table's change is defined and its absolute value equals the window's
      largest absolute change. */
  function IsLargestMover(s: seq<real>, current: Option<real>, h: Horizon): (r: bool)
    ensures r <==> |s| >= h.minLen && current.Some? && IsTop(AbsChanges(s, h), Abs(current.value))
  {
    var w := AbsChanges(s, h);
    if |s| >= h.minLen && |w| > 0 && current.Some? then
      MaxIsTop(w, Abs(current.value));
      Abs(current.value) == Max(w)
    else false
  }

  /** A value equals the maximum of a non-empty window iff it is its top. */
  lemma MaxIsTop(w: seq<real>, x: real)
    requires |w| > 0
    ensures x == Max(w) <==> IsTop(w, x)
  {
    if IsTop(w, x) {
      MaxOfDominated(w, x);
    }
  }

  /** With the table's own change as the current one, a flag is raised iff
      no position in the trailing window moved by more than the latest
      change. */
  lemma LargestMoverIffNoLargerMove(s: seq<real>, h: Horizon)
    requires h.period >= 1 && h.lookback >= 1
    requires h.minLen >= h.lookback + h.period
    requires |s| >= h.minLen
    ensures Implied.LookbackChange(s, h.period).Some?
    ensures IsLargestMover(s, Implied.LookbackChange(s, h.period), h) <==>
      NoLargerMove(s, h.period, h.lookback)
  {
    var n := |s|;
    var w := AbsChanges(s, h);
    var latest := Abs(s[n - 1] - s[n - 1 - h.period]);
    FullWindow(s, h);
    assert Abs(Implied.LookbackChange(s, h.period).value) == latest;
    WindowEntries(s, h);
    assert latest in w by { assert w[h.lookback - 1] == latest; }
    assert IsLargestMover(s, Implied.LookbackChange(s, h.period), h) <==> IsTop(w, latest);
    if NoLargerMove(s, h.period, h.lookback) {
      forall k | 0 <= k < |w| ensures w[k] <= latest {
        var i := k + (n - h.lookback);
        assert w[i - (n - h.lookback)] == Abs(s[i] - s[i - h.period]);
      }
    }
  }

  /** The window's entries, indexed by series position. */
  lemma WindowEntries(s: seq<real>, h: Horizon)
    requires h.lookback >= 1 && |s| >= h.lookback + h.period
    ensures |AbsChanges(s, h)| == h.lookback
    ensures forall i :: |s| - h.lookback <= i < |s| ==>
      AbsChanges(s, h)[i - (|s| - h.lookback)] == Abs(s[i] - s[i - h.period])
  {
    var w := AbsChanges(s, h);
    forall i | |s| - h.lookback <= i < |s|
      ensures w[i - (|s| - h.lookback)] == Abs(s[i] - s[i - h.period])
    {
      var k := i - (|s| - h.lookback);
      assert w[k] == Abs(s[WindowStart(|s|, h) + k] - s[WindowStart(|s|, h) + k - h.period]);
    }
  }

  /** A value of the window that bounds every entry is its maximum. */
  lemma MaxOfDominated(w: seq<real>, top: real)
    requires top in w
    requires forall k :: 0 <= k < |w| ==> w[k] <= top
    ensures Max(w) == top
  {
    var m := Max(w);
    var j :| 0 <= j < |w| && w[j] == m;
    var t :| 0 <= t < |w| && w[t] == top;
  }

  /** The three flags of an instrument from its date-ordered series and
      its annualized metrics; no flag for fewer than 21 values. */
  function ComputeFlags(s: seq<real>, ann: Implied.Metrics): (r: Flags)
    ensures |s| < MinFlagHistory ==> r == NoFlags
    ensures r.largest1d == (|s| >= MinFlagHistory && IsLargestMover(s, ann.chg1d, OneDay))
    ensures r.largest1w == (|s| >= MinFlagHistory && IsLargestMover(s, ann.chg1w, OneWeek))
    ensures r.largest1m == (|s| >= MinFlagHistory && IsLargestMover(s, ann.chg1m, OneMonth))
  {
    if |s| < MinFlagHistory then NoFlags
    else Flags(
      IsLargestMover(s, ann.chg1d, OneDay),
      IsLargestMover(s, ann.chg1w, OneWeek),
      IsLargestMover(s, ann.chg1m, OneMonth))
  }

  /** No position among the last `lookback` moved, over `period`
      positions, by more in absolute value than the latest position did. */
  predicate NoLargerMove(s: seq<real>, period: nat, lookback: nat)
    requires |s| >= lookback + period && |s| > period
  {
    forall i :: |s| - lookback <= i < |s| ==>
      Abs(s[i] - s[i - period]) <= Abs(s[|s| - 1] - s[|s| - 1 - period])
  }

  /** For a table row, whose metrics come from the same series, each flag
      says exactly that the latest change of its horizon is the largest
      absolute move of the trailing window: the last 10 days for the 1-day
      flag (from 21 values on), 20 for the 1-week flag (from 26) and 120
      for the 1-month flag (from 141). */
  lemma FlagsOfSeries(s: seq<real>)
    requires Implied.SeriesMetrics(s).Some?
    ensures var f := ComputeFlags(s, Implied.SeriesMetrics(s).value);
      && (f.largest1d <==> |s| >= MinFlagHistory && NoLargerMove(s, 1, 10))
      && (f.largest1w <==> |s| >= 26 && NoLargerMove(s, 5, 20))
      && (f.largest1m <==> |s| >= 141 && NoLargerMove(s, 20, 120))
  {
    Implied.MetricsChangesAreLookbacks(s);
    FlagsFromChanges(s, Implied.SeriesMetrics(s).value);
  }

  lemma FlagsFromChanges(s: seq<real>, m: Implied.Metrics)
    requires |s| > 0
    requires m.chg1d == Implied.LookbackChange(s, 1)
    requires m.chg1w == Implied.LookbackChange(s, 5)
    requires m.chg1m == Implied.LookbackChange(s, 20)
    ensures var f := ComputeFlags(s, m);
      && (f.largest1d <==> |s| >= MinFlagHistory && NoLargerMove(s, 1, 10))
      && (f.largest1w <==> |s| >= 26 && NoLargerMove(s, 5, 20))
      && (f.largest1m <==> |s| >= 141 && NoLargerMove(s, 20, 120))
  {
    FlagOfHorizon(s, m.chg1d, OneDay);
    FlagOfHorizon(s, m.chg1w, OneWeek);
    FlagOfHorizon(s, m.chg1m, OneMonth);
  }

  /** One horizon of `FlagsOfSeries`. */
  lemma FlagOfHorizon(s: seq<real>, current: Option<real>, h: Horizon)
    requires h.period >= 1 && h.lookback >= 1
    requires h.minLen >= h.lookback + h.period
    requires |s| > 0 && current == Implied.LookbackChange(s, h.period)
    ensures (|s| >= MinFlagHistory && IsLargestMover(s, current, h)) <==>
      (|s| >= MinFlagHistory && |s| >= h.minLen && NoLargerMove(s, h.period, h.lookback))
  {
    if |s| >= h.minLen {
      LargestMoverIffNoLargerMove(s, h);
    }
  }
}

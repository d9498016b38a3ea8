/** The public entry points (`get_swaption_table`,
    `get_swaption_table_latest`): the as-of date must lie within the dates
    of the implied-vol data, inclusive, before the table is built. */
module Guard {
  import opened Options
  import opened Series
  import Stats
  import opened Table
  import Build

  /** `vol_data['date'].min()`. */
  function EarliestDate(obs: seq<VolObs>): (r: int)
    requires |obs| > 0
    ensures exists i :: 0 <= i < |obs| && obs[i].date == r
    ensures forall i :: 0 <= i < |obs| ==> r <= obs[i].date
  {
    if |obs| == 1 then obs[0].date
    else
      var m := EarliestDate(obs[1..]);
      assert forall i :: 1 <= i < |obs| ==> obs[i] == obs[1..][i - 1];
      if obs[0].date <= m then obs[0].date else m
  }

  /** `vol_data['date'].max()`. */
  function LatestDate(obs: seq<VolObs>): (r: int)
    requires |obs| > 0
    ensures exists i :: 0 <= i < |obs| && obs[i].date == r
    ensures forall i :: 0 <= i < |obs| ==> obs[i].date <= r
  {
    if |obs| == 1 then obs[0].date
    else
      var m := LatestDate(obs[1..]);
      assert forall i :: 1 <= i < |obs| ==> obs[i] == obs[1..][i - 1];
      if obs[0].date >= m then obs[0].date else m
  }

  /** Every observation is dated after `asOf`. */
  predicate AllAfter(obs: seq<VolObs>, asOf: int) {
    forall i :: 0 <= i < |obs| ==> asOf < obs[i].date
  }

  /** Every observation is dated before `asOf`. */
  predicate AllBefore(obs: seq<VolObs>, asOf: int) {
    forall i :: 0 <= i < |obs| ==> obs[i].date < asOf
  }

  /** The table for `asOf`, refused with no data at all, for a date before
      the first observation or for one after the last; any date from the
      first to the last observation, inclusive, gets the built table (or
      the build's own error). */
  function GetSwaptionTable(volObs: seq<VolObs>, rateObs: seq<RateObs>, asOf: int, sqrt: Stats.Root)
    : (r: Result<seq<TableRow>, TableError>)
    ensures r == Failure(NoVolData) <==> |volObs| == 0
    ensures r == Failure(AsOfBeforeEarliest) <==> |volObs| > 0 && AllAfter(volObs, asOf)
    ensures r == Failure(AsOfAfterLatest) <==> |volObs| > 0 && AllBefore(volObs, asOf)
    ensures |volObs| > 0 && !AllAfter(volObs, asOf) && !AllBefore(volObs, asOf) ==>
      r == Build.BuildSwaptionVolTable(volObs, rateObs, asOf, sqrt)
  {
    if |volObs| == 0 then Failure(NoVolData)
    else if asOf < EarliestDate(volObs) then Failure(AsOfBeforeEarliest)
    else if asOf > LatestDate(volObs) then Failure(AsOfAfterLatest)
    else
      var i :| 0 <= i < |volObs| && volObs[i].date == EarliestDate(volObs);
      var j :| 0 <= j < |volObs| && volObs[j].date == LatestDate(volObs);
      assert !AllAfter(volObs, asOf) && !AllBefore(volObs, asOf) by {
        assert !(asOf < volObs[i].date) && !(volObs[j].date < asOf);
      }
      Build.BuildSwaptionVolTable(volObs, rateObs, asOf, sqrt)
  }

  /** The table for the last date of the implied-vol data; it is never
      refused for its date. */
  function GetSwaptionTableLatest(volObs: seq<VolObs>, rateObs: seq<RateObs>, sqrt: Stats.Root)
    : (r: Result<seq<TableRow>, TableError>)
    ensures r == Failure(NoVolData) <==> |volObs| == 0
    ensures r != Failure(AsOfBeforeEarliest) && r != Failure(AsOfAfterLatest)
  {
    if |volObs| == 0 then Failure(NoVolData)
    else GetSwaptionTable(volObs, rateObs, LatestDate(volObs), sqrt)
  }

  /** The latest table is the table built as of the last observation date,
      and at that date every implied-vol observation is visible. */
  lemma LatestIsTableAtLastDate(volObs: seq<VolObs>, rateObs: seq<RateObs>, sqrt: Stats.Root, d: int)
    requires exists i :: 0 <= i < |volObs| && volObs[i].date == d
    requires forall i :: 0 <= i < |volObs| ==> volObs[i].date <= d
    ensures GetSwaptionTableLatest(volObs, rateObs, sqrt) == Build.BuildSwaptionVolTable(volObs, rateObs, d, sqrt)
    ensures VisibleVol(volObs, d) == volObs
  {
    var m := LatestDate(volObs);
    var i :| 0 <= i < |volObs| && volObs[i].date == d;
    var j :| 0 <= j < |volObs| && volObs[j].date == m;
    assert d <= m && m <= d;
    assert !AllAfter(volObs, d) by { assert volObs[i].date <= d; }
    assert !AllBefore(volObs, d) by { assert volObs[i].date >= d; }
    AllVisible(volObs, d);
  }

  lemma {:induction false} AllVisible(obs: seq<VolObs>, d: int)
    requires forall i :: 0 <= i < |obs| ==> obs[i].date <= d
    ensures VisibleVol(obs, d) == obs
  {
    if |obs| > 0 {
      assert forall i :: 0 <= i < |obs[1..]| ==> obs[1..][i] == obs[i + 1];
      AllVisible(obs[1..], d);
      assert obs == [obs[0]] + obs[1..];
    }
  }
}

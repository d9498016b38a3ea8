/** The implied-vol half of the table (`compute_implied_vol_changes`): for
    every instrument with enough visible history, its latest annualized
    normal vol, the 1-day, 1-week and 1-month changes, and the 20-day high
    and low. */
module Implied {
  import opened Options
  import opened Stats
  import opened Series
  import Config
  import Volatility

  /** The six implied-vol metrics of one instrument, in one unit; `None` is NaN. */
  datatype Metrics = Metrics(
    current: real,
    chg1d: Option<real>,
    chg1w: Option<real>,
    chg1m: Option<real>,
    high20: real,
    low20: real)

  datatype ImpliedRow = ImpliedRow(key: Key, ann: Metrics)

  /** `s.iloc[-1] - s.iloc[-1 - p]` when the series has more than `p`
      values, NaN otherwise. */
  function LookbackChange(s: seq<real>, p: nat): (r: Option<real>)
    requires |s| > 0
    ensures r.Some? <==> |s| > p
    ensures r.Some? ==> s[|s| - 1 - p] + r.value == s[|s| - 1]
  {
    if |s| > p then Some(s[|s| - 1] - s[|s| - 1 - p]) else None
  }

  /** The table's change is the helper library's `p`-period change at the
      latest position. */
  lemma LookbackIsLatestChange(s: seq<real>, p: nat)
    requires |s| > 0
    ensures LookbackChange(s, p) == Volatility.Change(s, p)[|s| - 1]
  {
    var c := Volatility.Change(s, p);
    if |s| > p {
      assert s[|s| - 1 - p] + c[|s| - 1].value == s[|s| - 1];
    }
  }

  /** `s.tail(n)`: the last `n` values, or all of them when fewer. */
  function Tail(s: seq<real>, n: nat): (r: seq<real>)
    ensures |r| == if |s| <= n then |s| else n
    ensures forall i :: 0 <= i < |r| ==> r[i] == s[|s| - |r| + i]
  {
    if |s| <= n then s else s[|s| - n..]
  }

  /** The metrics of one series, or `None` when it has fewer than five
      values (the instrument is skipped). */
  function SeriesMetrics(s: seq<real>): (r: Option<Metrics>)
    ensures r.Some? <==> |s| >= Config.MinImpliedHistory
    ensures r.Some? ==> r.value.current == s[|s| - 1]
    ensures r.Some? ==> r.value.low20 <= r.value.current <= r.value.high20
    ensures r.Some? ==>
      && (r.value.chg1d.Some? <==> |s| >= 2)
      && (r.value.chg1w.Some? <==> |s| >= 6)
      && (r.value.chg1m.Some? <==> |s| >= 21)
    ensures r.Some? ==>
      var recent := Tail(s, Config.HighLowWindow);
      && r.value.high20 in recent && r.value.low20 in recent
      && forall i :: 0 <= i < |recent| ==> r.value.low20 <= recent[i] <= r.value.high20
  {
    if |s| < Config.MinImpliedHistory then None
    else
      var recent := Tail(s, Config.HighLowWindow);
      assert recent[|recent| - 1] == s[|s| - 1];
      Some(Metrics(
        s[|s| - 1],
        LookbackChange(s, 1),
        LookbackChange(s, 5),
        LookbackChange(s, 20),
        Max(recent),
        Min(recent)))
  }

  /** Each change is the difference of the latest value and the one the
      given number of trading days before it. */
  lemma MetricsChangesAreLookbacks(s: seq<real>)
    requires |s| >= Config.MinImpliedHistory
    ensures SeriesMetrics(s).Some?
    ensures SeriesMetrics(s).value.chg1d == Volatility.Change(s, 1)[|s| - 1]
    ensures SeriesMetrics(s).value.chg1w == Volatility.Change(s, 5)[|s| - 1]
    ensures SeriesMetrics(s).value.chg1m == Volatility.Change(s, 20)[|s| - 1]
    ensures SeriesMetrics(s).value.chg1d == LookbackChange(s, 1)
    ensures SeriesMetrics(s).value.chg1w == LookbackChange(s, 5)
    ensures SeriesMetrics(s).value.chg1m == LookbackChange(s, 20)
  {
    LookbackIsLatestChange(s, 1);
    LookbackIsLatestChange(s, 5);
    LookbackIsLatestChange(s, 20);
  }

  /** A series that did not move over the last 20 days has its high, low
      and current vol all equal, and a zero 1-day change. */
  lemma FlatSeriesMetrics(s: seq<real>, c: real)
    requires |s| >= Config.MinImpliedHistory
    requires forall i :: 0 <= i < |Tail(s, Config.HighLowWindow)| ==> Tail(s, Config.HighLowWindow)[i] == c
    ensures SeriesMetrics(s).Some?
    ensures SeriesMetrics(s).value.high20 == c == SeriesMetrics(s).value.low20
    ensures SeriesMetrics(s).value.chg1d == Some(0.0)
  {
    var recent := Tail(s, Config.HighLowWindow);
    var m := SeriesMetrics(s).value;
    var h :| 0 <= h < |recent| && recent[h] == m.high20;
    var l :| 0 <= l < |recent| && recent[l] == m.low20;
    assert recent[|recent| - 1] == s[|s| - 1];
    assert recent[|recent| - 2] == s[|s| - 2];
    assert m.chg1d == Some(s[|s| - 1] - s[|s| - 2]);
  }

  /** The metrics of instrument `k` as of `asOf`. */
  function InstrumentMetrics(obs: seq<VolObs>, asOf: int, k: Key): (r: Option<Metrics>)
    ensures r.Some? <==> |VolSeries(obs, asOf, k)| >= Config.MinImpliedHistory
  {
    SeriesMetrics(VolSeries(obs, asOf, k))
  }

  /** Pairs each instrument with its metrics, in order, dropping the
      instruments that have none. Its contract only bounds the length: which
      rows it holds is `RowsForMembers`, and that their keys stay distinct is
      `RowsForDistinct`. */
  function RowsFor(keys: seq<Key>, ms: seq<Option<Metrics>>): (r: seq<ImpliedRow>)
    requires |ms| == |keys|
    ensures |r| <= |keys|
  {
    if |keys| == 0 then []
    else
      var rest := RowsFor(keys[1..], ms[1..]);
      if ms[0].Some? then [ImpliedRow(keys[0], ms[0].value)] + rest else rest
  }

  /** A row is exactly an instrument paired with its defined metrics. */
  lemma {:induction false} RowsForMembers(keys: seq<Key>, ms: seq<Option<Metrics>>)
    requires |ms| == |keys|
    ensures forall row :: row in RowsFor(keys, ms) <==>
      exists j :: 0 <= j < |keys| && ms[j].Some? && row == ImpliedRow(keys[j], ms[j].value)
  {
    if |keys| > 0 {
      RowsForMembers(keys[1..], ms[1..]);
      forall row ensures row in RowsFor(keys, ms) <==>
        exists j :: 0 <= j < |keys| && ms[j].Some? && row == ImpliedRow(keys[j], ms[j].value)
      {
        if row in RowsFor(keys[1..], ms[1..]) {
          var j :| 0 <= j < |keys| - 1 && ms[1..][j].Some? && row == ImpliedRow(keys[1..][j], ms[1..][j].value);
          assert ms[j + 1].Some? && row == ImpliedRow(keys[j + 1], ms[j + 1].value);
        }
        if exists j :: 0 <= j < |keys| && ms[j].Some? && row == ImpliedRow(keys[j], ms[j].value) {
          var j :| 0 <= j < |keys| && ms[j].Some? && row == ImpliedRow(keys[j], ms[j].value);
          if j > 0 {
            assert ms[1..][j - 1].Some? && row == ImpliedRow(keys[1..][j - 1], ms[1..][j - 1].value);
          }
        }
      }
    }
  }

  /** Distinct instruments give rows with distinct instruments. */
  lemma {:induction false} RowsForDistinct(keys: seq<Key>, ms: seq<Option<Metrics>>)
    requires |ms| == |keys|
    requires forall i, j :: 0 <= i < j < |keys| ==> keys[i] != keys[j]
    ensures forall i, j :: 0 <= i < j < |RowsFor(keys, ms)| ==> RowsFor(keys, ms)[i].key != RowsFor(keys, ms)[j].key
  {
    if |keys| > 0 {
      var rest := RowsFor(keys[1..], ms[1..]);
      RowsForDistinct(keys[1..], ms[1..]);
      if ms[0].Some? {
        RowsForMembers(keys[1..], ms[1..]);
        var r := RowsFor(keys, ms);
        assert r == [ImpliedRow(keys[0], ms[0].value)] + rest;
        forall i | 0 <= i < |rest| ensures rest[i].key != keys[0] {
          assert rest[i] in rest;
        }
        assert forall i :: 1 <= i < |r| ==> r[i] == rest[i - 1];
      }
    }
  }

  /** `compute_implied_vol_changes(vol_data, as_of_date)`: one row per
      instrument that has at least five observations dated on or before
      `asOf`, holding the metrics of its date-ordered series. */
  function ComputeImpliedVolChanges(obs: seq<VolObs>, asOf: int): (r: seq<ImpliedRow>)
    ensures forall k :: (exists row :: row in r && row.key == k) <==>
      |VolSeries(obs, asOf, k)| >= Config.MinImpliedHistory
    ensures forall row :: row in r ==> InstrumentMetrics(obs, asOf, row.key) == Some(row.ann)
    ensures forall i, j :: 0 <= i < j < |r| ==> r[i].key != r[j].key
  {
    var keys := VolKeys(VisibleVol(obs, asOf));
    var ms := seq(|keys|, j requires 0 <= j < |keys| => InstrumentMetrics(obs, asOf, keys[j]));
    RowsOfInstruments(obs, asOf, keys, ms, RowsFor(keys, ms));
    RowsFor(keys, ms)
  }

  lemma RowsOfInstruments(obs: seq<VolObs>, asOf: int, keys: seq<Key>, ms: seq<Option<Metrics>>,
                          r: seq<ImpliedRow>)
    requires keys == VolKeys(VisibleVol(obs, asOf))
    requires |ms| == |keys|
    requires forall j :: 0 <= j < |keys| ==> ms[j] == InstrumentMetrics(obs, asOf, keys[j])
    requires r == RowsFor(keys, ms)
    ensures forall k :: (exists row :: row in r && row.key == k) <==>
      |VolSeries(obs, asOf, k)| >= Config.MinImpliedHistory
    ensures forall row :: row in r ==> InstrumentMetrics(obs, asOf, row.key) == Some(row.ann)
    ensures forall i, j :: 0 <= i < j < |r| ==> r[i].key != r[j].key
  {
    RowsForMembers(keys, ms);
    RowsForDistinct(keys, ms);
    forall row | row in r ensures InstrumentMetrics(obs, asOf, row.key) == Some(row.ann) {
      var j :| 0 <= j < |keys| && ms[j].Some? && row == ImpliedRow(keys[j], ms[j].value);
    }
    forall k ensures (exists row :: row in r && row.key == k) <==>
      |VolSeries(obs, asOf, k)| >= Config.MinImpliedHistory
    {
      var m := InstrumentMetrics(obs, asOf, k);
      RowOfKey(keys, ms, k);
      if m.Some? {
        KeyIsVisibleInstrument(obs, asOf, keys, k);
        var j :| 0 <= j < |keys| && keys[j] == k;
        assert ms[j].Some?;
      }
    }
  }

  /** An instrument has a row iff it is listed with defined metrics. */
  lemma RowOfKey(keys: seq<Key>, ms: seq<Option<Metrics>>, k: Key)
    requires |ms| == |keys|
    ensures (exists row :: row in RowsFor(keys, ms) && row.key == k) <==>
      exists j :: 0 <= j < |keys| && keys[j] == k && ms[j].Some?
  {
    RowsForMembers(keys, ms);
    var r := RowsFor(keys, ms);
    if exists j :: 0 <= j < |keys| && keys[j] == k && ms[j].Some? {
      var j :| 0 <= j < |keys| && keys[j] == k && ms[j].Some?;
      assert ImpliedRow(keys[j], ms[j].value) in r;
    }
  }

  lemma KeyIsVisibleInstrument(obs: seq<VolObs>, asOf: int, keys: seq<Key>, k: Key)
    requires keys == VolKeys(VisibleVol(obs, asOf))
    requires InstrumentMetrics(obs, asOf, k).Some?
    ensures k in keys
  {
    assert |VolSeries(obs, asOf, k)| == |VolPoints(VisibleVol(obs, asOf), k)|;
  }

  /** The row of an instrument, if it has one. */
  function FindImplied(rows: seq<ImpliedRow>, k: Key): (r: Option<Metrics>)
    ensures r.Some? <==> exists row :: row in rows && row.key == k
    ensures r.Some? ==> ImpliedRow(k, r.value) in rows
  {
    if |rows| == 0 then None
    else if rows[0].key == k then Some(rows[0].ann)
    else
      assert forall row :: row in rows[1..] ==> row in rows;
      assert forall row :: row in rows && row != rows[0] ==> row in rows[1..];
      FindImplied(rows[1..], k)
  }

  /** An instrument has a row iff at least five of its observations are
      dated on or before `asOf`. */
  lemma RowIffEnoughObservations(obs: seq<VolObs>, asOf: int, k: Key)
    ensures (exists row :: row in ComputeImpliedVolChanges(obs, asOf) && row.key == k) <==>
      |VolPositions(obs, asOf, k)| >= Config.MinImpliedHistory
  {
    VolSeriesIsSortedVisibleHistory(obs, asOf, k);
    var rows := ComputeImpliedVolChanges(obs, asOf);
    if |VolSeries(obs, asOf, k)| >= Config.MinImpliedHistory {
      var row :| row in rows && row.key == k;
    }
  }

  /** Each instrument's row holds the metrics of its own series, whatever
      other instruments the data contains. */
  lemma ImpliedRowOfInstrument(obs: seq<VolObs>, asOf: int, k: Key)
    requires |VolSeries(obs, asOf, k)| >= Config.MinImpliedHistory
    ensures FindImplied(ComputeImpliedVolChanges(obs, asOf), k) == SeriesMetrics(VolSeries(obs, asOf, k))
  {
    var rows := ComputeImpliedVolChanges(obs, asOf);
    var m := FindImplied(rows, k);
    assert ImpliedRow(k, m.value) in rows;
  }
}

/** The swaption vol table (`build_swaption_vol_table`): the implied-vol
    metrics of every grid instrument, the same metrics in daily units, the
    realized vols of its swap tenor, its display label and its largest-mover
    flags, ordered by expiry then tenor. */
module Table {
  import opened Options
  import opened Series
  import Stats
  import Config
  import Volatility
  import Implied
  import Realized
  import Movers
  import Labels

  datatype TableRow = TableRow(
    expiry: string,
    tenor: nat,
    termTenor: string,
    ann: Implied.Metrics,
    daily: Implied.Metrics,
    realized: seq<Option<real>>,
    flags: Movers.Flags)

  /** Why no table can be produced for a date. */
  datatype TableError =
    | NoVolData           // no implied-vol observation at all
    | AsOfBeforeEarliest  // the date precedes the first implied-vol date
    | AsOfAfterLatest     // the date follows the last implied-vol date
    | NoImpliedRows       // no instrument has five visible observations
    | NoRealizedRows      // no swap tenor has enough visible history

  function KeyOfRow(row: TableRow): Key {
    Key(row.expiry, row.tenor)
  }

  // ------------------------------------------------------- daily units

  function DailyOpt(o: Option<real>, sqrt: Stats.Root): (r: Option<real>)
    ensures r.Some? <==> o.Some?
    ensures o.Some? ==> Volatility.ConvertDailyBpVolToAnnualized(r.value, sqrt) == o.value
  {
    match o
    case None => None
    case Some(v) =>
      Volatility.ConversionsAreInverse(v, sqrt);
      Some(Volatility.ConvertNormalVolToDailyBpVol(v, sqrt))
  }

  /** The six metrics divided by sqrt(252) (the `implied_vol_daily_*`
      columns). */
  function ToDaily(m: Implied.Metrics, sqrt: Stats.Root): (r: Implied.Metrics)
    ensures Volatility.ConvertDailyBpVolToAnnualized(r.current, sqrt) == m.current
    ensures Volatility.ConvertDailyBpVolToAnnualized(r.high20, sqrt) == m.high20
    ensures Volatility.ConvertDailyBpVolToAnnualized(r.low20, sqrt) == m.low20
    ensures r.chg1d == DailyOpt(m.chg1d, sqrt)
    ensures r.chg1w == DailyOpt(m.chg1w, sqrt)
    ensures r.chg1m == DailyOpt(m.chg1m, sqrt)
  {
    Volatility.ConversionsAreInverse(m.current, sqrt);
    Volatility.ConversionsAreInverse(m.high20, sqrt);
    Volatility.ConversionsAreInverse(m.low20, sqrt);
    Implied.Metrics(
      Volatility.ConvertNormalVolToDailyBpVol(m.current, sqrt),
      DailyOpt(m.chg1d, sqrt),
      DailyOpt(m.chg1w, sqrt),
      DailyOpt(m.chg1m, sqrt),
      Volatility.ConvertNormalVolToDailyBpVol(m.high20, sqrt),
      Volatility.ConvertNormalVolToDailyBpVol(m.low20, sqrt))
  }

  /** Dividing by a positive constant keeps the order of the metrics: the
      daily high and low still bracket the daily current vol. */
  lemma DailyKeepsBracket(m: Implied.Metrics, sqrt: Stats.Root)
    requires m.low20 <= m.current <= m.high20
    ensures ToDaily(m, sqrt).low20 <= ToDaily(m, sqrt).current <= ToDaily(m, sqrt).high20
  {
    var k := Volatility.Sqrt252(sqrt);
    var d := ToDaily(m, sqrt);
    assert d.low20 * k == m.low20 && d.current * k == m.current && d.high20 * k == m.high20;
    Stats.ScaleCancel(k, d.low20, d.current);
    Stats.ScaleCancel(k, d.current, d.high20);
  }

  // ------------------------------------------------------ realized join

  /** The realized columns of a tenor without a realized row: all NaN. */
  function NoRealized(): (r: seq<Option<real>>)
    ensures |r| == |Realized.DefaultWindows|
    ensures forall k :: 0 <= k < |r| ==> r[k].None?
  {
    seq(|Realized.DefaultWindows|, k => None)
  }

  /** The left join on `tenor`: the realized vols of the first row with that
      tenor, or all NaN when there is none. */
  function RealizedFor(rows: seq<Realized.RealizedRow>, t: nat): (r: seq<Option<real>>)
    ensures (exists row :: row in rows && row.tenor == t) ==> Realized.RealizedRow(t, r) in rows
    ensures (forall row :: row in rows ==> row.tenor != t) ==> r == NoRealized()
  {
    if |rows| == 0 then NoRealized()
    else if rows[0].tenor == t then rows[0].vols
    else
      assert forall row :: row in rows[1..] ==> row in rows;
      assert forall row :: row in rows && row != rows[0] ==> row in rows[1..];
      RealizedFor(rows[1..], t)
  }

  /** With distinct tenors, the join picks the one row of the tenor. */
  lemma RealizedForUnique(rows: seq<Realized.RealizedRow>, t: nat, vols: seq<Option<real>>)
    requires forall i, j :: 0 <= i < j < |rows| ==> rows[i].tenor != rows[j].tenor
    requires Realized.RealizedRow(t, vols) in rows
    ensures RealizedFor(rows, t) == vols
  {
    var r := RealizedFor(rows, t);
    assert Realized.RealizedRow(t, r) in rows;
    var i :| 0 <= i < |rows| && rows[i] == Realized.RealizedRow(t, r);
    var j :| 0 <= j < |rows| && rows[j] == Realized.RealizedRow(t, vols);
    assert i == j;
  }

  // ------------------------------------------------------ grid and rows

  /** The grid filter: listed expiry and listed swap tenor. */
  predicate InGrid(k: Key) {
    k.expiry in Config.OptionTenors && k.tenor in Config.SwapTenors
  }

  /** The implied rows on the grid, in order. */
  function GridOnly(rows: seq<Implied.ImpliedRow>): (r: seq<Implied.ImpliedRow>)
    ensures |r| <= |rows|
  {
    if |rows| == 0 then []
    else if InGrid(rows[0].key) then [rows[0]] + GridOnly(rows[1..])
    else GridOnly(rows[1..])
  }

  lemma {:induction false} GridOnlyMembers(rows: seq<Implied.ImpliedRow>)
    ensures forall row :: row in GridOnly(rows) <==> row in rows && InGrid(row.key)
  {
    if |rows| > 0 {
      GridOnlyMembers(rows[1..]);
      assert rows == [rows[0]] + rows[1..];
    }
  }

  lemma {:induction false} GridOnlyDistinct(rows: seq<Implied.ImpliedRow>)
    requires forall i, j :: 0 <= i < j < |rows| ==> rows[i].key != rows[j].key
    ensures forall i, j :: 0 <= i < j < |GridOnly(rows)| ==> GridOnly(rows)[i].key != GridOnly(rows)[j].key
  {
    if |rows| > 0 {
      var rest := GridOnly(rows[1..]);
      GridOnlyDistinct(rows[1..]);
      if InGrid(rows[0].key) {
        GridOnlyMembers(rows[1..]);
        var r := GridOnly(rows);
        assert r == [rows[0]] + rest;
        forall i | 0 <= i < |rest| ensures rest[i].key != rows[0].key {
          assert rest[i] in rest;
          var j :| 0 <= j < |rows[1..]| && rows[1..][j] == rest[i];
          assert rows[j + 1] == rest[i];
        }
        assert forall i :: 1 <= i < |r| ==> r[i] == rest[i - 1];
      }
    }
  }

  /** One table row: the implied row joined with its tenor's realized
      vols, labelled and flagged from the instrument's visible series. */
  function MakeRow(impl: Implied.ImpliedRow, realized: seq<Realized.RealizedRow>,
                   volObs: seq<VolObs>, asOf: int, sqrt: Stats.Root): (r: TableRow)
    ensures KeyOfRow(r) == impl.key && r.ann == impl.ann
  {
    var k := impl.key;
    TableRow(
      k.expiry, k.tenor,
      Labels.TermTenor(k.expiry, k.tenor),
      impl.ann,
      ToDaily(impl.ann, sqrt),
      RealizedFor(realized, k.tenor),
      Movers.ComputeFlags(VolSeries(volObs, asOf, k), impl.ann))
  }

  function MakeRows(g: seq<Implied.ImpliedRow>, realized: seq<Realized.RealizedRow>,
                    volObs: seq<VolObs>, asOf: int, sqrt: Stats.Root): (r: seq<TableRow>)
    ensures |r| == |g|
    ensures forall i :: 0 <= i < |g| ==> r[i] == MakeRow(g[i], realized, volObs, asOf, sqrt)
  {
    seq(|g|, i requires 0 <= i < |g| => MakeRow(g[i], realized, volObs, asOf, sqrt))
  }

  // ------------------------------------------------------------ order

  /** Position of the first occurrence of `e` in `order`, `|order|` when absent. */
  function PositionIn(order: seq<string>, e: string): (r: nat)
    ensures r <= |order|
    ensures e in order <==> r < |order|
    ensures e in order ==> order[r] == e
  {
    if |order| == 0 then 0
    else if order[0] == e then 0
    else 1 + PositionIn(order[1..], e)
  }

  /** `expiry_order`: position of an expiry in the display order
      (OPTION_TENORS); every grid row has one. */
  function Rank(e: string): (r: nat)
    ensures e in Config.OptionTenors ==> r < |Config.OptionTenors| && Config.OptionTenors[r] == e
  {
    PositionIn(Config.OptionTenors, e)
  }

  predicate RowLe(a: TableRow, b: TableRow) {
    Rank(a.expiry) < Rank(b.expiry) || (Rank(a.expiry) == Rank(b.expiry) && a.tenor <= b.tenor)
  }

  ghost predicate SortedRows(rows: seq<TableRow>) {
    forall i, j :: 0 <= i < j < |rows| ==> RowLe(rows[i], rows[j])
  }

  function InsertRow(x: TableRow, rows: seq<TableRow>): (r: seq<TableRow>)
    requires SortedRows(rows)
    ensures SortedRows(r)
    ensures multiset(r) == multiset(rows) + multiset{x}
  {
    if |rows| == 0 then [x]
    else if RowLe(x, rows[0]) then [x] + rows
    else
      var rest := InsertRow(x, rows[1..]);
      assert rows == [rows[0]] + rows[1..];
      InsertedAfterFirst(x, rows, rest);
      [rows[0]] + rest
  }

  lemma InsertedAfterFirst(x: TableRow, rows: seq<TableRow>, rest: seq<TableRow>)
    requires |rows| > 0 && SortedRows(rows) && SortedRows(rest)
    requires RowLe(rows[0], x)
    requires multiset(rest) == multiset(rows[1..]) + multiset{x}
    ensures SortedRows([rows[0]] + rest)
  {
    forall i | 0 <= i < |rest| ensures RowLe(rows[0], rest[i]) {
      assert rest[i] in multiset(rest);
      if rest[i] != x {
        assert rest[i] in multiset(rows[1..]);
        assert rest[i] in rows[1..];
      }
    }
  }

  /** `sort_values(['expiry_order', 'tenor'])`: ordered by expiry rank,
      then by tenor, as a rearrangement of the input rows. */
  function SortRows(rows: seq<TableRow>): (r: seq<TableRow>)
    ensures SortedRows(r)
    ensures multiset(r) == multiset(rows)
    ensures |r| == |rows|
  {
    if |rows| == 0 then []
    else
      assert rows == [rows[0]] + rows[1..];
      InsertRow(rows[0], SortRows(rows[1..]))
  }

  /** On grid rows with distinct instruments the order is strict: each row
      comes before every later one by expiry, or by tenor within an expiry. */
  lemma SortedGridIsStrict(rows: seq<TableRow>)
    requires SortedRows(rows)
    requires forall i :: 0 <= i < |rows| ==> InGrid(KeyOfRow(rows[i]))
    requires forall i, j :: 0 <= i < j < |rows| ==> KeyOfRow(rows[i]) != KeyOfRow(rows[j])
    ensures forall i, j :: 0 <= i < j < |rows| ==>
      Rank(rows[i].expiry) < Rank(rows[j].expiry) ||
      (rows[i].expiry == rows[j].expiry && rows[i].tenor < rows[j].tenor)
  {
    forall i, j | 0 <= i < j < |rows|
      ensures Rank(rows[i].expiry) < Rank(rows[j].expiry) ||
        (rows[i].expiry == rows[j].expiry && rows[i].tenor < rows[j].tenor)
    {
      assert RowLe(rows[i], rows[j]);
      if Rank(rows[i].expiry) == Rank(rows[j].expiry) {
        assert rows[i].expiry == Config.OptionTenors[Rank(rows[i].expiry)];
        assert rows[j].expiry == Config.OptionTenors[Rank(rows[j].expiry)];
      }
    }
  }
}

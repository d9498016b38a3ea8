/** `build_swaption_vol_table(vol_data, swap_rates, as_of_date)`: the
    implied metrics, joined on tenor with the realized vols, restricted to
    the grid, flagged and ordered. */
module Build {
  import opened Options
  import opened Series
  import Stats
  import Config
  import Implied
  import Realized
  import Movers
  import Labels
  import opened Table

  /** The realized rows of the default windows; the window list is not
      empty, so the computation cannot fail. */
  function TableRealized(rateObs: seq<RateObs>, asOf: int, sqrt: Stats.Root): (r: seq<Realized.RealizedRow>)
    ensures Realized.ComputeRealizedVol(rateObs, asOf, sqrt) == Success(r)
  {
    var res := Realized.ComputeRealizedVol(rateObs, asOf, sqrt);
    assert |Realized.DefaultWindows| > 0;
    res.value
  }

  /** The realized columns the table shows for swap tenor `t`. */
  function RealizedColumns(rateObs: seq<RateObs>, asOf: int, t: nat, sqrt: Stats.Root): seq<Option<real>> {
    var rates := RateSeries(rateObs, asOf, t);
    if Realized.LongEnough(rates, Realized.DefaultWindows)
    then Realized.SeriesRealized(rates, Realized.DefaultWindows, sqrt)
    else NoRealized()
  }

  /** What a table row holds, stated through the specifications of its
      parts: a grid instrument, the metrics of its visible series, its
      label, the same metrics in daily units, the realized vols of its
      tenor (NaN when the tenor has too little history) and its flags. */
  predicate RowFaithful(volObs: seq<VolObs>, rateObs: seq<RateObs>, asOf: int, sqrt: Stats.Root, row: TableRow) {
    var k := KeyOfRow(row);
    var s := VolSeries(volObs, asOf, k);
    && InGrid(k)
    && Implied.SeriesMetrics(s) == Some(row.ann)
    && row.termTenor == Labels.TermTenor(row.expiry, row.tenor)
    && row.daily == ToDaily(row.ann, sqrt)
    && row.realized == RealizedColumns(rateObs, asOf, row.tenor, sqrt)
    && row.flags == Movers.ComputeFlags(s, row.ann)
  }

  predicate StrictlyOrdered(rows: seq<TableRow>) {
    forall i, j :: 0 <= i < j < |rows| ==>
      Rank(rows[i].expiry) < Rank(rows[j].expiry) ||
      (rows[i].expiry == rows[j].expiry && rows[i].tenor < rows[j].tenor)
  }

  /** Some row of `rows` is for instrument `k`. */
  predicate HasRow(rows: seq<TableRow>, k: Key) {
    exists i :: 0 <= i < |rows| && KeyOfRow(rows[i]) == k
  }

  /** `rows` holds a row exactly for the grid instruments with at least
      five visible observations. */
  ghost predicate CoversGrid(rows: seq<TableRow>, volObs: seq<VolObs>, asOf: int) {
    forall k :: HasRow(rows, k) <==> InGrid(k) && |VolSeries(volObs, asOf, k)| >= Config.MinImpliedHistory
  }

  predicate AllFaithful(rows: seq<TableRow>, volObs: seq<VolObs>, rateObs: seq<RateObs>, asOf: int, sqrt: Stats.Root) {
    forall i :: 0 <= i < |rows| ==> RowFaithful(volObs, rateObs, asOf, sqrt, rows[i])
  }

  predicate DistinctKeys(rows: seq<TableRow>) {
    forall i, j :: 0 <= i < j < |rows| ==> KeyOfRow(rows[i]) != KeyOfRow(rows[j])
  }

  /** No instrument has five visible observations. */
  ghost predicate NoImpliedHistory(volObs: seq<VolObs>, asOf: int) {
    forall k :: |VolSeries(volObs, asOf, k)| < Config.MinImpliedHistory
  }

  /** No swap tenor has as many visible rates as the longest window. */
  ghost predicate NoRealizedHistory(rateObs: seq<RateObs>, asOf: int) {
    forall t :: !Realized.LongEnough(RateSeries(rateObs, asOf, t), Realized.DefaultWindows)
  }

  /** The table as of `asOf`, or why there is none: no instrument with
      five visible observations, or (with some) no swap tenor with as many
      visible rates as the longest realized window. */
  function BuildSwaptionVolTable(volObs: seq<VolObs>, rateObs: seq<RateObs>, asOf: int, sqrt: Stats.Root)
    : (r: Result<seq<TableRow>, TableError>)
    ensures r.Failure? ==> r.error == NoImpliedRows || r.error == NoRealizedRows
    ensures r == Failure(NoImpliedRows) <==> NoImpliedHistory(volObs, asOf)
    ensures r == Failure(NoRealizedRows) <==>
      !NoImpliedHistory(volObs, asOf) && NoRealizedHistory(rateObs, asOf)
    ensures r.Success? ==> CoversGrid(r.value, volObs, asOf)
    ensures r.Success? ==> AllFaithful(r.value, volObs, rateObs, asOf, sqrt)
    ensures r.Success? ==> StrictlyOrdered(r.value)
  {
    var implied := Implied.ComputeImpliedVolChanges(volObs, asOf);
    var realized := TableRealized(rateObs, asOf, sqrt);
    ImpliedEmptyIff(volObs, asOf, implied);
    RealizedEmptyIff(rateObs, asOf, sqrt, realized);
    if |implied| == 0 then Failure(NoImpliedRows)
    else if |realized| == 0 then Failure(NoRealizedRows)
    else
      var rows := MakeRows(GridOnly(implied), realized, volObs, asOf, sqrt);
      TableRowsSpec(volObs, rateObs, asOf, sqrt, implied, realized, rows);
      var sorted := SortRows(rows);
      SortedTableSpec(volObs, rateObs, asOf, sqrt, rows, sorted);
      Success(sorted)
  }

  lemma ImpliedEmptyIff(volObs: seq<VolObs>, asOf: int, implied: seq<Implied.ImpliedRow>)
    requires implied == Implied.ComputeImpliedVolChanges(volObs, asOf)
    ensures |implied| == 0 <==> NoImpliedHistory(volObs, asOf)
  {
    if |implied| > 0 {
      assert implied[0] in implied;
    }
  }

  lemma RealizedEmptyIff(rateObs: seq<RateObs>, asOf: int, sqrt: Stats.Root, realized: seq<Realized.RealizedRow>)
    requires realized == TableRealized(rateObs, asOf, sqrt)
    ensures |realized| == 0 <==> NoRealizedHistory(rateObs, asOf)
  {
    if |realized| > 0 {
      assert realized[0] in realized;
    }
  }

  /** The unsorted rows: one per grid instrument with enough history, each
      faithful, with distinct instruments. */
  lemma TableRowsSpec(volObs: seq<VolObs>, rateObs: seq<RateObs>, asOf: int, sqrt: Stats.Root,
                      implied: seq<Implied.ImpliedRow>, realized: seq<Realized.RealizedRow>, rows: seq<TableRow>)
    requires implied == Implied.ComputeImpliedVolChanges(volObs, asOf)
    requires realized == TableRealized(rateObs, asOf, sqrt)
    requires rows == MakeRows(GridOnly(implied), realized, volObs, asOf, sqrt)
    ensures CoversGrid(rows, volObs, asOf)
    ensures AllFaithful(rows, volObs, rateObs, asOf, sqrt)
    ensures DistinctKeys(rows)
  {
    var g := GridOnly(implied);
    GridOnlyMembers(implied);
    GridOnlyDistinct(implied);
    RowsFaithful(volObs, rateObs, asOf, sqrt, g, realized, rows);
    RowsCover(volObs, asOf, implied, g, rows);
  }

  lemma RowsFaithful(volObs: seq<VolObs>, rateObs: seq<RateObs>, asOf: int, sqrt: Stats.Root,
                     g: seq<Implied.ImpliedRow>, realized: seq<Realized.RealizedRow>, rows: seq<TableRow>)
    requires forall row :: row in g ==> row in Implied.ComputeImpliedVolChanges(volObs, asOf) && InGrid(row.key)
    requires realized == TableRealized(rateObs, asOf, sqrt)
    requires |rows| == |g|
    requires forall i :: 0 <= i < |g| ==> rows[i] == MakeRow(g[i], realized, volObs, asOf, sqrt)
    ensures AllFaithful(rows, volObs, rateObs, asOf, sqrt)
  {
    forall i | 0 <= i < |rows| ensures RowFaithful(volObs, rateObs, asOf, sqrt, rows[i]) {
      assert g[i] in g;
      RowIsFaithful(volObs, rateObs, asOf, sqrt, realized, g[i]);
    }
  }

  lemma RowsCover(volObs: seq<VolObs>, asOf: int, implied: seq<Implied.ImpliedRow>,
                  g: seq<Implied.ImpliedRow>, rows: seq<TableRow>)
    requires forall k :: (exists row :: row in implied && row.key == k) <==>
      |VolSeries(volObs, asOf, k)| >= Config.MinImpliedHistory
    requires forall row :: row in g <==> row in implied && InGrid(row.key)
    requires forall i, j :: 0 <= i < j < |g| ==> g[i].key != g[j].key
    requires |rows| == |g|
    requires forall i :: 0 <= i < |g| ==> KeyOfRow(rows[i]) == g[i].key
    ensures CoversGrid(rows, volObs, asOf)
    ensures DistinctKeys(rows)
  {
    forall k ensures HasRow(rows, k) <==> InGrid(k) && |VolSeries(volObs, asOf, k)| >= Config.MinImpliedHistory {
      if InGrid(k) && |VolSeries(volObs, asOf, k)| >= Config.MinImpliedHistory {
        var row :| row in implied && row.key == k;
        assert row in g;
        var i :| 0 <= i < |g| && g[i] == row;
        assert KeyOfRow(rows[i]) == k;
      }
      if HasRow(rows, k) {
        var i :| 0 <= i < |rows| && KeyOfRow(rows[i]) == k;
        assert g[i] in g;
      }
    }
  }

  /** One row built from an implied row is faithful. */
  lemma RowIsFaithful(volObs: seq<VolObs>, rateObs: seq<RateObs>, asOf: int, sqrt: Stats.Root,
                      realized: seq<Realized.RealizedRow>, impl: Implied.ImpliedRow)
    requires impl in Implied.ComputeImpliedVolChanges(volObs, asOf) && InGrid(impl.key)
    requires realized == TableRealized(rateObs, asOf, sqrt)
    ensures RowFaithful(volObs, rateObs, asOf, sqrt, MakeRow(impl, realized, volObs, asOf, sqrt))
  {
    var t := impl.key.tenor;
    var rates := RateSeries(rateObs, asOf, t);
    if Realized.LongEnough(rates, Realized.DefaultWindows) {
      var row :| row in realized && row.tenor == t;
      RealizedForUnique(realized, t, row.vols);
    }
  }

  /** Sorting keeps the rows and puts them in strict display order. */
  lemma SortedTableSpec(volObs: seq<VolObs>, rateObs: seq<RateObs>, asOf: int, sqrt: Stats.Root,
                        rows: seq<TableRow>, sorted: seq<TableRow>)
    requires CoversGrid(rows, volObs, asOf)
    requires AllFaithful(rows, volObs, rateObs, asOf, sqrt)
    requires DistinctKeys(rows)
    requires sorted == SortRows(rows)
    ensures CoversGrid(sorted, volObs, asOf)
    ensures AllFaithful(sorted, volObs, rateObs, asOf, sqrt)
    ensures StrictlyOrdered(sorted)
  {
    SameMembers(rows, sorted);
    SortKeepsFaithful(volObs, rateObs, asOf, sqrt, rows, sorted);
    SortKeepsCoverage(volObs, asOf, rows, sorted);
    PermutationKeepsDistinctKeys(rows, sorted);
    assert forall i :: 0 <= i < |sorted| ==> InGrid(KeyOfRow(sorted[i])) by {
      forall i | 0 <= i < |sorted| ensures InGrid(KeyOfRow(sorted[i])) {
        assert RowFaithful(volObs, rateObs, asOf, sqrt, sorted[i]);
      }
    }
    SortedGridIsStrict(sorted);
  }

  lemma SameMembers(rows: seq<TableRow>, sorted: seq<TableRow>)
    requires multiset(sorted) == multiset(rows)
    ensures forall x :: x in sorted <==> x in rows
  {
    forall x ensures x in sorted <==> x in rows {
      assert x in sorted <==> x in multiset(sorted);
      assert x in rows <==> x in multiset(rows);
    }
  }

  lemma SortKeepsFaithful(volObs: seq<VolObs>, rateObs: seq<RateObs>, asOf: int, sqrt: Stats.Root,
                          rows: seq<TableRow>, sorted: seq<TableRow>)
    requires AllFaithful(rows, volObs, rateObs, asOf, sqrt)
    requires forall x :: x in sorted ==> x in rows
    ensures AllFaithful(sorted, volObs, rateObs, asOf, sqrt)
  {
    forall i | 0 <= i < |sorted| ensures RowFaithful(volObs, rateObs, asOf, sqrt, sorted[i]) {
      assert sorted[i] in rows;
    }
  }

  lemma SortKeepsCoverage(volObs: seq<VolObs>, asOf: int, rows: seq<TableRow>, sorted: seq<TableRow>)
    requires CoversGrid(rows, volObs, asOf)
    requires forall x :: x in sorted <==> x in rows
    ensures CoversGrid(sorted, volObs, asOf)
  {
    forall k ensures HasRow(sorted, k) <==> HasRow(rows, k) {
      if HasRow(sorted, k) {
        var i :| 0 <= i < |sorted| && KeyOfRow(sorted[i]) == k;
        assert sorted[i] in rows;
      }
      if HasRow(rows, k) {
        var i :| 0 <= i < |rows| && KeyOfRow(rows[i]) == k;
        assert rows[i] in sorted;
      }
    }
  }

  // ------------------------------------------------------ no look-ahead

  /** The table depends on the observations only through those dated on
      or before `asOf`. */
  lemma DependsOnlyOnVisible(v1: seq<VolObs>, v2: seq<VolObs>, r1: seq<RateObs>, r2: seq<RateObs>,
                             asOf: int, sqrt: Stats.Root)
    requires VisibleVol(v1, asOf) == VisibleVol(v2, asOf)
    requires VisibleRates(r1, asOf) == VisibleRates(r2, asOf)
    ensures BuildSwaptionVolTable(v1, r1, asOf, sqrt) == BuildSwaptionVolTable(v2, r2, asOf, sqrt)
  {
    ImpliedDependsOnVisible(v1, v2, asOf);
    RealizedDependsOnVisible(r1, r2, asOf, sqrt);
    var g := GridOnly(Implied.ComputeImpliedVolChanges(v1, asOf));
    var realized := TableRealized(r1, asOf, sqrt);
    assert MakeRows(g, realized, v1, asOf, sqrt) == MakeRows(g, realized, v2, asOf, sqrt);
  }

  lemma ImpliedDependsOnVisible(v1: seq<VolObs>, v2: seq<VolObs>, asOf: int)
    requires VisibleVol(v1, asOf) == VisibleVol(v2, asOf)
    ensures Implied.ComputeImpliedVolChanges(v1, asOf) == Implied.ComputeImpliedVolChanges(v2, asOf)
  {
    var keys := VolKeys(VisibleVol(v1, asOf));
    var ms1 := seq(|keys|, j requires 0 <= j < |keys| => Implied.InstrumentMetrics(v1, asOf, keys[j]));
    var ms2 := seq(|keys|, j requires 0 <= j < |keys| => Implied.InstrumentMetrics(v2, asOf, keys[j]));
    assert ms1 == ms2;
  }

  lemma RealizedDependsOnVisible(r1: seq<RateObs>, r2: seq<RateObs>, asOf: int, sqrt: Stats.Root)
    requires VisibleRates(r1, asOf) == VisibleRates(r2, asOf)
    ensures TableRealized(r1, asOf, sqrt) == TableRealized(r2, asOf, sqrt)
  {
    var w := Realized.DefaultWindows;
    var tenors := RateTenors(VisibleRates(r1, asOf));
    var ms1 := seq(|tenors|, j requires 0 <= j < |tenors| => Realized.TenorRealized(r1, asOf, tenors[j], w, sqrt));
    var ms2 := seq(|tenors|, j requires 0 <= j < |tenors| => Realized.TenorRealized(r2, asOf, tenors[j], w, sqrt));
    assert ms1 == ms2;
  }

  /** Observations dated after `asOf`, wherever they sit in the inputs,
      do not change the table as of `asOf`. */
  lemma NoLookAhead(a: seq<VolObs>, laterVol: seq<VolObs>, b: seq<VolObs>,
                    ra: seq<RateObs>, laterRates: seq<RateObs>, rb: seq<RateObs>,
                    asOf: int, sqrt: Stats.Root)
    requires forall o :: o in laterVol ==> o.date > asOf
    requires forall o :: o in laterRates ==> o.date > asOf
    ensures BuildSwaptionVolTable(a + laterVol + b, ra + laterRates + rb, asOf, sqrt) ==
            BuildSwaptionVolTable(a + b, ra + rb, asOf, sqrt)
  {
    LaterInvisible(a, laterVol, b, VolDate, asOf);
    LaterInvisible(ra, laterRates, rb, RateDate, asOf);
    DependsOnlyOnVisible(a + laterVol + b, a + b, ra + laterRates + rb, ra + rb, asOf, sqrt);
  }

  /** A row list with distinct instruments holds each row at most once. */
  lemma {:induction false} AtMostOnce(rows: seq<TableRow>)
    requires DistinctKeys(rows)
    ensures forall x :: multiset(rows)[x] <= 1
  {
    if |rows| > 0 {
      AtMostOnce(rows[1..]);
      assert rows == [rows[0]] + rows[1..];
      forall x ensures multiset(rows)[x] <= 1 {
        if x == rows[0] {
          forall j | 0 <= j < |rows[1..]| ensures rows[1..][j] != x {
            assert KeyOfRow(rows[j + 1]) != KeyOfRow(rows[0]);
          }
        }
      }
    }
  }

  /** A row that appears at two positions is counted twice. */
  lemma TwiceCountsTwice(r: seq<TableRow>, i: nat, j: nat)
    requires i < j < |r| && r[i] == r[j]
    ensures multiset(r)[r[i]] >= 2
  {
    assert r == r[..j] + [r[j]] + r[j + 1..];
    assert r[i] in r[..j];
  }

  lemma PermutationKeepsDistinctKeys(rows: seq<TableRow>, r: seq<TableRow>)
    requires DistinctKeys(rows)
    requires multiset(r) == multiset(rows)
    ensures DistinctKeys(r)
  {
    AtMostOnce(rows);
    forall i, j | 0 <= i < j < |r| ensures KeyOfRow(r[i]) != KeyOfRow(r[j]) {
      if r[i] == r[j] {
        TwiceCountsTwice(r, i, j);
      } else {
        assert r[i] in multiset(rows) && r[j] in multiset(rows);
        var p :| 0 <= p < |rows| && rows[p] == r[i];
        var q :| 0 <= q < |rows| && rows[q] == r[j];
        assert p != q;
      }
    }
  }
}

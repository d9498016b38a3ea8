/** The series extractor: raw observations are cut at the as-of date (no
    look-ahead), grouped by instrument key and sorted by date
    (src/modules/swaption_vol_table.py:30-41 and 93-104). */
module Series {

  /** One implied-vol quote: annualized normal vol in basis points. */
  datatype VolObs = VolObs(date: int, expiry: string, tenor: nat, vol: real)

  /** One swap-rate quote, in percent. */
  datatype RateObs = RateObs(date: int, tenor: nat, rate: real)

  /** An implied-vol instrument: option expiry label and swap tenor in years. */
  datatype Key = Key(expiry: string, tenor: nat)

  datatype Point = Point(date: int, value: real)

  function KeyOf(o: VolObs): Key {
    Key(o.expiry, o.tenor)
  }

  /** The observations dated on or before `asOf`, in input order; `dateOf`
      reads an observation's date. */
  function UpTo<T(==,!new)>(obs: seq<T>, dateOf: T -> int, asOf: int): (r: seq<T>)
    ensures forall o :: o in r <==> o in obs && dateOf(o) <= asOf
  {
    if |obs| == 0 then []
    else (if dateOf(obs[0]) <= asOf then [obs[0]] else []) + UpTo(obs[1..], dateOf, asOf)
  }

  function VolDate(o: VolObs): int {
    o.date
  }

  function RateDate(o: RateObs): int {
    o.date
  }

  /** Implied-vol observations dated on or before `asOf`, in input order. */
  function VisibleVol(obs: seq<VolObs>, asOf: int): seq<VolObs> {
    UpTo(obs, VolDate, asOf)
  }

  /** Swap-rate observations dated on or before `asOf`, in input order. */
  function VisibleRates(obs: seq<RateObs>, asOf: int): seq<RateObs> {
    UpTo(obs, RateDate, asOf)
  }

  lemma {:induction false} UpToNone<T(!new)>(later: seq<T>, dateOf: T -> int, asOf: int)
    requires forall o :: o in later ==> dateOf(o) > asOf
    ensures UpTo(later, dateOf, asOf) == []
  {
    if |later| > 0 {
      assert later[0] in later;
      UpToNone(later[1..], dateOf, asOf);
    }
  }

  lemma {:induction false} UpToConcat<T(!new)>(a: seq<T>, b: seq<T>, dateOf: T -> int, asOf: int)
    ensures UpTo(a + b, dateOf, asOf) == UpTo(a, dateOf, asOf) + UpTo(b, dateOf, asOf)
  {
    if |a| > 0 {
      assert (a + b)[1..] == a[1..] + b;
      UpToConcat(a[1..], b, dateOf, asOf);
    } else {
      assert a + b == b;
    }
  }

  /** Observations dated after `asOf`, inserted anywhere, are invisible. */
  lemma LaterInvisible<T(!new)>(a: seq<T>, later: seq<T>, b: seq<T>, dateOf: T -> int, asOf: int)
    requires forall o :: o in later ==> dateOf(o) > asOf
    ensures UpTo(a + later + b, dateOf, asOf) == UpTo(a + b, dateOf, asOf)
  {
    UpToConcat(a + later, b, dateOf, asOf);
    UpToConcat(a, later, dateOf, asOf);
    UpToConcat(a, b, dateOf, asOf);
    UpToNone(later, dateOf, asOf);
  }

  /** The dated values of one implied-vol instrument, in input order. */
  function VolPoints(obs: seq<VolObs>, k: Key): (r: seq<Point>)
    ensures |r| <= |obs|
    ensures |r| > 0 <==> exists i :: 0 <= i < |obs| && KeyOf(obs[i]) == k
    ensures |obs| == 1 ==> r == if KeyOf(obs[0]) == k then [Point(obs[0].date, obs[0].vol)] else []
  {
    if |obs| == 0 then []
    else
      var rest := VolPoints(obs[1..], k);
      assert forall i :: 1 <= i < |obs| ==> obs[i] == obs[1..][i - 1];
      if KeyOf(obs[0]) == k then [Point(obs[0].date, obs[0].vol)] + rest else rest
  }

  /** The dated values of one swap tenor, in input order. */
  function RatePoints(obs: seq<RateObs>, t: nat): (r: seq<Point>)
    ensures |r| <= |obs|
    ensures |r| > 0 <==> exists i :: 0 <= i < |obs| && obs[i].tenor == t
    ensures |obs| == 1 ==> r == if obs[0].tenor == t then [Point(obs[0].date, obs[0].rate)] else []
  {
    if |obs| == 0 then []
    else
      var rest := RatePoints(obs[1..], t);
      assert forall i :: 1 <= i < |obs| ==> obs[i] == obs[1..][i - 1];
      if obs[0].tenor == t then [Point(obs[0].date, obs[0].rate)] + rest else rest
  }

  /** Extracting one instrument's points distributes over concatenation. */
  lemma {:induction false} VolPointsConcat(a: seq<VolObs>, b: seq<VolObs>, k: Key)
    ensures VolPoints(a + b, k) == VolPoints(a, k) + VolPoints(b, k)
  {
    if |a| == 0 {
      assert a + b == b;
    } else {
      assert (a + b)[1..] == a[1..] + b;
      VolPointsConcat(a[1..], b, k);
    }
  }

  /** Extracting one tenor's points distributes over concatenation. */
  lemma {:induction false} RatePointsConcat(a: seq<RateObs>, b: seq<RateObs>, t: nat)
    ensures RatePoints(a + b, t) == RatePoints(a, t) + RatePoints(b, t)
  {
    if |a| == 0 {
      assert a + b == b;
    } else {
      assert (a + b)[1..] == a[1..] + b;
      RatePointsConcat(a[1..], b, t);
    }
  }

  /** Number of elements of `s` satisfying `P`. */
  function Count<T>(s: seq<T>, P: T -> bool): (r: nat)
    ensures r <= |s|
  {
    if |s| == 0 then 0
    else Count(s[..|s| - 1], P) + (if P(s[|s| - 1]) then 1 else 0)
  }

  /** The positions of `s` whose element satisfies `P`. */
  ghost function IndicesWhere<T>(s: seq<T>, P: T -> bool): set<int> {
    set i | 0 <= i < |s| && P(s[i])
  }

  /** `Count` is the number of positions whose element satisfies `P`. */
  lemma {:induction false} CountIsIndexSetSize<T>(s: seq<T>, P: T -> bool)
    ensures |IndicesWhere(s, P)| == Count(s, P)
  {
    if |s| > 0 {
      var n := |s| - 1;
      var p := s[..n];
      CountIsIndexSetSize(p, P);
      if P(s[n]) {
        assert IndicesWhere(s, P) == IndicesWhere(p, P) + {n};
      } else {
        assert IndicesWhere(s, P) == IndicesWhere(p, P);
      }
    }
  }

  /** An instrument's visible points are as many as its observations dated
      on or before `asOf`; `P` is that test on one observation. */
  lemma {:induction false} VisibleVolPointsCount(obs: seq<VolObs>, asOf: int, k: Key, P: VolObs -> bool)
    requires forall o :: P(o) == (KeyOf(o) == k && o.date <= asOf)
    ensures |VolPoints(VisibleVol(obs, asOf), k)| == Count(obs, P)
  {
    if |obs| > 0 {
      var n := |obs| - 1;
      var p := obs[..n];
      assert obs == p + [obs[n]];
      UpToConcat(p, [obs[n]], VolDate, asOf);
      VolPointsConcat(VisibleVol(p, asOf), UpTo([obs[n]], VolDate, asOf), k);
      VisibleVolPointsCount(p, asOf, k, P);
      assert UpTo([obs[n]], VolDate, asOf) == if obs[n].date <= asOf then [obs[n]] else [];
    }
  }

  /** A tenor's visible points are as many as its observations dated on or
      before `asOf`; `P` is that test on one observation. */
  lemma {:induction false} VisibleRatePointsCount(obs: seq<RateObs>, asOf: int, t: nat, P: RateObs -> bool)
    requires forall o :: P(o) == (o.tenor == t && o.date <= asOf)
    ensures |RatePoints(VisibleRates(obs, asOf), t)| == Count(obs, P)
  {
    if |obs| > 0 {
      var n := |obs| - 1;
      var p := obs[..n];
      assert obs == p + [obs[n]];
      UpToConcat(p, [obs[n]], RateDate, asOf);
      RatePointsConcat(VisibleRates(p, asOf), UpTo([obs[n]], RateDate, asOf), t);
      VisibleRatePointsCount(p, asOf, t, P);
      assert UpTo([obs[n]], RateDate, asOf) == if obs[n].date <= asOf then [obs[n]] else [];
    }
  }

  ghost predicate SortedByDate(ps: seq<Point>) {
    forall i, j :: 0 <= i < j < |ps| ==> ps[i].date <= ps[j].date
  }

  function Insert(p: Point, ps: seq<Point>): (r: seq<Point>)
    requires SortedByDate(ps)
    ensures SortedByDate(r)
    ensures multiset(r) == multiset(ps) + multiset{p}
  {
    if |ps| == 0 then [p]
    else if p.date <= ps[0].date then [p] + ps
    else
      var rest := Insert(p, ps[1..]);
      assert ps == [ps[0]] + ps[1..];
      InsertedAfterHead(p, ps, rest);
      [ps[0]] + rest
  }

  lemma InsertedAfterHead(p: Point, ps: seq<Point>, rest: seq<Point>)
    requires |ps| > 0 && SortedByDate(ps) && SortedByDate(rest)
    requires ps[0].date < p.date
    requires multiset(rest) == multiset(ps[1..]) + multiset{p}
    ensures SortedByDate([ps[0]] + rest)
  {
    forall i | 0 <= i < |rest| ensures ps[0].date <= rest[i].date {
      assert rest[i] in multiset(rest);
      if rest[i] != p {
        assert rest[i] in multiset(ps[1..]);
        assert rest[i] in ps[1..];
      }
    }
  }

  /** Insertion sort by date; observations with equal dates keep their input order. */
  function SortByDate(ps: seq<Point>): (r: seq<Point>)
    ensures SortedByDate(r)
    ensures multiset(r) == multiset(ps)
    ensures |r| == |ps|
  {
    if |ps| == 0 then []
    else
      assert ps == [ps[0]] + ps[1..];
      Insert(ps[0], SortByDate(ps[1..]))
  }

  function Values(ps: seq<Point>): (r: seq<real>)
    ensures |r| == |ps|
    ensures forall i :: 0 <= i < |ps| ==> r[i] == ps[i].value
  {
    seq(|ps|, i requires 0 <= i < |ps| => ps[i].value)
  }

  /** The implied-vol series of instrument `k` as of `asOf`: values of the
      visible observations, oldest first. */
  function VolSeries(obs: seq<VolObs>, asOf: int, k: Key): seq<real>
  {
    Values(SortByDate(VolPoints(VisibleVol(obs, asOf), k)))
  }

  /** The swap-rate series of tenor `t` as of `asOf`, oldest first. */
  function RateSeries(obs: seq<RateObs>, asOf: int, t: nat): seq<real>
  {
    Values(SortByDate(RatePoints(VisibleRates(obs, asOf), t)))
  }

  /** The series is a date-ordered rearrangement of exactly the visible
      observations of its instrument: as many values as those observations,
      and none iff none is visible. */
  lemma VolSeriesIsSortedVisibleHistory(obs: seq<VolObs>, asOf: int, k: Key)
    ensures exists ps: seq<Point> ::
      && SortedByDate(ps)
      && multiset(ps) == multiset(VolPoints(VisibleVol(obs, asOf), k))
      && VolSeries(obs, asOf, k) == Values(ps)
    ensures |VolSeries(obs, asOf, k)| == |VolPositions(obs, asOf, k)|
    ensures |VolSeries(obs, asOf, k)| > 0 <==>
      exists i :: 0 <= i < |obs| && KeyOf(obs[i]) == k && obs[i].date <= asOf
  {
    var ps := SortByDate(VolPoints(VisibleVol(obs, asOf), k));
    assert VolSeries(obs, asOf, k) == Values(ps);
    VisibleVolIndices(obs, asOf, k);
    if exists i :: 0 <= i < |obs| && KeyOf(obs[i]) == k && obs[i].date <= asOf {
      var i :| 0 <= i < |obs| && KeyOf(obs[i]) == k && obs[i].date <= asOf;
      assert i in VolPositions(obs, asOf, k);
    }
  }

  /** Positions of the observations of instrument `k` dated on or before `asOf`. */
  ghost function VolPositions(obs: seq<VolObs>, asOf: int, k: Key): set<int> {
    set i | 0 <= i < |obs| && KeyOf(obs[i]) == k && obs[i].date <= asOf
  }

  lemma VisibleVolIndices(obs: seq<VolObs>, asOf: int, k: Key)
    ensures |VolPoints(VisibleVol(obs, asOf), k)| == |VolPositions(obs, asOf, k)|
  {
    var P := (o: VolObs) => KeyOf(o) == k && o.date <= asOf;
    VisibleVolPointsCount(obs, asOf, k, P);
    CountIsIndexSetSize(obs, P);
    assert VolPositions(obs, asOf, k) == IndicesWhere(obs, P);
  }

  /** The same for a swap tenor's rate series. */
  lemma RateSeriesIsSortedVisibleHistory(obs: seq<RateObs>, asOf: int, t: nat)
    ensures exists ps: seq<Point> ::
      && SortedByDate(ps)
      && multiset(ps) == multiset(RatePoints(VisibleRates(obs, asOf), t))
      && RateSeries(obs, asOf, t) == Values(ps)
    ensures |RateSeries(obs, asOf, t)| == |RatePositions(obs, asOf, t)|
    ensures |RateSeries(obs, asOf, t)| > 0 <==>
      exists i :: 0 <= i < |obs| && obs[i].tenor == t && obs[i].date <= asOf
  {
    var ps := SortByDate(RatePoints(VisibleRates(obs, asOf), t));
    assert RateSeries(obs, asOf, t) == Values(ps);
    VisibleRateIndices(obs, asOf, t);
    if exists i :: 0 <= i < |obs| && obs[i].tenor == t && obs[i].date <= asOf {
      var i :| 0 <= i < |obs| && obs[i].tenor == t && obs[i].date <= asOf;
      assert i in RatePositions(obs, asOf, t);
    }
  }

  /** Positions of the observations of tenor `t` dated on or before `asOf`. */
  ghost function RatePositions(obs: seq<RateObs>, asOf: int, t: nat): set<int> {
    set i | 0 <= i < |obs| && obs[i].tenor == t && obs[i].date <= asOf
  }

  lemma VisibleRateIndices(obs: seq<RateObs>, asOf: int, t: nat)
    ensures |RatePoints(VisibleRates(obs, asOf), t)| == |RatePositions(obs, asOf, t)|
  {
    var P := (o: RateObs) => o.tenor == t && o.date <= asOf;
    VisibleRatePointsCount(obs, asOf, t, P);
    CountIsIndexSetSize(obs, P);
    assert RatePositions(obs, asOf, t) == IndicesWhere(obs, P);
  }

  /** Duplicates removed, first occurrence kept. */
  function Dedup<T(==,!new)>(s: seq<T>): (r: seq<T>)
    ensures forall x :: x in r <==> x in s
    ensures forall i, j :: 0 <= i < j < |r| ==> r[i] != r[j]
  {
    if |s| == 0 then []
    else
      var r := Dedup(s[..|s| - 1]);
      assert s == s[..|s| - 1] + [s[|s| - 1]];
      if s[|s| - 1] in r then r else r + [s[|s| - 1]]
  }

  /** The distinct instruments of an observation set (the groups of a groupby). */
  function VolKeys(obs: seq<VolObs>): (r: seq<Key>)
    ensures forall k :: k in r <==> exists i :: 0 <= i < |obs| && KeyOf(obs[i]) == k
    ensures forall i, j :: 0 <= i < j < |r| ==> r[i] != r[j]
  {
    var ks := seq(|obs|, i requires 0 <= i < |obs| => KeyOf(obs[i]));
    assert forall i :: 0 <= i < |obs| ==> ks[i] == KeyOf(obs[i]);
    assert forall k :: k in ks <==> exists i :: 0 <= i < |obs| && KeyOf(obs[i]) == k;
    Dedup(ks)
  }

  /** The distinct tenors of a swap-rate observation set. */
  function RateTenors(obs: seq<RateObs>): (r: seq<nat>)
    ensures forall t :: t in r <==> exists i :: 0 <= i < |obs| && obs[i].tenor == t
    ensures forall i, j :: 0 <= i < j < |r| ==> r[i] != r[j]
  {
    var ts: seq<nat> := seq(|obs|, i requires 0 <= i < |obs| => obs[i].tenor);
    assert forall i :: 0 <= i < |obs| ==> ts[i] == obs[i].tenor;
    assert forall t :: t in ts <==> exists i :: 0 <= i < |obs| && obs[i].tenor == t;
    Dedup(ts)
  }
}

/** Trailing-window semantics of pandas `Series.rolling(window=w, min_periods=p)`:
    the window ending at position j holds the last `min(w, j + 1)` positions,
    missing values are skipped, and a statistic is defined only when enough
    values remain. */
module Rolling {
  import opened Options
  import opened Stats

  function WindowAt<T>(d: seq<T>, j: nat, w: nat): (r: seq<T>)
    requires j < |d|
    ensures |r| == if w <= j + 1 then w else j + 1
    ensures forall k :: 0 <= k < |r| ==> r[k] == d[j + 1 - |r| + k]
  {
    if w <= j + 1 then d[j + 1 - w .. j + 1] else d[..j + 1]
  }

  /** The defined values of `d`, in order. */
  function Present(d: seq<Option<real>>): (r: seq<real>)
    ensures |r| <= |d|
    ensures forall x :: x in r ==> Some(x) in d
  {
    if |d| == 0 then []
    else if d[0].Some? then [d[0].value] + Present(d[1..])
    else Present(d[1..])
  }

  lemma {:induction false} PresentAllDefined(d: seq<Option<real>>)
    requires forall k :: 0 <= k < |d| ==> d[k].Some?
    ensures |Present(d)| == |d|
    ensures forall k :: 0 <= k < |d| ==> Present(d)[k] == d[k].value
  {
    if |d| > 0 {
      PresentAllDefined(d[1..]);
      assert Present(d) == [d[0].value] + Present(d[1..]);
    }
  }

  /** Rolling sample standard deviation at position j; defined only when the
      window holds at least `minp` values and at least two (delta degrees of
      freedom 1). */
  function RollingStd(d: seq<Option<real>>, j: nat, w: nat, minp: nat, sqrt: Root): (r: Option<real>)
    requires j < |d|
    ensures r.Some? <==> |Present(WindowAt(d, j, w))| >= minp && |Present(WindowAt(d, j, w))| >= 2
    ensures r.Some? ==> r.value >= 0.0
    ensures r.Some? ==> r.value == SampleStd(Present(WindowAt(d, j, w)), sqrt)
  {
    var xs := Present(WindowAt(d, j, w));
    if |xs| >= minp && |xs| >= 2 then Some(SampleStd(xs, sqrt)) else None
  }

  /** Where every defined value equals one constant, a defined rolling
      standard deviation is zero. */
  lemma RollingStdOfConstant(d: seq<Option<real>>, j: nat, w: nat, minp: nat, sqrt: Root, c: real)
    requires j < |d|
    requires forall k :: 0 <= k < |d| && d[k].Some? ==> d[k].value == c
    ensures RollingStd(d, j, w, minp, sqrt).Some? ==> RollingStd(d, j, w, minp, sqrt).value == 0.0
  {
    var win := WindowAt(d, j, w);
    var xs := Present(win);
    if |xs| >= minp && |xs| >= 2 {
      forall i | 0 <= i < |xs| ensures xs[i] == c {
        assert xs[i] in xs;
        assert Some(xs[i]) in win;
      }
      ConstantHasZeroVariance(xs);
    }
  }

  /** For a difference series (first position missing, all others defined),
      the number of defined values in the window ending at j is `w` once the
      window no longer reaches the first position, and `j` before that. */
  lemma PresentInDifferenceWindow(d: seq<Option<real>>, j: nat, w: nat)
    requires j < |d|
    requires d[0].None?
    requires forall k :: 1 <= k < |d| ==> d[k].Some?
    ensures |Present(WindowAt(d, j, w))| == if w <= j then w else j
  {
    var win := WindowAt(d, j, w);
    if w <= j {
      PresentAllDefined(win);
    } else {
      assert win == [d[0]] + win[1..];
      PresentAllDefined(win[1..]);
    }
  }

  /** The minimum-period count only decides whether the value is defined,
      never what it is: a smaller minimum keeps every defined value. */
  lemma RollingStdLowerMinPeriods(d: seq<Option<real>>, j: nat, w: nat, m1: nat, m2: nat, sqrt: Root)
    requires j < |d| && m2 <= m1
    requires RollingStd(d, j, w, m1, sqrt).Some?
    ensures RollingStd(d, j, w, m2, sqrt) == RollingStd(d, j, w, m1, sqrt)
  {
  }
}

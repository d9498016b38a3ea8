/** Real-valued sample statistics: sums, means, sample variance with n - 1
    in the denominator, standard deviation, maximum and minimum.

    Dafny's reals have no square root, so the standard deviation takes the
    square root as a parameter of type `Root`: any function that is zero at
    zero, never negative, and positive on positive inputs. Nothing else about
    the square root is relied on. */
module Stats {

  ghost predicate IsRoot(f: real -> real) {
    && f(0.0) == 0.0
    && (forall x :: f(x) >= 0.0)
    && (forall x :: x > 0.0 ==> f(x) > 0.0)
  }

  /** The witness only shows that the type is inhabited; it is not a square root. */
  type Root = f: real -> real | IsRoot(f) witness (x: real) => if x > 0.0 then x else 0.0

  function Abs(x: real): (r: real)
    ensures r >= 0.0
    ensures r == x || r == -x
  {
    if x < 0.0 then -x else x
  }

  function Sum(s: seq<real>): real
  {
    if |s| == 0 then 0.0 else s[0] + Sum(s[1..])
  }

  function Mean(s: seq<real>): real
    requires |s| > 0
  {
    Sum(s) / (|s| as real)
  }

  /** Sum of squared deviations of `s` from `m`. */
  function SumSqDev(s: seq<real>, m: real): (r: real)
    ensures r >= 0.0
  {
    if |s| == 0 then 0.0 else Square(s[0] - m) + SumSqDev(s[1..], m)
  }

  function Square(x: real): (r: real)
    ensures r >= 0.0
  {
    x * x
  }

  /** Sample variance (delta degrees of freedom 1), defined from two values on. */
  function SampleVariance(s: seq<real>): (r: real)
    requires |s| >= 2
    ensures r >= 0.0
  {
    SumSqDev(s, Mean(s)) / ((|s| - 1) as real)
  }

  function SampleStd(s: seq<real>, sqrt: Root): (r: real)
    requires |s| >= 2
    ensures r >= 0.0
    ensures r == 0.0 <==> SampleVariance(s) == 0.0
  {
    sqrt(SampleVariance(s))
  }

  function Max(s: seq<real>): (r: real)
    requires |s| > 0
    ensures r in s
    ensures forall i :: 0 <= i < |s| ==> s[i] <= r
  {
    if |s| == 1 then s[0]
    else
      var m := Max(s[1..]);
      if s[0] >= m then s[0] else m
  }

  function Min(s: seq<real>): (r: real)
    requires |s| > 0
    ensures r in s
    ensures forall i :: 0 <= i < |s| ==> r <= s[i]
  {
    if |s| == 1 then s[0]
    else
      var m := Min(s[1..]);
      if s[0] <= m then s[0] else m
  }

  lemma {:induction false} SumBounds(s: seq<real>, lo: real, hi: real)
    requires forall i :: 0 <= i < |s| ==> lo <= s[i] <= hi
    ensures (|s| as real) * lo <= Sum(s) <= (|s| as real) * hi
  {
    if |s| > 0 {
      SumBounds(s[1..], lo, hi);
      assert (|s| as real) * lo == lo + ((|s| - 1) as real) * lo;
      assert (|s| as real) * hi == hi + ((|s| - 1) as real) * hi;
    }
  }

  /** The mean lies between the minimum and the maximum. */
  lemma MeanWithinMinMax(s: seq<real>)
    requires |s| > 0
    ensures Min(s) <= Mean(s) <= Max(s)
  {
    MeanBounds(s, Min(s), Max(s));
  }

  /** A mean of values within [lo, hi] lies within [lo, hi]. */
  lemma MeanBounds(s: seq<real>, lo: real, hi: real)
    requires |s| > 0
    requires forall i :: 0 <= i < |s| ==> lo <= s[i] <= hi
    ensures lo <= Mean(s) <= hi
  {
    SumBounds(s, lo, hi);
    DivBetween(Sum(s), |s| as real, lo, hi);
  }

  lemma DivBetween(t: real, n: real, lo: real, hi: real)
    requires n > 0.0
    requires n * lo <= t <= n * hi
    ensures lo <= t / n <= hi
  {
    var q := t / n;
    assert q * n == t;
    ScaleCancel(n, lo, q);
    ScaleCancel(n, q, hi);
  }

  /** Multiplying both sides by a positive factor keeps a non-strict order. */
  lemma ScaleCancel(n: real, a: real, b: real)
    requires n > 0.0
    requires a * n <= b * n
    ensures a <= b
  {
  }

  lemma {:induction false} SumConstant(s: seq<real>, c: real)
    requires forall i :: 0 <= i < |s| ==> s[i] == c
    ensures Sum(s) == (|s| as real) * c
  {
    if |s| > 0 {
      SumConstant(s[1..], c);
    }
  }

  lemma {:induction false} SumSqDevOfConstant(s: seq<real>, m: real)
    requires forall i :: 0 <= i < |s| ==> s[i] == m
    ensures SumSqDev(s, m) == 0.0
  {
    if |s| > 0 {
      SumSqDevOfConstant(s[1..], m);
    }
  }

  /** A sequence of equal values has zero sample variance. */
  lemma ConstantHasZeroVariance(s: seq<real>)
    requires |s| >= 2
    requires forall i :: 0 <= i < |s| ==> s[i] == s[0]
    ensures SampleVariance(s) == 0.0
  {
    SumConstant(s, s[0]);
    assert Mean(s) == s[0];
    SumSqDevOfConstant(s, s[0]);
  }
}

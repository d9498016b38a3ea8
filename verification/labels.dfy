/** The display label of a grid point, `"<expiry> × <tenor>Y"` (the
    `term_tenor` column), and the decimal rendering of the tenor it uses. */
module Labels {
  import opened Options

  predicate IsDigit(c: char) {
    '0' <= c <= '9'
  }

  predicate AllDigits(s: string) {
    forall i :: 0 <= i < |s| ==> IsDigit(s[i])
  }

  function DigitChar(d: nat): (c: char)
    requires d < 10
    ensures IsDigit(c)
    ensures (c as int) - ('0' as int) == d
  {
    (('0' as int) + d) as char
  }

  /** `str(n)`: the decimal digits of `n`, most significant first, without
      leading zeros. */
  function NatToString(n: nat): (r: string)
    ensures |r| > 0 && AllDigits(r)
    ensures r[0] == '0' <==> n == 0
    ensures |r| > 1 ==> r[0] != '0'
    decreases n
  {
    if n < 10 then [DigitChar(n)] else NatToString(n / 10) + [DigitChar(n % 10)]
  }

  /** The number a string of decimal digits denotes. */
  function DigitsValue(s: string): nat
    requires AllDigits(s)
  {
    if |s| == 0 then 0
    else DigitsValue(s[..|s| - 1]) * 10 + ((s[|s| - 1] as int) - ('0' as int))
  }

  /** Reading the rendered digits back gives the number. */
  lemma {:induction false} NatToStringRoundTrip(n: nat)
    ensures DigitsValue(NatToString(n)) == n
    decreases n
  {
    if n >= 10 {
      NatToStringRoundTrip(n / 10);
      var s := NatToString(n);
      assert s[..|s| - 1] == NatToString(n / 10);
    }
  }

  /** The multiplication sign U+00D7 between expiry and tenor. */
  const Times: char := '\U{D7}'

  /** `expiry + ' × ' + str(tenor) + 'Y'`. */
  function TermTenor(expiry: string, tenor: nat): (r: string)
    ensures |r| == |expiry| + 3 + |NatToString(tenor)| + 1
    ensures r[..|expiry|] == expiry
    ensures r[|expiry|] == ' ' && r[|expiry| + 1] == Times && r[|expiry| + 2] == ' '
    ensures r[|expiry| + 3 .. |r| - 1] == NatToString(tenor)
    ensures r[|r| - 1] == 'Y'
  {
    var r := expiry + [' ', Times, ' '] + NatToString(tenor) + "Y";
    assert r[|expiry| + 3 .. |r| - 1] == NatToString(tenor);
    r
  }

  /** Position of the first occurrence of `c` in `s`. */
  function IndexOf(s: string, c: char): (r: Option<nat>)
    ensures r.None? ==> c !in s
    ensures r.Some? ==> r.value < |s| && s[r.value] == c && c !in s[..r.value]
  {
    if |s| == 0 then None
    else if s[0] == c then Some(0)
    else
      var r := IndexOf(s[1..], c);
      if r.None? then None
      else
        assert s[..r.value + 1] == [s[0]] + s[1..][..r.value];
        Some(r.value + 1)
  }

  /** Splits a label back into expiry and tenor at the first `×`; `None`
      for a string that is not shaped like a label. */
  function ParseTermTenor(text: string): (r: Option<(string, nat)>)
    ensures r.Some? ==>
      && |r.value.0| + 3 < |text|
      && text[..|r.value.0|] == r.value.0
      && Times !in r.value.0
      && text[|r.value.0| + 1] == Times
      && text[|text| - 1] == 'Y'
  {
    var j := IndexOf(text, Times);
    if j.None? || j.value < 1 || j.value + 3 > |text| - 1 then None
    else
      var digits := text[j.value + 2 .. |text| - 1];
      if text[j.value - 1] != ' ' || text[j.value + 1] != ' ' || text[|text| - 1] != 'Y'
         || !AllDigits(digits)
      then None
      else Some((text[..j.value - 1], DigitsValue(digits)))
  }

  /** A label made from an expiry without `×` reads back as its expiry and
      tenor. */
  lemma TermTenorRoundTrip(expiry: string, tenor: nat)
    requires Times !in expiry
    ensures ParseTermTenor(TermTenor(expiry, tenor)) == Some((expiry, tenor))
  {
    var text := TermTenor(expiry, tenor);
    var j := IndexOf(text, Times);
    assert text[|expiry| + 1] == Times;
    assert text[..|expiry| + 1] == expiry + [' '];
    assert j == Some(|expiry| + 1);
    assert text[|expiry| + 3 .. |text| - 1] == NatToString(tenor);
    NatToStringRoundTrip(tenor);
  }

  /** Distinct grid points get distinct labels. */
  lemma TermTenorInjective(e1: string, t1: nat, e2: string, t2: nat)
    requires Times !in e1 && Times !in e2
    requires TermTenor(e1, t1) == TermTenor(e2, t2)
    ensures e1 == e2 && t1 == t2
  {
    TermTenorRoundTrip(e1, t1);
    TermTenorRoundTrip(e2, t2);
  }
}

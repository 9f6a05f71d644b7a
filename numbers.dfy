/**
 * Exact arithmetic standing in for Python floats: round() (round half to even,
 * applied to the exact value), float() on decimal literals, and str() of a float
 * that has at most two decimals.
 */
module Numbers {
  import opened Wrappers
  import opened Text

  function Abs(x: real): (r: real)
    ensures r >= 0.0 && (r == x || r == -x)
  {
    if x < 0.0 then -x else x
  }

  /** Python's round(x): the nearest integer, ties going to the even neighbour. */
  function RoundHalfEven(x: real): (r: int)
    ensures Abs(r as real - x) <= 0.5
    ensures Abs(r as real - x) == 0.5 ==> r % 2 == 0
  {
    var f := x.Floor;
    var d := x - f as real;
    if d < 0.5 then f
    else if d > 0.5 then f + 1
    else if f % 2 == 0 then f
    else f + 1
  }

  /** No integer lies closer to x than round(x). */
  lemma RoundIsNearest(x: real, n: int)
    ensures Abs(RoundHalfEven(x) as real - x) <= Abs(n as real - x)
  {
    var r := RoundHalfEven(x);
    if n != r {
      assert n <= r - 1 || n >= r + 1;
    }
  }

  /** A number less than half above an integer rounds down to it. */
  lemma RoundDown(x: real, n: int)
    requires n as real <= x < n as real + 0.5
    ensures RoundHalfEven(x) == n
  {
    assert x.Floor == n;
  }

  /** Rounding an integer gives it back. */
  lemma RoundOfInteger(n: int)
    ensures RoundHalfEven(n as real) == n
  {
    RoundIsNearest(n as real, n);
  }

  /** round(x, 1), as a whole number of hundredths (always a multiple of ten). */
  function RoundToTenths(x: real): (cents: int)
    ensures cents % 10 == 0
    ensures Abs(cents as real / 100.0 - x) <= 0.05
  {
    10 * RoundHalfEven(x * 10.0)
  }

  /** round(x, 2), as a whole number of hundredths. */
  function RoundToHundredths(x: real): (cents: int)
    ensures Abs(cents as real / 100.0 - x) <= 0.005
  {
    RoundHalfEven(x * 100.0)
  }

  /**
   * float(s) on the two literal forms the measurement pattern can capture, `digits` and
   * `digits.digits`; None for all other texts. float() itself accepts more (signs, exponents,
   * surrounding spaces, "inf", "5.", ".5", underscores between digits), which no caller
   * here can pass to it.
   */
  function ParseDecimal(s: string): (r: Option<real>)
  {
    if IsDigitRun(s) then Some(DigitsValue(s) as real)
    else
      var k := IndexOf(s, '.', 0);
      if k < |s| && IsDigitRun(s[..k]) && IsDigitRun(s[k + 1..]) then
        Some(PointValue(s[..k], s[k + 1..]))
      else None
  }

  /** The value of the literal `a.b`. */
  function PointValue(a: string, b: string): real
    requires AllDigits(a) && AllDigits(b)
  {
    DigitsValue(a) as real + DigitsValue(b) as real / Pow10(|b|) as real
  }

  /** The two decimals of a value with at most two decimals, as Python's repr prints them. */
  function FractionDigits(f: nat): (s: string)
    requires f < 100
  {
    if f == 0 then "0"
    else if f % 10 == 0 then [DigitChar(f / 10)]
    else [DigitChar(f / 10), DigitChar(f % 10)]
  }

  /** str(x) for the float x == cents / 100 (Python's shortest round-tripping form). */
  function RenderFloat(cents: int): (s: string)
  {
    var c := if cents < 0 then -cents else cents;
    (if cents < 0 then "-" else "") + NatToString(c / 100) + "." + FractionDigits(c % 100)
  }

  /** float() of `a.b` with digit runs a and b. */
  lemma ParseDecimalOfPoint(a: string, b: string)
    requires IsDigitRun(a) && IsDigitRun(b)
    ensures ParseDecimal(a + "." + b) == Some(PointValue(a, b))
  {
    var s := a + "." + b;
    assert s[|a|] == '.';
    assert !IsDigitRun(s);
    forall i | 0 <= i < |a| ensures s[i] != '.' {
      assert s[i] == a[i];
    }
    IndexOfAt(s, '.', 0, |a|);
    assert s[..|a|] == a;
    assert s[|a| + 1..] == b;
  }

  lemma FractionDigitsValue(f: nat)
    requires f < 100
    ensures IsDigitRun(FractionDigits(f))
    ensures DigitsValue(FractionDigits(f)) as real / Pow10(|FractionDigits(f)|) as real == f as real / 100.0
  {
    var fd := FractionDigits(f);
    if f == 0 {
    } else if f % 10 == 0 {
      assert fd[..0] == "";
      assert DigitsValue(fd) == f / 10;
      assert Pow10(|fd|) == 10;
    } else {
      assert fd[..1] == [DigitChar(f / 10)];
      assert fd[..1][..0] == "";
      assert DigitsValue(fd[..1]) == f / 10;
      assert DigitsValue(fd) == 10 * (f / 10) + f % 10;
      assert Pow10(|fd|) == 100;
    }
  }

  /** float() of str(n) gives n back. */
  lemma ParseNatToString(n: nat)
    ensures ParseDecimal(NatToString(n)) == Some(n as real)
  {
    DigitsValueOfNatToString(n);
  }

  /** float(str(x)) == x: the rendered text reads back as the same value. */
  lemma RenderFloatRoundTrip(cents: nat)
    ensures ParseDecimal(RenderFloat(cents)) == Some(cents as real / 100.0)
  {
    var q, f := cents / 100, cents % 100;
    var ip := NatToString(q);
    var fd := FractionDigits(f);
    assert RenderFloat(cents) == ip + "." + fd;
    FractionDigitsValue(f);
    ParseDecimalOfPoint(ip, fd);
    DigitsValueOfNatToString(q);
    assert cents as real == 100.0 * q as real + f as real;
    assert q as real + f as real / 100.0 == cents as real / 100.0;
  }
}

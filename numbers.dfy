/** Numeric conversions the pipeline borrows from Python and numpy, on exact reals. */
module Numbers {

  /** Python's int() applied to a float: truncation toward zero (not floor). */
  function Trunc(x: real): (n: int)
    ensures 0.0 <= x ==> n as real <= x < n as real + 1.0
    ensures x < 0.0 ==> n as real - 1.0 < x <= n as real
  {
    if 0.0 <= x then x.Floor else -((-x).Floor)
  }

  /** numpy's round(0): to the nearest integer, ties to the even neighbour. */
  function RoundHalfEven(x: real): (n: int)
    ensures -0.5 <= n as real - x <= 0.5
    ensures (n as real - x == 0.5 || x - n as real == 0.5) ==> n % 2 == 0
  {
    var f := x.Floor;
    var d := x - f as real;
    if d < 0.5 then f
    else if d > 0.5 then f + 1
    else if f % 2 == 0 then f
    else f + 1
  }

  function Abs(n: int): nat { if n < 0 then -n else n }

  function MaxInt(a: int, b: int): int { if a < b then b else a }

  function DigitChar(d: nat): char
    requires d < 10
  {
    "0123456789"[d]
  }

  /** Decimal digits of a natural number, most significant first, as Python's str() writes them. */
  function NatDigits(n: nat): (s: string)
    ensures |s| >= 1
    ensures forall i :: 0 <= i < |s| ==> '0' <= s[i] <= '9'
  {
    if n < 10 then [DigitChar(n)] else NatDigits(n / 10) + [DigitChar(n % 10)]
  }

  /** Python's f"{n}" for an int. */
  function IntToString(n: int): string
  {
    if n < 0 then "-" + NatDigits(-n) else NatDigits(n)
  }

  /** Reads back a string of decimal digits. */
  function DigitsValue(s: string): int
  {
    if |s| == 0 then 0 else DigitsValue(s[..|s| - 1]) * 10 + (s[|s| - 1] as int - '0' as int)
  }

  /** Reads back what IntToString writes. */
  function ParseInt(s: string): int
  {
    if 0 < |s| && s[0] == '-' then -DigitsValue(s[1..]) else DigitsValue(s)
  }

  lemma {:induction false} NatDigitsRoundTrip(n: nat)
    ensures DigitsValue(NatDigits(n)) == n
  {
    var s := NatDigits(n);
    if n >= 10 {
      NatDigitsRoundTrip(n / 10);
      assert s[..|s| - 1] == NatDigits(n / 10);
    }
  }

  /** IntToString loses nothing: the number can be read back, so distinct numbers print differently. */
  lemma {:induction false} IntToStringRoundTrip(n: int)
    ensures ParseInt(IntToString(n)) == n
    ensures forall i :: 0 <= i < |IntToString(n)| ==> IntToString(n)[i] != ' '
  {
    var s := IntToString(n);
    if n < 0 {
      var d := NatDigits(-n);
      NatDigitsRoundTrip(-n);
      assert s == "-" + d;
      assert s[1..] == d;
      assert s[0] == '-';
      assert ParseInt(s) == -DigitsValue(d);
      forall i | 0 <= i < |s| ensures s[i] != ' ' {
        if i > 0 { assert s[i] == d[i - 1]; }
      }
    } else {
      NatDigitsRoundTrip(n);
      assert s[0] != '-';
    }
  }

  lemma IntToStringInjective(a: int, b: int)
    requires IntToString(a) == IntToString(b)
    ensures a == b
  {
    IntToStringRoundTrip(a);
    IntToStringRoundTrip(b);
  }
}

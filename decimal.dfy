/** `str(n)` and `int(s)` on decimal integers, as the frame header uses them. */
module Decimal {
  import opened Wrappers
  import opened PyStr

  predicate IsDigit(c: char) {
    '0' <= c <= '9'
  }

  predicate AllDigits(s: string) {
    forall i :: 0 <= i < |s| ==> IsDigit(s[i])
  }

  function DigitChar(d: nat): (c: char)
    requires d < 10
    ensures IsDigit(c)
  {
    ('0' as int + d) as char
  }

  /** `str(n)` for a non-negative integer: decimal digits, no leading zero. */
  function Digits(n: nat): (r: string)
    ensures |r| >= 1 && AllDigits(r)
    ensures |r| > 1 ==> r[0] != '0'
    decreases n
  {
    if n < 10 then [DigitChar(n)] else Digits(n / 10) + [DigitChar(n % 10)]
  }

  /** The number that a string of decimal digits denotes (leading zeros allowed). */
  function ValueOf(s: string): nat
    requires AllDigits(s)
  {
    if s == [] then 0
    else
      assert IsDigit(s[|s| - 1]);
      var d: nat := s[|s| - 1] as int - '0' as int;
      ValueOf(s[..|s| - 1]) * 10 + d
  }

  /** `str` and `int` are inverse on non-negative integers. */
  lemma {:induction false} ValueOfDigits(n: nat)
    ensures ValueOf(Digits(n)) == n
    decreases n
  {
    if n >= 10 {
      ValueOfDigits(n / 10);
      var d := Digits(n);
      assert d[..|d| - 1] == Digits(n / 10);
    }
  }

  /**
   * `int(t)` on a string with no surrounding whitespace: an optional `+` or
   * `-` followed by at least one decimal digit; anything else is the
   * `ValueError` that `int` raises, here `None`.
   */
  function ParseSigned(t: string): Option<int>
  {
    if t != [] && (t[0] == '+' || t[0] == '-') then
      if |t| >= 2 && AllDigits(t[1..]) then
        var magnitude: int := ValueOf(t[1..]);
        Some(if t[0] == '-' then -magnitude else magnitude)
      else None
    else if t != [] && AllDigits(t) then Some(ValueOf(t))
    else None
  }

  /** `int(s)`: Python skips surrounding whitespace before parsing. */
  function PyInt(s: string): Option<int>
  {
    ParseSigned(Strip(s))
  }

  lemma DigitsUnpadded(n: nat)
    ensures Unpadded(Digits(n))
  {
    var d := Digits(n);
    assert IsDigit(d[0]) && IsDigit(d[|d| - 1]);
  }

  /** `int(str(n)) == n`, with or without surrounding whitespace. */
  lemma PyIntDigits(n: nat)
    ensures PyInt(Digits(n)) == Some(n)
    ensures ParseSigned(Digits(n)) == Some(n)
  {
    DigitsUnpadded(n);
    StripUnpadded(Digits(n));
    ValueOfDigits(n);
    var d := Digits(n);
    assert IsDigit(d[0]);
  }

  /** A string with a character that is neither a digit nor a sign is never a number. */
  lemma {:induction false} ParseSignedRejects(t: string, k: nat)
    requires k < |t| && !IsDigit(t[k]) && t[k] != '+' && t[k] != '-'
    ensures ParseSigned(t) == None
  {
    if t[0] == '+' || t[0] == '-' {
      assert k >= 1 && t[1..][k - 1] == t[k];
    }
  }
}

/**
 * Decimal text of integers: the text Python's str(int) and Java's
 * string concatenation with an int produce, and Java's Integer.parseInt,
 * which MinesweeperPlayer.java uses for query parameters and for the
 * response-code header.
 */
module Decimal {
  import opened Wrappers

  const INT_MIN: int := -0x8000_0000
  const INT_MAX: int := 0x7fff_ffff

  /** A Java int. */
  predicate IsInt32(v: int) { INT_MIN <= v <= INT_MAX }

  predicate IsDigit(c: char) { '0' <= c <= '9' }

  function DigitChar(d: nat): (c: char)
    requires d < 10
    ensures IsDigit(c) && c as int - '0' as int == d
  {
    ('0' as int + d) as char
  }

  /** The decimal digits of n, most significant first, without leading zeros. */
  function NatToString(n: nat): (s: string)
    ensures |s| >= 1
    ensures forall i :: 0 <= i < |s| ==> IsDigit(s[i])
    ensures s[0] == '0' ==> n == 0
    decreases n
  {
    if n < 10 then [DigitChar(n)] else NatToString(n / 10) + [DigitChar(n % 10)]
  }

  /** Python str(v) and Java "" + v: an optional minus sign, then the digits. */
  function IntToString(v: int): (s: string)
    ensures |s| >= 1
    ensures (s[0] == '-') <==> v < 0
  {
    if v < 0 then "-" + NatToString(-v) else NatToString(v)
  }

  /** The value of a non-empty run of decimal digits. */
  function DigitsValue(s: string): nat
    requires forall i :: 0 <= i < |s| ==> IsDigit(s[i])
  {
    if s == [] then 0
    else DigitsValue(s[..|s| - 1]) * 10 + DigitOf(s[|s| - 1])
  }

  function DigitOf(c: char): (d: nat)
    requires IsDigit(c)
    ensures d < 10
  {
    c as int - '0' as int
  }

  predicate AllDigits(s: string) { forall i :: 0 <= i < |s| ==> IsDigit(s[i]) }

  datatype NumberFormatError = NumberFormatException(input: string)

  /**
   * Java's Integer.parseInt(s) in radix 10: an optional '+' or '-' followed by
   * at least one digit, with a value that fits in a Java int; anything else
   * throws NumberFormatException.
   */
  function ParseInt(s: string): (r: Result<int, NumberFormatError>)
    ensures r.Ok? ==> IsInt32(r.value)
    ensures s == [] ==> r.Err?
  {
    if s == [] then Err(NumberFormatException(s))
    else
      var negative := s[0] == '-';
      var body := if s[0] == '-' || s[0] == '+' then s[1..] else s;
      if body == [] || !AllDigits(body) then Err(NumberFormatException(s))
      else
        var magnitude: int := DigitsValue(body);
        var v := if negative then -magnitude else magnitude;
        if IsInt32(v) then Ok(v) else Err(NumberFormatException(s))
  }

  lemma {:induction false} DigitsOfNatToString(n: nat)
    ensures DigitsValue(NatToString(n)) == n
    decreases n
  {
    var s := NatToString(n);
    if n >= 10 {
      DigitsOfNatToString(n / 10);
      assert s[..|s| - 1] == NatToString(n / 10);
    }
  }

  /** Parsing the text of any Java int gives that int back. */
  lemma ParseIntToString(v: int)
    requires IsInt32(v)
    ensures ParseInt(IntToString(v)) == Ok(v)
  {
    var s := IntToString(v);
    var digits := NatToString(if v < 0 then -v else v);
    DigitsOfNatToString(if v < 0 then -v else v);
    if v < 0 {
      assert s == "-" + digits;
      assert s[1..] == digits;
      assert AllDigits(digits);
    } else {
      assert s == digits;
      assert s[0] != '-' && s[0] != '+';
      assert AllDigits(digits);
    }
  }

  /** Text with a non-digit after the optional sign never parses. */
  lemma ParseIntRejectsNonDigit(s: string, i: nat)
    requires 0 < i < |s| && !IsDigit(s[i])
    ensures ParseInt(s).Err?
  {
    if s[0] == '-' || s[0] == '+' {
      assert s[1..][i - 1] == s[i];
    }
  }
}

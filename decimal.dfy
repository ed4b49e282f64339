/**
 * Decimal text of integers, as Java prints it (`String.valueOf(long)`,
 * `Integer.toString`, string concatenation of an `int`) and parses it
 * (`Long.parseLong`). Only ASCII digits are modelled.
 */
module Decimal {
  import opened Wrappers

  predicate IsDigit(c: char) {
    '0' <= c <= '9'
  }

  predicate AllDigits(s: string) {
    forall i :: 0 <= i < |s| ==> IsDigit(s[i])
  }

  function DigitChar(d: nat): (c: char)
    requires d < 10
    ensures IsDigit(c)
  {
    ['0', '1', '2', '3', '4', '5', '6', '7', '8', '9'][d]
  }

  function DigitValue(c: char): (d: nat)
    requires IsDigit(c)
    ensures d < 10 && DigitChar(d) == c
  {
    (c as int - '0' as int) as nat
  }

  /** The decimal text of a non-negative number, most significant digit first, no leading zeros. */
  function DecimalString(n: nat): (s: string)
    ensures |s| >= 1 && AllDigits(s)
    ensures n < 10 <==> |s| == 1
  {
    if n < 10 then [DigitChar(n)] else DecimalString(n / 10) + [DigitChar(n % 10)]
  }

  /** The value of a non-empty string of decimal digits; None for anything else. */
  function ParseDigits(s: string): (r: Option<nat>)
    ensures r.Some? <==> |s| >= 1 && AllDigits(s)
  {
    if |s| == 0 || !IsDigit(s[|s| - 1]) then None
    else if |s| == 1 then Some(DigitValue(s[0]))
    else match ParseDigits(s[..|s| - 1])
      case None => None
      case Some(v) => Some(v * 10 + DigitValue(s[|s| - 1]))
  }

  /** Parsing the printed text of a number gives the number back. */
  lemma {:induction false} ParseDecimalString(n: nat)
    ensures ParseDigits(DecimalString(n)) == Some(n)
  {
    var s := DecimalString(n);
    if n >= 10 {
      ParseDecimalString(n / 10);
      assert s[..|s| - 1] == DecimalString(n / 10);
      assert DigitValue(s[|s| - 1]) == n % 10;
    } else {
      assert DigitValue(s[0]) == n;
    }
  }

  /** Different numbers print differently. */
  lemma DecimalStringInjective(a: nat, b: nat)
    requires DecimalString(a) == DecimalString(b)
    ensures a == b
  {
    ParseDecimalString(a);
    ParseDecimalString(b);
  }

  const LongMin: int := -0x8000_0000_0000_0000
  const LongMax: int := 0x7FFF_FFFF_FFFF_FFFF

  /**
   * `Long.parseLong`: an optional '+' or '-' followed by at least one digit,
   * whose value fits a signed 64-bit integer; None where Java throws
   * NumberFormatException.
   */
  function ParseLong(s: string): (r: Option<int>)
    ensures r.Some? ==> LongMin <= r.value <= LongMax
    ensures r.Some? ==> |s| >= 1
    ensures r.Some? ==> var d := if s[0] == '-' || s[0] == '+' then s[1..] else s; |d| >= 1 && AllDigits(d)
    ensures r.Some? ==> (r.value < 0 ==> s[0] == '-')
  {
    var negative := |s| >= 1 && s[0] == '-';
    var digits := if |s| >= 1 && (s[0] == '-' || s[0] == '+') then s[1..] else s;
    match ParseDigits(digits)
    case None => None
    case Some(v) =>
      var value: int := if negative then -(v as int) else v;
      if LongMin <= value <= LongMax then Some(value) else None
  }

  /** A number printed by Java is read back by `Long.parseLong` when it fits. */
  lemma ParseLongOfDecimal(n: nat)
    requires n <= LongMax
    ensures ParseLong(DecimalString(n)) == Some(n)
  {
    ParseDecimalString(n);
    assert DecimalString(n)[0] != '-' && DecimalString(n)[0] != '+';
  }

  /**
   * A leading '-' negates and a leading '+' is accepted; the result must fit
   * a long, so "-9223372036854775808" is read but "+9223372036854775808" is not.
   */
  lemma ParseLongNegative(n: nat)
    ensures ParseLong("-" + DecimalString(n)) == if n <= -LongMin then Some(-(n as int)) else None
  {
    ParseDecimalString(n);
    ParseLongMinusDigits(DecimalString(n), n);
  }

  lemma ParseLongMinusDigits(d: string, v: nat)
    requires ParseDigits(d) == Some(v)
    ensures ParseLong("-" + d) == if v <= -LongMin then Some(-(v as int)) else None
  {
    assert ("-" + d)[1..] == d;
  }

  lemma ParseLongPlus(n: nat)
    ensures ParseLong("+" + DecimalString(n)) == if n <= LongMax then Some(n as int) else None
  {
    var d := DecimalString(n);
    ParseDecimalString(n);
    assert ("+" + d)[0] == '+' && ("+" + d)[1..] == d;
  }

  /** A number too large for a long is refused. */
  lemma ParseLongOverflow(n: nat)
    requires n > LongMax
    ensures ParseLong(DecimalString(n)) == None
  {
    ParseDecimalString(n);
    assert DecimalString(n)[0] != '-' && DecimalString(n)[0] != '+';
  }
}

/**
 * The two failure kinds the star service reports, and the optional value
 * the repository's look-up yields.
 */
module Errors {

  /** Optional value, as `java.util.Optional` returned by the repository's findById. */
  datatype Option<+T> = None | Some(value: T)

  /**
   * The two exception types the service throws: `IllegalArgumentException`
   * (a client error) and `NoSuchElementException` (not found). Each carries
   * the exception's message.
   */
  datatype Error = InvalidArgument(message: string) | NotFound(message: string)

  /** A service call either returns a value or throws one of the two errors. */
  datatype Result<+T> = Success(value: T) | Failure(error: Error)

  /** The decimal digit character for 0..9. */
  function DigitChar(d: nat): (c: char)
    requires d < 10
    ensures '0' <= c <= '9' && c as int - '0' as int == d
  {
    "0123456789"[d]
  }

  /** Decimal text of a natural number, most significant digit first, no leading zero. */
  function Digits(n: nat): (s: string)
    ensures 1 <= |s|
    ensures forall i | 0 <= i < |s| :: '0' <= s[i] <= '9'
    ensures 1 < |s| ==> s[0] != '0'
    decreases n
  {
    if n < 10 then [DigitChar(n)] else Digits(n / 10) + [DigitChar(n % 10)]
  }

  /** The value a decimal text stands for. */
  function DigitsValue(s: string): int
  {
    if s == [] then 0 else 10 * DigitsValue(s[..|s| - 1]) + (s[|s| - 1] as int - '0' as int)
  }

  /** The value a decimal text with an optional leading minus sign stands for. */
  function DecimalValue(s: string): int
  {
    if s != [] && s[0] == '-' then -DigitsValue(s[1..]) else DigitsValue(s)
  }

  /**
   * `Long.toString`: a leading minus sign for negative numbers, then the
   * digits. Reading the text back gives the number.
   */
  function DecimalString(n: int): (s: string)
    ensures 1 <= |s|
    ensures (s[0] == '-') <==> n < 0
    ensures forall i | (if n < 0 then 1 else 0) <= i < |s| :: '0' <= s[i] <= '9'
    ensures var k := if n < 0 then 1 else 0; k + 1 < |s| ==> s[k] != '0'
    ensures DecimalValue(s) == n
  {
    DecimalValueOfDigits(if n < 0 then -n else n);
    if n < 0 then
      var s := "-" + Digits(-n);
      assert s[1..] == Digits(-n);
      s
    else
      Digits(n)
  }

  /** The digits of `m`, with or without a minus sign in front, read back as `m` or `-m`. */
  lemma DecimalValueOfDigits(m: nat)
    ensures DecimalValue(Digits(m)) == m
    ensures DecimalValue("-" + Digits(m)) == -(m as int)
  {
    var s := Digits(m);
    DigitsRoundTrip(m);
    assert s[0] != '-';
    assert ("-" + s)[0] == '-' && ("-" + s)[1..] == s;
  }

  /** Different numbers have different texts. */
  lemma DecimalStringInjective(a: int, b: int)
    requires DecimalString(a) == DecimalString(b)
    ensures a == b
  {
    assert DecimalValue(DecimalString(a)) == DecimalValue(DecimalString(b));
  }

  /** Reading the digits back gives the number: the rendering loses nothing. */
  lemma {:induction false} DigitsRoundTrip(n: nat)
    ensures DigitsValue(Digits(n)) == n
    decreases n
  {
    if n >= 10 {
      DigitsRoundTrip(n / 10);
      var s := Digits(n);
      assert s[..|s| - 1] == Digits(n / 10);
    }
  }
}

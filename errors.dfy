/** `errors::Error`, the failure a watch reports, and the decimal text of the
    system error code it carries. */
module Errors {

  /** An error is its human-readable description. */
  datatype Error = Error(description: string)

  predicate IsDigit(ch: char) { '0' <= ch <= '9' }

  function DigitChar(d: nat): (ch: char)
    requires d < 10
    ensures IsDigit(ch) && ch as int - '0' as int == d
  {
    ('0' as int + d) as char
  }

  /** `format!("{}", n)` for an unsigned integer: its decimal digits, with no
      leading zero. */
  function Decimal(n: nat): (r: string)
    ensures |r| >= 1 && (|r| > 1 ==> r[0] != '0')
    ensures forall i :: 0 <= i < |r| ==> IsDigit(r[i])
  {
    if n < 10 then [DigitChar(n)] else Decimal(n / 10) + [DigitChar(n % 10)]
  }

  /** The number a string of decimal digits denotes. */
  function DecimalValue(s: string): nat
    requires forall i :: 0 <= i < |s| ==> IsDigit(s[i])
  {
    if s == [] then 0
    else
      assert IsDigit(s[|s| - 1]);
      DecimalValue(s[..|s| - 1]) * 10 + (s[|s| - 1] as int - '0' as int)
  }

  /** The decimal text of `n` denotes `n`. */
  lemma {:induction false} DecimalValueOfDecimal(n: nat)
    ensures DecimalValue(Decimal(n)) == n
  {
    if n >= 10 {
      DecimalValueOfDecimal(n / 10);
      var r := Decimal(n);
      assert r[..|r| - 1] == Decimal(n / 10);
    }
  }

  const FailurePrefix: string := "Failure detected with system error code "

  /** The description of a failed read: the fixed text, then the code in decimal. */
  function FailureMessage(code: nat): (r: string)
    ensures |r| > |FailurePrefix| && r[..|FailurePrefix|] == FailurePrefix
    ensures forall i :: |FailurePrefix| <= i < |r| ==> IsDigit(r[i])
  {
    FailurePrefix + Decimal(code)
  }

  /** The error code can be read back from the description. */
  lemma FailureMessageCode(code: nat)
    ensures DecimalValue(FailureMessage(code)[|FailurePrefix|..]) == code
  {
    assert FailureMessage(code)[|FailurePrefix|..] == Decimal(code);
    DecimalValueOfDecimal(code);
  }
}

/**
  The part of JavaScript's `Number(text)` conversion that the spending
  lookup relies on: the empty text converts to 0, an optionally signed run
  of decimal digits converts to that integer, and every other text is
  treated as `NaN`.
 */
module JsNumber {

  /** A JavaScript number, restricted to the integers and `NaN`. */
  datatype Number = Int(value: int) | NaN

  predicate IsDigit(c: char) {
    '0' <= c <= '9'
  }

  predicate AllDigits(s: string) {
    forall i :: 0 <= i < |s| ==> IsDigit(s[i])
  }

  function DigitValue(c: char): (d: nat)
    requires IsDigit(c)
    ensures d < 10
  {
    (c as int) - ('0' as int)
  }

  function DigitChar(d: nat): (c: char)
    requires d < 10
    ensures IsDigit(c) && DigitValue(c) == d
  {
    ('0' as int + d) as char
  }

  /** The value of a run of decimal digits, most significant digit first. */
  function DecimalValue(s: string): nat
    requires AllDigits(s)
  {
    if s == [] then 0 else DecimalValue(s[..|s| - 1]) * 10 + DigitValue(s[|s| - 1])
  }

  /** The shortest decimal text of a natural number (no leading zeros). */
  function DecimalText(n: nat): (s: string)
    ensures s != [] && AllDigits(s)
    ensures |s| > 1 ==> s[0] != '0'
  {
    if n < 10 then [DigitChar(n)] else DecimalText(n / 10) + [DigitChar(n % 10)]
  }

  /** The decimal text of an integer, with a leading '-' when negative. */
  function IntText(n: int): string {
    if n < 0 then "-" + DecimalText(-n) else DecimalText(n)
  }

  /** The texts the model converts to an integer. */
  predicate IsIntegerText(s: string) {
    || s == ""
    || (s != [] && AllDigits(s))
    || (|s| > 1 && (s[0] == '-' || s[0] == '+') && AllDigits(s[1..]))
  }

  /** `Number(s)` on the texts the model covers. */
  function ToNumber(s: string): (r: Number)
    ensures r.Int? <==> IsIntegerText(s)
    ensures s == "" ==> r == Int(0)
    ensures s != "" && AllDigits(s) ==> r == Int(DecimalValue(s))
    ensures |s| > 1 && s[0] == '-' && AllDigits(s[1..]) ==> r == Int(-(DecimalValue(s[1..]) as int))
    ensures |s| > 1 && s[0] == '+' && AllDigits(s[1..]) ==> r == Int(DecimalValue(s[1..]))
  {
    if s == "" then Int(0)
    else if AllDigits(s) then Int(DecimalValue(s))
    else if |s| > 1 && s[0] == '-' && AllDigits(s[1..]) then Int(-(DecimalValue(s[1..]) as int))
    else if |s| > 1 && s[0] == '+' && AllDigits(s[1..]) then Int(DecimalValue(s[1..]))
    else NaN
  }

  /** Reading back the decimal text of a natural number gives that number. */
  lemma {:induction false} DecimalRoundTrip(n: nat)
    ensures DecimalValue(DecimalText(n)) == n
  {
    if n >= 10 {
      var s := DecimalText(n);
      assert s[..|s| - 1] == DecimalText(n / 10);
      DecimalRoundTrip(n / 10);
    }
  }

  /** 2^53 - 1: every integer of at most this magnitude is a JavaScript number exactly. */
  const MaxSafeInteger: int := 9007199254740991

  /** Converting the text of a safe integer gives that integer back. */
  lemma IntTextRoundTrip(n: int)
    requires -MaxSafeInteger <= n <= MaxSafeInteger
    ensures ToNumber(IntText(n)) == Int(n)
  {
    if n < 0 {
      var s := IntText(n);
      assert s[1..] == DecimalText(-n);
      DecimalRoundTrip(-n);
    } else {
      DecimalRoundTrip(n);
    }
  }

  /** Leading zeros do not change the value of a digit run. */
  lemma {:induction false} LeadingZero(s: string)
    requires AllDigits(s)
    ensures AllDigits("0" + s) && DecimalValue("0" + s) == DecimalValue(s)
  {
    if s != [] {
      var t := "0" + s;
      assert t[..|t| - 1] == "0" + s[..|s| - 1];
      LeadingZero(s[..|s| - 1]);
    }
  }

  function Pow10(k: nat): nat {
    if k == 0 then 1 else 10 * Pow10(k - 1)
  }

  function Zeros(k: nat): string {
    if k == 0 then "" else Zeros(k - 1) + "0"
  }

  /** A digit followed by k zeros converts to that digit times 10^k. */
  lemma {:induction false} DigitThenZeros(c: char, k: nat)
    requires IsDigit(c)
    ensures AllDigits([c] + Zeros(k))
    ensures ToNumber([c] + Zeros(k)) == Int(DigitValue(c) * Pow10(k))
  {
    var s := [c] + Zeros(k);
    if k > 0 {
      DigitThenZeros(c, k - 1);
      assert s == ([c] + Zeros(k - 1)) + "0";
      assert s[..|s| - 1] == [c] + Zeros(k - 1);
    }
  }
}

/**
 * JavaScript's `Number(part)` on the one kind of string this model interprets:
 * a decimal numeral, possibly with white space around it. `Number` trims the
 * same white space as `String.prototype.trim`, and reads an empty or
 * all-white-space string as 0.
 */
module JsNumber {
  import opened Wrappers
  import opened JsString

  predicate IsDigit(c: char)
  {
    '0' <= c <= '9'
  }

  /** Every character is a decimal digit (the empty string included). */
  predicate IsDecimal(s: string)
  {
    forall i :: 0 <= i < |s| ==> IsDigit(s[i])
  }

  function DigitValue(c: char): (d: nat)
    requires IsDigit(c)
    ensures d < 10
  {
    (c as int) - ('0' as int)
  }

  function DigitChar(d: nat): (c: char)
    requires d < 10
    ensures IsDigit(c) && DigitValue(c) == d
  {
    (('0' as int) + d) as char
  }

  /** The natural number a string of decimal digits denotes, most significant first. */
  function DecimalValue(s: string): nat
    requires IsDecimal(s)
  {
    if s == [] then 0 else DecimalValue(s[..|s| - 1]) * 10 + DigitValue(s[|s| - 1])
  }

  /** The canonical decimal numeral of `n`: no leading zero, "0" for zero. */
  function Decimal(n: nat): (r: string)
    ensures |r| >= 1 && IsDecimal(r)
    ensures DecimalValue(r) == n
    ensures r[0] == '0' ==> n == 0 && r == "0"
  {
    if n < 10 then [DigitChar(n)]
    else
      var prefix := Decimal(n / 10);
      var r := prefix + [DigitChar(n % 10)];
      assert r[..|r| - 1] == prefix;
      r
  }

  /** Leading zeros do not change a numeral's value ("01" reads as 1). */
  lemma {:induction false} LeadingZeroIgnored(s: string)
    requires IsDecimal(s)
    ensures IsDecimal(['0'] + s) && DecimalValue(['0'] + s) == DecimalValue(s)
  {
    if s != [] {
      var z := ['0'] + s;
      assert z[..|z| - 1] == ['0'] + s[..|s| - 1];
      LeadingZeroIgnored(s[..|s| - 1]);
    }
  }

  /** Any run of leading zeros leaves a numeral's value alone ("007" reads as 7). */
  lemma {:induction false} LeadingZerosIgnored(zeros: string, s: string)
    requires forall k :: 0 <= k < |zeros| ==> zeros[k] == '0'
    requires IsDecimal(s)
    ensures IsDecimal(zeros + s) && DecimalValue(zeros + s) == DecimalValue(s)
  {
    if zeros != [] {
      LeadingZerosIgnored(zeros[1..], s);
      var rest := zeros[1..] + s;
      assert zeros + s == ['0'] + rest;
      LeadingZeroIgnored(rest);
      assert DecimalValue(zeros + s) == DecimalValue(rest);
    } else {
      assert zeros + s == s;
    }
  }

  /**
   * `Number(part)` where `part`, once trimmed, is a decimal numeral; `None`
   * stands for every other result of JavaScript's coercion (NaN, fractions,
   * signs, exponents, hexadecimal, Infinity), which this model does not track.
   */
  function ToNumber(part: string): (r: Option<nat>)
    ensures r.Some? <==> IsDecimal(Trim(part))
    ensures r.Some? ==> r.value == DecimalValue(Trim(part))
  {
    var t := Trim(part);
    if IsDecimal(t) then Some(DecimalValue(t)) else None
  }

  /** A digit is never white space, so a numeral is its own trim. */
  lemma DecimalIsTrimmed(s: string)
    requires s != [] && IsDecimal(s)
    ensures Trim(s) == s
  {
    assert IsDigit(s[0]) && IsDigit(s[|s| - 1]);
  }

  /** `Number` reads back every canonical numeral as the number it writes. */
  lemma ToNumberOfDecimal(n: nat)
    ensures ToNumber(Decimal(n)) == Some(n)
  {
    DecimalIsTrimmed(Decimal(n));
  }

  /** A zero-padded numeral, such as each part of "01:23:45", reads as its number. */
  lemma ToNumberOfPaddedDecimal(zeros: string, n: nat)
    requires forall k :: 0 <= k < |zeros| ==> zeros[k] == '0'
    ensures ToNumber(zeros + Decimal(n)) == Some(n)
  {
    LeadingZerosIgnored(zeros, Decimal(n));
    DecimalIsTrimmed(zeros + Decimal(n));
  }

  /** `Number("")`, `Number("  ")` and the like are 0. */
  lemma ToNumberOfWhiteSpace(part: string)
    requires forall k :: 0 <= k < |part| ==> IsWhiteSpace(part[k])
    ensures ToNumber(part) == Some(0)
  {
    TrimEmpty(part);
  }
}

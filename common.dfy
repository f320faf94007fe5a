/**
 * Shared vocabulary of the utility modules: optional values, the TypeError
 * outcome the JavaScript helpers throw, the few kinds of JavaScript values the
 * helpers dispatch on, and decimal numerals (what `String(n)` produces for a
 * non-negative integer and what `Number(s)` reads back from a digit string).
 */
module Common {

  datatype Option<T> = None | Some(value: T)

  /** A call either returns a value or throws a TypeError with a message. */
  datatype Result<T> = Ok(value: T) | TypeError(message: string)

  /**
   * The argument kinds the helpers tell apart with
   * `Object.prototype.toString.call(x)`: strings, numbers (integral ones
   * only in this model) and everything else.
   */
  datatype JsValue = JsString(s: string) | JsNumber(n: int) | JsOther

  predicate IsDigit(c: char) {
    '0' <= c <= '9'
  }

  predicate AllDigits(s: string) {
    forall i :: 0 <= i < |s| ==> IsDigit(s[i])
  }

  function DigitValue(c: char): (d: nat)
    requires IsDigit(c)
    ensures d < 10
  {
    (c as int) - ('0' as int)
  }

  function DigitChar(d: nat): (c: char)
    requires d < 10
    ensures IsDigit(c) && DigitValue(c) == d
  {
    ('0' as int + d) as char
  }

  function Pow10(k: nat): (p: nat)
    ensures p >= 1
  {
    if k == 0 then 1 else 10 * Pow10(k - 1)
  }

  /** The value of a decimal numeral, most significant digit first. */
  function DigitsValue(s: string): nat
    requires AllDigits(s)
  {
    if s == [] then 0 else 10 * DigitsValue(s[..|s| - 1]) + DigitValue(s[|s| - 1])
  }

  /** `String(n)` for a non-negative integer: no sign, no leading zero. */
  function NatToString(n: nat): string
  {
    if n < 10 then [DigitChar(n)] else NatToString(n / 10) + [DigitChar(n % 10)]
  }

  /** `String(n)` for an integer: a minus sign before the magnitude when negative. */
  function IntToString(n: int): (s: string)
    ensures |s| > 0
    ensures n >= 0 ==> s == NatToString(n)
    ensures n < 0 ==> s[0] == '-' && s[1..] == NatToString(-n)
  {
    NatToStringShape(if n < 0 then -n else n);
    if n < 0 then "-" + NatToString(-n) else NatToString(n)
  }

  /** A numeral without superfluous leading zero, as `String(n)` writes it. */
  predicate IsCanonicalNumeral(s: string) {
    |s| > 0 && AllDigits(s) && (s[0] != '0' || |s| == 1)
  }

  lemma {:induction false} NatToStringShape(n: nat)
    ensures IsCanonicalNumeral(NatToString(n))
    ensures n < 10 <==> |NatToString(n)| == 1
  {
    if n >= 10 {
      NatToStringShape(n / 10);
    }
  }

  /** Reading back what `String(n)` wrote gives `n`. */
  lemma {:induction false} NatToStringValue(n: nat)
    ensures AllDigits(NatToString(n)) && DigitsValue(NatToString(n)) == n
  {
    NatToStringShape(n);
    if n >= 10 {
      NatToStringValue(n / 10);
      var s := NatToString(n);
      assert s[..|s| - 1] == NatToString(n / 10);
    }
  }

  /** Writing the value of a canonical numeral gives the numeral back. */
  lemma {:induction false} CanonicalNumeralRoundTrip(s: string)
    requires IsCanonicalNumeral(s)
    ensures NatToString(DigitsValue(s)) == s
  {
    if |s| > 1 {
      var front := s[..|s| - 1];
      assert IsCanonicalNumeral(front);
      CanonicalNumeralRoundTrip(front);
      FrontOfCanonicalIsPositive(front);
      assert DigitsValue(s) / 10 == DigitsValue(front);
      assert DigitsValue(s) % 10 == DigitValue(s[|s| - 1]);
    }
  }

  lemma {:induction false} FrontOfCanonicalIsPositive(s: string)
    requires IsCanonicalNumeral(s) && s[0] != '0'
    ensures DigitsValue(s) >= 1
  {
    if |s| > 1 {
      var front := s[..|s| - 1];
      assert front[0] == s[0];
      FrontOfCanonicalIsPositive(front);
    }
  }

  /** The value of a concatenation of numerals. */
  lemma {:induction false} DigitsValueAppend(a: string, b: string)
    requires AllDigits(a) && AllDigits(b)
    ensures AllDigits(a + b)
    ensures DigitsValue(a + b) == DigitsValue(a) * Pow10(|b|) + DigitsValue(b)
  {
    if b == [] {
      assert a + b == a;
    } else {
      var b' := b[..|b| - 1];
      assert (a + b)[..|a + b| - 1] == a + b';
      DigitsValueAppend(a, b');
      assert b[..|b| - 1] == b';
      ShiftDecimal(DigitsValue(a), DigitsValue(b'), Pow10(|b'|), DigitValue(b[|b| - 1]));
    }
  }

  /** Appending a digit shifts everything before it one decimal place. */
  lemma ShiftDecimal(va: int, vb: int, p: int, d: int)
    ensures 10 * (va * p + vb) + d == va * (10 * p) + (10 * vb + d)
  {
  }

  /** A numeral of `k` digits is below `10^k`. */
  lemma {:induction false} DigitsValueBound(s: string)
    requires AllDigits(s)
    ensures DigitsValue(s) < Pow10(|s|)
  {
    if s != [] {
      DigitsValueBound(s[..|s| - 1]);
    }
  }

  /** `String(n)` has exactly `k` digits when `10^(k-1) <= n < 10^k`. */
  lemma {:induction false} NatToStringLength(n: nat, k: nat)
    requires k >= 1 && Pow10(k - 1) <= n < Pow10(k)
    ensures |NatToString(n)| == k
  {
    if k == 1 {
      NatToStringShape(n);
    } else {
      assert n >= 10;
      NatToStringLength(n / 10, k - 1);
    }
  }
}

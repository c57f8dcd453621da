/**
 * `isCid(cid)` of assets/js/phoenix_live_view/utils.js: is a value a LiveComponent
 * id? Any JavaScript number is; a string is when it matches `^(0|[1-9]\d*)$`,
 * that is, when it is the decimal rendering of a natural number.
 */
module Cid {

  /** The JavaScript values isCid distinguishes by `typeof`. */
  datatype JsValue = JsNumber | JsString(s: string) | JsOther

  predicate IsDigit(c: char) { '0' <= c <= '9' }

  /**
   * `/^(0|[1-9]\d*)$/.test(s)`; `\d` is the ASCII digits. Read another way: a
   * non-empty digit string whose first digit is '0' only when it is the only one.
   */
  function IsCanonicalDecimal(s: string): (b: bool)
    ensures b <==> |s| > 0 && (forall i :: 0 <= i < |s| ==> IsDigit(s[i])) && (s[0] == '0' ==> |s| == 1)
  {
    assert |s| == 1 && s[0] == '0' ==> s == "0";
    s == "0" || (|s| > 0 && '1' <= s[0] <= '9' && forall i :: 1 <= i < |s| ==> IsDigit(s[i]))
  }

  function DigitChar(d: nat): (c: char)
    requires d < 10
    ensures IsDigit(c) && c as int - '0' as int == d
  {
    ('0' as int + d) as char
  }

  /** The decimal digits of `n`, without leading zeros. */
  function DecimalString(n: nat): string
  {
    if n < 10 then [DigitChar(n)] else DecimalString(n / 10) + [DigitChar(n % 10)]
  }

  /** The value of a string of decimal digits. */
  function DecimalValue(s: string): nat
    requires forall i :: 0 <= i < |s| ==> IsDigit(s[i])
  {
    if |s| == 0 then 0
    else
      assert IsDigit(s[|s| - 1]);
      10 * DecimalValue(s[..|s| - 1]) + (s[|s| - 1] as int - '0' as int)
  }

  /** The rendering of `n` is a digit string whose first digit is '0' only when `n` is 0. */
  lemma {:induction false} DecimalStringShape(n: nat)
    ensures |DecimalString(n)| > 0
    ensures forall i :: 0 <= i < |DecimalString(n)| ==> IsDigit(DecimalString(n)[i])
    ensures DecimalString(n)[0] == '0' <==> n == 0
  {
    if n >= 10 {
      DecimalStringShape(n / 10);
    }
  }

  /** Every natural number renders to a string that passes the test of line 11. */
  lemma DecimalStringIsCanonical(n: nat)
    ensures IsCanonicalDecimal(DecimalString(n))
  {
    DecimalStringShape(n);
  }

  /** A digit string with a non-zero first digit has a positive value. */
  lemma {:induction false} LeadingDigitPositive(s: string)
    requires |s| > 0 && '1' <= s[0] <= '9'
    requires forall i :: 0 <= i < |s| ==> IsDigit(s[i])
    ensures DecimalValue(s) >= 1
  {
    if |s| > 1 {
      LeadingDigitPositive(s[..|s| - 1]);
    }
  }

  /** Appending a digit `d` to the rendering of `a > 0` renders `10 * a + d`. */
  lemma DecimalStringAppend(a: nat, d: nat)
    requires 0 < a && d < 10
    ensures DecimalString(10 * a + d) == DecimalString(a) + [DigitChar(d)]
  {
    var v := 10 * a + d;
    assert v / 10 == a && v % 10 == d;
  }

  /** The value of a digit string with one more digit `c` at the end. */
  lemma DecimalValueSnoc(init: string, c: char)
    requires forall i :: 0 <= i < |init| ==> IsDigit(init[i])
    requires IsDigit(c)
    ensures DecimalValue(init + [c]) == 10 * DecimalValue(init) + (c as int - '0' as int)
  {
    var s := init + [c];
    assert s[..|s| - 1] == init;
  }

  /** A canonical decimal of more than one character is a canonical decimal followed by a digit. */
  lemma CanonicalInit(s: string)
    requires IsCanonicalDecimal(s) && |s| > 1
    ensures IsCanonicalDecimal(s[..|s| - 1]) && '1' <= s[0] <= '9' && IsDigit(s[|s| - 1])
  {
    var init := s[..|s| - 1];
    assert init[0] == s[0];
    assert forall i :: 1 <= i < |init| ==> init[i] == s[i];
  }

  /** Every string that passes the test is the rendering of its own value. */
  lemma {:induction false} CanonicalIsDecimal(s: string)
    requires IsCanonicalDecimal(s)
    ensures forall i :: 0 <= i < |s| ==> IsDigit(s[i])
    ensures DecimalString(DecimalValue(s)) == s
  {
    if |s| > 1 {
      var init, c := s[..|s| - 1], s[|s| - 1];
      assert s == init + [c];
      CanonicalInit(s);
      CanonicalIsDecimal(init);
      LeadingDigitPositive(init);
      var d := c as int - '0' as int;
      DecimalValueSnoc(init, c);
      DecimalStringAppend(DecimalValue(init), d);
      assert DigitChar(d) == c;
    } else if |s| == 1 {
      assert DigitChar(s[0] as int - '0' as int) == s[0];
    }
  }

  /** The strings the test of line 11 accepts are exactly the renderings of the natural numbers. */
  lemma CanonicalIffRendering(s: string)
    ensures IsCanonicalDecimal(s) <==> exists n: nat :: DecimalString(n) == s
  {
    if IsCanonicalDecimal(s) {
      CanonicalIsDecimal(s);
      assert DecimalString(DecimalValue(s)) == s;
    }
    forall n: nat | DecimalString(n) == s ensures IsCanonicalDecimal(s) {
      DecimalStringIsCanonical(n);
    }
  }

  /**
   * `isCid(cid)`: every number (NaN included) and every string that is the
   * decimal rendering of a natural number; nothing else.
   */
  function IsCid(cid: JsValue): (b: bool)
    ensures b <==> cid.JsNumber? || (cid.JsString? && exists n: nat :: DecimalString(n) == cid.s)
  {
    match cid
    case JsNumber => true
    case JsString(s) => CanonicalIffRendering(s); IsCanonicalDecimal(s)
    case JsOther => false
  }

  lemma IsCidExamples()
    ensures IsCid(JsNumber)
    ensures IsCid(JsString("0")) && IsCid(JsString("120"))
    ensures !IsCid(JsString("")) && !IsCid(JsString("01")) && !IsCid(JsString("1a"))
    ensures !IsCid(JsOther)
  {
    assert "1a"[1] == 'a';
  }
}

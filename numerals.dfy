/**
 * Decimal numerals, the part of numeric coercion that the loader needs:
 * text such as "8.2" or "-3" becomes an exact decimal, anything else
 * (for example "tbd") is reported as not a number.
 */
module Numerals {
  import opened Wrappers

  /** The exact value mantissa / 10^scale. */
  datatype Decimal = Decimal(mantissa: int, scale: nat)

  predicate IsDigit(c: char)
  {
    '0' <= c <= '9'
  }

  predicate AllDigits(s: string)
  {
    forall i :: 0 <= i < |s| ==> IsDigit(s[i])
  }

  function DigitValue(c: char): (d: nat)
    requires IsDigit(c)
    ensures d < 10
  {
    (c as int - '0' as int) as nat
  }

  function DigitChar(d: nat): (c: char)
    requires d < 10
    ensures IsDigit(c) && DigitValue(c) == d
  {
    ('0' as int + d) as char
  }

  /** The value of a string of decimal digits, most significant first. */
  function DigitsValue(s: string): nat
    requires AllDigits(s)
  {
    if s == [] then 0 else 10 * DigitsValue(s[..|s| - 1]) + DigitValue(s[|s| - 1])
  }

  /** The shortest decimal digits of n. */
  function NatToDigits(n: nat): (s: string)
    ensures AllDigits(s) && |s| > 0
  {
    if n < 10 then [DigitChar(n)] else NatToDigits(n / 10) + [DigitChar(n % 10)]
  }

  /** The position of the first c in s, if any. */
  function IndexOf(s: string, c: char): (r: Option<nat>)
    ensures r.Some? ==> r.value < |s| && s[r.value] == c && c !in s[..r.value]
    ensures r.None? ==> c !in s
  {
    if s == [] then None
    else if s[0] == c then Some(0)
    else match IndexOf(s[1..], c)
      case None => None
      case Some(k) => assert s[..k + 1] == [s[0]] + s[1..][..k]; Some(k + 1)
  }

  /** Digits and decimal points only, at most one point, and at least one digit: "8.2", ".5", "8.", "08". */
  predicate IsUnsignedNumeral(s: string)
  {
    && (forall i :: 0 <= i < |s| ==> IsDigit(s[i]) || s[i] == '.')
    && (forall i, j :: 0 <= i < j < |s| && s[i] == '.' ==> s[j] != '.')
    && (exists i :: 0 <= i < |s| && IsDigit(s[i]))
  }

  predicate IsSign(c: char)
  {
    c == '-' || c == '+'
  }

  /** The numerals the loader accepts: an optional sign, then an unsigned numeral. */
  predicate IsNumeral(s: string)
  {
    if |s| > 0 && IsSign(s[0]) then IsUnsignedNumeral(s[1..]) else IsUnsignedNumeral(s)
  }

  /** An unsigned numeral, read as its digits over 10 to the number of digits after the point. */
  function ParseUnsigned(s: string): (r: Option<Decimal>)
    ensures r.Some? <==> IsUnsignedNumeral(s)
    ensures r.Some? ==> r.value.mantissa >= 0
  {
    match IndexOf(s, '.')
    case None =>
      NoPointNumeral(s);
      if |s| > 0 && AllDigits(s) then Some(Decimal(DigitsValue(s), 0)) else None
    case Some(p) =>
      var whole, fraction := s[..p], s[p + 1..];
      PointNumeral(s, p);
      if |whole| + |fraction| > 0 && AllDigits(whole) && AllDigits(fraction) then
        Some(Decimal(DigitsValue(whole + fraction), |fraction|))
      else None
  }

  lemma NoPointNumeral(s: string)
    requires '.' !in s
    ensures IsUnsignedNumeral(s) <==> |s| > 0 && AllDigits(s)
  {
    if |s| > 0 && AllDigits(s) {
      assert IsDigit(s[0]);
    }
  }

  /** With the first point at p, a numeral is digits, the point, and digits, not both empty. */
  lemma PointNumeral(s: string, p: nat)
    requires p < |s| && s[p] == '.' && '.' !in s[..p]
    ensures IsUnsignedNumeral(s) <==>
      |s[..p]| + |s[p + 1..]| > 0 && AllDigits(s[..p]) && AllDigits(s[p + 1..])
  {
    var whole, fraction := s[..p], s[p + 1..];
    assert forall i :: 0 <= i < p ==> s[i] == whole[i];
    assert forall i :: p < i < |s| ==> s[i] == fraction[i - p - 1];
    if IsUnsignedNumeral(s) {
      forall i | 0 <= i < |whole| ensures IsDigit(whole[i]) {
        assert whole[i] != '.';
      }
      forall i | 0 <= i < |fraction| ensures IsDigit(fraction[i]) {
        assert s[p + 1 + i] != '.';
      }
      var d :| 0 <= d < |s| && IsDigit(s[d]);
      assert d != p;
    }
    if |whole| + |fraction| > 0 && AllDigits(whole) && AllDigits(fraction) {
      forall i | 0 <= i < |s| ensures IsDigit(s[i]) || s[i] == '.' {
        if i < p {
          assert IsDigit(whole[i]);
        } else if i > p {
          assert IsDigit(fraction[i - p - 1]);
        }
      }
      assert forall i :: 0 <= i < |s| && i != p ==> IsDigit(s[i]);
      if p > 0 {
        assert IsDigit(whole[0]);
      } else {
        assert IsDigit(fraction[0]);
      }
    }
  }

  /**
   * Coerces text to a number as the loader does; None stands for "not a
   * number", which the caller turns into a missing value. The function is
   * total: it never fails, and it gives a number exactly for the numerals.
   */
  function ParseDecimal(s: string): (r: Option<Decimal>)
    ensures r.Some? <==> IsNumeral(s)
  {
    if |s| > 0 && IsSign(s[0]) then
      match ParseUnsigned(s[1..])
      case None => None
      case Some(d) => Some(if s[0] == '-' then Decimal(-d.mantissa, d.scale) else d)
    else
      ParseUnsigned(s)
  }

  /** Prefixes zeros until s has at least n characters. */
  function PadLeft(s: string, n: nat): (r: string)
    requires AllDigits(s)
    ensures AllDigits(r) && |r| >= n && |r| >= |s|
    ensures DigitsValue(r) == DigitsValue(s)
    decreases n - |s|
  {
    if |s| >= n then s
    else
      LeadingZero(s);
      PadLeft("0" + s, n)
  }

  /** Digits with a point inserted before the last scale of them (none when scale is 0). */
  function PointBody(digits: string, scale: nat): string
    requires |digits| > scale
  {
    if scale == 0 then digits
    else digits[..|digits| - scale] + "." + digits[|digits| - scale..]
  }

  /** The digits of |d.mantissa| with the point placed according to d.scale. */
  function ShowMagnitude(d: Decimal): string
  {
    var magnitude := if d.mantissa < 0 then -d.mantissa else d.mantissa;
    PointBody(PadLeft(NatToDigits(magnitude), d.scale + 1), d.scale)
  }

  /** The canonical rendering of d: a minus sign when negative, then its magnitude. */
  function Show(d: Decimal): string
  {
    if d.mantissa < 0 then "-" + ShowMagnitude(d) else ShowMagnitude(d)
  }

  lemma {:induction false} LeadingZero(s: string)
    requires AllDigits(s)
    ensures AllDigits("0" + s) && DigitsValue("0" + s) == DigitsValue(s)
  {
    if s != [] {
      var z := "0" + s;
      assert z[..|z| - 1] == "0" + s[..|s| - 1];
      LeadingZero(s[..|s| - 1]);
    }
  }

  lemma {:induction false} DigitsRoundTrip(n: nat)
    ensures DigitsValue(NatToDigits(n)) == n
  {
    if n >= 10 {
      var s := NatToDigits(n);
      assert s[..|s| - 1] == NatToDigits(n / 10);
      DigitsRoundTrip(n / 10);
    }
  }

  lemma PointBodyParses(digits: string, scale: nat)
    requires AllDigits(digits) && |digits| > scale
    ensures ParseUnsigned(PointBody(digits, scale)) == Some(Decimal(DigitsValue(digits), scale))
  {
    if scale == 0 {
      NoPointParses(digits);
    } else {
      FractionParses(digits, scale);
    }
  }

  lemma FractionParses(digits: string, scale: nat)
    requires AllDigits(digits) && |digits| > scale > 0
    ensures ParseUnsigned(PointBody(digits, scale)) == Some(Decimal(DigitsValue(digits), scale))
  {
    var whole, fraction := digits[..|digits| - scale], digits[|digits| - scale..];
    assert whole + fraction == digits;
    var text := PointBody(digits, scale);
    assert text == whole + "." + fraction;
    SplitAtPoint(whole, fraction);
    assert ParseUnsigned(text) == Some(Decimal(DigitsValue(whole + fraction), |fraction|));
  }

  lemma NoPointParses(digits: string)
    requires AllDigits(digits) && |digits| > 0
    ensures ParseUnsigned(digits) == Some(Decimal(DigitsValue(digits), 0))
  {
    assert '.' !in digits by {
      assert forall i :: 0 <= i < |digits| ==> IsDigit(digits[i]);
    }
    assert IndexOf(digits, '.') == None;
  }

  lemma SplitAtPoint(whole: string, fraction: string)
    requires AllDigits(whole) && AllDigits(fraction) && |whole| + |fraction| > 0
    ensures ParseUnsigned(whole + "." + fraction) == Some(Decimal(DigitsValue(whole + fraction), |fraction|))
  {
    var body := whole + "." + fraction;
    assert '.' !in whole;
    assert body[|whole|] == '.';
    assert body[..|whole|] == whole;
    assert IndexOf(body, '.') == Some(|whole|);
    assert body[|whole| + 1..] == fraction;
    assert AllDigits(whole + fraction);
  }

  lemma SignedParses(body: string, d: Decimal)
    requires ParseUnsigned(body) == Some(d)
    ensures ParseDecimal("-" + body) == Some(Decimal(-d.mantissa, d.scale))
  {
    var text := "-" + body;
    assert text[0] == '-' && text[1..] == body;
  }

  lemma UnsignedParses(body: string, d: Decimal)
    requires ParseUnsigned(body) == Some(d) && |body| > 0 && IsDigit(body[0])
    ensures ParseDecimal(body) == Some(d)
  {
  }

  /** Every decimal's rendering is numeric text that coerces back to that very decimal. */
  lemma MagnitudeParses(d: Decimal)
    ensures var m := ShowMagnitude(d);
      |m| > 0 && IsDigit(m[0]) &&
      ParseUnsigned(m) == Some(Decimal(if d.mantissa < 0 then -d.mantissa else d.mantissa, d.scale))
  {
    var magnitude := if d.mantissa < 0 then -d.mantissa else d.mantissa;
    var digits := PadLeft(NatToDigits(magnitude), d.scale + 1);
    assert DigitsValue(digits) == magnitude by {
      DigitsRoundTrip(magnitude);
    }
    assert ShowMagnitude(d) == PointBody(digits, d.scale);
    PointBodyParses(digits, d.scale);
    PointBodyStartsWithDigit(digits, d.scale);
  }

  lemma PointBodyStartsWithDigit(digits: string, scale: nat)
    requires AllDigits(digits) && |digits| > scale
    ensures |PointBody(digits, scale)| > 0 && IsDigit(PointBody(digits, scale)[0])
  {
    assert PointBody(digits, scale)[0] == digits[0];
  }

  lemma ShowParses(d: Decimal)
    ensures ParseDecimal(Show(d)) == Some(d)
  {
    MagnitudeParses(d);
    var m := ShowMagnitude(d);
    if d.mantissa < 0 {
      SignedParses(m, Decimal(-d.mantissa, d.scale));
    } else {
      UnsignedParses(m, d);
    }
  }

  /** Digits without a point are read as an integer. */
  lemma IntegerValue(digits: string)
    requires AllDigits(digits) && |digits| > 0
    ensures ParseDecimal(digits) == Some(Decimal(DigitsValue(digits), 0))
  {
    NoPointParses(digits);
    assert IsDigit(digits[0]);
  }

  /** "08.20", ".5" and "8." alike: all the digits, scaled by the number after the point. */
  lemma PointValue(whole: string, fraction: string)
    requires AllDigits(whole) && AllDigits(fraction) && |whole| + |fraction| > 0
    ensures ParseDecimal(whole + "." + fraction) == Some(Decimal(DigitsValue(whole + fraction), |fraction|))
  {
    SplitAtPoint(whole, fraction);
    var text := whole + "." + fraction;
    assert text[0] == if |whole| > 0 then whole[0] else '.';
  }

  /** A leading minus negates the value of the rest, a leading plus keeps it. */
  lemma SignValue(sign: char, body: string)
    requires IsSign(sign) && (body == [] || !IsSign(body[0]))
    ensures ParseDecimal([sign] + body) ==
      match ParseDecimal(body)
      case None => None
      case Some(d) => Some(if sign == '-' then Decimal(-d.mantissa, d.scale) else d)
  {
    assert ([sign] + body)[1..] == body;
  }

  /** A numeral may start with its point. */
  lemma PointFirst()
    ensures ParseDecimal(".5") == Some(Decimal(5, 1))
  {
    var whole, fraction := "", "5";
    PointValue(whole, fraction);
    assert whole + "." + fraction == ".5";
    var digits := whole + fraction;
    assert digits == "5" && digits[..0] == "";
    assert DigitsValue(digits) == 5;
  }

  lemma NegativePointFirst()
    ensures ParseDecimal("-.5") == Some(Decimal(-5, 1))
  {
    PointFirst();
    SignValue('-', ".5");
    assert ['-'] + ".5" == "-.5";
  }

  /** A numeral may end with its point. */
  lemma PointLast()
    ensures ParseDecimal("8.") == Some(Decimal(8, 0))
  {
    var whole, fraction := "8", "";
    PointValue(whole, fraction);
    assert whole + "." + fraction == "8.";
    var digits := whole + fraction;
    assert digits == "8" && digits[..0] == "";
    assert DigitsValue(digits) == 8;
  }

  /** Leading zeros add nothing to the value. */
  lemma LeadingZeros()
    ensures ParseDecimal("08.2") == Some(Decimal(82, 1))
  {
    var whole, fraction := "08", "2";
    PointValue(whole, fraction);
    assert whole + "." + fraction == "08.2";
    var digits := whole + fraction;
    assert digits[..2] == whole && whole[..1] == "0" && "0"[..0] == "";
    assert DigitsValue(whole) == 8;
    assert DigitsValue(digits) == 82;
  }

  /** A leading plus sign is accepted and changes nothing. */
  lemma PlusSign()
    ensures ParseDecimal("+8") == Some(Decimal(8, 0))
  {
    IntegerValue("8");
    SignValue('+', "8");
    assert ['+'] + "8" == "+8";
  }

  /** The sentinel of the source data is not a number. */
  lemma TbdIsNotANumber()
    ensures ParseDecimal("tbd") == None
  {
    assert !IsDigit("tbd"[0]) && "tbd"[0] != '.';
  }
}

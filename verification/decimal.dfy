/**
 * Decimal text used by the exporter: `'%s' % i` for a rank `i`, and the
 * rendering of a coordinate already rounded to three decimals.  Each
 * renderer comes with the parser a reader of the file would apply and a
 * round-trip lemma.
 */
module Decimal {
  import opened Wrappers
  import opened Sequences

  predicate IsDigit(c: char) {
    '0' <= c <= '9'
  }

  predicate AllDigits(s: string) {
    forall k :: 0 <= k < |s| ==> IsDigit(s[k])
  }

  function DigitChar(d: nat): (c: char)
    requires d < 10
    ensures IsDigit(c) && c as int - '0' as int == d
  {
    ('0' as int + d) as char
  }

  /** `'%s' % n` for a natural number: its decimal digits, most significant first, no leading zero. */
  function NatToString(n: nat): (s: string)
    ensures |s| > 0 && AllDigits(s)
    ensures |s| > 1 ==> s[0] != '0'
  {
    if n < 10 then [DigitChar(n)] else NatToString(n / 10) + [DigitChar(n % 10)]
  }

  /** The value of a string of digits (0 for the empty string). */
  function DigitsValue(s: string): nat
    requires AllDigits(s)
  {
    if s == [] then 0 else 10 * DigitsValue(s[..|s| - 1]) + (s[|s| - 1] as int - '0' as int)
  }

  /** Reads a natural number: one or more digits and nothing else. */
  function ParseNat(s: string): (r: Option<nat>)
    ensures r.Some? <==> |s| > 0 && AllDigits(s)
  {
    if |s| > 0 && AllDigits(s) then Some(DigitsValue(s)) else None
  }

  lemma {:induction false} ParseNatToString(n: nat)
    ensures ParseNat(NatToString(n)) == Some(n)
  {
    if n >= 10 {
      var init := NatToString(n / 10);
      var s := init + [DigitChar(n % 10)];
      assert s[..|s| - 1] == init;
      ParseNatToString(n / 10);
      assert DigitsValue(s) == 10 * (n / 10) + n % 10;
    } else {
      var s := [DigitChar(n)];
      assert s[..0] == [];
      assert DigitsValue(s) == 10 * DigitsValue([]) + (s[0] as int - '0' as int);
    }
  }

  /** Distinct ranks print as distinct strings. */
  lemma NatToStringInjective(a: nat, b: nat)
    requires a != b
    ensures NatToString(a) != NatToString(b)
  {
    ParseNatToString(a);
    ParseNatToString(b);
  }

  /**
   * The one to three decimals after the point of a fraction `f`/1000, as
   * Python's float repr writes them: trailing zeros dropped, but at least one digit.
   */
  function FractionDigits(f: nat): (s: string)
    requires f < 1000
    ensures 1 <= |s| <= 3 && AllDigits(s)
    ensures |s| > 1 ==> s[|s| - 1] != '0'
  {
    var d3, r := f % 10, f / 10;
    var d2, d1 := r % 10, r / 10;
    if d3 != 0 then [DigitChar(d1), DigitChar(d2), DigitChar(d3)]
    else if d2 != 0 then [DigitChar(d1), DigitChar(d2)]
    else [DigitChar(d1)]
  }

  /** The rendering of a non-negative value of `m` thousandths: integer part, '.', fraction digits. */
  function UnsignedText(m: nat): (s: string)
    ensures |s| > 0 && IsDigit(s[0])
    ensures forall k :: 0 <= k < |s| ==> IsDigit(s[k]) || s[k] == '.'
  {
    NatToString(m / 1000) + "." + FractionDigits(m % 1000)
  }

  /**
   * `'%s' % v` for a float `v` that `round(…, 3)` produced, given as `t` thousandths:
   * optional minus sign, integer part, '.', and the fraction digits.
   */
  function FormatThousandths(t: int): (s: string)
    ensures |s| > 0 && if t < 0 then s[0] == '-' else IsDigit(s[0])
    ensures forall k :: 0 < k < |s| ==> IsDigit(s[k]) || s[k] == '.'
  {
    if t < 0 then "-" + UnsignedText(-t) else UnsignedText(t)
  }

  /** Reads an unsigned decimal with one to three fraction digits, in thousandths. */
  function ParseUnsignedThousandths(s: string): Option<nat>
  {
    match Split(s, '.')
    case None => None
    case Some((whole, frac)) =>
      match ParseNat(whole)
      case None => None
      case Some(w) =>
        if 1 <= |frac| <= 3 && AllDigits(frac) then
          Some(w * 1000 + DigitsValue(frac) * (if |frac| == 1 then 100 else if |frac| == 2 then 10 else 1))
        else None
  }

  /** Reads a coordinate as the game would: an optional '-' then an unsigned decimal. */
  function ParseThousandths(s: string): Option<int>
  {
    if |s| > 0 && s[0] == '-' then
      match ParseUnsignedThousandths(s[1..])
      case None => None
      case Some(m) => Some(0 - m)
    else
      match ParseUnsignedThousandths(s)
      case None => None
      case Some(m) => Some(m)
  }

  lemma FractionDigitsValue(f: nat)
    requires f < 1000
    ensures var s := FractionDigits(f);
      DigitsValue(s) * (if |s| == 1 then 100 else if |s| == 2 then 10 else 1) == f
  {
    var d3, r := f % 10, f / 10;
    var d2, d1 := r % 10, r / 10;
    var c1, c2, c3 := DigitChar(d1), DigitChar(d2), DigitChar(d3);
    assert f == 100 * d1 + 10 * d2 + d3;
    assert DigitsValue([c1]) == d1;
    assert [c1, c2][..1] == [c1];
    assert DigitsValue([c1, c2]) == 10 * d1 + d2;
    assert [c1, c2, c3][..2] == [c1, c2];
    assert DigitsValue([c1, c2, c3]) == 100 * d1 + 10 * d2 + d3;
  }

  lemma ParseUnsignedFormat(q: nat, f: nat)
    requires f < 1000
    ensures ParseUnsignedThousandths(NatToString(q) + "." + FractionDigits(f)) == Some(q * 1000 + f)
  {
    var whole, frac := NatToString(q), FractionDigits(f);
    SplitAfter(whole, '.', frac);
    ParseNatToString(q);
    FractionDigitsValue(f);
  }

  /** Whole values keep one zero after the point; other fractions lose their trailing zeros. */
  lemma FormatExamples()
    ensures FormatThousandths(1000) == "1.0" && FormatThousandths(-1000) == "-1.0" && FormatThousandths(0) == "0.0"
    ensures FormatThousandths(1500) == "1.5" && FormatThousandths(-250) == "-0.25" && FormatThousandths(12345) == "12.345"
  {
  }

  lemma ParseUnsignedText(m: nat)
    ensures ParseUnsignedThousandths(UnsignedText(m)) == Some(m)
  {
    ParseUnsignedFormat(m / 1000, m % 1000);
  }

  /** A sign in front of an unsigned decimal negates what is read. */
  lemma ParseSigned(body: string, m: nat)
    requires ParseUnsignedThousandths(body) == Some(m)
    requires |body| > 0 && IsDigit(body[0])
    ensures ParseThousandths(body) == Some(m)
    ensures ParseThousandths("-" + body) == Some(-(m as int))
  {
    assert ("-" + body)[1..] == body;
  }

  /** A reader of the file recovers every coordinate exactly from its rendering. */
  lemma ParseFormatThousandths(t: int)
    ensures ParseThousandths(FormatThousandths(t)) == Some(t)
  {
    var m: nat := if t < 0 then -t else t;
    ParseUnsignedText(m);
    ParseSigned(UnsignedText(m), m);
  }
}

/** The JavaScript `Number(...)` conversion the route handlers apply to desk ids
    taken from query strings and form fields, for the decimal forms those carry. */
module JsNumber {
  import opened Wrappers

  /** A JavaScript number as far as the handlers can tell values apart: an integer,
      a finite non-integral value, or NaN. Values are exact: the rounding to a double is
      not modelled. */
  datatype Number = Integer(n: int) | Fraction | NaN

  predicate IsDigit(c: char) {
    '0' <= c <= '9'
  }

  predicate AllDigits(s: string) {
    forall i :: 0 <= i < |s| ==> IsDigit(s[i])
  }

  predicate AllZeros(s: string) {
    forall i :: 0 <= i < |s| ==> s[i] == '0'
  }

  function DigitValue(c: char): nat
    requires IsDigit(c)
  {
    c as int - '0' as int
  }

  /** The value of a string of decimal digits, most significant first. */
  function DigitsValue(s: string): nat
    requires AllDigits(s)
  {
    if |s| == 0 then 0 else DigitsValue(s[..|s| - 1]) * 10 + DigitValue(s[|s| - 1])
  }

  /** Offset of the first '.' in `s`, if any. */
  function DotIndex(s: string): (r: Option<nat>)
    ensures r.Some? ==> r.value < |s| && s[r.value] == '.' && '.' !in s[..r.value]
    ensures r.None? ==> '.' !in s
  {
    if |s| == 0 then None
    else if s[0] == '.' then Some(0)
    else match DotIndex(s[1..])
      case None => None
      case Some(i) => assert s[..i + 1] == [s[0]] + s[1..][..i]; Some(i + 1)
  }

  /** `Number(s)` for an unsigned decimal: digits, or digits, a '.' and digits, where either
      side of the dot may be empty but not both ("12." is 12, ".5" is 0.5, "." is NaN);
      anything else is NaN. */
  function Unsigned(s: string): Number {
    match DotIndex(s)
    case None =>
      if |s| > 0 && AllDigits(s) then Integer(DigitsValue(s)) else NaN
    case Some(i) =>
      var whole, frac := s[..i], s[i + 1..];
      if (|whole| > 0 || |frac| > 0) && AllDigits(whole) && AllDigits(frac) then
        if AllZeros(frac) then Integer(DigitsValue(whole)) else Fraction
      else NaN
  }

  function Negate(x: Number): Number {
    match x
    case Integer(n) => Integer(-n)
    case _ => x
  }

  /** `Number(text)`: the empty string is 0, a leading sign is honoured. */
  function FromText(s: string): Number {
    if s == "" then Integer(0)
    else if s[0] == '-' then Negate(Unsigned(s[1..]))
    else if s[0] == '+' then Unsigned(s[1..])
    else Unsigned(s)
  }

  /** `Number(searchParams.get(name))`: an absent parameter is `null`, and `Number(null)` is 0;
      the decimal text of an integer converts to that integer. */
  function FromParam(v: Option<string>): (r: Number)
    ensures v.None? ==> r == Integer(0)
    ensures forall n: nat :: v == Some(DecimalText(n)) ==> r == Integer(n)
    ensures forall n: nat :: v == Some("-" + DecimalText(n)) ==> r == Integer(-(n as int))
  {
    DecimalTextsConvert();
    match v
    case None => Integer(0)
    case Some(s) => FromText(s)
  }

  function Digit(d: nat): (c: char)
    requires d < 10
  {
    ('0' as int + d) as char
  }

  /** The decimal text of a natural number, as `String(n)` renders it. */
  function DecimalText(n: nat): (s: string)
    ensures |s| > 0 && AllDigits(s)
  {
    if n < 10 then [Digit(n)] else DecimalText(n / 10) + [Digit(n % 10)]
  }

  lemma {:induction false} DigitsValueOfDecimalText(n: nat)
    ensures DigitsValue(DecimalText(n)) == n
  {
    var s := DecimalText(n);
    if n >= 10 {
      DigitsValueOfDecimalText(n / 10);
      assert s[..|s| - 1] == DecimalText(n / 10);
    }
  }

  /** Every decimal text of a natural number converts to that number, and with a leading
      minus sign to its negation. */
  lemma DecimalTextsConvert()
    ensures forall n: nat :: FromText(DecimalText(n)) == Integer(n)
    ensures forall n: nat :: FromText("-" + DecimalText(n)) == Integer(-(n as int))
  {
    forall n: nat
      ensures FromText(DecimalText(n)) == Integer(n)
      ensures FromText("-" + DecimalText(n)) == Integer(-(n as int))
    {
      DecimalTextRoundTrip(n);
      var s := DecimalText(n);
      assert IsDigit(s[0]);
      assert ("-" + s)[1..] == s;
    }
  }

  /** A trailing dot does not change the value: `Number("12.")` is 12. */
  lemma TrailingDotKeepsValue(n: nat)
    ensures FromText(DecimalText(n) + ".") == Integer(n)
  {
    var s := DecimalText(n);
    DigitsValueOfDecimalText(n);
    forall k | 0 <= k < |s|
      ensures s[k] != '.'
    {
      assert IsDigit(s[k]);
    }
    assert DotIndex(s + ".") == Some(|s|) by {
      DotIndexAfterDigits(s, ".");
    }
    assert (s + ".")[..|s|] == s;
  }

  /** The first dot of `s + t`, when `s` holds none, is the first dot of `t`, shifted. */
  lemma {:induction false} DotIndexAfterDigits(s: string, t: string)
    requires '.' !in s && |t| > 0 && t[0] == '.'
    ensures DotIndex(s + t) == Some(|s|)
  {
    if |s| > 0 {
      assert (s + t)[1..] == s[1..] + t;
      DotIndexAfterDigits(s[1..], t);
    }
  }

  /** A missing whole part reads as zero: `Number(".5")` is 0.5, `Number(".0")` is 0, and a
      lone dot is NaN. */
  lemma LeadingDot()
    ensures FromText(".5") == Fraction
    ensures FromText(".0") == Integer(0)
    ensures FromText(".") == NaN
  {
    assert DotIndex(".5") == Some(0) && ".5"[..0] == "" && ".5"[1..] == "5";
    assert AllDigits("5") && "5"[0] != '0';
    assert DotIndex(".0") == Some(0) && ".0"[..0] == "" && ".0"[1..] == "0";
    assert DotIndex(".") == Some(0) && "."[..0] == "" && "."[1..] == "";
  }

  /** Round trip: a desk id rendered with `String(id)` converts back to the same id. */
  lemma DecimalTextRoundTrip(n: nat)
    ensures FromText(DecimalText(n)) == Integer(n)
  {
    DigitsValueOfDecimalText(n);
    var s := DecimalText(n);
    forall k | 0 <= k < |s|
      ensures s[k] != '.'
    {
      assert IsDigit(s[k]);
    }
  }
}

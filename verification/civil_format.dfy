/** Calendar dates in the "dd.MM.yyyy" text form the application stores in
    `reservations.date` and `booking_metrics.metric_date`. */
module CivilFormat {
  import opened Wrappers
  import Text
  import opened JsNumber

  datatype CivilDate = CivilDate(year: int, month: int, day: int)

  /** The dates whose text form has exactly two day, two month and four year digits. */
  predicate ValidCivil(c: CivilDate) {
    0 <= c.year <= 9999 && 1 <= c.month <= 12 && 1 <= c.day <= 31
  }

  /** Chronological order of calendar dates. */
  predicate Before(a: CivilDate, b: CivilDate) {
    || a.year < b.year
    || (a.year == b.year && a.month < b.month)
    || (a.year == b.year && a.month == b.month && a.day < b.day)
  }

  function Pad2(n: nat): (s: string)
    requires n < 100
    ensures |s| == 2 && AllDigits(s)
  {
    [Digit(n / 10), Digit(n % 10)]
  }

  function Pad4(n: nat): (s: string)
    requires n < 10000
    ensures |s| == 4 && AllDigits(s)
  {
    Pad2(n / 100) + Pad2(n % 100)
  }

  /** `format(date, "dd.MM.yyyy")`. */
  function Format(c: CivilDate): (s: string)
    requires ValidCivil(c)
    ensures |s| == 10 && s[2] == '.' && s[5] == '.'
  {
    Pad2(c.day) + "." + Pad2(c.month) + "." + Pad4(c.year)
  }

  /** Reads a "dd.MM.yyyy" text back; anything else is rejected. */
  function Parse(s: string): (r: Option<CivilDate>)
    ensures r.Some? ==> ValidCivil(r.value)
  {
    if |s| == 10 && s[2] == '.' && s[5] == '.'
       && AllDigits(s[..2]) && AllDigits(s[3..5]) && AllDigits(s[6..])
    then
      var c := CivilDate(DigitsValue(s[6..]), DigitsValue(s[3..5]), DigitsValue(s[..2]));
      if ValidCivil(c) then Some(c) else None
    else None
  }

  lemma Pad2Value(n: nat)
    requires n < 100
    ensures DigitsValue(Pad2(n)) == n
  {
    var s := Pad2(n);
    assert s[..1] == [Digit(n / 10)];
    assert s[..1][..0] == [];
    assert DigitsValue(s[..1]) == n / 10;
    assert DigitValue(s[1]) == n % 10;
  }

  lemma Pad4Value(n: nat)
    requires n < 10000
    ensures DigitsValue(Pad4(n)) == n
  {
    var s := Pad4(n);
    var hi, lo := n / 100, n % 100;
    Pad2Value(hi);
    assert s[..3] == Pad2(hi) + [Digit(lo / 10)];
    assert s[..3][..2] == Pad2(hi);
    assert s[..2] == Pad2(hi);
    assert DigitsValue(s[..3]) == hi * 10 + lo / 10;
  }

  /** Round trip: formatting a date and reading the text back gives the date. */
  lemma {:induction false} ParseFormat(c: CivilDate)
    requires ValidCivil(c)
    ensures Parse(Format(c)) == Some(c)
  {
    var s := Format(c);
    assert s[..2] == Pad2(c.day);
    assert s[3..5] == Pad2(c.month);
    assert s[6..] == Pad4(c.year);
    Pad2Value(c.day);
    Pad2Value(c.month);
    Pad4Value(c.year);
  }

  /** Distinct dates have distinct texts. */
  lemma FormatInjective(a: CivilDate, b: CivilDate)
    requires ValidCivil(a) && ValidCivil(b) && Format(a) == Format(b)
    ensures a == b
  {
    ParseFormat(a);
    ParseFormat(b);
  }

  /** The text rearranged as "yyyyMMdd", whose character order is chronological. */
  function SortKey(s: string): string {
    if |s| == 10 then s[6..10] + s[3..5] + s[0..2] else s
  }

  lemma LexLessSingle(c: char, d: char)
    ensures Text.LexLess([c], [d]) <==> c < d
  {
    assert [c][1..] == [] && [d][1..] == [];
  }

  lemma Pad2Order(a: nat, b: nat)
    requires a < 100 && b < 100
    ensures Text.LexLess(Pad2(a), Pad2(b)) <==> a < b
    ensures Pad2(a) == Pad2(b) <==> a == b
  {
    Text.LexLessConcat([Digit(a / 10)], [Digit(a % 10)], [Digit(b / 10)], [Digit(b % 10)]);
    LexLessSingle(Digit(a / 10), Digit(b / 10));
    LexLessSingle(Digit(a % 10), Digit(b % 10));
    assert Pad2(a) == Pad2(b) ==> a / 10 == b / 10 && a % 10 == b % 10 by {
      if Pad2(a) == Pad2(b) {
        assert Pad2(a)[0] == Pad2(b)[0] && Pad2(a)[1] == Pad2(b)[1];
      }
    }
  }

  lemma Pad4Order(a: nat, b: nat)
    requires a < 10000 && b < 10000
    ensures Text.LexLess(Pad4(a), Pad4(b)) <==> a < b
    ensures Pad4(a) == Pad4(b) <==> a == b
  {
    Text.LexLessConcat(Pad2(a / 100), Pad2(a % 100), Pad2(b / 100), Pad2(b % 100));
    Pad2Order(a / 100, b / 100);
    Pad2Order(a % 100, b % 100);
    assert Pad4(a) == Pad4(b) ==> Pad2(a / 100) == Pad2(b / 100) && Pad2(a % 100) == Pad2(b % 100) by {
      if Pad4(a) == Pad4(b) {
        assert Pad4(a)[..2] == Pad2(a / 100) && Pad4(b)[..2] == Pad2(b / 100);
        assert Pad4(a)[2..] == Pad2(a % 100) && Pad4(b)[2..] == Pad2(b % 100);
      }
    }
  }

  /** Comparing the "yyyyMMdd" rearrangements of two formatted dates character by
      character is the same as comparing the dates chronologically. */
  lemma {:induction false} SortKeyIsChronological(a: CivilDate, b: CivilDate)
    requires ValidCivil(a) && ValidCivil(b)
    ensures Text.LexLess(SortKey(Format(a)), SortKey(Format(b))) <==> Before(a, b)
  {
    var fa, fb := Format(a), Format(b);
    assert SortKey(fa) == Pad4(a.year) + (Pad2(a.month) + Pad2(a.day)) by {
      assert fa[6..10] == Pad4(a.year) && fa[3..5] == Pad2(a.month) && fa[0..2] == Pad2(a.day);
    }
    assert SortKey(fb) == Pad4(b.year) + (Pad2(b.month) + Pad2(b.day)) by {
      assert fb[6..10] == Pad4(b.year) && fb[3..5] == Pad2(b.month) && fb[0..2] == Pad2(b.day);
    }
    Text.LexLessConcat(Pad4(a.year), Pad2(a.month) + Pad2(a.day), Pad4(b.year), Pad2(b.month) + Pad2(b.day));
    Text.LexLessConcat(Pad2(a.month), Pad2(a.day), Pad2(b.month), Pad2(b.day));
    Pad4Order(a.year, b.year);
    Pad2Order(a.month, b.month);
    Pad2Order(a.day, b.day);
  }
}

/** Calendar arithmetic on day numbers and the week/day-name date resolver
    (`getDateByWeekAndDay`) together with the week numbering it is fed with (`getWeek`). */
module Dates {
  import opened Wrappers
  import Text

  /** A calendar day, counted from 1 January 1970 (day 0, a Thursday). */
  type Day = int

  /** Day of the week, Sunday = 0 ... Saturday = 6. */
  function Weekday(d: Day): (w: nat)
    ensures w < 7
  {
    (d + 4) % 7
  }

  /** `startOfWeek` with its default Sunday start: the Sunday on or before `d`. */
  function StartOfWeek(d: Day): (s: Day)
    ensures s <= d < s + 7
  {
    d - Weekday(d)
  }

  /** The number of Sunday-start weeks between the week of day 0 and the week of `d`. */
  function WeekIndex(d: Day): int {
    (d + 4) / 7
  }

  /** Every week start has the form 7q - 4, i.e. is a Sunday. */
  lemma StartOfWeekForm(d: Day)
    ensures StartOfWeek(d) == 7 * WeekIndex(d) - 4
    ensures Weekday(StartOfWeek(d)) == 0
  {
  }

  /** Days a whole number of weeks after a week start fall on the weekday of their offset. */
  lemma WeekdayAfterWeekStart(d: Day, k: int, i: int)
    requires 0 <= i < 7
    ensures Weekday(StartOfWeek(d) + 7 * k + i) == i
  {
    StartOfWeekForm(d);
    var q := WeekIndex(d);
    assert StartOfWeek(d) + 7 * k + i + 4 == 7 * (q + k) + i;
  }

  /** The injected clock: today, and the first days of the current and of the next year. */
  datatype Clock = Clock(today: Day, yearStart: Day, nextYearStart: Day)

  predicate ValidClock(c: Clock) {
    && c.yearStart <= c.today < c.nextYearStart
    && 365 <= c.nextYearStart - c.yearStart <= 366
  }

  const DayNames: seq<string> :=
    ["sunday", "monday", "tuesday", "wednesday", "thursday", "friday", "saturday"]

  /** `Array.prototype.indexOf`: the first position of `s` in `names`. */
  function IndexOf(names: seq<string>, s: string): (r: Option<nat>)
    ensures r.Some? ==> r.value < |names| && names[r.value] == s
    ensures r.None? ==> s !in names
  {
    if |names| == 0 then None
    else if names[0] == s then Some(0)
    else match IndexOf(names[1..], s)
      case None => None
      case Some(i) => Some(i + 1)
  }

  /** The offset of a day name from Sunday, matched after lower-casing. */
  function DayIndex(dayName: string): (r: Option<nat>)
    ensures r.Some? ==> r.value < 7 && DayNames[r.value] == Text.ToLower(dayName)
    ensures r.None? <==> Text.ToLower(dayName) !in DayNames
  {
    IndexOf(DayNames, Text.ToLower(dayName))
  }

  /** `getDateByWeekAndDay(dayName, weekNumber)`: the `dayName` of week `weekNumber`, weeks
      counted from the Sunday-start week containing 1 January of the clock's year. */
  function DateByWeekAndDay(c: Clock, dayName: string, weekNumber: int): (r: Result<Day>)
    ensures r.Failure? <==> Text.ToLower(dayName) !in DayNames
    ensures r.Failure? ==> r.error == "Invalid day name"
    ensures r.Success? ==>
      var weekStart := StartOfWeek(c.yearStart) + 7 * (weekNumber - 1);
      weekStart <= r.value < weekStart + 7
  {
    var weekStart := StartOfWeek(c.yearStart) + 7 * (weekNumber - 1);
    match DayIndex(dayName)
    case None => Failure("Invalid day name")
    case Some(i) => Success(weekStart + i)
  }

  /** A resolved date falls on the weekday its name denotes, in the requested week. */
  lemma ResolvedWeekday(c: Clock, dayName: string, weekNumber: int)
    ensures var r := DateByWeekAndDay(c, dayName, weekNumber);
      r.Success? ==>
        && DayNames[Weekday(r.value)] == Text.ToLower(dayName)
        && r.value - StartOfWeek(c.yearStart) == 7 * (weekNumber - 1) + Weekday(r.value)
  {
    var index := DayIndex(dayName);
    if index.Some? {
      ResolvedWeekdayIsIndex(c, dayName, index.value, weekNumber);
    }
  }

  /** The weekday of the resolved date is the index of its name. */
  lemma ResolvedWeekdayIsIndex(c: Clock, dayName: string, i: nat, weekNumber: int)
    requires DayIndex(dayName) == Some(i)
    ensures DateByWeekAndDay(c, dayName, weekNumber).Success?
    ensures Weekday(DateByWeekAndDay(c, dayName, weekNumber).value) == i
  {
    ResolveByIndex(c, dayName, i, weekNumber);
    WeekdayAfterWeekStart(c.yearStart, weekNumber - 1, i);
  }

  /** Day names are matched case-insensitively. */
  lemma DateByWeekAndDayIgnoresCase(c: Clock, dayName: string, weekNumber: int)
    ensures DateByWeekAndDay(c, dayName, weekNumber)
         == DateByWeekAndDay(c, Text.ToLower(dayName), weekNumber)
  {
    DayIndexIgnoresCase(dayName);
    SameIndexSameDate(c, dayName, Text.ToLower(dayName), weekNumber);
  }

  /** The resolver looks at the day name only through its index. */
  lemma SameIndexSameDate(c: Clock, a: string, b: string, weekNumber: int)
    requires DayIndex(a) == DayIndex(b)
    ensures DateByWeekAndDay(c, a, weekNumber) == DateByWeekAndDay(c, b, weekNumber)
  {
  }

  lemma DayIndexIgnoresCase(dayName: string)
    ensures DayIndex(Text.ToLower(dayName)) == DayIndex(dayName)
  {
    Text.ToLowerIdempotent(dayName);
  }

  /** One week later is exactly seven days later. */
  lemma NextWeekIsSevenDaysLater(c: Clock, dayName: string, weekNumber: int)
    ensures DateByWeekAndDay(c, dayName, weekNumber).Success? ==>
      DateByWeekAndDay(c, dayName, weekNumber + 1)
        == Success(DateByWeekAndDay(c, dayName, weekNumber).value + 7)
  {
  }

  /** The canonical names are their own lower-case forms, and each resolves to its position. */
  lemma DayNamesAreLowerCase(i: nat)
    requires i < 7
    ensures Text.ToLower(DayNames[i]) == DayNames[i]
    ensures DayIndex(DayNames[i]) == Some(i)
  {
    DayNamesFacts();
    Text.ToLowerOfNoUpper(DayNames[i]);
    IndexOfDistinct(DayNames, i);
  }

  /** The canonical names are pairwise different and hold no upper-case letter. */
  lemma DayNamesFacts()
    ensures Distinct(DayNames)
    ensures forall i | 0 <= i < 7 :: Text.NoUpper(DayNames[i])
  {
    forall j, k | 0 <= j < k < 7 ensures DayNames[j] != DayNames[k] {
      assert DayNames[j][0] != DayNames[k][0] || DayNames[j][1] != DayNames[k][1];
    }
  }

  predicate Distinct(names: seq<string>) {
    forall j, k :: 0 <= j < k < |names| ==> names[j] != names[k]
  }

  /** In a list without repetitions every name is found at its own position. */
  lemma {:induction false} IndexOfDistinct(names: seq<string>, i: nat)
    requires Distinct(names) && i < |names|
    ensures IndexOf(names, names[i]) == Some(i)
  {
    if i > 0 {
      assert names[1..][i - 1] == names[i];
      IndexOfDistinct(names[1..], i - 1);
    }
  }

  /** Within one week a day name with index i lies exactly i days after the week's Sunday,
      whatever spelling either name uses. */
  lemma DayOffsetWithinWeek(c: Clock, dayName: string, sunday: string, weekNumber: int)
    requires DayIndex(sunday) == Some(0) && DayIndex(dayName).Some?
    ensures DateByWeekAndDay(c, dayName, weekNumber)
         == Success(DateByWeekAndDay(c, sunday, weekNumber).value + DayIndex(dayName).value)
  {
    ResolveByIndex(c, dayName, DayIndex(dayName).value, weekNumber);
    ResolveByIndex(c, sunday, 0, weekNumber);
  }

  /** A name with index i resolves to the i-th day of the requested week. */
  lemma ResolveByIndex(c: Clock, dayName: string, i: nat, weekNumber: int)
    requires DayIndex(dayName) == Some(i)
    ensures DateByWeekAndDay(c, dayName, weekNumber)
         == Success(StartOfWeek(c.yearStart) + 7 * (weekNumber - 1) + i)
  {
  }

  /** The i-th canonical name resolves to the i-th day of the requested week. */
  lemma ResolveCanonicalName(c: Clock, i: nat, weekNumber: int)
    requires i < 7
    ensures DateByWeekAndDay(c, DayNames[i], weekNumber)
         == Success(StartOfWeek(c.yearStart) + 7 * (weekNumber - 1) + i)
  {
    DayNamesAreLowerCase(i);
    ResolveByIndex(c, DayNames[i], i, weekNumber);
  }

  /** The resolver reads nothing from the clock but the year. */
  lemma SameYearSameDate(c1: Clock, c2: Clock, dayName: string, weekNumber: int)
    requires c1.yearStart == c2.yearStart
    ensures DateByWeekAndDay(c1, dayName, weekNumber) == DateByWeekAndDay(c2, dayName, weekNumber)
  {
  }

  /** `getWeek(today)` with the default options (weeks start on Sunday, week 1 is the week
      containing 1 January); the week holding next year's 1 January is already week 1. */
  function WeekOf(c: Clock): (w: int)
    ensures ValidClock(c) ==> 1 <= w <= 53
    ensures StartOfWeek(c.today) == StartOfWeek(c.nextYearStart) ==> w == 1
    ensures ValidClock(c) && StartOfWeek(c.today) != StartOfWeek(c.nextYearStart) ==>
      StartOfWeek(c.today) == StartOfWeek(c.yearStart) + 7 * (w - 1)
  {
    StartOfWeekForm(c.today);
    StartOfWeekForm(c.yearStart);
    StartOfWeekForm(c.nextYearStart);
    if StartOfWeek(c.today) == StartOfWeek(c.nextYearStart) then 1
    else WeekIndex(c.today) - WeekIndex(c.yearStart) + 1
  }

  /** Away from the year's last week, week `WeekOf(c)` counted from the first week of the
      year is the week containing today. */
  lemma CurrentWeekStart(c: Clock)
    requires ValidClock(c) && StartOfWeek(c.today) != StartOfWeek(c.nextYearStart)
    ensures StartOfWeek(c.yearStart) + 7 * (WeekOf(c) - 1) == StartOfWeek(c.today)
  {
  }

  /** Away from the year's last week, resolving a day name in the current week gives that
      day of the week containing today. */
  lemma CurrentWeekResolvesToThisWeek(c: Clock, dayName: string)
    requires ValidClock(c) && StartOfWeek(c.today) != StartOfWeek(c.nextYearStart)
    requires DayIndex(dayName).Some?
    ensures DateByWeekAndDay(c, dayName, WeekOf(c)) == Success(StartOfWeek(c.today) + DayIndex(dayName).value)
  {
    var i := DayIndex(dayName).value;
    ResolveByIndex(c, dayName, i, WeekOf(c));
    CurrentWeekStart(c);
  }

  /** In the week that holds next year's 1 January the current week is 1, and the first
      week of the year that is ending started at least 353 days before today. */
  lemma YearEndWeekStart(c: Clock)
    requires ValidClock(c) && StartOfWeek(c.today) == StartOfWeek(c.nextYearStart)
    ensures WeekOf(c) == 1
    ensures StartOfWeek(c.yearStart) + 6 + 353 <= c.today
  {
    StartOfWeekForm(c.yearStart);
    StartOfWeekForm(c.nextYearStart);
  }

  /** Hence in that week the resolver lands in the first week of the year that is ending,
      at least 353 days before today; `DateByWeekAndDayCorrected` below does not. */
  lemma YearEndWeekResolvesToJanuary(c: Clock, dayName: string)
    requires ValidClock(c) && StartOfWeek(c.today) == StartOfWeek(c.nextYearStart)
    requires DayIndex(dayName).Some?
    ensures DateByWeekAndDay(c, dayName, WeekOf(c)) == Success(StartOfWeek(c.yearStart) + DayIndex(dayName).value)
    ensures DateByWeekAndDay(c, dayName, WeekOf(c)).value + 353 <= c.today
  {
    YearEndWeekStart(c);
    ResolveByIndex(c, dayName, DayIndex(dayName).value, 1);
  }

  /** 1 January 2025 (day 20089) is a Wednesday, so Monday of week 1 is 30 December 2024. */
  lemma FirstMondayOf2025()
    ensures DateByWeekAndDay(Clock(20100, 20089, 20454), "monday", 1) == Success(20087)
  {
    DayNamesAreLowerCase(1);
    ResolveByIndex(Clock(20100, 20089, 20454), "monday", 1, 1);
  }

  /** Monday 29 December 2025 (day 20451) lies in the week that holds 1 January 2026, so
      `getWeek` calls it week 1, and "monday" of that week resolves to 30 December 2024. */
  lemma YearEndMondayOf2025()
    ensures var c := Clock(20451, 20089, 20454);
      && ValidClock(c) && WeekOf(c) == 1
      && DateByWeekAndDay(c, "monday", WeekOf(c)) == Success(20087)
  {
    var c := Clock(20451, 20089, 20454);
    StartOfWeekForm(c.today);
    StartOfWeekForm(c.nextYearStart);
    YearEndWeekStart(c);
    DayNamesAreLowerCase(1);
    ResolveByIndex(c, "monday", 1, 1);
  }

  /** date-fns `getWeekYear(today)` as its first day: the year that week 1 belongs to, which
      in the week holding next year's 1 January is already the next year. */
  function WeekYearStart(c: Clock): Day {
    if StartOfWeek(c.today) == StartOfWeek(c.nextYearStart) then c.nextYearStart else c.yearStart
  }

  /** The resolver counting weeks from the week-numbering year rather than the calendar
      year, the year `getWeek` counts in. */
  function DateByWeekAndDayCorrected(c: Clock, dayName: string, weekNumber: int): Result<Day> {
    DateByWeekAndDay(Clock(c.today, WeekYearStart(c), c.nextYearStart), dayName, weekNumber)
  }

  /** With the correction, a day name in the current week always resolves to that day of the
      week containing today, the year's last week included. */
  lemma CorrectedResolvesToThisWeek(c: Clock, dayName: string)
    requires ValidClock(c) && DayIndex(dayName).Some?
    ensures DateByWeekAndDayCorrected(c, dayName, WeekOf(c))
         == Success(StartOfWeek(c.today) + DayIndex(dayName).value)
  {
    var i := DayIndex(dayName).value;
    if StartOfWeek(c.today) == StartOfWeek(c.nextYearStart) {
      YearEndWeekStart(c);
      ResolveByIndex(Clock(c.today, c.nextYearStart, c.nextYearStart), dayName, i, 1);
    } else {
      CurrentWeekResolvesToThisWeek(c, dayName);
      SameYearSameDate(c, Clock(c.today, WeekYearStart(c), c.nextYearStart), dayName, WeekOf(c));
    }
  }
}

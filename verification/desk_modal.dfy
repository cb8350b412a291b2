/** The availability strip of the desk dialog (`DeskModal`): for each weekday letter of the
    current and the next week, whether the desk already has a reservation. */
module DeskModal {
  import opened Wrappers
  import Schema
  import Dates

  /** `lettersToDays`. */
  const LettersToDays: map<string, string> :=
    map["M" := "monday", "T" := "tuesday", "W" := "wednesday", "Th" := "thursday", "F" := "friday"]

  /** The letters shown, in display order. */
  const DayLetters: seq<string> := ["M", "T", "W", "Th", "F"]

  /** Reservation `k` is on the day `letter` stands for, in week `week`. */
  predicate OnDay(k: Schema.ResKey, letter: string, week: int) {
    letter in LettersToDays && k.day == LettersToDays[letter] && k.week == week
  }

  /** `desk.reservations.find(r => r.day === lettersToDays[day] && r.week === week)`. */
  function FindReservation(rs: seq<Schema.ResKey>, letter: string, week: int): (r: Option<nat>)
    ensures r.Some? ==> r.value < |rs| && OnDay(rs[r.value], letter, week)
    ensures r.Some? ==> forall j :: 0 <= j < r.value ==> !OnDay(rs[j], letter, week)
    ensures r.None? ==> forall j :: 0 <= j < |rs| ==> !OnDay(rs[j], letter, week)
  {
    if |rs| == 0 then None
    else if OnDay(rs[0], letter, week) then Some(0)
    else match FindReservation(rs[1..], letter, week)
      case None => None
      case Some(i) => Some(i + 1)
  }

  /** `isReserved(day, week)`: the desk has a reservation on that day of that week. An
      unmapped letter looks for the day `undefined`, which no stored (non-null) day equals. */
  function IsReserved(rs: seq<Schema.ResKey>, letter: string, week: int): (r: bool)
    ensures r <==> (letter in LettersToDays &&
      exists j :: 0 <= j < |rs| && rs[j].day == LettersToDays[letter] && rs[j].week == week)
  {
    var found := FindReservation(rs, letter, week);
    assert found.None? ==> forall j :: 0 <= j < |rs| ==> !OnDay(rs[j], letter, week);
    found.Some?
  }

  /** Every day a letter stands for is a weekday the date resolver accepts. */
  lemma LetterDaysResolve(c: Dates.Clock, letter: string, week: int)
    requires letter in LettersToDays
    ensures Dates.DateByWeekAndDay(c, LettersToDays[letter], week).Success?
  {
    var i: nat :=
      if letter == "M" then 1 else if letter == "T" then 2 else if letter == "W" then 3
      else if letter == "Th" then 4 else 5;
    assert LettersToDays[letter] == Dates.DayNames[i];
    Dates.ResolveCanonicalName(c, i, week);
  }

  /** A reservation on another day or in another week does not change the answer. */
  lemma {:induction false} OtherReservationsIrrelevant(
    rs1: seq<Schema.ResKey>, x: Schema.ResKey, rs2: seq<Schema.ResKey>, letter: string, week: int)
    requires !OnDay(x, letter, week)
    ensures IsReserved(rs1 + [x] + rs2, letter, week) == IsReserved(rs1 + rs2, letter, week)
  {
    var with, without := rs1 + [x] + rs2, rs1 + rs2;
    if IsReserved(with, letter, week) {
      var j :| 0 <= j < |with| && OnDay(with[j], letter, week);
      if j < |rs1| {
        assert without[j] == with[j];
      } else {
        assert j > |rs1|;
        assert without[j - 1] == with[j];
      }
    }
    if IsReserved(without, letter, week) {
      var j :| 0 <= j < |without| && OnDay(without[j], letter, week);
      if j < |rs1| {
        assert with[j] == without[j];
      } else {
        assert with[j + 1] == without[j];
      }
    }
  }

  /** The two rows of coloured squares: this week's and next week's M, T, W, Th, F. */
  datatype Availability = Availability(thisWeek: seq<bool>, nextWeek: seq<bool>)

  /** The strip for the week `getWeek(today)` and the one after it; a square is red
      exactly when a reservation exists for that day and week. */
  function AvailabilityOf(rs: seq<Schema.ResKey>, c: Dates.Clock): (a: Availability)
    ensures |a.thisWeek| == |DayLetters| && |a.nextWeek| == |DayLetters|
    ensures forall i :: 0 <= i < |DayLetters| ==>
      (a.thisWeek[i] <==> exists j :: 0 <= j < |rs| && OnDay(rs[j], DayLetters[i], Dates.WeekOf(c)))
    ensures forall i :: 0 <= i < |DayLetters| ==>
      (a.nextWeek[i] <==> exists j :: 0 <= j < |rs| && OnDay(rs[j], DayLetters[i], Dates.WeekOf(c) + 1))
  {
    var week := Dates.WeekOf(c);
    Availability(
      seq(|DayLetters|, i requires 0 <= i < |DayLetters| => IsReserved(rs, DayLetters[i], week)),
      seq(|DayLetters|, i requires 0 <= i < |DayLetters| => IsReserved(rs, DayLetters[i], week + 1)))
  }
}

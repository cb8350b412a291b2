/** The cleanup job (`cron.reservations-cleanup` action): deletes reservations whose
    date lies before today. */
module ReservationsCleanup {
  import opened Wrappers
  import opened Schema
  import opened Http
  import Text
  import CivilFormat
  import Dates

  /** The request method (`verb`) and its `Authorization` header. */
  datatype Request = Request(verb: string, authorization: Option<string>)

  datatype Outcome = Outcome(response: Response, db: Db)

  /** `Bearer ${process.env.CRON_PASSWORD}`: an unset secret is rendered as "undefined". */
  function ExpectedAuthorization(secret: Option<string>): string {
    "Bearer " + (if secret.Some? then secret.value else "undefined")
  }

  /** The reservations for which `expired` does not hold, unchanged. */
  function Purge(res: map<ResKey, Booking>, expired: Booking -> bool): (r: map<ResKey, Booking>)
    ensures forall k :: k in r <==> k in res && !expired(res[k])
    ensures forall k :: k in r ==> r[k] == res[k]
  {
    map k | k in res && !expired(res[k]) :: res[k]
  }

  /** The handler's shape: 405 for any method but DELETE (before the password is looked
      at), 401 for a wrong header, otherwise delete the expired reservations. */
  function Handle(req: Request, secret: Option<string>, db: Db, expired: Booking -> bool): (out: Outcome)
    ensures req.verb != "DELETE" ==> out.response.status == 405 && out.db == db
    ensures req.verb == "DELETE" && req.authorization != Some(ExpectedAuthorization(secret)) ==>
      out.response.status == 401 && out.db == db
    ensures req.verb == "DELETE" && req.authorization == Some(ExpectedAuthorization(secret)) ==>
      && out.response == Response(200, "Subscriptions cleaned up")
      && out.db == db.(reservations := Purge(db.reservations, expired))
  {
    if req.verb != "DELETE" then
      Outcome(Response(405, "Method Not Allowed"), db)
    else if req.authorization != Some(ExpectedAuthorization(secret)) then
      Outcome(Response(401, "Unauthorized"), db)
    else
      Outcome(Response(200, "Subscriptions cleaned up"), db.(reservations := Purge(db.reservations, expired)))
  }

  /** `lt(reservations.date, today)`: TEXT compared character by character; a NULL date
      compares to nothing and is kept. */
  predicate DatedBefore(b: Booking, today: string) {
    b.date.Some? && Text.LexLess(b.date.value, today)
  }

  /** The action as written: today is `format(now, "dd.MM.yyyy")`. */
  function Run(req: Request, secret: Option<string>, c: Dates.Clock, fmt: Dates.Day -> string, db: Db): (out: Outcome)
    ensures out.response.status == 200 ==>
      && out.db.users == db.users && out.db.desks == db.desks && out.db.metrics == db.metrics
      && (forall k :: k in out.db.reservations <==>
            k in db.reservations && !DatedBefore(db.reservations[k], fmt(c.today)))
      && (forall k :: k in out.db.reservations ==> out.db.reservations[k] == db.reservations[k])
    ensures out.response.status != 200 ==> out.db == db
  {
    var today := fmt(c.today);
    Handle(req, secret, db, b => DatedBefore(b, today))
  }

  /** Cleaning up twice on the same day leaves what cleaning up once left. */
  lemma RunIdempotent(req: Request, secret: Option<string>, c: Dates.Clock, fmt: Dates.Day -> string, db: Db)
    ensures var once := Run(req, secret, c, fmt, db).db;
      Run(req, secret, c, fmt, once).db == once
  {
    var once := Run(req, secret, c, fmt, db).db;
    var twice := Run(req, secret, c, fmt, once).db;
    assert twice.reservations.Keys == once.reservations.Keys;
  }

  /** The comparison is not chronological. With today 10.12.2026, a reservation dated
      15.11.2026 (in the past) is kept and one dated 02.01.2027 (in the future) is deleted. */
  lemma TextOrderIsNotChronological(
    req: Request, secret: Option<string>, c: Dates.Clock, fmt: Dates.Day -> string, db: Db,
    past: ResKey, future: ResKey)
    requires Run(req, secret, c, fmt, db).response.status == 200
    requires fmt(c.today) == CivilFormat.Format(CivilFormat.CivilDate(2026, 12, 10))
    requires past in db.reservations
    requires db.reservations[past].date == Some(CivilFormat.Format(CivilFormat.CivilDate(2026, 11, 15)))
    requires future in db.reservations
    requires db.reservations[future].date == Some(CivilFormat.Format(CivilFormat.CivilDate(2027, 1, 2)))
    ensures CivilFormat.Before(CivilFormat.CivilDate(2026, 11, 15), CivilFormat.CivilDate(2026, 12, 10))
    ensures past in Run(req, secret, c, fmt, db).db.reservations
    ensures CivilFormat.Before(CivilFormat.CivilDate(2026, 12, 10), CivilFormat.CivilDate(2027, 1, 2))
    ensures future !in Run(req, secret, c, fmt, db).db.reservations
  {
    var today := CivilFormat.Format(CivilFormat.CivilDate(2026, 12, 10));
    var p := CivilFormat.Format(CivilFormat.CivilDate(2026, 11, 15));
    var f := CivilFormat.Format(CivilFormat.CivilDate(2027, 1, 2));
    assert today == "10.12.2026";
    assert p == "15.11.2026";
    assert f == "02.01.2027";
    assert !Text.LexLess(p, today) by {
      assert p[0] == today[0] && p[1] > today[1];
    }
    assert Text.LexLess(f, today) by {
      assert f[0] < today[0];
    }
  }

  /** Removing expired reservations keeps the table constraints. */
  lemma RunKeepsValid(req: Request, secret: Option<string>, c: Dates.Clock, fmt: Dates.Day -> string, db: Db)
    requires Valid(db)
    ensures Valid(Run(req, secret, c, fmt, db).db)
  {
  }

  /** Corrected comparison: the "dd.MM.yyyy" texts are compared as "yyyyMMdd". */
  predicate DatedBeforeChronologically(b: Booking, today: string) {
    b.date.Some? && Text.LexLess(CivilFormat.SortKey(b.date.value), CivilFormat.SortKey(today))
  }

  /** The action with the corrected comparison. */
  function RunChronological(req: Request, secret: Option<string>, c: Dates.Clock, fmt: Dates.Day -> string, db: Db): (out: Outcome)
    ensures out.response.status == 200 ==>
      && out.db.users == db.users && out.db.desks == db.desks && out.db.metrics == db.metrics
      && (forall k :: k in out.db.reservations <==>
            k in db.reservations && !DatedBeforeChronologically(db.reservations[k], fmt(c.today)))
      && (forall k :: k in out.db.reservations ==> out.db.reservations[k] == db.reservations[k])
    ensures out.response.status != 200 ==> out.db == db
  {
    var today := fmt(c.today);
    Handle(req, secret, db, b => DatedBeforeChronologically(b, today))
  }

  /** With the corrected comparison a formatted reservation date is removed exactly when
      it lies before today. */
  lemma ChronologicalRunRemovesExactlyPastDates(
    req: Request, secret: Option<string>, c: Dates.Clock, fmt: Dates.Day -> string, db: Db,
    today: CivilFormat.CivilDate, k: ResKey, date: CivilFormat.CivilDate)
    requires RunChronological(req, secret, c, fmt, db).response.status == 200
    requires CivilFormat.ValidCivil(today) && fmt(c.today) == CivilFormat.Format(today)
    requires CivilFormat.ValidCivil(date)
    requires k in db.reservations && db.reservations[k].date == Some(CivilFormat.Format(date))
    ensures k !in RunChronological(req, secret, c, fmt, db).db.reservations <==> CivilFormat.Before(date, today)
  {
    CivilFormat.SortKeyIsChronological(date, today);
  }

  /** The corrected cleanup is idempotent as well. */
  lemma RunChronologicalIdempotent(req: Request, secret: Option<string>, c: Dates.Clock, fmt: Dates.Day -> string, db: Db)
    ensures var once := RunChronological(req, secret, c, fmt, db).db;
      RunChronological(req, secret, c, fmt, once).db == once
  {
    var once := RunChronological(req, secret, c, fmt, db).db;
    var twice := RunChronological(req, secret, c, fmt, once).db;
    assert twice.reservations.Keys == once.reservations.Keys;
  }

  /** The corrected cleanup keeps the table constraints as well. */
  lemma RunChronologicalKeepsValid(req: Request, secret: Option<string>, c: Dates.Clock, fmt: Dates.Day -> string, db: Db)
    requires Valid(db)
    ensures Valid(RunChronological(req, secret, c, fmt, db).db)
  {
  }
}

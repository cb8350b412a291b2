/** The daily metrics job (`cron.log-metrics` loader): once per day it records how many
    reservations are dated today and how many of those are guest bookings. */
module LogMetrics {
  import opened Wrappers
  import opened Schema
  import opened Http
  import Dates

  /** The query string: `cronPassword`. */
  datatype Request = Request(cronPassword: Option<string>)

  datatype Outcome = Outcome(response: Response, db: Db)

  /** `searchParams.get("cronPassword") !== process.env.CRON_PASSWORD` rejects. An absent
      parameter (null) never equals the secret, set or unset (undefined); an empty password
      is accepted when the secret is empty. */
  predicate Authorized(password: Option<string>, secret: Option<string>) {
    password.Some? && secret == password
  }

  /** The reservations whose `date` equals today's text. */
  function TodaysKeys(db: Db, today: string): set<ResKey> {
    set k | k in db.reservations && db.reservations[k].date == Some(today)
  }

  /** The inner join with `desks` on the desk id, filtered by `reservations.user_id <> desks.user_id`:
      the desk exists and has an occupant other than the booker (a NULL occupant never compares unequal). */
  predicate IsGuestBooking(db: Db, k: ResKey)
    requires k in db.reservations
  {
    match FindDesk(db.desks, k.deskId)
    case None => false
    case Some(d) => d.userId.Some? && d.userId.value != db.reservations[k].userId
  }

  function GuestKeys(db: Db, today: string): (g: set<ResKey>)
    ensures g <= TodaysKeys(db, today)
  {
    set k | k in TodaysKeys(db, today) && IsGuestBooking(db, k)
  }

  /** The number of metrics rows recorded for `day`. */
  function CountFor(metrics: seq<MetricRow>, day: string): nat {
    if |metrics| == 0 then 0
    else CountFor(metrics[..|metrics| - 1], day) + (if metrics[|metrics| - 1].metricDate == day then 1 else 0)
  }

  /** The loader. `secret` is `process.env.CRON_PASSWORD`, `fmt` is `format(_, "dd.MM.yyyy")`. */
  function Run(req: Request, secret: Option<string>, c: Dates.Clock, fmt: Dates.Day -> string, db: Db): (out: Outcome)
    ensures !Authorized(req.cronPassword, secret) ==> out.response.status == 401 && out.db == db
    ensures Authorized(req.cronPassword, secret) && CountFor(db.metrics, fmt(c.today)) > 0 ==>
      out.response.status == 406 && out.db == db
    ensures out.response.status == 200 <==>
      Authorized(req.cronPassword, secret) && CountFor(db.metrics, fmt(c.today)) == 0
    // Exactly one row is appended, for today, counting today's reservations and the guest ones among them.
    ensures out.response.status == 200 ==>
      && out.db.users == db.users && out.db.desks == db.desks && out.db.reservations == db.reservations
      && |out.db.metrics| == |db.metrics| + 1
      && out.db.metrics[..|db.metrics|] == db.metrics
      && var row := out.db.metrics[|db.metrics|];
         && row.metricDate == fmt(c.today)
         && row.totalBookings == |TodaysKeys(db, fmt(c.today))|
         && row.totalGuestBookings == Some(|GuestKeys(db, fmt(c.today))|)
  {
    var today := fmt(c.today);
    if !Authorized(req.cronPassword, secret) then
      Outcome(Response(401, "Unauthorized"), db)
    else if CountFor(db.metrics, today) != 0 then
      Outcome(Response(406, "Metrics for " + today + " already exists"), db)
    else
      var row := MetricRow(today, |TodaysKeys(db, today)|, Some(|GuestKeys(db, today)|));
      Outcome(Response(200, "Metrics for " + today + " have been successfully created"),
              db.(metrics := db.metrics + [row]))
  }

  lemma SubsetCardinality<T>(a: set<T>, b: set<T>)
    requires a <= b
    ensures |a| <= |b|
  {
    assert b == a + (b - a);
  }

  /** A recorded day never counts more guest bookings than bookings. */
  lemma GuestsAtMostTotal(req: Request, secret: Option<string>, c: Dates.Clock, fmt: Dates.Day -> string, db: Db)
    requires Run(req, secret, c, fmt, db).response.status == 200
    ensures var row := Run(req, secret, c, fmt, db).db.metrics[|db.metrics|];
      row.totalGuestBookings.Some? && row.totalGuestBookings.value <= row.totalBookings
  {
    SubsetCardinality(GuestKeys(db, fmt(c.today)), TodaysKeys(db, fmt(c.today)));
  }

  lemma {:induction false} CountForAppend(metrics: seq<MetricRow>, row: MetricRow, day: string)
    ensures CountFor(metrics + [row], day) == CountFor(metrics, day) + (if row.metricDate == day then 1 else 0)
  {
    assert (metrics + [row])[..|metrics|] == metrics;
  }

  /** Running the job a second time the same day changes nothing, so a day that had no
      row gets exactly one. */
  lemma {:induction false} SecondRunSameDayChangesNothing(
    req: Request, secret: Option<string>, c: Dates.Clock, fmt: Dates.Day -> string, db: Db)
    requires CountFor(db.metrics, fmt(c.today)) <= 1
    ensures var once := Run(req, secret, c, fmt, db).db;
      && Run(req, secret, c, fmt, once).db == once
      && CountFor(once.metrics, fmt(c.today)) <= 1
  {
    var out := Run(req, secret, c, fmt, db);
    if out.response.status == 200 {
      CountForAppend(db.metrics, out.db.metrics[|db.metrics|], fmt(c.today));
      assert out.db.metrics == db.metrics + [out.db.metrics[|db.metrics|]];
    }
  }

  /** Appending a metrics row keeps the table constraints. */
  lemma RunKeepsValid(req: Request, secret: Option<string>, c: Dates.Clock, fmt: Dates.Day -> string, db: Db)
    requires Valid(db)
    ensures Valid(Run(req, secret, c, fmt, db).db)
  {
  }
}

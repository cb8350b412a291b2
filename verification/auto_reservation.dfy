/** The automatic-reservation callback the external scheduler calls once a week
    (`cron.automatic-reservation` loader): it books the user's own desk for the
    requested days of the current week. */
module AutoReservation {
  import opened Wrappers
  import opened Schema
  import opened Http
  import Dates
  import JsNumber

  /** The query string: `cronPassword`, every `day`, `deskId` and `userId`. */
  datatype Request = Request(
    cronPassword: Option<string>,
    days: seq<string>,
    deskId: Option<string>,
    userId: Option<string>)

  /** The response, the store afterwards, and the scheduler job whose deletion was requested. */
  datatype Outcome = Outcome(response: Response, db: Db, deletedCron: Option<string>)

  /** `!cronPassword || cronPassword !== process.env.CRON_PASSWORD` rejects; the empty
      password is rejected even when the secret is empty. */
  predicate Authorized(password: Option<string>, secret: Option<string>) {
    password.Some? && password.value != "" && secret == Some(password.value)
  }

  /** The schema check: `deskId` must convert to a number (NaN fails) and `userId` be present;
      `days` always is a list of strings. */
  predicate InputValid(req: Request) {
    !JsNumber.FromParam(req.deskId).NaN? && req.userId.Some?
  }

  /** The user exists and the desk found through their `desk` relation has the requested id. */
  predicate OwnsDesk(db: Db, uid: string, deskId: JsNumber.Number) {
    && uid in db.users
    && DeskOfUser(db.desks, uid).Some?
    && deskId == JsNumber.Integer(DeskOfUser(db.desks, uid).value.id)
  }

  /** A row to insert. */
  datatype Row = Row(key: ResKey, booking: Booking)

  /** The row for `day`: the current week, the desk, the user, and the resolved date in
      text and numeric form. */
  predicate IsRowFor(
    row: Row, c: Dates.Clock, fmt: Dates.Day -> string,
    day: string, week: int, deskId: int, uid: string)
  {
    && row.key == ResKey(deskId, day, week)
    && row.booking.userId == uid
    && IsDatedFor(row.booking, c, fmt, day, week)
  }

  /** The booking carries the resolved date of `day` in `week`, as text and as a number. */
  predicate IsDatedFor(b: Booking, c: Dates.Clock, fmt: Dates.Day -> string, day: string, week: int) {
    var date := Dates.DateByWeekAndDay(c, day, week);
    && date.Success?
    && b.date == Some(fmt(date.value))
    && b.dateTimestamp == Some(date.value)
  }

  /** Every requested day name is one the resolver accepts. */
  predicate AllResolve(c: Dates.Clock, days: seq<string>, week: int) {
    forall i :: 0 <= i < |days| ==> Dates.DateByWeekAndDay(c, days[i], week).Success?
  }

  /** The results of `resolve` on `days`, in order; the first failure ends the mapping
      with its error, as a throwing callback ends `Array.prototype.map`. */
  function MapOrFail<T>(resolve: string -> Result<T>, days: seq<string>): (r: Result<seq<T>>)
    ensures r.Success? <==> forall i :: 0 <= i < |days| ==> resolve(days[i]).Success?
    ensures r.Failure? ==> exists i :: 0 <= i < |days| && resolve(days[i]) == Failure(r.error)
    ensures r.Success? ==> |r.value| == |days|
    ensures r.Success? ==> forall i :: 0 <= i < |days| ==> resolve(days[i]) == Success(r.value[i])
  {
    if |days| == 0 then Success([])
    else
      var first := resolve(days[0]);
      var rest := MapOrFail(resolve, days[1..]);
      assert forall j :: 0 <= j < |days[1..]| ==> days[1..][j] == days[j + 1];
      if first.Failure? then Failure(first.error)
      else if rest.Failure? then Failure(rest.error)
      else Success([first.value] + rest.value)
  }

  /** `days.map(...)`: one row per requested day, in request order, or the resolver's
      error for the first day it rejects. */
  function BuildRows(
    c: Dates.Clock, fmt: Dates.Day -> string,
    days: seq<string>, week: int, deskId: int, uid: string): (r: Result<seq<Row>>)
    ensures r.Success? <==> AllResolve(c, days, week)
    ensures r.Failure? ==> r.error == "Invalid day name"
    ensures r.Success? ==> |r.value| == |days|
    ensures r.Success? ==>
      forall i :: 0 <= i < |days| ==> IsRowFor(r.value[i], c, fmt, days[i], week, deskId, uid)
  {
    match MapOrFail(day => Dates.DateByWeekAndDay(c, day, week), days)
    case Failure(e) => Failure(e)
    case Success(dates) =>
      Success(seq(|days|, i requires 0 <= i < |days| =>
        Row(ResKey(deskId, days[i], week), Booking(uid, Some(fmt(dates[i])), Some(dates[i])))))
  }

  function KeysOf(rows: seq<Row>): set<ResKey> {
    set i | 0 <= i < |rows| :: rows[i].key
  }

  /** `rows[i]` is the first row carrying its key. */
  predicate FirstWithKey(rows: seq<Row>, i: int)
    requires 0 <= i < |rows|
  {
    forall j :: 0 <= j < i ==> rows[j].key != rows[i].key
  }

  /** `insert(...).values(rows).onConflictDoNothing()`: rows are inserted in order and a row
      whose key is already taken (by an older row or an earlier one of the same batch) is
      skipped. */
  function InsertIfAbsent(m: map<ResKey, Booking>, rows: seq<Row>): (r: map<ResKey, Booking>)
    ensures r.Keys == m.Keys + KeysOf(rows)
    ensures forall k :: k in m ==> r[k] == m[k]
    ensures forall i :: 0 <= i < |rows| && rows[i].key !in m && FirstWithKey(rows, i) ==>
      r[rows[i].key] == rows[i].booking
    decreases |rows|
  {
    if |rows| == 0 then m
    else
      var m' := if rows[0].key in m then m else m[rows[0].key := rows[0].booking];
      assert KeysOf(rows) == {rows[0].key} + KeysOf(rows[1..]) by {
        forall k | k in KeysOf(rows) ensures k in {rows[0].key} + KeysOf(rows[1..]) {
          var i :| 0 <= i < |rows| && rows[i].key == k;
          if i > 0 {
            assert rows[1..][i - 1].key == k;
          }
        }
      }
      var r := InsertIfAbsent(m', rows[1..]);
      assert forall i :: 1 <= i < |rows| && FirstWithKey(rows, i) ==> FirstWithKey(rows[1..], i - 1);
      r
  }

  /** Clearing the user's scheduler reference (`autoReservationsCronId = null`). */
  function ClearCronId(db: Db, uid: string): (r: Db)
    ensures r.desks == db.desks && r.reservations == db.reservations && r.metrics == db.metrics
    ensures r.users.Keys == db.users.Keys
    ensures uid in db.users ==> r.users[uid] == db.users[uid].(autoReservationsCronId := None)
    ensures forall id :: id in db.users && id != uid ==> r.users[id] == db.users[id]
  {
    if uid in db.users then
      db.(users := db.users[uid := db.users[uid].(autoReservationsCronId := None)])
    else db
  }

  const SuccessText := "Automatic reservation interval has executed successfully!"

  /** The error the query builder throws when `values` is given an empty list. */
  const EmptyInsertText := "values() must be called with at least one value"

  /** The loader. `secret` is `process.env.CRON_PASSWORD`, `fmt` is `format(_, "dd.MM.yyyy")`. */
  function Run(req: Request, secret: Option<string>, c: Dates.Clock, fmt: Dates.Day -> string, db: Db): (out: Outcome)
    // Wrong or missing password: 401, nothing changes.
    ensures !Authorized(req.cronPassword, secret) ==>
      out.response == Response(401, "Unauthorized") && out.db == db && out.deletedCron == None
    // Malformed input: 400, nothing changes.
    ensures Authorized(req.cronPassword, secret) && !InputValid(req) ==>
      out.response.status == 400 && out.db == db && out.deletedCron == None
    // Not the user's desk: 401, the user's job is dropped and forgotten, no reservation is made.
    ensures (Authorized(req.cronPassword, secret) && InputValid(req)
             && !OwnsDesk(db, req.userId.value, JsNumber.FromParam(req.deskId))) ==>
      && out.response.status == 401
      && out.db == ClearCronId(db, req.userId.value)
      && out.deletedCron == Some(
           if req.userId.value in db.users && db.users[req.userId.value].autoReservationsCronId.Some?
           then db.users[req.userId.value].autoReservationsCronId.value else "")
    // A day name the resolver rejects, or no day at all (an empty insert): the error
    // escapes and nothing is inserted.
    ensures out.response.status == 500 ==> out.db == db
    ensures (Authorized(req.cronPassword, secret) && InputValid(req)
             && OwnsDesk(db, req.userId.value, JsNumber.FromParam(req.deskId))) ==>
      && out.response.status in {200, 500}
      && (out.response.status == 200 <==> AllResolve(c, req.days, Dates.WeekOf(c)) && |req.days| > 0)
      && (|req.days| == 0 ==> out.response == Response(500, EmptyInsertText))
    ensures out.response.status == 200 ==>
      Authorized(req.cronPassword, secret) && InputValid(req)
      && OwnsDesk(db, req.userId.value, JsNumber.FromParam(req.deskId))
    ensures out.response.status in {200, 400, 401, 500}
  {
    if !Authorized(req.cronPassword, secret) then
      Outcome(Response(401, "Unauthorized"), db, None)
    else if !InputValid(req) then
      Outcome(Response(400, "Invalid input"), db, None)
    else
      var uid := req.userId.value;
      var deskId := JsNumber.FromParam(req.deskId);
      if !OwnsDesk(db, uid, deskId) then
        var cronId :=
          if uid in db.users && db.users[uid].autoReservationsCronId.Some?
          then db.users[uid].autoReservationsCronId.value else "";
        Outcome(Response(401, "Desk does not match user's desk"), ClearCronId(db, uid), Some(cronId))
      else
        match BuildRows(c, fmt, req.days, Dates.WeekOf(c), deskId.n, uid)
        case Failure(e) => Outcome(Response(500, e), db, None)
        case Success(rows) =>
          if |rows| == 0 then Outcome(Response(500, EmptyInsertText), db, None)
          else Outcome(Response(200, SuccessText), db.(reservations := InsertIfAbsent(db.reservations, rows)), None)
  }

  /** With the right password, valid input, the user's own desk and at least one day, all
      of them known, the run succeeds. It leaves users, desks, metrics and every existing
      reservation as they were, and afterwards every requested day of the current week is
      booked on the requested desk. Each added reservation is for a requested day, booked by
      the requesting user, and carries that day's resolved date. */
  lemma SuccessOnlyAddsOwnRows(
    req: Request, secret: Option<string>, c: Dates.Clock, fmt: Dates.Day -> string, db: Db)
    requires Authorized(req.cronPassword, secret) && InputValid(req)
    requires OwnsDesk(db, req.userId.value, JsNumber.FromParam(req.deskId))
    requires AllResolve(c, req.days, Dates.WeekOf(c)) && |req.days| > 0
    ensures Run(req, secret, c, fmt, db).response.status == 200
    ensures var out := Run(req, secret, c, fmt, db).db;
      && out.users == db.users && out.desks == db.desks && out.metrics == db.metrics
      && (forall k :: k in db.reservations ==> k in out.reservations && out.reservations[k] == db.reservations[k])
      && (forall i :: 0 <= i < |req.days| ==>
            ResKey(JsNumber.FromParam(req.deskId).n, req.days[i], Dates.WeekOf(c)) in out.reservations)
      && (forall k :: k in out.reservations && k !in db.reservations ==>
            && JsNumber.FromParam(req.deskId) == JsNumber.Integer(k.deskId)
            && k.week == Dates.WeekOf(c)
            && k.day in req.days
            && out.reservations[k].userId == req.userId.value
            && IsDatedFor(out.reservations[k], c, fmt, k.day, k.week))
  {
    var uid := req.userId.value;
    var deskId := JsNumber.FromParam(req.deskId);
    var week := Dates.WeekOf(c);
    var rows := SuccessfulRun(req, secret, c, fmt, db);
    AddedRowsAreOwn(db.reservations, rows, c, fmt, req.days, week, deskId.n, uid);
    RowsCoverDays(db.reservations, rows, req.days, week, deskId.n);
  }

  /** The run that passes every check inserts the rows built for the requested days. */
  lemma SuccessfulRun(
    req: Request, secret: Option<string>, c: Dates.Clock, fmt: Dates.Day -> string, db: Db)
    returns (rows: seq<Row>)
    requires Authorized(req.cronPassword, secret) && InputValid(req)
    requires OwnsDesk(db, req.userId.value, JsNumber.FromParam(req.deskId))
    requires AllResolve(c, req.days, Dates.WeekOf(c)) && |req.days| > 0
    ensures BuildRows(c, fmt, req.days, Dates.WeekOf(c), JsNumber.FromParam(req.deskId).n, req.userId.value)
         == Success(rows)
    ensures Run(req, secret, c, fmt, db)
         == Outcome(Response(200, SuccessText), db.(reservations := InsertIfAbsent(db.reservations, rows)), None)
  {
    rows := BuildRows(c, fmt, req.days, Dates.WeekOf(c), JsNumber.FromParam(req.deskId).n, req.userId.value).value;
  }

  /** Inserting rows built for `days` adds only keys of those days, that week and that
      desk, each booked by `uid` and dated with the day's resolved date. */
  lemma AddedRowsAreOwn(
    m: map<ResKey, Booking>, rows: seq<Row>, c: Dates.Clock, fmt: Dates.Day -> string,
    days: seq<string>, week: int, deskId: int, uid: string)
    requires |rows| == |days|
    requires forall i :: 0 <= i < |days| ==> IsRowFor(rows[i], c, fmt, days[i], week, deskId, uid)
    ensures var out := InsertIfAbsent(m, rows);
      forall k :: k in out && k !in m ==>
        && k.deskId == deskId && k.week == week && k.day in days && out[k].userId == uid
        && IsDatedFor(out[k], c, fmt, k.day, week)
  {
    var out := InsertIfAbsent(m, rows);
    forall k | k in out && k !in m
      ensures k.deskId == deskId && k.week == week && k.day in days && out[k].userId == uid
      ensures IsDatedFor(out[k], c, fmt, k.day, week)
    {
      var i :| 0 <= i < |rows| && rows[i].key == k;
      var first := FirstIndexOf(rows, k, i);
      assert IsRowFor(rows[first], c, fmt, days[first], week, deskId, uid);
    }
  }

  /** After the insert every row's key is present, whether it was new or already taken. */
  lemma RowsCoverDays(m: map<ResKey, Booking>, rows: seq<Row>, days: seq<string>, week: int, deskId: int)
    requires |rows| == |days|
    requires forall i :: 0 <= i < |days| ==> rows[i].key == ResKey(deskId, days[i], week)
    ensures forall i :: 0 <= i < |days| ==> ResKey(deskId, days[i], week) in InsertIfAbsent(m, rows)
  {
    forall i | 0 <= i < |days|
      ensures ResKey(deskId, days[i], week) in InsertIfAbsent(m, rows)
    {
      assert rows[i].key in KeysOf(rows);
    }
  }

  /** Every run keeps the table constraints: new reservations point at the user's own,
      existing desk and at an existing user. */
  lemma RunKeepsValid(
    req: Request, secret: Option<string>, c: Dates.Clock, fmt: Dates.Day -> string, db: Db)
    requires Valid(db)
    ensures Valid(Run(req, secret, c, fmt, db).db)
  {
    var out := Run(req, secret, c, fmt, db);
    if out.response.status == 200 {
      SuccessOnlyAddsOwnRows(req, secret, c, fmt, db);
      var desk := DeskOfUser(db.desks, req.userId.value).value;
      forall k | k in out.db.reservations
        ensures k.deskId in DeskIds(out.db.desks) && out.db.reservations[k].userId in out.db.users
      {
        if k !in db.reservations {
          assert k.deskId == desk.id;
        }
      }
    }
  }

  /** The first position at or before `i` whose row carries key `k`. */
  lemma FirstIndexOf(rows: seq<Row>, k: ResKey, i: nat) returns (first: nat)
    requires i < |rows| && rows[i].key == k
    ensures first <= i && rows[first].key == k && FirstWithKey(rows, first)
    decreases i
  {
    if FirstWithKey(rows, i) {
      first := i;
    } else {
      var j :| 0 <= j < i && rows[j].key == rows[i].key;
      first := FirstIndexOf(rows, k, j);
    }
  }
}

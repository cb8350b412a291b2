/** Cancelling a reservation from the reservations page (`reservations` action). */
module ReservationsAction {
  import opened Wrappers
  import opened Schema
  import opened Http
  import JsNumber

  /** The request: its method (`verb`), the caller's id and role from the auth cookie, and
      the form fields `reservation-date`, `reservation-user-id`, `reservation-day` and
      `desk-id`. The action as written reads only the role from the cookie. */
  datatype Request = Request(
    verb: string,
    callerId: string,
    role: Option<Role>,
    date: Option<string>,
    userId: Option<string>,
    day: Option<string>,
    deskId: Option<string>)

  datatype Outcome = Outcome(response: Response, db: Db)

  /** The missing-field check sees the texts after `String(...)`, so only a field sent
      empty trips it; an absent one reads as "null". */
  predicate MissingField(req: Request) {
    || FormText(req.date) == ""
    || FormText(req.userId) == ""
    || FormText(req.day) == ""
    || FormText(req.deskId) == ""
  }

  /** `Number(deskId)` is NaN, as it is for an absent field ("null") or any non-numeric text. */
  predicate DeskIdIsNaN(req: Request) {
    JsNumber.FromText(FormText(req.deskId)) == JsNumber.NaN
  }

  /** A DELETE that binds NaN as a query argument: the database client refuses non-finite
      numbers with this error, which escapes the action. */
  predicate RefusedByClient(req: Request) {
    req.verb == "DELETE" && DeskIdIsNaN(req)
  }

  const NonFiniteArgumentText := "Only finite numbers (not Infinity or NaN) can be passed as arguments"

  /** The delete's WHERE clause: same date, day and desk, and, unless the caller is an
      admin, the owner `owner`. A NULL date never matches. */
  predicate Selected(req: Request, owner: string, k: ResKey, b: Booking) {
    && b.date == Some(FormText(req.date))
    && k.day == FormText(req.day)
    && JsNumber.FromText(FormText(req.deskId)) == JsNumber.Integer(k.deskId)
    && (req.role == Some(AdminRole) || b.userId == owner)
  }

  /** The action with the non-admin filter comparing row owners with `owner`. */
  function DeleteFor(req: Request, owner: string, db: Db): (out: Outcome)
    ensures MissingField(req) ==>
      out.response == Response(400, "Reservation information missing") && out.db == db
    ensures !MissingField(req) && RefusedByClient(req) ==>
      out.response == Response(500, NonFiniteArgumentText) && out.db == db
    ensures !MissingField(req) && !RefusedByClient(req) ==>
      out.response == Response(200, "Reservation deleted!")
    ensures req.verb != "DELETE" ==> out.db == db
    ensures out.db.users == db.users && out.db.desks == db.desks && out.db.metrics == db.metrics
    ensures !MissingField(req) && req.verb == "DELETE" && !DeskIdIsNaN(req) ==>
      forall k :: k in out.db.reservations <==>
        k in db.reservations && !Selected(req, owner, k, db.reservations[k])
    ensures forall k :: k in out.db.reservations ==>
      k in db.reservations && out.db.reservations[k] == db.reservations[k]
  {
    if MissingField(req) then
      Outcome(Response(400, "Reservation information missing"), db)
    else if RefusedByClient(req) then
      Outcome(Response(500, NonFiniteArgumentText), db)
    else if req.verb == "DELETE" then
      var kept := map k | k in db.reservations && !Selected(req, owner, k, db.reservations[k]) :: db.reservations[k];
      Outcome(Response(200, "Reservation deleted!"), db.(reservations := kept))
    else
      Outcome(Response(200, "Reservation deleted!"), db)
  }

  /** The action as written: reject incomplete forms, delete the selected rows on DELETE, and
      report success whether or not a row matched; a DELETE whose desk id is NaN fails in the
      database client. A non-admin's rows are selected by the
      submitted `reservation-user-id`, not by the caller's own id. */
  function Action(req: Request, db: Db): (out: Outcome)
    ensures MissingField(req) ==>
      out.response == Response(400, "Reservation information missing") && out.db == db
    ensures !MissingField(req) && RefusedByClient(req) ==>
      out.response == Response(500, NonFiniteArgumentText) && out.db == db
    ensures !MissingField(req) && !RefusedByClient(req) ==>
      out.response == Response(200, "Reservation deleted!")
    ensures req.verb != "DELETE" ==> out.db == db
    ensures out.db.users == db.users && out.db.desks == db.desks && out.db.metrics == db.metrics
    ensures !MissingField(req) && req.verb == "DELETE" && !DeskIdIsNaN(req) ==>
      forall k :: k in out.db.reservations <==>
        k in db.reservations && !Selected(req, FormText(req.userId), k, db.reservations[k])
    ensures forall k :: k in out.db.reservations ==>
      k in db.reservations && out.db.reservations[k] == db.reservations[k]
  {
    DeleteFor(req, FormText(req.userId), db)
  }

  /** Absent fields are never reported as missing. */
  lemma AbsentFieldsAreNotMissing(req: Request)
    requires req.date.None? && req.userId.None? && req.day.None? && req.deskId.None?
    ensures !MissingField(req)
  {
  }

  /** An absent or non-numeric desk id passes the missing-field check, and a DELETE then
      fails with 500 and deletes nothing. */
  lemma NonNumericDeskIdFails(req: Request, db: Db)
    requires req.verb == "DELETE" && !MissingField(req.(deskId := None))
    ensures var out := Action(req.(deskId := None), db);
      out.response.status == 500 && out.db == db
    ensures var out := Action(req.(deskId := Some("abc")), db);
      out.response.status == 500 && out.db == db
  {
    assert JsNumber.FromText("null") == JsNumber.NaN by {
      assert !JsNumber.IsDigit("null"[0]);
    }
    assert JsNumber.FromText("abc") == JsNumber.NaN by {
      assert !JsNumber.IsDigit("abc"[0]);
    }
  }

  /** A caller who is not an admin never removes a reservation whose owner differs from the
      submitted `reservation-user-id`. */
  lemma NonAdminKeepsOthersReservations(req: Request, db: Db, k: ResKey)
    requires req.role != Some(AdminRole)
    requires k in db.reservations && db.reservations[k].userId != FormText(req.userId)
    ensures k in Action(req, db).db.reservations
  {
  }

  /** The same request deletes at least as much for an admin as for anybody else. */
  lemma AdminDeletesAtLeastAsMuch(req: Request, db: Db)
    ensures Action(req.(role := Some(AdminRole)), db).db.reservations.Keys
         <= Action(req, db).db.reservations.Keys
  {
    var admin := req.(role := Some(AdminRole));
    forall k | k in Action(admin, db).db.reservations
      ensures k in Action(req, db).db.reservations
    {
      if !MissingField(req) && req.verb == "DELETE" {
        assert !Selected(admin, FormText(admin.userId), k, db.reservations[k]);
      }
    }
  }

  /** Deleting reservations keeps the table constraints. */
  lemma ActionKeepsValid(req: Request, db: Db)
    requires Valid(db)
    ensures Valid(Action(req, db).db)
  {
  }

  /** The caller's own id plays no part in what the action deletes. */
  lemma CallerIdPlaysNoRole(req: Request, db: Db, other: string)
    ensures Action(req.(callerId := other), db) == Action(req, db)
  {
  }

  /** Hence a non-admin who submits another user's id deletes that user's reservation. */
  lemma NonAdminMayDeleteOthers()
    ensures var db := Db(
        map["g04255" := NewUser("g04255", "Ada", "Lovelace"), "g04256" := NewUser("g04256", "Alan", "Turing")],
        [Desk(1, 1, 1, 1, Some("g04256"))],
        map[ResKey(1, "monday", 40) := Booking("g04256", Some("29.09.2025"), Some(20360))],
        []);
      var req := Request("DELETE", "g04255", Some(UserRole),
        Some("29.09.2025"), Some("g04256"), Some("monday"), Some("1"));
      && Valid(db)
      && db.reservations[ResKey(1, "monday", 40)].userId != req.callerId
      && ResKey(1, "monday", 40) !in Action(req, db).db.reservations
  {
    JsNumber.DecimalTextRoundTrip(1);
    assert JsNumber.DecimalText(1) == "1";
  }

  /** The action as evidently intended: a non-admin's rows are selected by the caller's own
      id, as the page's loader lists them. */
  function ActionCorrected(req: Request, db: Db): (out: Outcome)
    ensures MissingField(req) ==>
      out.response == Response(400, "Reservation information missing") && out.db == db
    ensures !MissingField(req) && RefusedByClient(req) ==>
      out.response == Response(500, NonFiniteArgumentText) && out.db == db
    ensures !MissingField(req) && !RefusedByClient(req) ==>
      out.response == Response(200, "Reservation deleted!")
    ensures req.role != Some(AdminRole) ==>
      forall k :: k in db.reservations && db.reservations[k].userId != req.callerId ==>
        k in out.db.reservations
    ensures !MissingField(req) && req.verb == "DELETE" && !DeskIdIsNaN(req) ==>
      forall k :: k in out.db.reservations <==>
        k in db.reservations && !Selected(req, req.callerId, k, db.reservations[k])
    ensures forall k :: k in out.db.reservations ==>
      k in db.reservations && out.db.reservations[k] == db.reservations[k]
  {
    DeleteFor(req, req.callerId, db)
  }

  /** With the correction a non-admin deletes only their own reservations, whatever id
      the form carries. */
  lemma CorrectedNonAdminDeletesOnlyOwn(req: Request, db: Db, k: ResKey)
    requires req.role != Some(AdminRole)
    requires k in db.reservations && k !in ActionCorrected(req, db).db.reservations
    ensures db.reservations[k].userId == req.callerId
  {
  }

  /** The corrected action keeps the table constraints. */
  lemma CorrectedActionKeepsValid(req: Request, db: Db)
    requires Valid(db)
    ensures Valid(ActionCorrected(req, db).db)
  {
  }
}

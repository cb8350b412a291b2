/** The guest registration route (`login_.guest.tsx`): creates a user account on first
    visit and logs the visitor in. */
module GuestLogin {
  import opened Wrappers
  import opened Http
  import opened Schema
  import Text
  import Login

  /** The loader redirects home whenever the cookie parses to anything at all. */
  predicate LoaderRedirects(cookie: Option<CookieData>) {
    cookie.Some?
  }

  datatype Field = EmployeeNumber | FirstName | LastName

  /** One message per empty form text. */
  function Errors(number: string, firstName: string, lastName: string): (e: map<Field, string>)
    ensures EmployeeNumber in e <==> number == ""
    ensures FirstName in e <==> firstName == ""
    ensures LastName in e <==> lastName == ""
    ensures EmployeeNumber in e ==> e[EmployeeNumber] == "Employee number is required"
    ensures FirstName in e ==> e[FirstName] == "Name is required"
    ensures LastName in e ==> e[LastName] == "Last name is required"
  {
    var e1: map<Field, string> := if number == "" then map[EmployeeNumber := "Employee number is required"] else map[];
    var e2 := if firstName == "" then e1[FirstName := "Name is required"] else e1;
    if lastName == "" then e2[LastName := "Last name is required"] else e2
  }

  datatype Reply =
    | Invalid(status: int, errors: map<Field, string>)
    | Redirect(location: string, setCookie: CookieData)

  datatype Outcome = Outcome(reply: Reply, db: Db)

  /** `insert … onConflictDoNothing()` of the new user; the returned id is `Some` only
      when a row was inserted. */
  function InsertUser(db: Db, id: string, firstName: string, lastName: string): (r: (Db, Option<string>))
    ensures id in db.users ==> r == (db, None)
    ensures id !in db.users ==>
      r == (db.(users := db.users[id := NewUser(id, firstName, lastName)]), Some(id))
  {
    if id in db.users then (db, None)
    else (db.(users := db.users[id := NewUser(id, firstName, lastName)]), Some(id))
  }

  /** The shared part of the action: validation, then the insert. `cookieId` says which
      id goes into the cookie given the id the insert returned. */
  function Register(
    employeeNumber: Option<string>, firstName: Option<string>, lastName: Option<string>, db: Db,
    cookieId: (Option<string>, string) -> string): (out: Outcome)
    ensures var n, f, l := FormText(employeeNumber), FormText(firstName), FormText(lastName);
      && (out.reply.Invalid? <==> n == "" || f == "" || l == "")
      && (out.reply.Invalid? ==> out.reply.status == 400 && out.reply.errors == Errors(n, f, l) && out.db == db)
      && (out.reply.Redirect? ==>
            var id := Text.ToLower(n);
            var ins := InsertUser(db, id, f, l);
            && out.reply.location == "/"
            && out.db == ins.0
            && out.reply.setCookie == CookieData(Some(cookieId(ins.1, n))))
  {
    var n, f, l := FormText(employeeNumber), FormText(firstName), FormText(lastName);
    var errors := Errors(n, f, l);
    if n == "" || f == "" || l == "" then
      assert errors.Keys != {} by {
        if n == "" { assert EmployeeNumber in errors; }
        else if f == "" { assert FirstName in errors; }
        else { assert LastName in errors; }
      }
      Outcome(Invalid(400, errors), db)
    else
      var ins := InsertUser(db, Text.ToLower(n), f, l);
      Outcome(Redirect("/", CookieData(Some(cookieId(ins.1, n)))), ins.0)
  }

  /** `newUser?.[0]?.id || employeeNumber`: the inserted id, else the number as typed. */
  function CookieIdAsWritten(inserted: Option<string>, typed: string): string {
    if inserted.Some? && inserted.value != "" then inserted.value else typed
  }

  /** The action as written. */
  function Action(employeeNumber: Option<string>, firstName: Option<string>, lastName: Option<string>, db: Db): (out: Outcome)
    ensures var n := FormText(employeeNumber);
      out.reply.Redirect? ==>
        && Text.ToLower(n) in out.db.users
        && (Text.ToLower(n) !in db.users ==>
              out.reply.setCookie.userId == Some(Text.ToLower(n))
              && out.db.users[Text.ToLower(n)] == NewUser(Text.ToLower(n), FormText(firstName), FormText(lastName)))
        && (Text.ToLower(n) in db.users ==> out.reply.setCookie.userId == Some(n) && out.db == db)
  {
    Register(employeeNumber, firstName, lastName, db, CookieIdAsWritten)
  }

  /** Registration keeps the store well formed: it only adds a user keyed by its own id. */
  lemma ActionKeepsValid(employeeNumber: Option<string>, firstName: Option<string>, lastName: Option<string>, db: Db)
    requires Valid(db)
    ensures Valid(Action(employeeNumber, firstName, lastName, db).db)
  {
    var out := Action(employeeNumber, firstName, lastName, db);
    assert db.users.Keys <= out.db.users.Keys;
    assert out.db.desks == db.desks && out.db.reservations == db.reservations;
  }

  /** An account that exists already is left as it was: a second registration with other
      names changes nothing in the store. */
  lemma ExistingAccountUnchanged(employeeNumber: Option<string>, firstName: Option<string>, lastName: Option<string>, db: Db)
    requires Text.ToLower(FormText(employeeNumber)) in db.users
    ensures Action(employeeNumber, firstName, lastName, db).db == db
  {
  }

  /** Absent form fields arrive as the text "null", which passes the emptiness checks:
      submitting nothing registers the user "null". */
  lemma AbsentFieldsRegisterNull(db: Db)
    requires "null" !in db.users
    ensures Action(None, None, None, db).reply == Redirect("/", CookieData(Some("null")))
    ensures var users := Action(None, None, None, db).db.users;
      "null" in users && users["null"] == NewUser("null", "null", "null")
  {
    Text.ToLowerOfNoUpper("null");
  }

  /** The cookie may name no account: registering again with a different case of an
      existing id stores the typed number, which is not the stored (lower-case) id. */
  lemma CookieMayNameNoAccount(db: Db)
    requires "g01234" in db.users && "G01234" !in db.users
    ensures var out := Action(Some("G01234"), Some("Ada"), Some("Lovelace"), db);
      out.reply.Redirect? && out.reply.setCookie.userId == Some("G01234")
      && "G01234" !in out.db.users
  {
    assert Text.ToLower("G01234") == "g01234";
  }

  /** Corrected choice of cookie id: always the lower-cased number, the key the account
      is stored under. */
  function CookieIdLowerCased(inserted: Option<string>, typed: string): string {
    Text.ToLower(typed)
  }

  /** The action with the corrected cookie id. */
  function ActionCorrected(employeeNumber: Option<string>, firstName: Option<string>, lastName: Option<string>, db: Db): (out: Outcome)
    ensures out.reply.Redirect? ==>
      out.reply.setCookie.userId.Some? && out.reply.setCookie.userId.value in out.db.users
    ensures Valid(db) && out.reply.Redirect? ==>
      out.db.users[out.reply.setCookie.userId.value].id == out.reply.setCookie.userId.value
    ensures Valid(db) ==> Valid(out.db)
  {
    Register(employeeNumber, firstName, lastName, db, CookieIdLowerCased)
  }

  /** The guest loader redirects whenever the employee loader does, and also on a cookie
      without a user id, which the employee loader lets through. */
  lemma GuestLoaderIsLaxer(cookie: Option<CookieData>)
    ensures Login.LoaderRedirects(cookie) ==> LoaderRedirects(cookie)
    ensures LoaderRedirects(Some(CookieData(None))) && !Login.LoaderRedirects(Some(CookieData(None)))
  {
  }
}

/** The employee login route (`login.tsx`): a fixed list of employee numbers is let in. */
module Login {
  import opened Wrappers
  import opened Http
  import Text

  /** The employee numbers accepted, in lower case. */
  const ValidEmployeeNumbers: seq<string> := ["g04255", "g04256"]

  /** The loader sends a visitor whose cookie holds a (truthy) user id to the home page. */
  predicate LoaderRedirects(cookie: Option<CookieData>) {
    cookie.Some? && cookie.value.userId.Some? && cookie.value.userId.value != ""
  }

  /** The check the action applies to the submitted text. */
  predicate Accepts(employeeNumber: string) {
    Text.ToLower(employeeNumber) in ValidEmployeeNumbers
  }

  datatype Reply =
    | Rejected(response: Response)
    | Redirect(location: string, setCookie: CookieData)

  /** The action: 401 for an unknown number, otherwise a redirect home that stores the
      number, as it was typed, in the cookie. */
  function Action(employeeNumber: Option<string>): (r: Reply)
    ensures r.Redirect? <==> Accepts(FormText(employeeNumber))
    ensures r.Rejected? ==> r.response == Response(401, "Invalid employee number")
    ensures r.Redirect? ==> r.location == "/" && r.setCookie == CookieData(Some(FormText(employeeNumber)))
  {
    var text := FormText(employeeNumber);
    if !Accepts(text) then Rejected(Response(401, "Invalid employee number"))
    else Redirect("/", CookieData(Some(text)))
  }

  /** The comparison ignores case: two spellings that agree after lower-casing are
      either both let in or both turned away. */
  lemma ActionIgnoresCase(a: string, b: string)
    requires Text.ToLower(a) == Text.ToLower(b)
    ensures Action(Some(a)).Redirect? <==> Action(Some(b)).Redirect?
  {
  }

  /** A digit is its own lower case, and no other character lower-cases to a digit. */
  lemma LowerCharDigit(c: char, d: char)
    requires '0' <= d <= '9'
    ensures Text.LowerChar(c) == d <==> c == d
  {
  }

  /** Exactly the six-character texts "g04255" and "g04256", with the `g` in either case,
      are accepted. */
  lemma AcceptedNumbers(s: string)
    ensures Accepts(s) <==>
      |s| == 6 && (s[0] == 'g' || s[0] == 'G') && (s[1..] == "04255" || s[1..] == "04256")
  {
    var t := Text.ToLower(s);
    if |s| == 6 {
      assert t[0] == 'g' <==> (s[0] == 'g' || s[0] == 'G');
      forall w | w in ValidEmployeeNumbers
        ensures t == w <==> (t[0] == 'g' && s[1..] == w[1..])
      {
        assert w[0] == 'g' && |w| == 6;
        forall i | 1 <= i < 6 ensures t[i] == w[i] <==> s[i] == w[i] {
          LowerCharDigit(s[i], w[i]);
        }
        if t == w {
          assert s[1..] == t[1..];
        }
        if t[0] == 'g' && s[1..] == w[1..] {
          assert forall i | 0 <= i < 6 :: t[i] == w[i] by {
            forall i | 1 <= i < 6 ensures t[i] == w[i] {
              assert s[1..][i - 1] == w[1..][i - 1];
            }
          }
        }
      }
      assert ValidEmployeeNumbers[0][1..] == "04255";
      assert ValidEmployeeNumbers[1][1..] == "04256";
    }
  }

  /** A missing form field arrives as the text "null" and is turned away. */
  lemma MissingNumberRejected()
    ensures Action(None) == Rejected(Response(401, "Invalid employee number"))
  {
    AcceptedNumbers("null");
  }

  /** The cookie written by a successful login makes the loader redirect from then on. */
  lemma AcceptedLoginIsRemembered(employeeNumber: Option<string>)
    requires Action(employeeNumber).Redirect?
    ensures LoaderRedirects(Some(Action(employeeNumber).setCookie))
  {
    AcceptedNumbers(FormText(employeeNumber));
  }

  /** The upper-case spelling is let in and is stored as typed. */
  lemma UpperCaseNumberStoredAsTyped()
    ensures Action(Some("G04255")) == Redirect("/", CookieData(Some("G04255")))
  {
    AcceptedNumbers("G04255");
  }
}

/** Request and response shapes shared by the route handlers. */
module Http {
  import opened Wrappers

  /** A response: HTTP status and body text (JSON bodies are reduced to their message). */
  datatype Response = Response(status: int, body: string)

  /** `String(formData.get(name))`: an absent field becomes the text "null". */
  function FormText(v: Option<string>): string {
    match v
    case None => "null"
    case Some(s) => s
  }

  /** The payload of the signed `user` cookie. */
  datatype CookieData = CookieData(userId: Option<string>)
}

/** An HTTP exchange as the service code sees it once `fetch` has settled:
    either the call threw, or a response arrived with a status, two headers
    and a body that is read as text (error path) or parsed as JSON (success path). */
module Http {
  import opened Js
  import Text

  /** What a `catch (error)` receives: an `Error` instance with its message, or any other value. */
  datatype Thrown = ErrorObject(message: string) | NonError

  /** The outcome of `response.json()`: a parsed object, or the message of the `SyntaxError` it throws. */
  datatype Json<T> = Parsed(body: T) | Unparsable(syntaxError: string)

  /** The two headers the code reads; `headers.get` yields `null` (here `None`) when absent. */
  datatype Headers = Headers(contentType: Option<string>, contentDisposition: Option<string>)

  /** A settled request. `text` is the body read as text, `json` the same body read as JSON;
      which of the two is consulted depends on the status. */
  datatype Reply<T> =
    | Threw(thrown: Thrown)
    | Responded(status: nat, headers: Headers, text: string, json: Json<T>)

  /** `response.ok`: the status lies in the 2xx range. */
  predicate Ok(status: nat) {
    200 <= status <= 299
  }

  /** `error instanceof Error ? error.message : fallback`. */
  function Caught(t: Thrown, fallback: string): (m: string)
    ensures t.ErrorObject? ==> m == t.message
    ensures t.NonError? ==> m == fallback
  {
    match t
    case ErrorObject(message) => message
    case NonError => fallback
  }

  /** The message reported for a non-ok response: `HTTP <status>: <body>`, laid out as
      the five characters `HTTP `, the status digits, a colon, a space, then the body. */
  function HttpError(status: nat, body: string): (m: string)
    ensures |m| == 5 + |Text.Decimal(status)| + 2 + |body|
    ensures m[..5] == "HTTP "
    ensures m[5..5 + |Text.Decimal(status)|] == Text.Decimal(status)
    ensures m[5 + |Text.Decimal(status)|] == ':'
    ensures m[5 + |Text.Decimal(status)| + 1] == ' '
    ensures m[5 + |Text.Decimal(status)| + 2..] == body
  {
    "HTTP " + Text.Decimal(status) + ": " + body
  }

  /** The status and the body can both be read back from an HTTP error message:
      distinct failures never produce the same message. */
  lemma HttpErrorInjective(s1: nat, b1: string, s2: nat, b2: string)
    requires HttpError(s1, b1) == HttpError(s2, b2)
    ensures s1 == s2 && b1 == b2
  {
    var d1, d2 := Text.Decimal(s1), Text.Decimal(s2);
    var m := HttpError(s1, b1);
    if |d1| < |d2| {
      assert false;
    } else if |d2| < |d1| {
      assert false;
    } else {
      Text.DecimalInjective(s1, s2);
    }
  }
}

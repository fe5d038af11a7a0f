/** What the three route handlers share: the request body as the handlers
    see it after `request.json()` and destructuring, the responses they
    build, and the presence check each one repeats. */
module Api {
  import opened Wrappers

  /** The three fields read from the body. A field the body does not carry,
      or carries as null, is None. */
  datatype Fields = Fields(caseId: Option<string>, email: Option<string>, content: Option<string>)

  /** The body as the handler receives it: the fields, or the message of the
      error thrown while reading and destructuring it. */
  datatype RequestBody = Parsed(fields: Fields) | Unparsable(reason: string)

  /** A JSON response (message, optional echoed case id, optional error
      text) or a file download. A JSON response without an explicit status
      has status 200. */
  datatype Response =
    | Json(status: int, message: string, caseId: Option<string>, error: Option<string>)
    | File(status: int, contentType: string, contentDisposition: string, data: seq<byte>)

  const MissingFieldsMessage: string := "Missing required fields: caseId, email, and content are required"
  const InvalidEmailMessage: string := "Invalid email format"

  /** JavaScript truthiness of a string field: present and not empty. */
  predicate Truthy(f: Option<string>) {
    f.Some? && f.value != ""
  }

  /** `caseId && email && content`. */
  predicate AllPresent(f: Fields) {
    Truthy(f.caseId) && Truthy(f.email) && Truthy(f.content)
  }

  /** A 400 response carrying only a message. */
  function BadRequest(message: string): (r: Response)
    ensures r.Json? && r.status == 400 && r.message == message && r.caseId.None? && r.error.None?
  {
    Json(400, message, None, None)
  }

  /** A 500 response carrying a message and the error's own text. */
  function ServerError(message: string, error: string): (r: Response)
    ensures r.Json? && r.status == 500 && r.message == message && r.caseId.None? && r.error == Some(error)
  {
    Json(500, message, None, Some(error))
  }
}

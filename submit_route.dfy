/** POST /api/submit: validate a submission and acknowledge it. Storage is
    not part of the handler; the one side effect is a log line, recorded
    here as a list of entries. */
module SubmitRoute {
  import opened Wrappers
  import opened EmailFormat
  import opened Api

  /** The log entry written for an accepted submission. */
  datatype SubmissionLog = SubmissionLog(caseId: string, email: string, contentLength: nat)

  /** The response and the log entries written while producing it. */
  datatype Handled = Handled(response: Response, logged: seq<SubmissionLog>)

  const SuccessMessage: string := "Form submitted successfully"
  const FailureMessage: string := "Failed to submit form"

  /** The fields pass both checks: all present, and an email address of the
      shape local@domain.tld. */
  ghost predicate Acceptable(f: Fields) {
    AllPresent(f) && MatchesPattern(f.email.value)
  }

  /** The handler. The missing-field check comes first, then the email
      pattern; an accepted submission is logged once and answered with its
      case id; an unreadable body is a 500 carrying the error's text. */
  function Post(body: RequestBody): (h: Handled)
    ensures h.response.Json?
    ensures body.Unparsable? ==> h.response == ServerError(FailureMessage, body.reason) && h.logged == []
    ensures body.Parsed? && !AllPresent(body.fields) ==> h.response == BadRequest(MissingFieldsMessage) && h.logged == []
    ensures body.Parsed? && AllPresent(body.fields) && !MatchesPattern(body.fields.email.value) ==>
      h.response == BadRequest(InvalidEmailMessage) && h.logged == []
    ensures body.Parsed? && Acceptable(body.fields) ==>
      var f := body.fields;
      && h.response == Json(200, SuccessMessage, f.caseId, None)
      && h.logged == [SubmissionLog(f.caseId.value, f.email.value, |f.content.value|)]
  {
    match body
    case Unparsable(reason) => Handled(ServerError(FailureMessage, reason), [])
    case Parsed(f) =>
      if !AllPresent(f) then Handled(BadRequest(MissingFieldsMessage), [])
      else if !IsValidEmail(f.email.value) then Handled(BadRequest(InvalidEmailMessage), [])
      else Handled(Json(200, SuccessMessage, f.caseId, None),
                   [SubmissionLog(f.caseId.value, f.email.value, |f.content.value|)])
  }

  /** The status tells which way the request went: 200 exactly for
      acceptable fields, 400 exactly for readable but unacceptable ones,
      500 exactly for an unreadable body; something is logged only on 200. */
  lemma StatusClasses(body: RequestBody)
    ensures Post(body).response.status == 200 <==> body.Parsed? && Acceptable(body.fields)
    ensures Post(body).response.status == 400 <==> body.Parsed? && !Acceptable(body.fields)
    ensures Post(body).response.status == 500 <==> body.Unparsable?
    ensures Post(body).logged != [] <==> Post(body).response.status == 200
  {
  }

  /** Presence is checked before format: empty content with a malformed
      address is reported as a missing field. */
  lemma MissingFieldReportedFirst(caseId: string, email: string)
    requires caseId != "" && !MatchesPattern(email)
    ensures Post(Parsed(Fields(Some(caseId), Some(email), Some("")))).response == BadRequest(MissingFieldsMessage)
    ensures Post(Parsed(Fields(Some(caseId), Some(email), None))).response == BadRequest(MissingFieldsMessage)
  {
  }

  /** Any present fields with an address the scanner accepts are
      acknowledged with their case id. */
  lemma AcceptsWellFormed(caseId: string, email: string, content: string)
    requires caseId != "" && content != "" && IsValidEmail(email)
    ensures Post(Parsed(Fields(Some(caseId), Some(email), Some(content)))).response
      == Json(200, SuccessMessage, Some(caseId), None)
  {
  }

  /** Any present fields with an address the scanner rejects get the
      invalid-format response. */
  lemma RejectsMalformed(caseId: string, email: string, content: string)
    requires caseId != "" && email != "" && content != "" && !IsValidEmail(email)
    ensures Post(Parsed(Fields(Some(caseId), Some(email), Some(content)))).response
      == BadRequest(InvalidEmailMessage)
  {
  }

  /** A well-formed sample submission is acknowledged with its case id. */
  lemma AcceptedExample()
    ensures Post(Parsed(Fields(Some("C-100"), Some("a@b.com"), Some("<p>Hello</p>")))).response
      == Json(200, SuccessMessage, Some("C-100"), None)
  {
    AcceptedExamples();
    AcceptsWellFormed("C-100", "a@b.com", "<p>Hello</p>");
  }

  /** An address without '@' is rejected by the pattern. */
  lemma MalformedEmailExample()
    ensures Post(Parsed(Fields(Some("C-100"), Some("not-an-email"), Some("x")))).response
      == BadRequest(InvalidEmailMessage)
  {
    NoAt();
    RejectsMalformed("C-100", "not-an-email", "x");
  }
}

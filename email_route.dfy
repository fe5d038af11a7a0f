/** POST /api/email: validate a submission exactly as the submit route does
    and, when it passes, send the case by email. The calls made to
    `sendEmail` are recorded next to the response. */
module EmailRoute {
  import opened Wrappers
  import opened EmailFormat
  import opened Api
  import opened EmailService
  import SubmitRoute

  /** The response and the `sendEmail` calls made while producing it. */
  datatype Handled = Handled(response: Response, sent: seq<SendEmailOptions>)

  const SuccessMessage: string := "Email sent successfully"
  const FailureMessage: string := "Failed to send email"

  /** The handler. Invalid fields get the same 400 responses as the submit
      route and send nothing; valid fields are sent once, unchanged; a failed
      send or an unreadable body is a 500 carrying the error's text. */
  function Post(body: RequestBody, config: MailConfig, transport: Transport): (h: Handled)
    ensures h.response.Json? && h.response.caseId.None?
    ensures h.sent != [] <==> body.Parsed? && SubmitRoute.Acceptable(body.fields)
    ensures h.sent != [] ==>
      var f := body.fields;
      h.sent == [SendEmailOptions(f.caseId.value, f.email.value, f.content.value)]
    ensures body.Unparsable? ==> h.response == ServerError(FailureMessage, body.reason)
    ensures body.Parsed? && !AllPresent(body.fields) ==> h.response == BadRequest(MissingFieldsMessage)
    ensures body.Parsed? && AllPresent(body.fields) && !MatchesPattern(body.fields.email.value) ==>
      h.response == BadRequest(InvalidEmailMessage)
    ensures h.sent != [] ==>
      match transport(ComposeMail(config, h.sent[0]))
      case Pass => h.response == Json(200, SuccessMessage, None, None)
      case Fail(e) => h.response == ServerError(FailureMessage, e)
  {
    match body
    case Unparsable(reason) => Handled(ServerError(FailureMessage, reason), [])
    case Parsed(f) =>
      if !AllPresent(f) then Handled(BadRequest(MissingFieldsMessage), [])
      else if !IsValidEmail(f.email.value) then Handled(BadRequest(InvalidEmailMessage), [])
      else
        var opts := SendEmailOptions(f.caseId.value, f.email.value, f.content.value);
        match SendEmail(opts, config, transport).outcome
        case Pass => Handled(Json(200, SuccessMessage, None, None), [opts])
        case Fail(e) => Handled(ServerError(FailureMessage, e), [opts])
  }

  /** The email route rejects with 400 exactly the requests the submit route
      rejects with 400, with the same response; a request it accepts is one
      the submit route acknowledges. */
  lemma SameValidationAsSubmit(body: RequestBody, config: MailConfig, transport: Transport)
    ensures Post(body, config, transport).response.status == 400
      <==> SubmitRoute.Post(body).response.status == 400
    ensures Post(body, config, transport).response.status == 400
      ==> Post(body, config, transport).response == SubmitRoute.Post(body).response
    ensures Post(body, config, transport).sent != []
      ==> SubmitRoute.Post(body).response.status == 200
  {
    SubmitRoute.StatusClasses(body);
  }

  /** A sent message goes to the submitted address, names the case in its
      subject, and carries the content without tags as its text part. */
  lemma SentMailMatchesSubmission(body: RequestBody, config: MailConfig, transport: Transport)
    requires Post(body, config, transport).sent != []
    ensures var f := body.fields;
      var m := ComposeMail(config, Post(body, config, transport).sent[0]);
      && m.to == f.email.value
      && m.subject[|SubjectPrefix|..] == f.caseId.value
      && m.text == Markup.StripTags(f.content.value)
      && Markup.TagFree(m.text)
  {
  }
}

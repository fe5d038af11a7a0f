/** POST /api/pdf: check that the fields are present and return the case
    as a PDF download. The email address is not checked against the
    pattern here. The calls made to `generatePDF` are recorded next to the
    response. Building the download response can itself throw: the Fetch
    standard's `Headers` refuses a value holding a character above 0xFF or
    a NUL, LF or CR, and the case id is part of the Content-Disposition
    value. */
module PdfRoute {
  import opened Wrappers
  import opened Api
  import opened PdfGenerator
  import SubmitRoute

  /** The response and the `generatePDF` calls made while producing it. */
  datatype Handled = Handled(response: Response, generated: seq<GeneratePdfOptions>)

  const PdfContentType: string := "application/pdf"
  const FailureMessage: string := "Failed to generate PDF"
  const DispositionOpen: string := "attachment; filename=\"case-"
  const DispositionClose: string := ".pdf\""

  /** The download header: the file is named after the case id. */
  function ContentDisposition(caseId: string): (r: string)
    ensures |r| == |DispositionOpen| + |caseId| + |DispositionClose|
    ensures r[..|DispositionOpen|] == DispositionOpen
    ensures r[|DispositionOpen|..|DispositionOpen| + |caseId|] == caseId
    ensures r[|DispositionOpen| + |caseId|..] == DispositionClose
  {
    var r := DispositionOpen + caseId + DispositionClose;
    assert r == DispositionOpen + (caseId + DispositionClose);
    r
  }

  /** A character a header value may hold: a byte other than NUL, LF and CR. */
  predicate HeaderChar(c: char) {
    c as int <= 0xFF && c as int != 0 && c != '\n' && c != '\r'
  }

  /** A header value the response constructor accepts. */
  predicate ValidHeaderValue(v: string) {
    forall k :: 0 <= k < |v| ==> HeaderChar(v[k])
  }

  /** The fixed parts of the download header are plain ASCII, so the header
      is accepted exactly when every character of the case id is. */
  lemma DispositionValid(caseId: string)
    ensures ValidHeaderValue(ContentDisposition(caseId)) <==> ValidHeaderValue(caseId)
  {
    var d := ContentDisposition(caseId);
    var n := |DispositionOpen|;
    assert ValidHeaderValue(DispositionOpen) && ValidHeaderValue(DispositionClose);
    if ValidHeaderValue(caseId) {
      forall k | 0 <= k < |d|
        ensures HeaderChar(d[k])
      {
        if k < n {
          assert d[k] == d[..n][k];
        } else if k < n + |caseId| {
          assert d[k] == d[n..n + |caseId|][k - n];
        } else {
          assert d[k] == d[n + |caseId|..][k - n - |caseId|];
        }
      }
    }
    if ValidHeaderValue(d) {
      forall k | 0 <= k < |caseId|
        ensures HeaderChar(caseId[k])
      {
        assert caseId[k] == d[n..n + |caseId|][k] == d[n + k];
      }
    }
  }

  /** The handler. Missing fields get the shared 400 response; present
      fields are rendered once, unchanged, and the bytes are returned as a
      download named after the case; a failed render, a case id the header
      cannot hold, or an unreadable body is a 500 carrying the error's text.
      `headerError` is the text of the error the response constructor
      throws for an invalid header value. */
  function Post(body: RequestBody, render: Renderer, headerError: string): (h: Handled)
    ensures h.generated != [] <==> body.Parsed? && AllPresent(body.fields)
    ensures h.generated != [] ==>
      var f := body.fields;
      h.generated == [GeneratePdfOptions(f.caseId.value, f.email.value, f.content.value)]
    ensures body.Unparsable? ==> h.response == ServerError(FailureMessage, body.reason)
    ensures body.Parsed? && !AllPresent(body.fields) ==> h.response == BadRequest(MissingFieldsMessage)
    ensures h.generated != [] ==>
      match GeneratePdf(h.generated[0], render).outcome
      case Success(bytes) =>
        if ValidHeaderValue(body.fields.caseId.value) then
          h.response == File(200, PdfContentType, ContentDisposition(body.fields.caseId.value), bytes)
        else
          h.response == ServerError(FailureMessage, headerError)
      case Failure(e) => h.response == ServerError(FailureMessage, e)
  {
    match body
    case Unparsable(reason) => Handled(ServerError(FailureMessage, reason), [])
    case Parsed(f) =>
      if !AllPresent(f) then Handled(BadRequest(MissingFieldsMessage), [])
      else
        var opts := GeneratePdfOptions(f.caseId.value, f.email.value, f.content.value);
        match GeneratePdf(opts, render).outcome
        case Success(bytes) =>
          var disposition := ContentDisposition(f.caseId.value);
          if ValidHeaderValue(disposition) then
            Handled(File(200, PdfContentType, disposition, bytes), [opts])
          else
            DispositionValid(f.caseId.value);
            Handled(ServerError(FailureMessage, headerError), [opts])
        case Failure(e) => Handled(ServerError(FailureMessage, e), [opts])
  }

  /** Every request the submit route does not reject with 400 is one the
      PDF route does not reject with 400 either, and its 400 is always the
      missing-fields response. */
  lemma AcceptsWhatSubmitAccepts(body: RequestBody, render: Renderer, headerError: string)
    ensures SubmitRoute.Post(body).response.status != 400 ==> Post(body, render, headerError).response.status != 400
  {
    SubmitRoute.StatusClasses(body);
    PresenceOnly(body, render, headerError);
  }

  /** The only 400 the PDF route gives is the missing-fields response, and
      it gives it exactly when a readable body lacks a field. */
  lemma PresenceOnly(body: RequestBody, render: Renderer, headerError: string)
    ensures Post(body, render, headerError).response.status == 400 <==> body.Parsed? && !AllPresent(body.fields)
    ensures Post(body, render, headerError).response.status == 400 ==>
      Post(body, render, headerError).response == BadRequest(MissingFieldsMessage)
  {
    var h := Post(body, render, headerError);
    match body
    case Unparsable(reason) =>
      assert h.response == ServerError(FailureMessage, reason);
    case Parsed(f) =>
      if AllPresent(f) {
        var opts := GeneratePdfOptions(f.caseId.value, f.email.value, f.content.value);
        assert h.generated == [opts];
        match GeneratePdf(opts, render).outcome
        case Success(bytes) =>
          assert h.response.status != 400;
        case Failure(e) =>
          assert h.response == ServerError(FailureMessage, e);
      } else {
        assert h.response == BadRequest(MissingFieldsMessage);
      }
  }

  /** The PDF route renders a request whose address the submit route
      rejects as malformed. */
  lemma RendersMalformedEmail(render: Renderer, headerError: string)
    ensures var body := Parsed(Fields(Some("C-100"), Some("not-an-email"), Some("x")));
      && SubmitRoute.Post(body).response == BadRequest(InvalidEmailMessage)
      && Post(body, render, headerError).generated == [GeneratePdfOptions("C-100", "not-an-email", "x")]
  {
    SubmitRoute.MalformedEmailExample();
  }

  /** A case id outside the byte range, such as "Ω-1", gets a 500
      even when the document renders. */
  lemma WideCaseIdFails(bytes: seq<byte>, headerError: string)
    ensures var body := Parsed(Fields(Some("Ω-1"), Some("a@b.com"), Some("x")));
      Post(body, _ => Success(bytes), headerError).response == ServerError(FailureMessage, headerError)
  {
    assert "Ω-1"[0] == 'Ω' && !HeaderChar('Ω');
    assert !ValidHeaderValue("Ω-1");
  }
}

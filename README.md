# Case submission pipeline: a Dafny model

This project models the server side of a small case-management web
application. A browser form sends three fields, a case id, an email address
and rich-text content (HTML), to one of three API routes:

- `POST /api/submit` validates the fields and acknowledges the submission.
- `POST /api/email` validates them the same way and emails a formatted copy.
- `POST /api/pdf` checks only that the fields are present and returns the
  case as a PDF download.

The model covers each route handler's validation order, responses and calls
into its library. It also covers the two library functions those calls reach:
`sendEmail`, which builds the message, and `generatePDF`, which builds the
document text. The text processing they do is modelled exactly. That means
the email pattern `/^[^\s@]+@[^\s@]+\.[^\s@]+$/`, the tag pattern
`/<[^>]*>/g` and the chain `replace(tags, ' ')`, `replace(/\s+/g, ' ')`,
`trim()`.

Layout of the Dafny modules:

- `Wrappers` holds Option, Outcome, Result and byte.
- `Text` holds the ECMAScript whitespace set shared by `\s` and `trim()`, and
  the visible characters of a text.
- `EmailFormat` models the email pattern three ways and proves them equal.
  - `MatchesPattern` is the regular expression read as local, domain and
    top-level domain.
  - `HasAddressShape` is the same as positions of '@' and '.'.
  - `IsValidEmail` is a scanner that runs in one left-to-right pass, with
    proofs that it agrees with both.
- `Markup` holds tag replacement, whitespace collapsing, trimming, the
  email's plain-text conversion and the PDF's text normalisation.
- `EmailService` and `PdfGenerator` model the two library files.
- `Api`, `SubmitRoute`, `EmailRoute` and `PdfRoute` model the three route
  files.

Things outside the program are parameters:

- The mail transport is a function from the composed message to success or
  an error text.
- The PDF library is a function from the document text to bytes or an error
  text.
- Reading the request body is a value that is either the three fields or the
  error thrown while reading them.
- The submit route's log entry, and the calls the email and PDF routes make
  into their libraries, are returned next to the response as lists, so
  "sent once, unchanged" and "nothing sent on a rejected request" can be
  stated.
- Building the PDF download can throw: the Fetch standard's `Headers`
  refuses a header value holding a character above 0xFF or a NUL, LF or
  CR, and the case id is part of the Content-Disposition value. The text of
  that error is a parameter of the PDF handler.

Facts about the code that the model keeps as they are:

- Every 500 response carries the error's text in an `error` field (the
  catch blocks at submit/route.ts:36-41, email/route.ts:30-35 and
  pdf/route.ts:28-34).
- A body that cannot be read as JSON is a 500 from the catch block, not a
  400.
- The three handlers do not validate uniformly: the submit and email routes
  check the email pattern, the PDF route only checks that the fields are
  present (`PdfRoute.RendersMalformedEmail`).

## Model

| member | source | states |
|---|---|---|
| EmailFormat.IsValidEmail | src/app/api/submit/route.ts:17-18 | the one-pass scanner accepts a string exactly when it matches the email pattern (some non-empty local part, '@', domain, '.', top-level domain, none holding whitespace or '@'), and exactly when it has one '@' after its first character with a '.' strictly inside what follows |
| EmailFormat.RejectIsFinal | src/app/api/submit/route.ts:17 | once the scanner has rejected, no continuation is accepted: the anchored pattern cannot recover |
| EmailFormat.FromLocal | src/app/api/submit/route.ts:17 | after a local part, the scanner accepts exactly when the rest splits at its only '@' into a domain with an inner '.' |
| EmailFormat.ScannerAccepts | src/app/api/submit/route.ts:17 | the scanner reaches its accepting state exactly when the string splits, at a position after its first character, at its only '@' into a local part and a domain with an inner '.' |
| EmailFormat.PatternAgreesWithShape | src/app/api/submit/route.ts:17 | a decomposition local@domain.tld exists exactly when the '@'/'.' position conditions hold |
| EmailFormat.ScannerAgreesWithShape | src/app/api/submit/route.ts:17 | the scanner's verdict coincides with the '@'/'.' position conditions |
| EmailFormat.RejectedExamples | src/app/api/submit/route.ts:17-23 | "a@b", "a@.com", "a@b.", "@b.c", "a@b@c.d", "a b@c.d" and "not-an-email" are rejected |
| EmailFormat.AcceptedExamples | src/app/api/submit/route.ts:17-18 | "a@b..c", "a@b.c.d" and "a@b.com" are accepted, since the greedy pattern lets the top-level domain hold or start with dots |
| Text.VisibleConcat | src/lib/pdf-generator.ts:37 | dropping whitespace distributes over concatenation |
| Text.VisibleEmpty | src/lib/pdf-generator.ts:37-38 | a text has no visible characters exactly when every character is whitespace |
| Markup.FirstClose | src/lib/email-service.ts:26 | the index of the first '>', which bounds a tag match |
| Markup.TagFreeUnchanged | src/lib/email-service.ts:26 | text in which no '<' precedes a '>' is left unchanged by tag replacement |
| Markup.ReplaceTagsTagFree | src/lib/email-service.ts:26 | after replacement no '<' precedes a '>', provided the replacement holds neither |
| Markup.ReplaceTags | src/lib/pdf-generator.ts:36 | the global replacement of `<[^>]*>`; every tag is at least two characters, so with a replacement of at most two characters the text never grows |
| Markup.TextKept | src/lib/email-service.ts:26 | text before the first '<' is kept verbatim |
| Markup.TagReplaced | src/lib/pdf-generator.ts:36 | a '<', any text without '>', and a '>' are replaced as one unit |
| Markup.SeparatorOnlyAddsWhitespace | src/lib/pdf-generator.ts:36 | replacing tags by a space or by nothing gives the same visible characters |
| Markup.StripTags | src/lib/email-service.ts:25-26 | the plain-text body has no '<' before a '>', is no longer than the content, and equals content that has no tag |
| Markup.StripIdempotent | src/lib/email-service.ts:26 | stripping twice is stripping once |
| Markup.StripWithoutTags | src/lib/email-service.ts:26 | content without '<', or without '>', is unchanged |
| Markup.StripOnlyTags | src/lib/email-service.ts:26 | content made only of tags, any number of them with any text without '>' inside, strips to the empty text |
| Markup.StripJoinsText | src/lib/email-service.ts:26 | "<p>a</p><p>b</p>" strips to "ab", with no separator between paragraphs |
| Markup.TrimStart | src/lib/pdf-generator.ts:38 | drops exactly the leading whitespace: the result is a suffix that is empty or starts visibly |
| Markup.TrimEnd | src/lib/pdf-generator.ts:38 | drops exactly the trailing whitespace: the result is a prefix that is empty or ends visibly |
| Markup.Trim | src/lib/pdf-generator.ts:38 | the result neither starts nor ends with whitespace and is no longer than the input |
| Markup.TrimIsSlice | src/lib/pdf-generator.ts:38 | the trimmed text is a contiguous piece of the input |
| Markup.TrimKeeps | src/lib/pdf-generator.ts:38 | trimming keeps tag-freedom and single spacing |
| Markup.TrimVisible | src/lib/pdf-generator.ts:38 | trimming keeps the visible characters |
| Markup.CollapseWhitespace | src/lib/pdf-generator.ts:37 | the result is single-spaced (only ' ' as whitespace, never two in a row), no longer than the input, and starts with the input's first character or a space; the run-by-run behaviour is stated by CollapseRun and CollapseWord |
| Markup.CollapseRun | src/lib/pdf-generator.ts:37 | a whitespace run followed by a visible character or the end becomes exactly one ' ' |
| Markup.CollapseWord | src/lib/pdf-generator.ts:37 | characters other than whitespace pass through unchanged |
| Markup.CollapseChars | src/lib/pdf-generator.ts:37 | every character of the result is a space or a character of the input |
| Markup.CollapseFixed | src/lib/pdf-generator.ts:37 | single-spaced text is unchanged, so collapsing is idempotent |
| Markup.CollapseTagFree | src/lib/pdf-generator.ts:37 | collapsing keeps tag-freedom |
| Markup.CollapseVisible | src/lib/pdf-generator.ts:37 | collapsing keeps the visible characters |
| Markup.NormalizeForPdf | src/lib/pdf-generator.ts:35-38 | the PDF body text is trimmed, single-spaced and tag-free, and has the same visible characters in the same order as the email's plain-text body |
| Markup.NormalizeIdempotent | src/lib/pdf-generator.ts:35-38 | normalising normalised text changes nothing |
| Markup.OnlyMarkupIsEmpty | src/lib/pdf-generator.ts:35-38 | content that is only tags and whitespace gives an empty body |
| Markup.WordsAroundTag | src/lib/pdf-generator.ts:36-37 | two words with a tag between them come out as the words separated by one space |
| Markup.NormalizeLineBreak | src/lib/pdf-generator.ts:35-38 | "a<br>b" becomes "a b" |
| Markup.WordParagraphs | src/lib/pdf-generator.ts:35-38 | two one-word paragraphs, with any tag names, become the two words separated by one space |
| Markup.NormalizeParagraphs | src/lib/pdf-generator.ts:35-38 | "<p>a</p><p>b</p>" becomes "a b" |
| EmailService.SenderAddress | src/lib/email-service.ts:30 | the configured FROM_EMAIL when set and non-empty, otherwise "noreply@example.com"; never empty |
| EmailService.FromHeader | src/lib/email-service.ts:30 | the fixed display name in quotes, then the sender address in angle brackets |
| EmailService.Subject | src/lib/email-service.ts:32 | the fixed prefix followed by the case id verbatim |
| EmailService.HtmlBody | src/lib/email-service.ts:34-46 | the submitted content sits verbatim, tags and all, just before the template's fixed closing text |
| EmailService.SendEmail | src/lib/email-service.ts:9-53 | sendEmail hands the transport one message, to the submitted address, with the stripped text part and the raw-content HTML part, and succeeds or fails as that send does |
| EmailService.ComposeMail | src/lib/email-service.ts:25-46 | the message goes to the submitted address; its text part is the tag-stripped content, tag-free and no longer; its HTML part embeds the raw content |
| EmailService.TextAndHtmlParts | src/lib/email-service.ts:26-46 | the text part is the stripped form of the content found in the HTML part, and content without '<' is identical in both |
| PdfGenerator.DocumentText | src/lib/pdf-generator.ts:24-38 | the heading is "Case ID: " then the case id, the second line is "Email: " then the email, and the body is the normalised content, hence trimmed, single-spaced, tag-free and with the email text's visible characters |
| PdfGenerator.GeneratePdf | src/lib/pdf-generator.ts:9-52 | generatePDF draws the case id and the email under their labels and the normalised content, and returns the renderer's bytes or error |
| PdfGenerator.LineBreakDrawnAsSpace | src/lib/pdf-generator.ts:35-43 | content "a<br>b" is drawn as "a b" |
| PdfGenerator.MarkupOnlyContent | src/lib/pdf-generator.ts:24-43 | markup-only content gives an empty body, while the heading is still "Case ID: " then the case id and the second line "Email: " then the email |
| PdfGenerator.SameVisibleBody | src/lib/pdf-generator.ts:35-38 | contents that differ only in markup and spacing give bodies with the same visible text |
| Api.BadRequest | src/app/api/submit/route.ts:10-13 | a 400 JSON response with only a message |
| Api.ServerError | src/app/api/submit/route.ts:38-41 | a 500 JSON response with the message and the error's text |
| SubmitRoute.Post | src/app/api/submit/route.ts:3-43 | an unreadable body is a 500 with the error text; missing fields give the missing-fields 400; an address outside the pattern gives the invalid-format 400; otherwise 200 with the case id, and exactly one log entry (case id, email, content length) |
| SubmitRoute.StatusClasses | src/app/api/submit/route.ts:9-41 | 200 exactly for acceptable fields, 400 exactly for readable unacceptable ones, 500 exactly for unreadable bodies; logging exactly on 200 |
| SubmitRoute.MissingFieldReportedFirst | src/app/api/submit/route.ts:9-18 | presence is checked before format: empty or absent content with a malformed address gives the missing-fields message |
| SubmitRoute.AcceptsWellFormed | src/app/api/submit/route.ts:17-35 | present fields with an address the scanner accepts are acknowledged with their case id |
| SubmitRoute.RejectsMalformed | src/app/api/submit/route.ts:17-23 | present fields with an address the scanner rejects get the invalid-format response |
| SubmitRoute.AcceptedExample | src/app/api/submit/route.ts:32-35 | case "C-100", "a@b.com", "<p>Hello</p>" is acknowledged with "C-100" |
| SubmitRoute.MalformedEmailExample | src/app/api/submit/route.ts:18-23 | "not-an-email" gets the invalid-format response |
| EmailRoute.Post | src/app/api/email/route.ts:4-37 | sendEmail is called at most once, exactly for acceptable fields, with the fields unchanged; rejections are the shared 400s; a successful send is 200 "Email sent successfully"; a failed send or unreadable body is a 500 with the error text |
| EmailRoute.SameValidationAsSubmit | src/app/api/email/route.ts:9-24 | the email route answers 400 exactly when the submit route does, with the same response, and sends only what the submit route would acknowledge |
| EmailRoute.SentMailMatchesSubmission | src/app/api/email/route.ts:27 | a sent message goes to the submitted address, names the case in its subject and carries the tag-stripped content |
| PdfRoute.ContentDisposition | src/app/api/pdf/route.ts:25 | the download is an attachment named "case-" + case id + ".pdf" |
| PdfRoute.Post | src/app/api/pdf/route.ts:4-35 | generatePDF is called at most once, exactly when all fields are present, with them unchanged; a successful render is a 200 application/pdf download of the bytes when the case id can go in the header, and a 500 with the header error otherwise; a failed render or unreadable body is a 500 with the error text |
| PdfRoute.DispositionValid | src/app/api/pdf/route.ts:21-27 | the Content-Disposition value is a valid header value exactly when the case id is one |
| PdfRoute.WideCaseIdFails | src/app/api/pdf/route.ts:21-34 | case id "Ω-1" gets the 500 response even when the document renders |
| PdfRoute.AcceptsWhatSubmitAccepts | src/app/api/pdf/route.ts:9-18 | whatever the submit route does not reject with 400 the PDF route does not either |
| PdfRoute.PresenceOnly | src/app/api/pdf/route.ts:9-15 | the PDF route answers 400 exactly when a readable body lacks a field, and that 400 is always the missing-fields response |
| PdfRoute.RendersMalformedEmail | src/app/api/pdf/route.ts:17-18 | a request the submit route rejects as malformed ("not-an-email") is rendered by the PDF route |

## Left out

- Mail transport: creating the test account, the transporter's host, port, secure flag, user and password (src/lib/email-service.ts:12-23), and the actual send are an abstract function from the message to success or an error.
- The preview-URL log line after sending (src/lib/email-service.ts:49-52) and the routes' `console.error` lines are not modelled. The submit route's log entry is modelled.
- PDF drawing: page size, margins, font sizes, the separator line, `splitTextToSize` word wrapping, the "Generated on" footer with the current date and locale, and conversion to a Buffer belong to the PDF library. They are an abstract renderer from the document text to bytes or an error.
- Reading the request: JSON parsing is not modelled. A body is either the three fields, each absent or a string, or the message of the error thrown while reading it. Non-string JSON values (numbers, objects) in the fields are not modelled.
- SubmitRoute.Post: the logged content length counts Unicode scalar values, where JavaScript's `length` counts UTF-16 code units; they differ for characters outside the Basic Multilingual Plane.
- EmailService.HtmlBody: the contract pins down where the content and the closing template text sit, not where the case id and email sit inside the template. The fixed text around them is in the definition.
- PdfRoute.Post: the header check follows the Fetch standard's rules for header values (byte characters, no NUL, LF or CR), which the route file relies on without spelling out; the runtime's error text is a single parameter rather than one derived from the offending character.
- The upload route, the HTML-to-PDF upload helper and the browser form are not part of this model.

/** The message `sendEmail` builds from a case submission. Creating the test
    account and the transporter, and sending, are not modelled: the send is
    an abstract transport that succeeds or fails with an error text. */
module EmailService {
  import opened Wrappers
  import opened Markup

  /** The fields `sendEmail` is called with. */
  datatype SendEmailOptions = SendEmailOptions(caseId: string, email: string, content: string)

  /** The environment setting the message depends on: FROM_EMAIL, if set. */
  datatype MailConfig = MailConfig(fromEmail: Option<string>)

  /** The message handed to the transport. */
  datatype Mail = Mail(from: string, to: string, subject: string, text: string, html: string)

  /** Creating the test account and the transporter and sending one message:
      success, or the text of the error thrown. */
  type Transport = Mail -> Outcome<string>

  const DefaultSender: string := "noreply@example.com"
  const SubjectPrefix: string := "Case Information - Case ID: "
  const FromOpen: string := "\"Case Management System\" <"

  const HtmlOpen: string :=
    "\n      <div style=\"font-family: Arial, sans-serif; max-width: 600px; margin: 0 auto;\">"
    + "\n        <h1 style=\"color: #333; border-bottom: 1px solid #eee; padding-bottom: 10px;\">Case Information</h1>"
    + "\n        <p><strong>Case ID:</strong> "
  const HtmlAfterCaseId: string := "</p>\n        <p><strong>Email:</strong> "
  const HtmlAfterEmail: string :=
    "</p>\n        <div style=\"margin-top: 20px; padding: 15px; border: 1px solid #eee; border-radius: 5px;\">\n          "
  const HtmlClose: string :=
    "\n        </div>"
    + "\n        <p style=\"margin-top: 20px; font-size: 12px; color: #666;\">"
    + "\n          This email was sent automatically from the Case Management System."
    + "\n        </p>"
    + "\n      </div>\n    "

  /** `process.env.FROM_EMAIL || 'noreply@example.com'`: the configured
      address unless it is unset or empty. */
  function SenderAddress(config: MailConfig): (addr: string)
    ensures config.fromEmail.Some? && config.fromEmail.value != "" ==> addr == config.fromEmail.value
    ensures config.fromEmail.None? || config.fromEmail.value == "" ==> addr == DefaultSender
    ensures addr != ""
  {
    match config.fromEmail
    case Some(a) => if a != "" then a else DefaultSender
    case None => DefaultSender
  }

  /** The sender: the fixed display name and the sender address in angle brackets. */
  function FromHeader(config: MailConfig): (from: string)
    ensures |from| == |FromOpen| + |SenderAddress(config)| + 1
    ensures from[..|FromOpen|] == FromOpen
    ensures from[|FromOpen|..|from| - 1] == SenderAddress(config)
    ensures from[|from| - 1] == '>'
  {
    FromOpen + SenderAddress(config) + ">"
  }

  /** The subject line: a fixed prefix and the case id, verbatim. */
  function Subject(caseId: string): (subject: string)
    ensures |subject| == |SubjectPrefix| + |caseId|
    ensures subject[..|SubjectPrefix|] == SubjectPrefix
    ensures subject[|SubjectPrefix|..] == caseId
  {
    SubjectPrefix + caseId
  }

  /** Five pieces of text joined around a caller's three values: where each
      value sits in the result. */
  function Frame(open: string, a: string, mid1: string, b: string, mid2: string, c: string, close: string): (r: string)
    ensures |r| == |open| + |a| + |mid1| + |b| + |mid2| + |c| + |close|
    ensures r[..|open|] == open
    ensures r[|open|..|open| + |a|] == a
    ensures r[|r| - |close| - |c|..|r| - |close|] == c
    ensures r[|r| - |close|..] == close
  {
    var r := open + a + mid1 + b + mid2 + c + close;
    assert r == open + (a + (mid1 + b + mid2 + c + close));
    assert r == (open + a + mid1 + b + mid2) + c + close;
    r
  }

  /** The HTML part: a fixed template showing the case id and the email
      address, with the content embedded as it was submitted, tags and all. */
  function HtmlBody(caseId: string, email: string, content: string): (html: string)
    ensures |content| + |HtmlClose| <= |html|
    ensures html[|html| - |HtmlClose| - |content|..|html| - |HtmlClose|] == content
    ensures html[|html| - |HtmlClose|..] == HtmlClose
  {
    Frame(HtmlOpen, caseId, HtmlAfterCaseId, email, HtmlAfterEmail, content, HtmlClose)
  }

  /** The message `sendEmail` passes to `sendMail`: addressed to the
      submitted email unchanged, with the tag-stripped content as the text
      part and the raw content inside the HTML part. */
  function ComposeMail(config: MailConfig, opts: SendEmailOptions): (m: Mail)
    ensures m.to == opts.email
    ensures m.from == FromHeader(config)
    ensures m.subject == Subject(opts.caseId)
    ensures m.text == StripTags(opts.content)
    ensures TagFree(m.text) && |m.text| <= |opts.content|
    ensures m.html == HtmlBody(opts.caseId, opts.email, opts.content)
  {
    Mail(
      from := FromHeader(config),
      to := opts.email,
      subject := Subject(opts.caseId),
      text := StripTags(opts.content),
      html := HtmlBody(opts.caseId, opts.email, opts.content))
  }

  /** What one `sendEmail` call does: the message it hands to the transport
      and the transport's outcome. */
  datatype Delivery = Delivery(mail: Mail, outcome: Outcome<string>)

  /** `sendEmail`: one message, addressed to the submitted email, with the
      stripped content as its text part and the raw content in its HTML
      part, is handed to the transport once; the call succeeds or fails as
      that send does. */
  function SendEmail(opts: SendEmailOptions, config: MailConfig, transport: Transport): (d: Delivery)
    ensures d.mail.to == opts.email && d.mail.from == FromHeader(config)
    ensures d.mail.subject == Subject(opts.caseId)
    ensures d.mail.text == StripTags(opts.content) && TagFree(d.mail.text)
    ensures d.mail.html == HtmlBody(opts.caseId, opts.email, opts.content)
    ensures d.outcome == transport(d.mail)
  {
    var m := ComposeMail(config, opts);
    Delivery(m, transport(m))
  }

  /** The text part is what remains of the HTML part's content once tags are
      removed; content without tags appears identically in both parts. */
  lemma TextAndHtmlParts(config: MailConfig, opts: SendEmailOptions)
    ensures var m := ComposeMail(config, opts);
      && m.html[|m.html| - |HtmlClose| - |opts.content|..|m.html| - |HtmlClose|] == opts.content
      && m.text == StripTags(m.html[|m.html| - |HtmlClose| - |opts.content|..|m.html| - |HtmlClose|])
      && ('<' !in opts.content ==> m.text == opts.content)
  {
    var m := ComposeMail(config, opts);
    if '<' !in opts.content {
      assert TagFree(opts.content);
    }
  }
}

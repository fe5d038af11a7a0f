/** The text `generatePDF` lays out for a case. Page geometry, fonts, the
    separator line, word wrapping, the date footer and the byte encoding
    belong to the PDF library and are an abstract renderer here. */
module PdfGenerator {
  import opened Wrappers
  import opened Text
  import opened Markup

  /** The fields `generatePDF` is called with. */
  datatype GeneratePdfOptions = GeneratePdfOptions(caseId: string, email: string, content: string)

  /** What the document shows, top to bottom: the heading, the email line
      and the body text before it is wrapped to the page width. */
  datatype PdfText = PdfText(heading: string, emailLine: string, body: string)

  /** Laying out the text and serialising the document: its bytes, or the
      text of the error thrown. */
  type Renderer = PdfText -> Result<seq<byte>, string>

  const HeadingPrefix: string := "Case ID: "
  const EmailPrefix: string := "Email: "

  /** The document's text: the case id and the email address verbatim after
      their labels, and the content with its markup flattened to single
      spaces, keeping the same visible characters as the email's text part. */
  function DocumentText(opts: GeneratePdfOptions): (t: PdfText)
    ensures |t.heading| == |HeadingPrefix| + |opts.caseId| && |t.emailLine| == |EmailPrefix| + |opts.email|
    ensures t.heading[..|HeadingPrefix|] == HeadingPrefix && t.heading[|HeadingPrefix|..] == opts.caseId
    ensures t.emailLine[..|EmailPrefix|] == EmailPrefix && t.emailLine[|EmailPrefix|..] == opts.email
    ensures t.body == NormalizeForPdf(opts.content)
    ensures Trimmed(t.body) && SingleSpaced(t.body) && TagFree(t.body)
    ensures Visible(t.body) == Visible(StripTags(opts.content))
  {
    PdfText(HeadingPrefix + opts.caseId, EmailPrefix + opts.email, NormalizeForPdf(opts.content))
  }

  /** What one `generatePDF` call does: the text it draws and the
      renderer's outcome. */
  datatype Rendering = Rendering(drawn: PdfText, outcome: Result<seq<byte>, string>)

  /** `generatePDF`: the case id and the email under their labels and the
      normalised content are drawn once; the call returns the bytes or fails
      as the renderer does. */
  function GeneratePdf(opts: GeneratePdfOptions, render: Renderer): (g: Rendering)
    ensures g.drawn == DocumentText(opts)
    ensures g.drawn.body == NormalizeForPdf(opts.content)
    ensures g.outcome == render(g.drawn)
  {
    var t := DocumentText(opts);
    Rendering(t, render(t))
  }

  /** A line break between two words is drawn as one space. */
  lemma LineBreakDrawnAsSpace(caseId: string, email: string)
    ensures DocumentText(GeneratePdfOptions(caseId, email, "a<br>b")).body == "a b"
  {
    NormalizeLineBreak();
  }

  /** Content made of markup and whitespace only gives an empty body; the
      heading and the email line are still there. */
  lemma MarkupOnlyContent(opts: GeneratePdfOptions)
    requires forall i :: 0 <= i < |StripTags(opts.content)| ==> IsWhitespace(StripTags(opts.content)[i])
    ensures DocumentText(opts).body == []
    ensures DocumentText(opts).heading == HeadingPrefix + opts.caseId
    ensures DocumentText(opts).emailLine == EmailPrefix + opts.email
  {
    OnlyMarkupIsEmpty(opts.content);
  }

  /** Two submissions whose content differs only in markup and spacing give
      documents with the same visible body. */
  lemma SameVisibleBody(a: GeneratePdfOptions, b: GeneratePdfOptions)
    requires Visible(StripTags(a.content)) == Visible(StripTags(b.content))
    ensures Visible(DocumentText(a).body) == Visible(DocumentText(b).body)
  {
  }
}

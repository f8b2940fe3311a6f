/** The concrete cases of the repository's tests, stated on the model. */
module TestScenarios {
  import opened Builtins
  import opened Config
  import opened ModelsParser
  import opened ParserRouter

  /** The bytes of a `b'...'` literal. */
  function Latin1(s: string): (b: seq<byte>)
    requires forall i :: 0 <= i < |s| ==> s[i] as int < 256
    ensures |b| == |s| && forall i :: 0 <= i < |s| ==> b[i] as int == s[i] as int
  {
    seq(|s|, i requires 0 <= i < |s| => s[i] as int as byte)
  }

  /** `b'Not a PDF file'` is refused for its missing header. */
  lemma NotAPdfScenario(run: ExtractorRun)
    ensures PdfResult(Latin1("Not a PDF file"), run) == RaisedValueError(MissingHeaderMessage)
  {
    var b := Latin1("Not a PDF file");
    assert b[0] != PdfSignature[0];
  }

  /** `b''` is refused for its missing header. The test of the empty PDF
      matches a pattern that neither this message nor the empty-text message
      fits; the empty-text message is not what results either. */
  lemma EmptyPdfScenario(run: ExtractorRun)
    ensures PdfResult([], run) == RaisedValueError(MissingHeaderMessage)
    ensures PdfResult([], run) != RaisedValueError(EmptyPdfMessage)
  {
  }

  /** With the header present, an extractor that completes after writing a
      non-empty text with no whitespace at its ends returns that text. */
  lemma PdfReturnsCleanText(body: seq<byte>, run: ExtractorRun, written: string)
    requires StartsWith(body, PdfSignature)
    requires run == ExtractorRun([written], Completed)
    requires written != [] && NoEdgeSpace(written)
    ensures PdfResult(body, run) == Returned(written)
  {
    assert Concat([written]) == written;
    var e: string := [];
    assert e + written + e == written;
    StripOfPadded(e, written, e);
  }

  /** A small upload with a PDF header, whose extractor writes
      "Test resume sample text", answers 200 with that text, when
      `parse_document` sends it to `parse_pdf`. */
  lemma SmallPdfUploadScenario(pdfminer: seq<byte> -> ExtractorRun)
    requires forall b :: pdfminer(b) == ExtractorRun(["Test resume sample text"], Completed)
    ensures ExtractText(Latin1("%PDF- valid content"), "resume.pdf",
                        (b, name) => PdfResult(b, pdfminer(b)))
              == Json("Test resume sample text")
  {
    var body := Latin1("%PDF- valid content");
    assert body[..5] == PdfSignature;
    var written: string := "Test resume sample text";
    IsSpaceBounds(written[0]);
    IsSpaceBounds(written[|written| - 1]);
    PdfReturnsCleanText(body, pdfminer(body), written);
  }

  /** An upload of `MaxFileSize + 1` bytes answers 413 with the fixed
      detail, whatever parsing would do. */
  lemma TooLargeUploadScenario(parseDocument: (seq<byte>, string) -> Outcome<string>)
    ensures ExtractText(seq(MaxFileSize + 1, _ => 0x41), "large_resume.pdf", parseDocument)
              == HttpException(413, TooLargeDetail)
  {
  }
}

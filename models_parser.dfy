/** The PDF and DOCX text extractors: validation and error mapping around
    pdfminer's `extract_text_to_fp` and python-docx's `Document`, both of
    which are given to the model as functions of the input bytes. */
module ModelsParser {
  import opened Builtins

  /** `b'%PDF-'` */
  const PdfSignature: seq<byte> := [0x25, 0x50, 0x44, 0x46, 0x2D]

  const MissingHeaderMessage := "Invalid PDF file: Missing PDF header."
  const CorruptPdfMessage := "Corrupt PDF file: cannot extract text"
  const EmptyPdfMessage := "Empty PDF file: no text extracted"
  const EmptyDocxMessage := "Empty DOCX file: no content provided"
  const InvalidDocxMessage := "Invalid or corrupt DOCX file"

  // ---------------------------------------------------------------------
  // PDF

  /** How one run of `extract_text_to_fp` ends: normally, by raising
      `PDFSyntaxError` (or a subclass of it), by raising a `ValueError` (or a
      subclass of it) with this message, or by raising any other exception. */
  datatype Ending =
    | Completed
    | PdfSyntaxError
    | ExtractorValueError(message: string)
    | OtherError(name: string)

  /** What one run of `extract_text_to_fp` does to its output file: the
      strings it writes, in order, and then how it ends. A run that raises
      may already have written part of its output. */
  datatype ExtractorRun = ExtractorRun(writes: seq<string>, ending: Ending)

  /** The text of a sequence of writes, one after the other. */
  function Concat(writes: seq<string>): string
    decreases |writes|
  {
    if writes == [] then "" else writes[0] + Concat(writes[1..])
  }

  lemma {:induction false} ConcatSnoc(writes: seq<string>, w: string)
    ensures Concat(writes + [w]) == Concat(writes) + w
    decreases |writes|
  {
    if writes == [] {
      assert [w][1..] == [];
    } else {
      assert (writes + [w])[1..] == writes[1..] + [w];
      ConcatSnoc(writes[1..], w);
    }
  }

  /** An `io.StringIO` text sink. */
  class StringSink {
    var buffer: string

    constructor ()
      ensures buffer == []
    {
      buffer := [];
    }

    /** `write(s)`: appends `s` and returns the number of characters written. */
    method Write(s: string) returns (n: nat)
      modifies this
      ensures buffer == old(buffer) + s
      ensures n == |s|
    {
      buffer := buffer + s;
      n := |s|;
    }

    /** `getvalue()` */
    function GetValue(): string
      reads this
    {
      buffer
    }
  }

  /** `extract_text_to_fp(stream, sink, laparams)`: performs the run's writes
      on the sink in order, then ends as the run does. */
  method ExtractTextToFp(run: ExtractorRun, sink: StringSink) returns (ending: Ending)
    modifies sink
    ensures sink.buffer == old(sink.buffer) + Concat(run.writes)
    ensures ending == run.ending
  {
    var i := 0;
    while i < |run.writes|
      invariant 0 <= i <= |run.writes|
      invariant sink.buffer == old(sink.buffer) + Concat(run.writes[..i])
    {
      assert run.writes[..i + 1] == run.writes[..i] + [run.writes[i]];
      ConcatSnoc(run.writes[..i], run.writes[i]);
      var _ := sink.Write(run.writes[i]);
      i := i + 1;
    }
    assert run.writes[..i] == run.writes;
    ending := run.ending;
  }

  /** What `parse_pdf` returns or raises on `fileBytes` when the extractor,
      if it is invoked, behaves as `run`. A returned text is never empty and
      has no whitespace at either end; it is returned exactly when the header
      is present, the extractor completes and it wrote some non-whitespace
      character. */
  function PdfResult(fileBytes: seq<byte>, run: ExtractorRun): (r: Outcome<string>)
    ensures r.Returned? ==> r.value != [] && NoEdgeSpace(r.value)
    ensures r.Returned? <==>
              StartsWith(fileBytes, PdfSignature) && run.ending == Completed
              && !AllSpace(Concat(run.writes))
    ensures r == RaisedValueError(EmptyPdfMessage) <==>
              StartsWith(fileBytes, PdfSignature)
              && ((run.ending == Completed && AllSpace(Concat(run.writes)))
                  || run.ending == ExtractorValueError(EmptyPdfMessage))
    ensures r.RaisedValueError? <==>
              !StartsWith(fileBytes, PdfSignature) || run.ending == PdfSyntaxError
              || run.ending.ExtractorValueError?
              || (run.ending == Completed && AllSpace(Concat(run.writes)))
    ensures r.RaisedOther? <==> StartsWith(fileBytes, PdfSignature) && run.ending.OtherError?
  {
    if !StartsWith(fileBytes, PdfSignature) then
      assert MissingHeaderMessage[0] != EmptyPdfMessage[0];
      RaisedValueError(MissingHeaderMessage)
    else
      match run.ending
      case PdfSyntaxError =>
        assert CorruptPdfMessage[0] != EmptyPdfMessage[0];
        RaisedValueError(CorruptPdfMessage)
      case ExtractorValueError(message) => RaisedValueError(message)
      case OtherError(name) => RaisedOther(name)
      case Completed =>
        var sink := Concat(run.writes);
        var text := Strip(sink);
        if text == [] then RaisedValueError(EmptyPdfMessage) else Returned(text)
  }

  /** `parse_pdf(file_bytes)`, with `pdfminer` standing for what
      `extract_text_to_fp` does on each input. The sink is created and the
      extractor invoked only once the header check has passed; `extracted`
      marks the branch that reaches the extractor. That the outcome without
      a header does not depend on the extractor is `PdfHeaderCheckedFirst`. */
  method ParsePdf(fileBytes: seq<byte>, pdfminer: seq<byte> -> ExtractorRun)
    returns (r: Outcome<string>, ghost extracted: bool)
    ensures r == PdfResult(fileBytes, pdfminer(fileBytes))
    ensures extracted <==> StartsWith(fileBytes, PdfSignature)
  {
    extracted := false;
    if !StartsWith(fileBytes, PdfSignature) {
      r := RaisedValueError(MissingHeaderMessage);
      return;
    }
    var output := new StringSink();
    extracted := true;
    var run := pdfminer(fileBytes);
    var ending := ExtractTextToFp(run, output);
    assert output.GetValue() == Concat(run.writes);
    match ending {
      case PdfSyntaxError =>
        r := RaisedValueError(CorruptPdfMessage);
      case ExtractorValueError(message) =>
        r := RaisedValueError(message);
      case OtherError(name) =>
        r := RaisedOther(name);
      case Completed =>
        var text := Strip(output.GetValue());
        if text == [] {
          r := RaisedValueError(EmptyPdfMessage);
        } else {
          r := Returned(text);
        }
    }
  }

  /** Without the `%PDF-` header the result is the header error, whatever
      the extractor would have done. */
  lemma PdfHeaderCheckedFirst(fileBytes: seq<byte>, run1: ExtractorRun, run2: ExtractorRun)
    requires !StartsWith(fileBytes, PdfSignature)
    ensures PdfResult(fileBytes, run1) == PdfResult(fileBytes, run2)
              == RaisedValueError(MissingHeaderMessage)
  {
  }

  /** The header check fails on any buffer shorter than the signature, so an
      empty buffer is reported as a missing header, not as empty text. */
  lemma PdfShortBufferMissesHeader(fileBytes: seq<byte>, run: ExtractorRun)
    requires |fileBytes| < |PdfSignature|
    ensures PdfResult(fileBytes, run) == RaisedValueError(MissingHeaderMessage)
    ensures PdfResult(fileBytes, run) != RaisedValueError(EmptyPdfMessage)
  {
  }

  /** A `PDFSyntaxError` becomes the corrupt-file `ValueError`, whatever had
      been written before it. */
  lemma PdfSyntaxErrorMapped(fileBytes: seq<byte>, writes: seq<string>)
    requires StartsWith(fileBytes, PdfSignature)
    ensures PdfResult(fileBytes, ExtractorRun(writes, PdfSyntaxError))
              == RaisedValueError(CorruptPdfMessage)
  {
  }

  /** Any other exception of the extractor is not caught: it leaves
      `parse_pdf` unchanged. A `ValueError` of the extractor therefore leaves
      it as that same `ValueError`, and anything else is never turned into
      one. */
  lemma PdfOtherErrorPropagates(fileBytes: seq<byte>, writes: seq<string>, name: string, message: string)
    requires StartsWith(fileBytes, PdfSignature)
    ensures PdfResult(fileBytes, ExtractorRun(writes, OtherError(name))) == RaisedOther(name)
    ensures PdfResult(fileBytes, ExtractorRun(writes, ExtractorValueError(message)))
              == RaisedValueError(message)
  {
  }

  /** On success the text is the sink's contents with the leading and the
      trailing whitespace removed (`StripIsMiddle` says where it sits in
      them), and stripping it again changes nothing. */
  lemma PdfSuccessIsStrippedSink(fileBytes: seq<byte>, run: ExtractorRun, text: string)
    requires PdfResult(fileBytes, run) == Returned(text)
    ensures text == Strip(Concat(run.writes))
    ensures Strip(text) == text
  {
    StripIdempotent(Concat(run.writes));
  }

  // ---------------------------------------------------------------------
  // DOCX

  /** What `docx.Document` does on a byte stream: gives a document with these
      paragraph texts, in order, raises `PackageNotFoundError`, raises a
      `ValueError` with this message (as it does for a package that is not a
      Word document), or raises another exception. */
  datatype DocxOpen =
    | Opened(paragraphs: seq<string>)
    | PackageNotFound
    | OpenValueError(message: string)
    | OpenFailed(name: string)

  /** `parse_docx(file_bytes)`, with `document` standing for what
      `docx.Document` does on each input. An empty buffer is refused before
      the library is consulted; a returned text has no whitespace at either
      end, but, unlike a PDF's, may be empty. */
  function ParseDocx(fileBytes: seq<byte>, document: seq<byte> -> DocxOpen): (r: Outcome<string>)
    ensures fileBytes == [] ==> r == RaisedValueError(EmptyDocxMessage)
    ensures r.Returned? <==> fileBytes != [] && document(fileBytes).Opened?
    ensures r.Returned? ==> NoEdgeSpace(r.value) && Strip(r.value) == r.value
    ensures r.RaisedValueError? <==>
              fileBytes == [] || document(fileBytes) == PackageNotFound
              || document(fileBytes).OpenValueError?
    ensures r.RaisedOther? <==> fileBytes != [] && document(fileBytes).OpenFailed?
  {
    if fileBytes == [] then
      RaisedValueError(EmptyDocxMessage)
    else
      match document(fileBytes)
      case PackageNotFound => RaisedValueError(InvalidDocxMessage)
      case OpenValueError(message) => RaisedValueError(message)
      case OpenFailed(name) => RaisedOther(name)
      case Opened(paragraphs) =>
        StripIdempotent(Join(" ", paragraphs));
        Returned(Strip(Join(" ", paragraphs)))
  }

  /** The empty-input check comes before the library: the outcome does not
      depend on what `docx.Document` would do. */
  lemma DocxEmptyCheckedFirst(document1: seq<byte> -> DocxOpen, document2: seq<byte> -> DocxOpen)
    ensures ParseDocx([], document1) == ParseDocx([], document2)
              == RaisedValueError(EmptyDocxMessage)
  {
  }

  /** `PackageNotFoundError` becomes the invalid-file `ValueError`; any other
      exception of the library is not caught, so a library `ValueError`
      leaves `parse_docx` with its own message. */
  lemma DocxOpenErrorsMapped(fileBytes: seq<byte>, document: seq<byte> -> DocxOpen)
    requires fileBytes != []
    ensures document(fileBytes) == PackageNotFound ==>
              ParseDocx(fileBytes, document) == RaisedValueError(InvalidDocxMessage)
    ensures document(fileBytes).OpenValueError? ==>
              ParseDocx(fileBytes, document) == RaisedValueError(document(fileBytes).message)
    ensures document(fileBytes).OpenFailed? ==>
              ParseDocx(fileBytes, document) == RaisedOther(document(fileBytes).name)
  {
  }

  /** On success the text is the paragraph texts, in document order, joined
      by single spaces and then stripped (`JoinPartAt` and `JoinSepAt` say
      where each paragraph and each space stands in the joined string). */
  lemma DocxSuccessJoinsParagraphs(fileBytes: seq<byte>, document: seq<byte> -> DocxOpen, ps: seq<string>)
    requires fileBytes != [] && document(fileBytes) == Opened(ps)
    ensures ParseDocx(fileBytes, document) == Returned(Strip(Join(" ", ps)))
  {
  }

  /** A document whose paragraphs hold only whitespace, or that has no
      paragraphs, gives the empty string: there is no emptiness check on
      this path. */
  lemma DocxWhitespaceOnlyGivesEmpty(fileBytes: seq<byte>, document: seq<byte> -> DocxOpen, ps: seq<string>)
    requires fileBytes != [] && document(fileBytes) == Opened(ps)
    requires forall i :: 0 <= i < |ps| ==> AllSpace(ps[i])
    ensures ParseDocx(fileBytes, document) == Returned("")
  {
    JoinAllSpace(ps);
  }
}

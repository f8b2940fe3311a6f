# JobFluence document parser: a Dafny model

JobFluence takes an uploaded resume and extracts its text. This project models
the part of that service that makes its own decisions, and states what each
part promises:

- **`parse_pdf`** checks for the `%PDF-` header. It then lets pdfminer's
  `extract_text_to_fp` write into an `io.StringIO` sink. A `PDFSyntaxError`
  becomes a fixed `ValueError`. The sink's contents are stripped, and empty
  text is refused.
- **`parse_docx`** refuses an empty buffer. A `PackageNotFoundError` from
  python-docx becomes a fixed `ValueError`. The paragraph texts are joined with
  single spaces and stripped.
- **`extract_text`**, the `/parser/extract` endpoint, answers 413 for an
  upload over `MAX_FILE_SIZE`. Otherwise it calls `parse_document`: a
  `ValueError` becomes a 400 with the error's message as detail, and a returned
  text becomes `{'extracted_text': text}`.

The foreign libraries are parameters of the model, given as functions of the
input bytes:

- pdfminer is a function `bytes -> ExtractorRun`: the writes it makes to the
  sink, in order, and how it ends (normally, `PDFSyntaxError`, a `ValueError`
  with its message, or another exception).
- python-docx's `Document` is a function `bytes -> DocxOpen`: a document's
  paragraph texts, `PackageNotFoundError`, a `ValueError` with its message
  (python-docx raises one for a package that is not a Word document), or
  another exception.
- `parse_document`, whose definition is not part of this model, is a function
  `(bytes, filename) -> Outcome`.

Python's own `str.strip()`, `str.join()`, `str.isspace()` and
`bytes.startswith()` are written out in module `Builtins`. `isspace` is the
explicit character set Python uses.

Layout:

- `builtins.dfy`: byte strings, whitespace, strip and join, with their
  characterisations.
- `config.dfy`: the size cap.
- `models_parser.dfy`: the two extractors. `parse_pdf` is imperative: a
  `StringSink` class is written by `ExtractTextToFp` and read once. The method
  `ParsePdf` is proved equal to the specification function `PdfResult`.
  `parse_docx` is the pure function `ParseDocx`.
- `routers_parser.dfy`: the endpoint, as the pure function `ExtractText`.
- `test_scenarios.dfy`: the concrete cases of the repository's tests.

Behaviour worth noting:

- `parse_pdf` has no separate empty-input error. An empty buffer fails the
  header check and gets the header message (`EmptyPdfScenario`). The test at
  tests/test_parser.py:51-58 matches the regular expression
  `'Empty PDF file: no text extracted.'`, which needs one more character after
  "extracted", so it matches neither the header message nor the code's
  empty-text message.
- Only `PDFSyntaxError` and `PackageNotFoundError` are translated. Any other
  library exception leaves the extractor unchanged, so a `ValueError` raised
  by a library leaves the extractor as a `ValueError` with the library's own
  message. The endpoint answers any `ValueError` from `parse_document` with
  400.
- `parse_docx` has no empty-content check, so it may return `""`.
- No Unicode normalisation is applied anywhere.

## Model

| member | source | states |
|---|---|---|
| `Builtins.StartsWith` | app/models/parser.py:17 | `bytes.startswith`: the prefix is no longer than the buffer and equals the buffer's first bytes, element by element |
| `Builtins.IsSpace` | app/models/parser.py:32 | `str.isspace` on one character: the characters U+0009-U+000D, U+001C-U+0020, U+0085, U+00A0, U+1680, U+2000-U+200A, U+2028, U+2029, U+202F, U+205F, U+3000 |
| `Builtins.IsSpaceBounds` | app/models/parser.py:32 | no ASCII letter or digit is whitespace, and no whitespace character lies above U+3000 |
| `Builtins.LStrip` | app/models/parser.py:32 | the result is a suffix of the input, the dropped prefix is all whitespace, and the result does not start with whitespace |
| `Builtins.RStrip` | app/models/parser.py:32 | the result is a prefix of the input, the dropped suffix is all whitespace, and the result does not end with whitespace |
| `Builtins.Strip` | app/models/parser.py:32 | the result has no whitespace at either end, and it is empty exactly when the input is all whitespace |
| `Builtins.StripIsMiddle` | app/models/parser.py:32 | the input is a whitespace run, then the stripped text, then a whitespace run |
| `Builtins.StripOfPadded` | app/models/parser.py:32 | stripping any whitespace padding around a text with no edge whitespace gives back exactly that text |
| `Builtins.StripIdempotent` | app/models/parser.py:32-35 | stripping a stripped text changes nothing |
| `Builtins.Join` | app/models/parser.py:48 | `sep.join(parts)`: no parts give the empty string and one part gives that part; its content is pinned down by `JoinLength`, `JoinPartAt` and `JoinSepAt` |
| `Builtins.JoinAllSpace` | app/models/parser.py:48 | joining whitespace-only parts with a space gives a whitespace-only string |
| `Builtins.JoinLength` | app/models/parser.py:48 | the joined length is the parts' total length plus one separator between each pair of neighbours |
| `Builtins.JoinPartAt` | app/models/parser.py:48 | every part appears unchanged, in order, at its offset in the joined string |
| `Builtins.JoinSepAt` | app/models/parser.py:48 | exactly one separator stands between each pair of neighbouring parts |
| `Config.MaxFileSizeIsFiveMiB` | config.py:15 | the default cap is 5 * 1024 * 1024 = 5242880 bytes |
| `ModelsParser.StringSink.constructor` | app/models/parser.py:19 | a new `io.StringIO` sink is empty |
| `ModelsParser.StringSink.GetValue` | app/models/parser.py:32 | `getvalue()` returns the sink's buffer and changes nothing; what the buffer holds is stated by `Write` and `ExtractTextToFp` |
| `ModelsParser.StringSink.Write` | app/models/parser.py:26 | a write appends its text to the sink and reports its length |
| `ModelsParser.ExtractTextToFp` | app/models/parser.py:23-26 | after the extractor runs, the sink holds its old contents followed by all the extractor's writes in order, and the run ends as the extractor did |
| `ModelsParser.PdfResult` | app/models/parser.py:14-35 | a returned text is non-empty and has no edge whitespace; text is returned exactly when the header is present, the extractor completes and its output has a non-whitespace character; a `ValueError` is raised exactly when the header is missing, the extractor raises `PDFSyntaxError` or a `ValueError`, or it completes with all-whitespace output; any other exception exactly when the header is present and the extractor raises it |
| `ModelsParser.ParsePdf` | app/models/parser.py:14-35 | the imperative sink-based procedure gives exactly `PdfResult` of the bytes and the extractor's run on them; that the extractor's behaviour cannot affect a headerless buffer is stated by `PdfHeaderCheckedFirst` |
| `ModelsParser.PdfHeaderCheckedFirst` | app/models/parser.py:17-18 | without the `%PDF-` prefix the result is the header error, and it does not depend on what the extractor would do |
| `ModelsParser.PdfShortBufferMissesHeader` | app/models/parser.py:17-18 | any buffer shorter than 5 bytes, the empty one included, gets the header error and not the empty-text error |
| `ModelsParser.PdfSyntaxErrorMapped` | app/models/parser.py:22-30 | a `PDFSyntaxError` becomes "Corrupt PDF file: cannot extract text", whatever was written before it |
| `ModelsParser.PdfOtherErrorPropagates` | app/models/parser.py:22-30 | any other extractor exception is passed through uncaught: a `ValueError` stays a `ValueError` with the same message, anything else stays the same exception |
| `ModelsParser.PdfSuccessIsStrippedSink` | app/models/parser.py:32-35 | on success the text is exactly the stripped sink contents, and stripping it again changes nothing |
| `ModelsParser.ParseDocx` | app/models/parser.py:38-49 | an empty buffer gets "Empty DOCX file: no content provided"; text is returned exactly when the buffer is non-empty and the library opens it; a returned text has no edge whitespace and is stable under strip; a `ValueError` is raised exactly for an empty buffer, `PackageNotFoundError` or a `ValueError` of the library; any other exception exactly when the library raises it |
| `ModelsParser.DocxEmptyCheckedFirst` | app/models/parser.py:40-41 | for an empty buffer the outcome does not depend on the document library |
| `ModelsParser.DocxOpenErrorsMapped` | app/models/parser.py:42-46 | `PackageNotFoundError` becomes "Invalid or corrupt DOCX file"; a library `ValueError` passes through with its own message; any other library exception passes through uncaught |
| `ModelsParser.DocxSuccessJoinsParagraphs` | app/models/parser.py:48-49 | on success the text is the paragraph texts joined by single spaces, in document order, then stripped |
| `ModelsParser.DocxWhitespaceOnlyGivesEmpty` | app/models/parser.py:48-49 | every document whose paragraphs are all whitespace, or that has none, gives the empty string, since this path has no emptiness check |
| `ParserRouter.ExtractText` | app/routers/parser.py:8-19 | status 413 exactly when the upload exceeds `MAX_FILE_SIZE`; every other `HTTPException` is a 400; the JSON body exactly when the upload is within the cap and parsing returns; an uncaught exception exactly when parsing raises something other than `ValueError` |
| `ParserRouter.OversizeRefusedFirst` | app/routers/parser.py:9-14 | an oversize upload gets 413 with "File too large. Maximum allowed size is 5MB.", regardless of content, filename or parser |
| `ParserRouter.CapIsInclusive` | app/routers/parser.py:10 | an upload of exactly `MAX_FILE_SIZE` bytes passes the size check and reaches the parser |
| `ParserRouter.ValueErrorIsBadRequest` | app/routers/parser.py:15-18 | a `ValueError` becomes status 400 whose detail is exactly its message |
| `ParserRouter.SuccessCarriesText` | app/routers/parser.py:16-19 | a returned text is answered as `{'extracted_text': text}` with the text unchanged |
| `TestScenarios.NotAPdfScenario` | tests/test_parser.py:61-72 | `b'Not a PDF file'` gets the header error |
| `TestScenarios.EmptyPdfScenario` | tests/test_parser.py:51-58 | `b''` gets the header error, not the empty-text message; the test's pattern matches neither message |
| `TestScenarios.PdfReturnsCleanText` | app/models/parser.py:32-35 | with the header present, a completed run whose single write is non-empty with no edge whitespace returns that write unchanged |
| `TestScenarios.SmallPdfUploadScenario` | tests/test_upload.py:18-42 | a small `%PDF-` upload whose extractor writes "Test resume sample text" is answered 200 with that text, when `parse_document` hands it to `parse_pdf` |
| `TestScenarios.TooLargeUploadScenario` | tests/test_upload.py:44-59 | an upload of `MAX_FILE_SIZE + 1` bytes gets 413 with the fixed detail |

## Left out

- `parse_document` and `parse_word`: the routers and the tests import them, but
  their definitions are not part of this model. The extension dispatch and the
  Tika-based Word path therefore have no model. The router takes
  `parse_document` as a parameter.
- pdfminer, `LAParams` and python-docx internals: these are foreign libraries,
  modelled only as functions from the input bytes to their outcome.
- The `io.BytesIO` stream wrapper: the extractors receive the bytes directly.
- `compute_semantic_match` and the demo handlers (app/routers/demo.py): these
  are embedding inference, floating-point scoring and HTML templating.
- The payment stub and the app bootstrap: neither has logic to model.
- Settings loading from `.env.local`: only the default `MAX_FILE_SIZE` is kept.
- The 413 detail always says "5MB", even if the cap were configured otherwise.
  The model fixes the cap at its default, so this mismatch cannot arise in it.
- `await file.read()` and the async request handling: this is I/O. The upload
  is an input sequence.
- `ParserRouter.ExtractText`: an exception other than `ValueError` is
  modelled as `Unhandled`. The framework's conversion of it into a 500
  response is not modelled.
- `UploadFile.filename` may be `None` in the framework. The model takes it as
  a string and passes it through unchanged.

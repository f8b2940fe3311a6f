/** The `/parser/extract` endpoint: the upload size cap in front of
    `parse_document`, and the mapping of its outcome to a response. */
module ParserRouter {
  import opened Builtins
  import opened Config

  const TooLargeDetail := "File too large. Maximum allowed size is 5MB."

  /** What the handler produces: the JSON body `{'extracted_text': ...}` with
      status 200, an `HTTPException` with its status and detail, or an
      exception the handler does not catch. */
  datatype Response =
    | Json(extractedText: string)
    | HttpException(statusCode: nat, detail: string)
    | Unhandled(exception: string)

  /** `extract_text(file)` once the upload has been read into `fileBytes`,
      with `parseDocument` standing for `parse_document`. Status 413 is
      answered exactly when the upload exceeds the cap; every other
      `HTTPException` is a 400; the JSON body is produced exactly when the
      upload is within the cap and parsing returns. */
  function ExtractText(fileBytes: seq<byte>, filename: string,
                       parseDocument: (seq<byte>, string) -> Outcome<string>): (resp: Response)
    ensures (resp.HttpException? && resp.statusCode == 413) <==> |fileBytes| > MaxFileSize
    ensures resp.HttpException? ==> resp.statusCode == 413 || resp.statusCode == 400
    ensures resp.Json? <==>
              |fileBytes| <= MaxFileSize && parseDocument(fileBytes, filename).Returned?
    ensures resp.Unhandled? <==>
              |fileBytes| <= MaxFileSize && parseDocument(fileBytes, filename).RaisedOther?
  {
    if |fileBytes| > MaxFileSize then
      HttpException(413, TooLargeDetail)
    else
      match parseDocument(fileBytes, filename)
      case RaisedValueError(message) => HttpException(400, message)
      case RaisedOther(exception) => Unhandled(exception)
      case Returned(text) => Json(text)
  }

  /** An oversize upload is refused with 413 and the fixed detail, whatever
      its content, its name and whatever parsing would have done. */
  lemma OversizeRefusedFirst(fileBytes: seq<byte>, filename1: string, filename2: string,
                             parse1: (seq<byte>, string) -> Outcome<string>,
                             parse2: (seq<byte>, string) -> Outcome<string>)
    requires |fileBytes| > MaxFileSize
    ensures ExtractText(fileBytes, filename1, parse1) == ExtractText(fileBytes, filename2, parse2)
              == HttpException(413, TooLargeDetail)
  {
  }

  /** The size test is strict (`>`), so an upload of exactly `MaxFileSize`
      bytes is accepted and handed to the parser: it is refused only if
      parsing raises. */
  lemma CapIsInclusive(fileBytes: seq<byte>, filename: string,
                       parseDocument: (seq<byte>, string) -> Outcome<string>)
    requires |fileBytes| == MaxFileSize
    ensures parseDocument(fileBytes, filename).Returned? ==>
              ExtractText(fileBytes, filename, parseDocument)
                == Json(parseDocument(fileBytes, filename).value)
    ensures ExtractText(fileBytes, filename, parseDocument) != HttpException(413, TooLargeDetail)
  {
  }

  /** A `ValueError` from parsing becomes status 400 whose detail is exactly
      the error's message. */
  lemma ValueErrorIsBadRequest(fileBytes: seq<byte>, filename: string,
                               parseDocument: (seq<byte>, string) -> Outcome<string>,
                               message: string)
    requires |fileBytes| <= MaxFileSize
    requires parseDocument(fileBytes, filename) == RaisedValueError(message)
    ensures ExtractText(fileBytes, filename, parseDocument) == HttpException(400, message)
  {
  }

  /** On success the response carries the parsed text unchanged. */
  lemma SuccessCarriesText(fileBytes: seq<byte>, filename: string,
                           parseDocument: (seq<byte>, string) -> Outcome<string>,
                           text: string)
    requires |fileBytes| <= MaxFileSize
    requires parseDocument(fileBytes, filename) == Returned(text)
    ensures ExtractText(fileBytes, filename, parseDocument) == Json(text)
  {
  }
}

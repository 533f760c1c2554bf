/** The OCR handler: validation of the uploaded file against the supported image formats,
    then upload, text extraction and clean-up, each a function parameter, with every thrown
    error turned into a 500 reply carrying its message. */
module Ocr {
  import opened Wrappers
  import opened Types

  /** `SUPPORTED_FORMATS` */
  const SupportedFormats: seq<string> := ["image/png", "image/jpeg", "image/gif", "image/webp"]

  const NoFile := "No file uploaded"
  const Unsupported := "Unsupported file format. Please upload a PNG, JPEG, GIF, or WebP image."
  const NoText := "No text could be extracted"

  /** The checks before anything is stored: a file is present and its MIME type is one of the
      supported formats */
  function Validate(file: Option<UploadedFile>): (r: Result<UploadedFile>)
    ensures file.None? ==> r == Failure(NoFile)
    ensures file.Some? ==> (r.Success? <==> file.value.mimeType in SupportedFormats)
    ensures file.Some? && r.Failure? ==> r.error == Unsupported
    ensures r.Success? ==> r.value == file.value
  {
    match file
    case None => Failure(NoFile)
    case Some(f) => if f.mimeType in SupportedFormats then Success(f) else Failure(Unsupported)
  }

  /** The four image types are accepted; PDFs, which the upload form offers, are refused. */
  lemma AcceptedFormats(name: string)
    ensures Validate(Some(UploadedFile(name, "image/png"))).Success?
    ensures Validate(Some(UploadedFile(name, "image/jpeg"))).Success?
    ensures Validate(Some(UploadedFile(name, "image/gif"))).Success?
    ensures Validate(Some(UploadedFile(name, "image/webp"))).Success?
    ensures Validate(Some(UploadedFile(name, "application/pdf"))) == Failure(Unsupported)
  {
    assert SupportedFormats[0] == "image/png" && SupportedFormats[1] == "image/jpeg";
    assert SupportedFormats[2] == "image/gif" && SupportedFormats[3] == "image/webp";
    assert "application/pdf"[0] != 'i';
  }

  /** The outcome of the storage upload: the storage error's message, or success */
  datatype Upload = UploadFailed(message: string) | Uploaded

  /** The outcome of the completion request: an HTTP error with the optional
      `error.error.message`, an error thrown on the way (by `fetch`, by `response.json()`
      or by reading `data.choices[0]`) with its message, or the optional
      `choices[0].message.content` */
  datatype Extraction =
    | ExtractionFailed(failure: Option<string>)
    | Threw(message: string)
    | Extracted(content: Option<string>)

  /** The steps after validation that can throw, as a `Result` */
  function Process(file: Option<UploadedFile>, upload: UploadedFile -> Upload,
                   extract: UploadedFile -> Extraction): (r: Result<string>)
    ensures r.Success? ==> r.value != []
  {
    var f :- Validate(file);
    match upload(f)
    case UploadFailed(m) => Failure("Upload error: " + m)
    case Uploaded =>
      match extract(f)
      case ExtractionFailed(m) =>
        Failure("Failed to process document: " + (if Truthy(m) then m.value else "Unknown error"))
      case Threw(m) => Failure(m)
      case Extracted(content) => Success(if Truthy(content) then content.value else NoText)
  }

  /** The reply: the text, or status 500 with the message of the error thrown */
  function HandleOcr(file: Option<UploadedFile>, upload: UploadedFile -> Upload,
                     extract: UploadedFile -> Extraction): (r: Response)
    ensures r.status == 200 || r.status == 500
    ensures r.status == 500 <==> Process(file, upload, extract).Failure?
    ensures r.status == 500 ==> r == ErrorResponse(Process(file, upload, extract).error)
    ensures r.status == 200 ==> r.body.TextBody? && r.body.text != []
    ensures file.Some? && file.value.mimeType in SupportedFormats ==>
      upload(file.value).Uploaded? && extract(file.value).Threw? ==>
        r == ErrorResponse(extract(file.value).message)
  {
    match Process(file, upload, extract)
    case Success(text) => Response(200, TextBody(text))
    case Failure(message) => ErrorResponse(message)
  }

  /** A missing or unsupported file is refused with its message before anything is uploaded
      or sent: the reply does not depend on the storage or the completion service. */
  lemma RefusedBeforeUpload(file: Option<UploadedFile>, u1: UploadedFile -> Upload, u2: UploadedFile -> Upload,
                            e1: UploadedFile -> Extraction, e2: UploadedFile -> Extraction)
    requires file.None? || file.value.mimeType !in SupportedFormats
    ensures HandleOcr(file, u1, e1) == HandleOcr(file, u2, e2)
    ensures file.None? ==> HandleOcr(file, u1, e1) == Response(500, ErrorBody(NoFile))
    ensures file.Some? ==> HandleOcr(file, u1, e1) == Response(500, ErrorBody(Unsupported))
  {
  }

  /** A supported file whose completion has no content yields the fallback text; failures
      of the upload and of the completion carry their messages. */
  lemma OcrOutcomes(f: UploadedFile, upload: UploadedFile -> Upload, extract: UploadedFile -> Extraction)
    requires f.mimeType in SupportedFormats
    ensures upload(f).UploadFailed? ==>
      HandleOcr(Some(f), upload, extract) == ErrorResponse("Upload error: " + upload(f).message)
    ensures upload(f).Uploaded? && extract(f) == ExtractionFailed(None) ==>
      HandleOcr(Some(f), upload, extract) == ErrorResponse("Failed to process document: Unknown error")
    ensures upload(f).Uploaded? && extract(f).ExtractionFailed? && Truthy(extract(f).failure) ==>
      HandleOcr(Some(f), upload, extract) == ErrorResponse("Failed to process document: " + extract(f).failure.value)
    ensures upload(f).Uploaded? && extract(f).Threw? ==>
      HandleOcr(Some(f), upload, extract) == ErrorResponse(extract(f).message)
    ensures upload(f).Uploaded? && extract(f) == Extracted(None) ==>
      HandleOcr(Some(f), upload, extract) == Response(200, TextBody(NoText))
    ensures upload(f).Uploaded? && extract(f).Extracted? && Truthy(extract(f).content) ==>
      HandleOcr(Some(f), upload, extract) == Response(200, TextBody(extract(f).content.value))
  {
  }
}

/** `extractTextFromSource`: the source document is recognised by OCR when
    it is an image, converted when it is a DOCX file, and refused otherwise. */
module SourceText {
  import opened Wrappers
  import opened JsText
  import opened Adapters

  const UnsupportedSource := "Неподдерживаемый тип файла источника."

  datatype Route = OcrRoute | ConverterRoute | Refused

  /** The three-way test on the declared MIME type. */
  function RouteOf(mimeType: string): (r: Route)
    ensures r == OcrRoute <==> StartsWith(mimeType, "image/")
    ensures r == ConverterRoute <==> mimeType == DocxMime
    ensures r == Refused <==> !StartsWith(mimeType, "image/") && mimeType != DocxMime
  {
    assert !StartsWith(DocxMime, "image/") by {
      assert DocxMime[0] == "application/"[0] == 'a';
    }
    if StartsWith(mimeType, "image/") then OcrRoute
    else if mimeType == DocxMime then ConverterRoute
    else Refused
  }

  /** The text of the source file: the OCR result untouched for an image,
      the converter's text for a DOCX file, and the refusal for any other
      type. A failure of either collaborator is passed on unchanged. */
  function ExtractTextFromSource(file: Blob, recognize: Recognizer, convert: Converter): (r: Result<string, string>)
    ensures StartsWith(file.mimeType, "image/") ==> r == recognize(file, OcrLanguage)
    ensures file.mimeType == DocxMime ==> r == convert(file.data)
    ensures !StartsWith(file.mimeType, "image/") && file.mimeType != DocxMime ==> r == Failure(UnsupportedSource)
  {
    match RouteOf(file.mimeType)
    case OcrRoute => recognize(file, OcrLanguage)
    case ConverterRoute => convert(file.data)
    case Refused => Failure(UnsupportedSource)
  }
}

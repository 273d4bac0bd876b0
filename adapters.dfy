/** The collaborators both scripts call: the OCR engine, the DOCX-to-text
    converter and the ZIP reader, each given to the model as a function
    that returns its result or the error it throws. */
module Adapters {
  import opened Wrappers

  type Bytes = seq<bv8>

  /** A `File` or `Blob`: its bytes and its declared MIME type. */
  datatype Blob = Blob(data: Bytes, mimeType: string)

  /** `Tesseract.recognize(image, language)`: the recognised text, or the error. */
  type Recognizer = (Blob, string) -> Result<string, string>

  /** `mammoth.extractRawText({ arrayBuffer })`: the raw text, or the error. */
  type Converter = Bytes -> Result<string, string>

  /** The one OCR language both scripts use. */
  const OcrLanguage := "rus"

  /** The DOCX MIME type, written as its `application/` prefix and the
      rest, so that the proof that it does not start with `image/` reads
      only its first characters. */
  const DocxMime := "application/" + "vnd.openxmlformats-officedocument.wordprocessingml.document"
}

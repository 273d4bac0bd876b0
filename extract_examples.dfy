/** Concrete cases of the image test, the MIME type and the header rule. */
module ExtractExamples {
  import opened Wrappers
  import opened JsText
  import opened Adapters
  import opened DocxText

  /** The MIME type keeps the extension as written. */
  lemma UpperCaseExtension(path: string)
    requires path == "a.PNG"
    ensures IsImagePath(path) && ImageMime(path) == "image/PNG"
  {
    ExtensionOfShortPath(path, "PNG");
    LowerPng(AfterLastDot(path));
    ImagePathIffExtension(path);
  }

  /** The blob handed to the OCR engine carries the extension lower-cased. */
  lemma UpperCaseBlobType(path: string)
    requires path == "a.PNG"
    ensures BlobType(ImageMime(path)) == "image/png"
  {
    UpperCaseExtension(path);
    UpperBlobType("PNG");
  }

  lemma UpperBlobType(x: string)
    requires x == "PNG"
    ensures BlobType("image/" + x) == "image/png"
  {
    ImageTypeOf(x);
    LowerPng(x);
  }

  /** In "a." followed by a name without a full stop, that name is what
      follows the last full stop. */
  lemma ExtensionOfShortPath(path: string, ext: string)
    requires path == "a." + ext && '.' !in ext
    ensures AfterLastDot(path) == ext
  {
    assert path[1] == '.';
    assert path[2..] == ext;
    AfterLastDotUnique(path, |ext|);
  }

  lemma LowerPng(x: string)
    requires x == "PNG"
    ensures LowerAsciiString(x) == "png"
  {
  }

  /** A bare extension is an image path, with the extension as its subtype. */
  lemma BareExtension(path: string)
    requires path == ".jpg"
    ensures IsImagePath(path) && ImageMime(path) == "image/jpg"
  {
    assert AfterLastDot(path) == "jpg" by {
      AfterLastDotUnique(path, 3);
      assert path[1..] == "jpg";
    }
    assert LowerAsciiString("jpg") == "jpg";
    ImagePathIffExtension(path);
  }

  /** A path without a full stop is never an image, whatever it ends in. */
  lemma NoFullStop(path: string)
    requires path == "png"
    ensures !IsImagePath(path)
  {
    ImagePathIffExtension(path);
  }

  /** An image whose text is only blanks still yields an entry, the empty
      string, so the header is added. */
  lemma BlankTextIsCounted(es: seq<MediaEntry>, recognize: Recognizer)
    requires es == [MediaEntry("a.png", [])]
    requires recognize(Blob([], "image/png"), OcrLanguage) == Success("  ")
    ensures ImageTexts(es, recognize) == Success([""])
  {
    OnlyImage(es);
    BlankRecognition(es[0], recognize);
    BlanksTrimToEmpty("  ");
    RecognizeSingle(es, recognize, "  ");
  }

  lemma OnlyImage(es: seq<MediaEntry>)
    requires es == [MediaEntry("a.png", [])]
    ensures Images(es) == es
  {
    LowerCaseExtension(es[0].relativePath);
    assert es[..0] == [];
  }

  lemma BlankRecognition(e: MediaEntry, recognize: Recognizer)
    requires e == MediaEntry("a.png", [])
    requires recognize(Blob([], "image/png"), OcrLanguage) == Success("  ")
    ensures Recognize(e, recognize) == Success("  ")
  {
    ExtensionOfShortPath(e.relativePath, "png");
    PngBlobType(AfterLastDot(e.relativePath));
    assert BlobType(ImageMime(e.relativePath)) == "image/png";
  }

  lemma PngBlobType(x: string)
    requires x == "png"
    ensures BlobType("image/" + x) == "image/png"
  {
    ImageTypeOf(x);
    assert LowerAsciiString(x) == x;
  }

  lemma PngMime(path: string)
    requires path == "a.png"
    ensures ImageMime(path) == "image/png"
  {
    ExtensionOfShortPath(path, "png");
  }


  lemma RecognizeSingle(images: seq<MediaEntry>, recognize: Recognizer, x: string)
    requires |images| == 1 && Recognize(images[0], recognize) == Success(x)
    ensures RecognizeAll(images, recognize) == Success([Trim(x)])
  {
    assert images[..|images| - 1] == [];
    assert RecognizeAll(images[..|images| - 1], recognize) == Success([]);
    var none: seq<string> := [];
    assert none + [Trim(x)] == [Trim(x)];
  }

  lemma BlanksTrimToEmpty(s: string)
    requires s == "  "
    ensures Trim(s) == ""
  {
    assert IsWhiteSpace(s[0]) && IsWhiteSpace(s[1]);
    assert TrimStart(s[1..][1..]) == "";
    assert TrimStart(s[1..]) == "";
    assert TrimStart(s) == "";
  }

  lemma LowerCaseExtension(path: string)
    requires path == "a.png"
    ensures IsImagePath(path)
  {
    ExtensionOfShortPath(path, "png");
    assert LowerAsciiString("png") == "png";
    ImagePathIffExtension(path);
  }
}

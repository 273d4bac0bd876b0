/** `extractAllText`: the plain text of a DOCX file followed, when the file
    embeds images, by the OCR text of each image under `word/media`, in the
    order the folder enumerates them. The recognitions the source runs
    concurrently and joins with `Promise.all` are taken one after the other
    here; the first failing one, in enumeration order, fails the whole
    extraction. */
module DocxText {
  import opened Wrappers
  import opened JsText
  import opened Adapters

  const OnlyDocx := "Поддерживается только DOCX."
  const ImagesHeader := "\n\n--- Текст из изображений ---\n"
  const ImagesSeparator := "\n---\n"
  const ImageExtensions: seq<string> := ["png", "jpg", "jpeg", "gif", "bmp"]

  /** An entry of `zip.folder('word/media')`: its path relative to the folder and its bytes. */
  datatype MediaEntry = MediaEntry(relativePath: string, data: Bytes)

  // ---------------------------------------------------------------------
  // The extension test and the MIME type

  /** Case folding of the `i` flag on ASCII letters; no other character
      folds onto an ASCII letter without the `u` flag. */
  function LowerAscii(c: char): char {
    if 'A' <= c <= 'Z' then (c as int + 32) as char else c
  }

  function LowerAsciiString(s: string): (r: string)
    ensures |r| == |s| && forall i :: 0 <= i < |s| ==> r[i] == LowerAscii(s[i])
  {
    seq(|s|, i requires 0 <= i < |s| => LowerAscii(s[i]))
  }

  /** The characters that fold onto a lower-case ASCII letter are that
      letter and its capital, and no others. */
  lemma LowerAsciiMatches(c: char, l: char)
    requires 'a' <= l <= 'z'
    ensures LowerAscii(c) == l <==> c == l || c == (l as int - 32) as char
  {
  }

  /** `s` ends in `suffix`, ignoring the case of ASCII letters. */
  predicate EndsWithIgnoringCase(s: string, suffix: string) {
    |suffix| <= |s| && LowerAsciiString(s[|s| - |suffix|..]) == LowerAsciiString(suffix)
  }

  /** `/\.(png|jpg|jpeg|gif|bmp)$/i`. */
  predicate IsImagePath(path: string) {
    exists e :: e in ImageExtensions && EndsWithIgnoringCase(path, "." + e)
  }

  /** `path.split('.').pop()`: what follows the last full stop, or the whole
      path when it has none. */
  function AfterLastDot(path: string): string {
    if |path| == 0 then ""
    else if path[|path| - 1] == '.' then ""
    else AfterLastDot(path[..|path| - 1]) + [path[|path| - 1]]
  }

  /** What follows the last full stop is a suffix without a full stop,
      preceded by one unless it is the whole path. */
  lemma {:induction false} AfterLastDotIsLastPart(path: string)
    ensures var r := AfterLastDot(path);
      |r| <= |path| && r == path[|path| - |r|..] && '.' !in r &&
      (|r| == |path| || path[|path| - |r| - 1] == '.')
  {
    if |path| > 0 && path[|path| - 1] != '.' {
      AfterLastDotIsLastPart(path[..|path| - 1]);
    }
  }

  /** A suffix without a full stop, preceded by one, is what follows the last full stop. */
  lemma {:induction false} AfterLastDotUnique(path: string, n: nat)
    requires n < |path| && path[|path| - n - 1] == '.'
    requires '.' !in path[|path| - n..]
    ensures AfterLastDot(path) == path[|path| - n..]
  {
    if n > 0 {
      var init := path[..|path| - 1];
      assert init[|init| - (n - 1)..] == path[|path| - n..|path| - 1];
      assert init[|init| - (n - 1) - 1] == '.';
      AfterLastDotUnique(init, n - 1);
    }
  }

  /** `'image/' + relativePath.split('.').pop()`, case preserved. */
  function ImageMime(path: string): string {
    "image/" + AfterLastDot(path)
  }

  /** The extension test and the MIME type agree: a path passes the test
      exactly when it has a full stop and what follows its last one is one
      of the five extensions in some mix of cases, which the MIME type then
      carries as written. */
  lemma ImagePathIffExtension(path: string)
    ensures IsImagePath(path) <==> '.' in path && LowerAsciiString(AfterLastDot(path)) in ImageExtensions
  {
    if IsImagePath(path) {
      var e: string :| e in ImageExtensions && EndsWithIgnoringCase(path, "." + e);
      ExtensionIsAfterLastDot(path, e);
    }
    if '.' in path && LowerAsciiString(AfterLastDot(path)) in ImageExtensions {
      ExtensionMakesImagePath(path);
    }
  }

  lemma ExtensionMakesImagePath(path: string)
    requires '.' in path && LowerAsciiString(AfterLastDot(path)) in ImageExtensions
    ensures IsImagePath(path)
  {
    var ext := AfterLastDot(path);
    AfterLastDotIsLastPart(path);
    var tail := DotBeforeLastPart(path, ext);
    LowerDotThen(tail, ext);
  }

  /** A path with a full stop ends in a full stop and what follows the last one. */
  lemma DotBeforeLastPart(path: string, ext: string) returns (tail: string)
    requires '.' in path && '.' !in ext
    requires |ext| <= |path| && ext == path[|path| - |ext|..]
    requires |ext| == |path| || path[|path| - |ext| - 1] == '.'
    ensures |ext| < |path| && tail == path[|path| - |ext| - 1..] && tail == ['.'] + ext
  {
    if |ext| == |path| {
      assert false;
    }
    tail := path[|path| - |ext| - 1..];
  }

  lemma LowerDotThen(tail: string, ext: string)
    requires tail == ['.'] + ext
    ensures LowerAsciiString(tail) == "." + LowerAsciiString(ext)
  {
  }

  lemma ExtensionIsAfterLastDot(path: string, e: string)
    requires e in ImageExtensions && EndsWithIgnoringCase(path, "." + e)
    ensures '.' in path && LowerAsciiString(AfterLastDot(path)) == e
  {
    var n := |e|;
    var dotted := path[|path| - n - 1..];
    DotThenLowered(dotted, e);
    ExtensionLetters(e);
    NoDotFoldsOntoLetters(dotted[1..], e);
    assert dotted[1..] == path[|path| - n..];
    assert path[|path| - n - 1] == '.';
    AfterLastDotUnique(path, n);
  }

  /** A string that folds onto a full stop and `e` is a full stop and what folds onto `e`. */
  lemma DotThenLowered(s: string, e: string)
    requires LowerAsciiString(s) == "." + e
    ensures |s| == |e| + 1 && s[0] == '.' && LowerAsciiString(s[1..]) == e
  {
    assert LowerAscii(s[0]) == '.';
    assert forall i :: 0 <= i < |e| ==> LowerAscii(s[1..][i]) == e[i];
  }

  /** A string that folds onto letters holds no full stop. */
  lemma NoDotFoldsOntoLetters(s: string, e: string)
    requires LowerAsciiString(s) == e
    requires forall i :: 0 <= i < |e| ==> 'a' <= e[i] <= 'z'
    ensures '.' !in s
  {
    forall i | 0 <= i < |s| ensures s[i] != '.' {
      assert LowerAscii(s[i]) == e[i];
    }
  }

  // ---------------------------------------------------------------------
  // One trimmed recognition per image, in enumeration order

  /** The entries that pass the extension test, in enumeration order. */
  function Images(es: seq<MediaEntry>): (r: seq<MediaEntry>)
    ensures |r| <= |es|
  {
    if |es| == 0 then []
    else if IsImagePath(es[|es| - 1].relativePath) then Images(es[..|es| - 1]) + [es[|es| - 1]]
    else Images(es[..|es| - 1])
  }

  lemma {:induction false} ImagesAppend(a: seq<MediaEntry>, b: seq<MediaEntry>)
    ensures Images(a + b) == Images(a) + Images(b)
    decreases |b|
  {
    if |b| == 0 {
      assert a + b == a;
    } else {
      assert (a + b)[..|a + b| - 1] == a + b[..|b| - 1];
      ImagesAppend(a, b[..|b| - 1]);
    }
  }

  /** An entry is kept exactly when it is one of the entries and passes the extension test. */
  lemma {:induction false} ImagesMembers(es: seq<MediaEntry>, e: MediaEntry)
    ensures e in Images(es) <==> e in es && IsImagePath(e.relativePath)
  {
    if |es| > 0 {
      assert es == es[..|es| - 1] + [es[|es| - 1]];
      ImagesMembers(es[..|es| - 1], e);
    }
  }

  /** The type the `Blob` constructor records for the `type` it is given:
      that string lower-cased in ASCII, or the empty string when it holds a
      character outside U+0020..U+007E. */
  function BlobType(t: string): string {
    if forall i :: 0 <= i < |t| ==> ' ' <= t[i] <= '~' then LowerAsciiString(t) else ""
  }

  /** The five extensions are written in lower-case ASCII letters. */
  lemma ExtensionLetters(x: string)
    requires x in ImageExtensions
    ensures forall i :: 0 <= i < |x| ==> 'a' <= x[i] <= 'z'
  {
  }

  /** An image path's MIME type reaches the OCR engine lower-cased: the
      engine sees `image/` followed by one of the five extensions, whatever
      the case of the path. */
  lemma ImageBlobType(path: string)
    requires IsImagePath(path)
    ensures LowerAsciiString(AfterLastDot(path)) in ImageExtensions
    ensures BlobType(ImageMime(path)) == "image/" + LowerAsciiString(AfterLastDot(path))
  {
    ImagePathIffExtension(path);
    var x := AfterLastDot(path);
    ExtensionLetters(LowerAsciiString(x));
    FoldsOntoLetters(x);
    ImageTypeOf(x);
  }

  /** A string that lower-cases to ASCII letters is printable. */
  lemma FoldsOntoLetters(x: string)
    requires forall i :: 0 <= i < |x| ==> 'a' <= LowerAsciiString(x)[i] <= 'z'
    ensures forall i :: 0 <= i < |x| ==> ' ' <= x[i] <= '~'
  {
    forall i | 0 <= i < |x| ensures ' ' <= x[i] <= '~' {
      LowerAsciiMatches(x[i], LowerAsciiString(x)[i]);
    }
  }

  /** A printable subtype keeps `image/` and is lower-cased. */
  lemma ImageTypeOf(x: string)
    requires forall i :: 0 <= i < |x| ==> ' ' <= x[i] <= '~'
    ensures BlobType("image/" + x) == "image/" + LowerAsciiString(x)
  {
    var m := "image/" + x;
    assert forall i :: 6 <= i < |m| ==> m[i] == x[i - 6];
    assert LowerAsciiString(m) == "image/" + LowerAsciiString(x);
  }

  /** `Tesseract.recognize(new Blob([bytes], { type }), 'rus')`. */
  function Recognize(e: MediaEntry, recognize: Recognizer): Result<string, string> {
    recognize(Blob(e.data, BlobType(ImageMime(e.relativePath))), OcrLanguage)
  }

  /** `Promise.all` over the recognitions of `images`, each text trimmed,
      taken in order: the first failing recognition is the result. */
  function RecognizeAll(images: seq<MediaEntry>, recognize: Recognizer): Result<seq<string>, string> {
    if |images| == 0 then Success([])
    else
      match RecognizeAll(images[..|images| - 1], recognize)
      case Failure(m) => Failure(m)
      case Success(ts) =>
        match Recognize(images[|images| - 1], recognize)
        case Failure(m) => Failure(m)
        case Success(x) => Success(ts + [Trim(x)])
  }

  /** What `extractImagesAndOCR` resolves to: the recognitions of the images among `es`. */
  function ImageTexts(es: seq<MediaEntry>, recognize: Recognizer): Result<seq<string>, string> {
    RecognizeAll(Images(es), recognize)
  }

  /** Once a prefix of the images has failed, the whole list fails with the same error. */
  lemma {:induction false} FailureIsFinal(images: seq<MediaEntry>, n: nat, recognize: Recognizer)
    requires n <= |images| && RecognizeAll(images[..n], recognize).Failure?
    ensures RecognizeAll(images, recognize) == RecognizeAll(images[..n], recognize)
    decreases |images| - n
  {
    if n < |images| {
      assert images[..n + 1][..n] == images[..n];
      FailureIsFinal(images, n + 1, recognize);
    } else {
      assert images[..n] == images;
    }
  }

  /** There is a result list exactly when every recognition succeeds. */
  lemma RecognizeAllSucceeds(images: seq<MediaEntry>, recognize: Recognizer)
    ensures RecognizeAll(images, recognize).Success? <==>
      forall k :: 0 <= k < |images| ==> Recognize(images[k], recognize).Success?
  {
    if RecognizeAll(images, recognize).Success? {
      SuccessMeansEach(images, recognize);
    } else {
      FailureMeansOne(images, recognize);
    }
  }

  lemma {:induction false} SuccessMeansEach(images: seq<MediaEntry>, recognize: Recognizer)
    requires RecognizeAll(images, recognize).Success?
    ensures forall k :: 0 <= k < |images| ==> Recognize(images[k], recognize).Success?
  {
    if |images| > 0 {
      var init := images[..|images| - 1];
      SuccessMeansEach(init, recognize);
      assert Recognize(images[|images| - 1], recognize).Success?;
      forall k | 0 <= k < |init| ensures Recognize(images[k], recognize).Success? {
        assert images[k] == init[k];
      }
    }
  }

  lemma {:induction false} FailureMeansOne(images: seq<MediaEntry>, recognize: Recognizer)
    requires RecognizeAll(images, recognize).Failure?
    ensures exists k :: 0 <= k < |images| && Recognize(images[k], recognize).Failure?
  {
    var init := images[..|images| - 1];
    if RecognizeAll(init, recognize).Failure? {
      FailureMeansOne(init, recognize);
      var k :| 0 <= k < |init| && Recognize(init[k], recognize).Failure?;
      assert images[k] == init[k];
    } else {
      assert Recognize(images[|images| - 1], recognize).Failure?;
    }
  }

  /** There is a result list exactly when the recognition of every entry
      that passes the extension test succeeds. */
  lemma ImageTextsSucceeds(es: seq<MediaEntry>, recognize: Recognizer)
    ensures ImageTexts(es, recognize).Success? <==>
      forall e :: e in es && IsImagePath(e.relativePath) ==> Recognize(e, recognize).Success?
  {
    var images := Images(es);
    RecognizeAllSucceeds(images, recognize);
    forall e ensures e in images <==> e in es && IsImagePath(e.relativePath) {
      ImagesMembers(es, e);
    }
  }

  /** The result list holds one trimmed text per image, in order. */
  lemma {:induction false} RecognizeAllValues(images: seq<MediaEntry>, recognize: Recognizer)
    requires RecognizeAll(images, recognize).Success?
    ensures var ts := RecognizeAll(images, recognize).value;
      |ts| == |images| &&
      forall k :: 0 <= k < |ts| ==>
        Recognize(images[k], recognize).Success? && ts[k] == Trim(Recognize(images[k], recognize).value)
  {
    if |images| > 0 {
      var init := images[..|images| - 1];
      UnfoldSuccess(images, recognize);
      RecognizeAllValues(init, recognize);
      var ts, out := RecognizeAll(init, recognize).value, RecognizeAll(images, recognize).value;
      forall k | 0 <= k < |out|
        ensures Recognize(images[k], recognize).Success? && out[k] == Trim(Recognize(images[k], recognize).value)
      {
        if k < |init| {
          assert images[k] == init[k] && out[k] == ts[k];
        }
      }
    }
  }

  /** A successful list is the successful list of all but the last image, and the last one's trimmed text. */
  lemma UnfoldSuccess(images: seq<MediaEntry>, recognize: Recognizer)
    requires |images| > 0 && RecognizeAll(images, recognize).Success?
    ensures var init, last := images[..|images| - 1], images[|images| - 1];
      RecognizeAll(init, recognize).Success? && Recognize(last, recognize).Success? &&
      RecognizeAll(images, recognize).value == RecognizeAll(init, recognize).value + [Trim(Recognize(last, recognize).value)]
  {
  }

  /** A failed list failed before its last image, or at it. */
  lemma UnfoldFailure(images: seq<MediaEntry>, recognize: Recognizer)
    requires |images| > 0 && RecognizeAll(images, recognize).Failure?
    ensures var init, last := images[..|images| - 1], images[|images| - 1];
      (RecognizeAll(init, recognize).Failure? && RecognizeAll(images, recognize) == RecognizeAll(init, recognize)) ||
      (RecognizeAll(init, recognize).Success? && Recognize(last, recognize) == Failure(RecognizeAll(images, recognize).error))
  {
  }

  /** The result list holds as many texts as there are images. */
  lemma ImageTextsCount(es: seq<MediaEntry>, recognize: Recognizer)
    requires ImageTexts(es, recognize).Success?
    ensures |ImageTexts(es, recognize).value| == |Images(es)|
  {
    RecognizeAllValues(Images(es), recognize);
  }

  /** A failure is the error of the first image whose recognition fails,
      all those before it having succeeded. */
  lemma {:induction false} RecognizeAllFirstFailure(images: seq<MediaEntry>, recognize: Recognizer)
    requires RecognizeAll(images, recognize).Failure?
    ensures exists i :: 0 <= i < |images| &&
                        Recognize(images[i], recognize) == Failure(RecognizeAll(images, recognize).error) &&
                        RecognizeAll(images[..i], recognize).Success?
  {
    var init := images[..|images| - 1];
    var err := RecognizeAll(images, recognize).error;
    UnfoldFailure(images, recognize);
    if RecognizeAll(init, recognize).Failure? {
      RecognizeAllFirstFailure(init, recognize);
      var i :| 0 <= i < |init| &&
        Recognize(init[i], recognize) == Failure(err) &&
        RecognizeAll(init[..i], recognize).Success?;
      FirstFailureOfInit(images, init, i, err, recognize);
    } else {
      assert images[..|images| - 1] == init;
    }
  }

  lemma FirstFailureOfInit(images: seq<MediaEntry>, init: seq<MediaEntry>, i: nat, err: string, recognize: Recognizer)
    requires |images| > 0 && init == images[..|images| - 1] && i < |init|
    requires Recognize(init[i], recognize) == Failure(err) && RecognizeAll(init[..i], recognize).Success?
    ensures Recognize(images[i], recognize) == Failure(err) && RecognizeAll(images[..i], recognize).Success?
  {
    assert init[..i] == images[..i] && init[i] == images[i];
  }

  /** The loop of `extractImagesAndOCR`: walk the entries, recognise each
      image and keep its trimmed text, stopping at the first failure. */
  method CollectImageTexts(entries: seq<MediaEntry>, recognize: Recognizer) returns (r: Result<seq<string>, string>)
    ensures r == ImageTexts(entries, recognize)
  {
    var texts: seq<string> := [];
    var i := 0;
    while i < |entries|
      invariant 0 <= i <= |entries|
      invariant RecognizeAll(Images(entries[..i]), recognize) == Success(texts)
    {
      var e := entries[i];
      assert entries[..i + 1][..i] == entries[..i];
      if IsImagePath(e.relativePath) {
        var x := Recognize(e, recognize);
        if x.Failure? {
          ImagesThenFailure(entries, i, recognize);
          return Failure(x.error);
        }
        texts := texts + [Trim(x.value)];
      }
      i := i + 1;
    }
    assert entries[..i] == entries;
    r := Success(texts);
  }

  /** A failing image at `i` decides the result when all images before it succeeded. */
  lemma ImagesThenFailure(entries: seq<MediaEntry>, i: nat, recognize: Recognizer)
    requires i < |entries| && IsImagePath(entries[i].relativePath)
    requires RecognizeAll(Images(entries[..i]), recognize).Success?
    requires Recognize(entries[i], recognize).Failure?
    ensures ImageTexts(entries, recognize) == Failure(Recognize(entries[i], recognize).error)
  {
    var pre := Images(entries[..i + 1]);
    FailureAfterPrefix(entries, i, recognize);
    ImagesPrefix(entries, i + 1);
    FailingPrefix(Images(entries), pre, recognize);
  }

  /** The images up to and including the failing one already fail. */
  lemma FailureAfterPrefix(entries: seq<MediaEntry>, i: nat, recognize: Recognizer)
    requires i < |entries| && IsImagePath(entries[i].relativePath)
    requires RecognizeAll(Images(entries[..i]), recognize).Success?
    requires Recognize(entries[i], recognize).Failure?
    ensures RecognizeAll(Images(entries[..i + 1]), recognize) == Failure(Recognize(entries[i], recognize).error)
  {
    ImagesSnoc(entries, i);
    RecognizeAllThenFailure(Images(entries[..i]), entries[i], recognize);
  }

  /** A failing prefix decides the whole list. */
  lemma FailingPrefix(images: seq<MediaEntry>, pre: seq<MediaEntry>, recognize: Recognizer)
    requires pre <= images && RecognizeAll(pre, recognize).Failure?
    ensures RecognizeAll(images, recognize) == RecognizeAll(pre, recognize)
  {
    assert images[..|pre|] == pre;
    FailureIsFinal(images, |pre|, recognize);
  }

  /** The images among one more entry. */
  lemma ImagesSnoc(es: seq<MediaEntry>, i: nat)
    requires i < |es|
    ensures IsImagePath(es[i].relativePath) ==> Images(es[..i + 1]) == Images(es[..i]) + [es[i]]
    ensures !IsImagePath(es[i].relativePath) ==> Images(es[..i + 1]) == Images(es[..i])
  {
    assert es[..i + 1][..i] == es[..i];
  }

  /** The images among a prefix of the entries are a prefix of the images. */
  lemma ImagesPrefix(es: seq<MediaEntry>, n: nat)
    requires n <= |es|
    ensures Images(es[..n]) <= Images(es)
  {
    SplitAt(es, n);
    ImagesOfConcat(es, es[..n], es[n..]);
  }

  lemma ImagesOfConcat(es: seq<MediaEntry>, a: seq<MediaEntry>, b: seq<MediaEntry>)
    requires es == a + b
    ensures Images(a) <= Images(es)
  {
    ImagesAppend(a, b);
    PrefixOfConcat(Images(a), Images(b));
  }

  lemma SplitAt<T>(x: seq<T>, n: nat)
    requires n <= |x|
    ensures x == x[..n] + x[n..]
  {
  }

  lemma PrefixOfConcat<T>(x: seq<T>, y: seq<T>)
    ensures x <= x + y
  {
    assert (x + y)[..|x|] == x;
  }

  lemma RecognizeAllThenFailure(images: seq<MediaEntry>, last: MediaEntry, recognize: Recognizer)
    requires RecognizeAll(images, recognize).Success? && Recognize(last, recognize).Failure?
    ensures RecognizeAll(images + [last], recognize) == Failure(Recognize(last, recognize).error)
  {
    var all := images + [last];
    assert all[..|all| - 1] == images && all[|all| - 1] == last;
  }

  // ---------------------------------------------------------------------
  // The assembled text

  /** `extractAllText`: only the DOCX type is accepted; the ZIP is opened and
      its `word/media` entries listed, then the converter's raw text is
      taken, then the images are recognised. Each of the three steps can
      fail, and the first failure is the result. */
  method ExtractAllText(file: Blob, openZip: Bytes -> Result<seq<MediaEntry>, string>,
                        convert: Converter, recognize: Recognizer) returns (r: Result<string, string>)
    ensures file.mimeType != DocxMime ==> r == Failure(OnlyDocx)
    ensures file.mimeType == DocxMime && openZip(file.data).Failure? ==> r == Failure(openZip(file.data).error)
    ensures file.mimeType == DocxMime && openZip(file.data).Success? && convert(file.data).Failure? ==>
      r == Failure(convert(file.data).error)
    ensures file.mimeType == DocxMime && openZip(file.data).Success? && convert(file.data).Success? ==>
      var entries := openZip(file.data).value;
      var raw := convert(file.data).value;
      var images := ImageTexts(entries, recognize);
      (images.Failure? ==> r == Failure(images.error)) &&
      (images.Success? ==>
        r.Success? && StartsWith(r.value, raw) &&
        (|Images(entries)| == 0 ==> r.value == raw) &&
        (|Images(entries)| > 0 ==> r.value == raw + ImagesHeader + Join(images.value, ImagesSeparator)))
  {
    if file.mimeType != DocxMime {
      return Failure(OnlyDocx);
    }
    var zip := openZip(file.data);
    if zip.Failure? {
      return Failure(zip.error);
    }
    var converted := convert(file.data);
    if converted.Failure? {
      return Failure(converted.error);
    }
    var text := converted.value;
    var imageTexts := CollectImageTexts(zip.value, recognize);
    if imageTexts.Failure? {
      return Failure(imageTexts.error);
    }
    ImageTextsCount(zip.value, recognize);
    if |imageTexts.value| > 0 {
      text := text + ImagesHeader + Join(imageTexts.value, ImagesSeparator);
    }
    assert text[..|converted.value|] == converted.value;
    r := Success(text);
  }
}

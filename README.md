# Contract filler: field extraction, slot binding and DOCX text assembly

A browser tool reads a source document (an image or a DOCX file), turns it
into text, pulls five contract fields out of that text with fixed regular
expressions, and writes them into the yellow-highlighted runs of a DOCX
template. A second page extracts the whole text of a DOCX file, followed by
the OCR text of every image embedded in it.

This project models the logic of those steps in Dafny and proves what they
guarantee:

- `JsText` — the JavaScript notions the rules rely on: the ASCII `\d`,
  `\w` and `\b` of a regular expression without the `u` flag, the Cyrillic
  ranges `[А-Я]` and `[а-я]`, the white-space set of `\s` and
  `String.prototype.trim`, the case folding of the `i` flag on Cyrillic
  letters, and `Array.prototype.join`.
- `FieldRules` — `parseData`. Each of the four regular expressions is a
  matcher started at one position, next to a declarative predicate saying
  what a match is, with a lemma that the two agree; `FirstMatch` takes the
  first start position, from the left, at which the pattern matches, as
  `String.prototype.match` does.
- `FieldExamples` — the rules on concrete texts.
- `Adapters` — the byte and blob types, the DOCX MIME type, the OCR language,
  and the function types that stand for the OCR engine and the DOCX-to-text
  converter.
- `SourceText` — `extractTextFromSource`, the three-way dispatch on the MIME
  type.
- `SlotBinding` — `generateDocx` up to the rewritten ZIP: the slots are
  collected in document order and the Nth of the first five receives the Nth
  field. The runs of `word/document.xml` live in an array that two loops
  read and update in place; both loops are proved against a specification
  on sequences.
- `SlotExamples` — a binding of three slots around a plain run.
- `DocxText` — `extractAllText` and `extractImagesAndOCR`: the DOCX-only
  check, the extension test, the MIME type of each image, the ordered list
  of trimmed recognitions with first-failure abort, and the final text.
- `ExtractExamples` — the extension test and the header rule on concrete
  entries.

The OCR engine (Tesseract), the DOCX-to-text converter (mammoth), the ZIP
reader (PizZip) and the XML parser and serializer (DOMParser,
XMLSerializer) are parameters of the operations that use them. The OCR
engine, the converter and the ZIP reader are functions to a `Result`, so
each of them may fail and the model says what happens then; the parser and
the serializer are total functions between the bytes of
`word/document.xml` and its runs.

The image section of `extractAllText` is added whenever at least one image
was recognised (extract.js:43), even when every trimmed text is blank: the
test is on the number of results, not on their contents.

The type of the blob handed to the OCR engine is the one the `Blob`
constructor records: the string `'image/' + extension` lower-cased in ASCII
(it is dropped altogether when it holds a character outside U+0020 to
U+007E, which cannot happen for a path that passed the extension test).

## Model

| member | source | states |
|---|---|---|
| JsText.CyrillicUpper | script.js:92 | under the `i` flag a character folds onto an upper-case letter of А-Я exactly when it is a letter of А-Я or а-я or one of U+1C80 to U+1C86 |
| JsText.Trim | script.js:93 | `String.prototype.trim`; specified by `TrimIsTrimOf`: the slice of the input left after cutting white space, and only white space, from both ends |
| JsText.TrimStartCuts | script.js:93 | what is kept is a suffix of the input that does not start with white space, and everything cut off is white space |
| JsText.TrimEndCuts | script.js:93 | what is kept is a prefix of the input that does not end with white space, and everything cut off is white space |
| JsText.TrimStartThenEnd | script.js:93 | cutting white space from the front and then from the back leaves a slice cut from white space at both ends, with no white space at either end |
| JsText.TrimIsTrimOf | script.js:93 | `trim` neither starts nor ends with white space and is a slice of the input from which only white space was cut at each end |
| JsText.Join | extract.js:44 | `Array.prototype.join`; specified by `JoinAppend`: the parts in order with one separator between neighbours |
| JsText.JoinAppend | extract.js:44 | joining two non-empty lists laid end to end is joining each and putting one separator between them |
| FieldRules.CostAt | script.js:88 | the cost pattern tried at one start position; a match it reports satisfies `IsCostAt`, and `CostAtIff` gives the converse |
| FieldRules.FioAt | script.js:80 | the full-name pattern tried at one start position; a match it reports satisfies `IsFioAt`, and `FioAtIff` gives the converse |
| FieldRules.AddressAt | script.js:84 | the address pattern tried at one start position; a match it reports satisfies `IsAddressAt`, and `AddressAtIff` gives the converse |
| FieldRules.PropertyAt | script.js:92 | the lookbehind, lazy span and lookahead tried at one start position; a match it reports ends within the text, and `PropertyAtIff` characterises it |
| FieldRules.CostAtIff | script.js:88 | the cost matcher started at `s` ends at `e` exactly when `t[s..e]` is one or more digits, a comma and two digits |
| FieldRules.NameEnd | script.js:80 | a name found at `x` is one letter of А-Я and one or more of а-я, and the run of small letters is taken to its end |
| FieldRules.FioAtIff | script.js:80 | the full-name matcher ends at `e` exactly when three names separated by single white-space characters span `s..e`, the last one taking all its small letters |
| FieldRules.FioSplitFound | script.js:80 | three names split by single white-space characters are what the full-name matcher finds |
| FieldRules.AddressAtIff | script.js:84 | the address matcher ends at `e` exactly when `t[s..e]` is "г.", all the white space that follows and all the Cyrillic letters after it |
| FieldRules.StopAtIff | script.js:92 | the lookahead holds at `q` exactly when "стоимость" between word boundaries, in any case, or a cost number starts there |
| FieldRules.LazyEnd | script.js:92 | the lazy span ends at a position where the lookahead holds, having passed no position where it holds and no line terminator |
| FieldRules.LazyEndReaches | script.js:92 | when the first stop after `p` comes before any line terminator, the lazy span ends at that stop |
| FieldRules.PropertyAtIff | script.js:92 | the property matcher ends at `q` exactly when `s` follows "адрес" between word boundaries, in any case, and `q` is the first stop from `s` with no line terminator before it |
| FieldRules.MatchAtIff | script.js:80-92 | each of the four matchers finds exactly the matches its predicate describes |
| FieldRules.FirstMatch | script.js:80-92 | the attempt found is the first that succeeded, every earlier attempt failed, and none is found only when every attempt failed |
| FieldRules.Span | script.js:80-92 | the span found is a match of the pattern started at its start |
| FieldRules.SpanIsFirstMatch | script.js:80-92 | `match` returns the leftmost match, and returns none only when the pattern matches nowhere |
| FieldRules.FirstMatchIsSpan | script.js:80-92 | a leftmost match is the span `match` returns |
| FieldRules.SpanIsMatch | script.js:80-92 | the span `match` returns satisfies the pattern's predicate |
| FieldRules.MatchAtStart | script.js:80-92 | a match starting at the beginning of the text is the span, and the matched text is that prefix |
| FieldRules.MatchedEmptyIffNoMatch | script.js:80-89 | for full name, address and cost the field is "" exactly when the pattern does not match |
| FieldRules.Matched | script.js:80-89 | `match(...)[0]` or `''`; specified by `MatchAtStart` and `MatchedEmptyIffNoMatch`: the text of the leftmost match, and "" only when there is none |
| FieldRules.Fio | script.js:80-81 | the full-name field; `FioWholeName` and `MatchedEmptyIffNoMatch` pin it down on a whole name and on no match |
| FieldRules.Address | script.js:84-85 | the address field; `AddressHasNoStreet` gives its shape: "г." then nothing past a full stop |
| FieldRules.Cost | script.js:88-89 | the cost field; `CostIsMaximal` gives its shape: a maximal digit run, the only comma, two digits |
| FieldRules.Property | script.js:92-93 | the trimmed property field; `PropertyIsTrimmedLine` gives its shape: a trimmed single line cut from the match |
| FieldRules.ParseData | script.js:76-99 | each field is its own rule applied to the whole text, the property trimmed, and the signature is always "" |
| FieldRules.CostIsMaximal | script.js:88-89 | the cost's digit run is not preceded by a digit and ends at the only comma of the match |
| FieldRules.AddressHasNoStreet | script.js:84-85 | a non-empty address starts with "г." and holds no other full stop, so the street group never contributes |
| FieldRules.AddressSplitShape | script.js:84 | an address match starts with "г." and holds no full stop after it |
| FieldRules.PropertyIsTrimmedLine | script.js:92-93 | the property is the matched span with white space cut from both ends only, holds no line terminator and has no white space at either end |
| FieldRules.TrimmedLine | script.js:93 | trimming a text without line terminators gives one without them and without white space at either end |
| FieldRules.SpanHasNoLineTerminator | script.js:92 | the property span holds no line terminator, since `.` does not match one |
| FieldRules.TrimOfLineIsLine | script.js:93 | a trimmed slice of a text without line terminators has none |
| FieldRules.PropertyNeedsAsciiNeighbours | script.js:92 | a property span exists only where "адрес" is directly preceded and followed by an ASCII word character |
| FieldRules.MarkerNeedsAsciiNeighbours | script.js:92 | "адрес" between word boundaries needs an ASCII word character on each side |
| FieldExamples.CostWholeNumber | script.js:88-89 | the cost of "1500,00" is "1500,00" |
| FieldExamples.CostTwoDecimals | script.js:88-89 | the cost of "12,345" is "12,34": exactly two digits are taken after the comma |
| FieldExamples.FioWholeName | script.js:80-81 | the full name of "Иванов Иван Иванович" is the whole text |
| FieldExamples.ContractLineAddress | script.js:84-85 | the address of "г. Москва ул. Ленина 10 стоимость 1500,00" is "г. Москва" |
| FieldExamples.ContractLineCost | script.js:88-89 | the cost of "г. Москва ул. Ленина 10 стоимость 1500,00" is "1500,00" |
| FieldExamples.NoCostBefore | script.js:88 | no cost starts before the amount of that line, not even at the house number "10" |
| FieldExamples.PropertyBetweenMarkers | script.js:92-93 | the property of "xадресy 1500,00" is "y" |
| FieldExamples.PropertyFirstAtSix | script.js:92 | the property span of "xадресy 1500,00" is 6..8 |
| SourceText.RouteOf | script.js:62-72 | an image type goes to OCR, exactly the DOCX type goes to the converter, and every other type is refused |
| SourceText.ExtractTextFromSource | script.js:61-73 | an image yields the OCR result untrimmed, a DOCX file the converter's result, anything else the refusal message; collaborator failures pass through |
| SlotBinding.IsSlot | script.js:125 | the XPath filter `w:rPr/w:highlight/@w:val="yellow"`; `SlotPositions` and `SlotPositionsComplete` show that exactly the runs it admits are collected |
| SlotBinding.SlotPositions | script.js:124-128 | the collected positions are in range, are slots, and are strictly increasing |
| SlotBinding.SlotPositionsComplete | script.js:125 | every slot is collected |
| SlotBinding.SlotPositionsPrefix | script.js:125-128 | the slots of a prefix of the runs are a prefix of the slots |
| SlotBinding.RankedSlot | script.js:140 | a slot's index in the collected list is the number of slots before it |
| SlotBinding.SlotHasRank | script.js:140 | the Kth collected slot has exactly K slots before it |
| SlotBinding.Fill | script.js:142-145 | only the first text node changes, to the value; a run without text nodes is left as it is |
| SlotBinding.Bound | script.js:139-147 | binding keeps the number of runs, every highlight, every count of text nodes and every text node after the first |
| SlotBinding.BoundSlot | script.js:139-145 | the Kth slot, for K below five, gets `data[keys[K]]` in its first text node, with keys fio, property, address, cost, signature |
| SlotBinding.BoundLeavesLaterSlots | script.js:141 | slots from the sixth on are left unchanged |
| SlotBinding.BoundLeavesOthers | script.js:140-147 | every run that is not one of the first five slots is left unchanged |
| SlotBinding.CollectSlots | script.js:124-128 | the loop over the runs collects exactly the slot positions, in document order |
| SlotBinding.FillSlots | script.js:139-147 | the in-place loop leaves the array equal to the bound runs |
| SlotBinding.FillStep | script.js:139-145 | one turn of the loop fills the slot of that rank and changes no other run |
| SlotBinding.FilledAll | script.js:139-147 | once every rank has been visited the runs are the bound runs |
| SlotBinding.GenerateDocx | script.js:109-154 | a ZIP failure passes through, a template without `word/document.xml` fails with its message, otherwise only that part is replaced, by the serialization of the bound runs |
| SlotExamples.ThreeSlots | script.js:139-147 | three slots read "A", "B", "C"; a plain run whose text is "A" and a second text node of a slot are untouched |
| SlotExamples.ThreeSlotPositions | script.js:124-128 | the slots of that template are its runs 0, 2 and 3 |
| DocxText.LowerAsciiMatches | extract.js:58 | under the `i` flag a character folds onto a lower-case ASCII letter exactly when it is that letter or its capital |
| DocxText.IsImagePath | extract.js:58 | the extension regular expression: a full stop and one of five extensions at the end, in any case; `ImagePathIffExtension` characterises it by the text after the last full stop |
| DocxText.AfterLastDot | extract.js:59 | `split('.').pop()`; specified by `AfterLastDotIsLastPart` and `AfterLastDotUnique` |
| DocxText.ImageMime | extract.js:59 | `'image/'` followed by the text after the last full stop, case kept; `UpperCaseExtension` and `BareExtension` show it on concrete paths |
| DocxText.BlobType | extract.js:59 | the type the `Blob` constructor records; `ImageBlobType` gives its value for image paths |
| DocxText.ImageBlobType | extract.js:58-59 | for a path that passes the extension test, the OCR engine sees "image/" followed by one of png, jpg, jpeg, gif or bmp in lower case |
| DocxText.FoldsOntoLetters | extract.js:58-59 | a string whose ASCII fold is all lower-case letters is printable ASCII |
| DocxText.ImageTypeOf | extract.js:59 | a printable ASCII subtype reaches the blob as "image/" followed by the subtype lower-cased |
| DocxText.Recognize | extract.js:59-60 | one recognition, of the entry's bytes under the blob type, in Russian; `RecognizeAllValues` and `RecognizeAllFirstFailure` say how its results make up the list |
| DocxText.RecognizeAll | extract.js:60-64 | `Promise.all` of the trimmed recognitions; specified by `RecognizeAllSucceeds`, `RecognizeAllValues` and `RecognizeAllFirstFailure` |
| DocxText.ImageTexts | extract.js:53-65 | what `extractImagesAndOCR` resolves to; specified by `ImageTextsSucceeds`, `ImageTextsCount` and `ImagesThenFailure` |
| DocxText.AfterLastDotIsLastPart | extract.js:59 | `split('.').pop()` is a suffix without a full stop, preceded by one unless it is the whole path |
| DocxText.AfterLastDotUnique | extract.js:59 | a suffix without a full stop that follows one is what comes after the last full stop |
| DocxText.ImagePathIffExtension | extract.js:58-59 | a path passes the extension test exactly when it has a full stop and the text after the last one is png, jpg, jpeg, gif or bmp in some mix of cases |
| DocxText.ExtensionIsAfterLastDot | extract.js:58-59 | a matching extension is the text after the last full stop |
| DocxText.ExtensionMakesImagePath | extract.js:58-59 | a path whose text after the last full stop is one of the extensions passes the test |
| DocxText.Images | extract.js:57-58 | filtering never adds entries |
| DocxText.ImagesAppend | extract.js:57-58 | filtering a concatenation is concatenating the filtered parts, so order is kept |
| DocxText.ImagesMembers | extract.js:57-58 | an entry is kept exactly when it is one of the entries and passes the test |
| DocxText.ImagesSnoc | extract.js:57-58 | one more entry adds itself to the images exactly when it passes the test |
| DocxText.ImagesPrefix | extract.js:57-58 | the images among a prefix of the entries are a prefix of the images |
| DocxText.FailureIsFinal | extract.js:64 | once one recognition has failed, the whole result is that failure |
| DocxText.RecognizeAllThenFailure | extract.js:64 | a failing recognition after succeeding ones is the result |
| DocxText.RecognizeAllSucceeds | extract.js:60-64 | all recognitions together succeed exactly when each one does |
| DocxText.SuccessMeansEach | extract.js:60-64 | when all together succeed, each recognition succeeded |
| DocxText.FailureMeansOne | extract.js:60-64 | when all together fail, some recognition failed |
| DocxText.ImageTextsSucceeds | extract.js:57-64 | there is a result list exactly when the recognition of every entry that passes the extension test succeeds |
| DocxText.RecognizeAllValues | extract.js:60-64 | the Kth result is the trimmed text of the Kth image, in enumeration order, and there is one per image |
| DocxText.ImageTextsCount | extract.js:57-64 | the result list has one entry per image |
| DocxText.RecognizeAllFirstFailure | extract.js:60-64 | a failure is the error of the first image, in enumeration order, whose recognition fails, all earlier ones having succeeded |
| DocxText.ImagesThenFailure | extract.js:57-64 | an image whose recognition fails after every earlier image succeeded decides the result |
| DocxText.CollectImageTexts | extract.js:53-65 | the loop over the entries computes the ordered list of trimmed recognitions, or the first failure |
| DocxText.ExtractAllText | extract.js:32-51 | a non-DOCX file fails with its message; ZIP, converter and OCR failures pass through in that order; otherwise the converter text is a prefix of the result, equals it when there is no image, and is followed by the header and the joined results when there is at least one |
| ExtractExamples.UpperCaseExtension | extract.js:58-59 | "a.PNG" is an image path with MIME type "image/PNG" |
| ExtractExamples.UpperCaseBlobType | extract.js:59 | the blob made for "a.PNG" has type "image/png" |
| ExtractExamples.BareExtension | extract.js:58-59 | ".jpg" is an image path with MIME type "image/jpg" |
| ExtractExamples.NoFullStop | extract.js:58 | "png" is not an image path |
| ExtractExamples.LowerCaseExtension | extract.js:58 | "a.png" is an image path |
| ExtractExamples.PngMime | extract.js:59 | the MIME type of "a.png" is "image/png" |
| ExtractExamples.BlankTextIsCounted | extract.js:60-64 | an image whose recognised text is blank contributes one empty entry, so the header is still added |
| ExtractExamples.BlanksTrimToEmpty | extract.js:60 | two spaces trim to the empty string |

## Left out

- DOM and event wiring, `populateForm`, `FormData` and `showStatus` (script.js:1-59, 101-107, 164-167; extract.js:1-30, 67-71): user-interface plumbing.
- The module state `extractedData` (script.js:12, 32) is assigned only by the event handlers, which are not modelled.
- Tesseract, mammoth and PizZip are function parameters; what text they produce from the bytes is not modelled.
- DOMParser and XMLSerializer are the `parse` and `serialize` parameters of `GenerateDocx`; the markup is seen only as its sequence of runs, so XML fidelity and malformed markup are not modelled.
- The XPath namespace resolver (script.js:130-136) is folded into the run model: a run's highlight value is the `w:val` it carries.
- `zip.generate` and `saveAs` (script.js:156-161): producing and downloading the blob is I/O; `GenerateDocx` returns the updated map of parts.
- `Promise.all` and async scheduling (extract.js:64): the recognitions are taken one after the other, so when several fail the error reported is that of the first in enumeration order, whereas `Promise.all` reports the first to fail in time.
- `zip.folder('word/media')` always yields a folder in PizZip; the `openZip` parameter of `ExtractAllText` returns its entries directly, so the `if (mediaFolder)` test (extract.js:56) has no false branch here.
- Strings are sequences of Unicode code points, whereas JavaScript strings are UTF-16 code units; this makes no difference for the Basic Multilingual Plane characters the rules test.
- Only the case folding the comparisons need is modelled: Cyrillic letters for "адрес" and "стоимость", ASCII letters for the extensions.

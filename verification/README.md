# Document pipeline of the ML service, in Dafny

This project models the core of the ML service of `document-pipeline`. Given a
document's raw bytes and its MIME type, the service classifies the document
with a zero-shot text classifier. For PDFs and images it also returns OCR
results with text bounding boxes. The model covers:

- **Routing** (`Pipeline`, pipeline.py). The MIME type is lower-cased:
  - exactly `application/pdf` is rasterised and OCR'd page by page;
  - an `image/` prefix is decoded and OCR'd as one page;
  - a `text/` prefix or any unknown type is decoded as UTF-8, with Latin-1 as the fallback.
- **The two entry points.** `classify_document` returns a prediction.
  `classify_and_ocr_document` returns a prediction and an optional OCR result.
  Both apply the degenerate-input policy: whitespace-only text gives
  `("unknown", 0.0)` and no classifier call.
- **The PDF and image OCR paths.**
  - Pages are numbered from 0, each with its own pixel size, OCR text and boxes.
  - The full text is the blank-line join of the non-empty page texts.
  - Box detection that is absent or raises only empties that page's boxes.
- **`ClassifierService.classify`** (`Classifier`): the whitespace guard,
  truncation to 10 000 characters, and the top entry of the model's ranking.
- **`OCRService`** (`Ocr`): decoding only the generated continuation and
  stripping it; multi-image extraction in order, joining the non-empty texts.
- **`BBoxExtractor`** (`BBox`): polygon to axis-aligned rectangle, skipping
  empty detector entries, and the device-name mapping used at load time.
- **`Settings.get_candidate_labels`** (`Config`): split on `,` and strip each
  piece, plus the default label string.
- **The PDF page limit** (`PdfConverter`): `min(page count, max_pages)` pages,
  in document order.
- **Support modules.**
  - `Text` models the Python string operations the code relies on: `strip`,
    `lower`, `startswith`, slicing, `join`, `split` and `isspace`.
  - `Codec` models strict UTF-8 and Latin-1 decoding.

Every external component is a function-typed parameter of the model: the
zero-shot model, the OCR model, the text detector, the PDF rasteriser and the
image decoder. The zero-shot model, the detector, the rasteriser and the image
decoder each return a `Result`, so an exception they raise propagates as a
`Failure`. The OCR model has three parts: the prompt length (an `Option`), the
generation (a `Result`) and the tokenizer's decoding (a plain function).
Failures at any OCR stage, including the processor's and `tokenizer.decode`'s,
are folded into a failed generation. The outcome and the single OCR call
logged are the same either way.

Every operation returns a `Run`: its outcome together with the ordered log of
calls it made into those components. Statements such as "the classifier is
never invoked" or "OCR runs once per page, in order" are therefore ordinary
postconditions about `Run.calls`.

Files:
- `wrappers.dfy`: `Option`, `Result`.
- `adapters.dfy`: images, errors, the call log.
- `schemas.dfy`: the OCR records.
- `text.dfy`, `codec.dfy`, `config.dfy`, `classifier.dfy`, `ocr.dfy`,
  `bbox.dfy`, `pdf_converter.dfy`, `pipeline.dfy`: one module per source
  component.
- `pipeline_properties.dfy`: properties that relate several pipeline
  operations.

## Model

| member | source | states |
|---|---|---|
| Pipeline.ClassifyDocument | ml-service/app/pipeline.py:31-41 | A failed extraction propagates with its calls. Blank extracted text gives `Unknown` and no classifier call. Otherwise the result is the classifier's result on exactly that text, after one ranking call on its first 10 000 characters. |
| Pipeline.ClassifyAndOcrDocument | ml-service/app/pipeline.py:43-64 | `application/pdf` (any case) goes to the PDF path and `image/*` to the image path. Every other type gives no OCR result and makes no visual call, whether or not the text is blank: blank text gives `Unknown` with no call; otherwise exactly one ranking call, and the classifier's outcome. Any OCR result returned is well formed. |
| Pipeline.RouteOf | ml-service/app/pipeline.py:52-57 | The route depends only on the lower-cased type (`Text.StartsWith` is `str.startswith`): PDF exactly for `application/pdf`, image exactly for an `image/` prefix, and text for everything else. The three cases are disjoint and cover every type. |
| Pipeline.ExtractText | ml-service/app/pipeline.py:135-149 | Its routing, with the `text/` test first, agrees with the classification routing: text-routed types decode the bytes with no external call; the PDF type gives `_extract_from_pdf`; `image/` gives `_extract_from_image`. It never calls the classifier. |
| Pipeline.ExtractFromPdf | ml-service/app/pipeline.py:157-163 | One render call, then OCR of the first pages in order. The text equals `extract_text_from_images` of those pages (`""` when there are none). A render failure propagates. |
| Pipeline.ExtractFromImage | ml-service/app/pipeline.py:165-167 | One decode call, then one OCR call on the decoded image. A decode failure propagates. |
| Pipeline.DetectBlocks | ml-service/app/pipeline.py:118-133 | Never fails. With no extractor: no blocks and no call. With an extractor that raises: no blocks. Otherwise: one block per box, in order, each with empty text, the box unchanged and no confidence. |
| Pipeline.OcrPages | ml-service/app/pipeline.py:75-87 | The page loop succeeds exactly when every page's OCR succeeds. A failure reports the first failing page's error. |
| Pipeline.OcrPagesValue | ml-service/app/pipeline.py:78-87 | On success there is one page per image, in order, numbered from the start index. Each page has the image's size, the OCR text of that image and its detected blocks. |
| Pipeline.OcrPagesCalls | ml-service/app/pipeline.py:78-83 | Once detector calls are set aside, the loop makes exactly the OCR calls of `extract_text_from_images` on the same pages. |
| Pipeline.OcrPagesNeverRank | ml-service/app/pipeline.py:78-87 | The page loop never calls the classifier. |
| Pipeline.OcrDocument | ml-service/app/pipeline.py:75-89 | The OCR half of the PDF path succeeds iff every page's OCR succeeds. On success: pages are numbered `0..n-1` with stripped texts, one per image; `fullText` is the blank-line join of the non-empty page texts, equal to `extract_text_from_images`. No classifier call. |
| Pipeline.ClassifyOcr | ml-service/app/pipeline.py:89-94 | A blank full text keeps the pages, empties the full text, gives `Unknown` and makes no call. Otherwise the classifier's outcome is paired with the OCR result. |
| Pipeline.ClassifyPdfWithOcr | ml-service/app/pipeline.py:66-94 | Render first; a render failure propagates. Zero pages give `Unknown` with no OCR result. Otherwise the OCR half, then the classification half, with their calls in that order. |
| Pipeline.ImageOcr | ml-service/app/pipeline.py:99-110 | A one-page OCR result: page 0, the image's size, the OCR text as both page text and full text, and the detected blocks. It is well formed. |
| Pipeline.ClassifyImageWithOcr | ml-service/app/pipeline.py:96-116 | Decode first; a decode failure propagates. A successful result always carries the one-page OCR result. The classifier runs only on non-blank text. |
| PipelineProperties.PdfRouteAgrees | ml-service/app/pipeline.py:54-94 | On the PDF route the two entry points agree on success, prediction and error. Their calls agree once detector calls are set aside. |
| PipelineProperties.ImageRouteAgrees | ml-service/app/pipeline.py:56-116 | The same agreement on the image route. |
| PipelineProperties.ClassifyOperationsAgree | ml-service/app/pipeline.py:31-64 | For every input, `classify_document` and `classify_and_ocr_document` agree on outcome, prediction and error. Their calls agree apart from detection. |
| PipelineProperties.ClassifyDocumentIgnoresExtractor | ml-service/app/pipeline.py:31-41 | `classify_document` gives the same run whatever box extractor is configured. |
| PipelineProperties.ExtractorNeverChangesPrediction | ml-service/app/pipeline.py:118-133 | Whatever the extractor (absent, succeeding or raising), `classify_and_ocr_document` has the same outcome, prediction and error, and the same non-detection calls. |
| PipelineProperties.PdfWithoutOcr | ml-service/app/pipeline.py:69-73 | Zero rendered pages give `Unknown` with no OCR result, and that is the only way the PDF path returns no OCR result. A page whose OCR raises fails the request. |
| PipelineProperties.PdfPages | ml-service/app/pipeline.py:75-87 | A PDF OCR result has `0 < n <= ocr_max_pdf_pages` pages, one per rendered page. Page `i` has index `i`, that image's width and height, that image's OCR text (even when empty) and its boxes. |
| PipelineProperties.PdfTextAndPrediction | ml-service/app/pipeline.py:79-94 | `fullText` is the blank-line join of the non-empty page texts and equals `extract_text_from_images`. When blank it is `""`, the prediction is `Unknown` and nothing was ranked. Otherwise the prediction is the classifier's on exactly that text, and the last call ranks it. |
| PipelineProperties.ImageOcrShape | ml-service/app/pipeline.py:96-116 | A successful image request carries exactly one page: index 0, the decoded size, the OCR text and the boxes; the full text is the same text. Blank text gives `Unknown` with no ranking call; otherwise the classifier's prediction on that text. |
| PipelineProperties.RoutingIgnoresCase | ml-service/app/pipeline.py:52-57 | A MIME type and its lower-cased form route alike and give identical runs of both entry points. |
| PipelineProperties.UnknownTypesDecodeAsText | ml-service/app/pipeline.py:147-149 | Any type that is neither the PDF type nor `image/*` is handled exactly as `text/plain`. |
| PipelineProperties.RoutingExamples | ml-service/app/pipeline.py:52-57 | `APPLICATION/PDF` routes to PDF, `Image/PNG` to image, and `application/json` and `application/pdfa` to text. |
| Codec.DecodeText | ml-service/app/pipeline.py:151-155 | Total. When the bytes are valid UTF-8, re-encoding the result as UTF-8 gives the bytes back. Otherwise the result maps each byte to the character with that code point. |
| Codec.DecodeTextOfUtf8 | ml-service/app/pipeline.py:151-153 | Text that arrived UTF-8 encoded decodes to exactly that text. |
| Codec.DecodeEncodeUtf8 | ml-service/app/pipeline.py:153 | UTF-8 decoding inverts UTF-8 encoding for every string. |
| Codec.EncodeDecodeUtf8 | ml-service/app/pipeline.py:153 | Whatever the strict decoder accepts re-encodes to the same bytes: no overlong forms or surrogates are accepted. |
| Codec.Latin1Lossless | ml-service/app/pipeline.py:155 | The Latin-1 fallback loses no byte. |
| Codec.DecodeLatin1 | ml-service/app/pipeline.py:155 | `bytes.decode("latin-1")`: one character per byte; `Latin1Lossless` shows it keeps each byte's value. |
| Codec.DecodeUtf8 | ml-service/app/pipeline.py:153 | `bytes.decode("utf-8")`, with `None` for `UnicodeDecodeError`: a successful decoding has at most one character per byte, and non-empty input never decodes to nothing. `EncodeDecodeUtf8` and `DecodeEncodeUtf8` make it the exact inverse of UTF-8 encoding. |
| Codec.AsciiDecodesAlike | ml-service/app/pipeline.py:151-155 | On ASCII bytes, UTF-8 and Latin-1 decoding agree. |
| Codec.DecodeTextNotInjective | ml-service/app/pipeline.py:151-155 | The fallback makes decoding lossy overall: the bytes C3 A9 and E9 both decode to "é". |
| Classifier.Classify | ml-service/app/services/classifier.py:53-60 | Whitespace-only text gives `("unknown", 0.0)` and no model call. Otherwise there is one model call on `text[:10000]`, with the labels unchanged and `multi_label=False`. A non-empty ranking always gives its first label and score. An empty label or score list gives `EmptyRanking`, the `IndexError` of `[0]`. A model failure propagates. |
| Classifier.ModelInputIsBoundedPrefix | ml-service/app/services/classifier.py:7-57 | The model's input is a prefix of the text of length `min(len(text), 10000)`. |
| Classifier.TruncationIdempotent | ml-service/app/services/classifier.py:53-57 | Classifying a text and classifying its first 10 000 characters give the same run, unless only that prefix is blank. |
| Classifier.BlankPrefixReachesModel | ml-service/app/services/classifier.py:53-57 | The guard looks at the whole text. A non-blank text whose first 10 000 characters are whitespace is sent to the model as whitespace only; its truncation alone would be answered `unknown`. |
| Classifier.BlankPrefixWitness | ml-service/app/services/classifier.py:53-57 | Such a text exists: 10 000 spaces followed by `x`. |
| Classifier.LabelIsCandidate | ml-service/app/services/classifier.py:57-60 | If the model only ranks the labels it was given, the returned label is a candidate or `unknown`. |
| Ocr.ExtractText | ml-service/app/services/ocr.py:56-71 | One model call per image. The result is stripped, and it succeeds exactly when generation does. The tokens decoded are those from `input_len` on (`Ocr.InputLength`: the prompt width, or 0 without `input_ids`). |
| Ocr.ExtractTextSkipsPrompt | ml-service/app/services/ocr.py:66-71 | When generation echoes the prompt, only the continuation is decoded, then stripped. |
| Ocr.ExtractTextWithoutPrompt | ml-service/app/services/ocr.py:67-71 | Without `input_ids` the whole generation is decoded, then stripped. |
| Ocr.ExtractTextPastEnd | ml-service/app/services/ocr.py:67-71 | A generation no longer than `input_len` decodes no tokens. The text is then `""` whenever the tokenizer decodes no tokens to `""`. |
| Ocr.ExtractAll | ml-service/app/services/ocr.py:82-87 | It succeeds iff every image's generation succeeds. On success: one OCR call per image in list order, and the i-th text is that image's extraction. On failure: the first failing image's error. |
| Ocr.ExtractAllStopsAtFirstFailure | ml-service/app/services/ocr.py:83-85 | A failing run stops at the first failing image. Every image before it, and that image, were sent once each and in order; no later image was. |
| Ocr.ExtractTextFromImages | ml-service/app/services/ocr.py:82-88 | The result is the `"\n\n"` join of the non-empty per-image texts. It is stripped, and it is empty iff every text is empty (so `""` for no images). The calls are those of the per-image loop. |
| Text.Strip | ml-service/app/services/ocr.py:71 | `strip()` leaves no whitespace at either end, never lengthens, and gives `""` exactly for whitespace-only input. |
| Text.StripCharacterization | ml-service/app/services/ocr.py:71 | Independent characterisation: whatever sits between a whitespace-only prefix and suffix and has no whitespace at either end is what `strip()` returns. |
| Text.StripIdempotent | ml-service/app/services/ocr.py:71 | Stripping twice is stripping once. |
| Text.NonEmptyCounts | ml-service/app/services/ocr.py:86-87 | The `if text:` filter keeps every non-empty text as many times as it occurs. |
| Text.NonEmptyAppend | ml-service/app/services/ocr.py:83-87 | The filter distributes over concatenation, so relative order is preserved. |
| Text.JoinStripped | ml-service/app/services/ocr.py:86-88 | Joining non-empty stripped texts gives a stripped string whose first character is that of the first text. |
| Text.SplitJoin | ml-service/app/config.py:37 | `split(",")` undoes a join when no piece contains the separator. |
| Text.Split | ml-service/app/config.py:37 | `str.split(sep)`: one piece per separator plus one, no piece contains the separator, and joining the pieces with the separator gives the input back. |
| Text.JoinEnds | ml-service/app/services/ocr.py:88 | `sep.join(parts)` of a non-empty list starts with the first part and ends with the last. |
| Text.JoinSnocLength | ml-service/app/services/ocr.py:88 | Joining one more part adds that part's length and one separator's to the joined length. |
| Text.Take | ml-service/app/services/classifier.py:56 | `s[:n]`: the prefix of `s` of length `min(|s|, n)`. |
| Text.Drop | ml-service/app/services/ocr.py:69 | `s[n:]`: what follows the first `n` elements, so that the two pieces give `s` back, and nothing once `n` reaches the end. |
| Text.NonEmpty | ml-service/app/services/ocr.py:86-87 | The `if text:` filter keeps only non-empty texts and never adds any. It is empty exactly when every text is empty; with `NonEmptyCounts` and `NonEmptyAppend` it keeps each non-empty text, in order. |
| Text.Lower | ml-service/app/pipeline.py:52 | `str.lower()` on ASCII: same length, no capital letter left, and every other character unchanged. |
| Config.GetCandidateLabels | ml-service/app/config.py:35-37 | Label i is the i-th comma-separated piece after `strip()`. There is one label per comma plus one, and every label is stripped. |
| Config.LabelsOfPieces | ml-service/app/config.py:37 | Parsing the comma join of comma-free pieces gives one label per piece, in order, each piece stripped whatever whitespace it carries. |
| Config.SpacesAroundCommasRemoved | ml-service/app/config.py:37 | `"x , y"` parses to `[x, y]` for any stripped, comma-free `x` and `y`; for example `"invoice , contract"` gives `["invoice", "contract"]`. |
| Config.LabelsRoundTrip | ml-service/app/config.py:37 | For a string without whitespace, joining the labels with `,` gives the string back. |
| Config.LabelsOfJoin | ml-service/app/config.py:37 | Parsing the join of comma- and whitespace-free labels gives exactly those labels. |
| Config.EmptyPiecesKept | ml-service/app/config.py:37 | `"a,,b"` gives `["a", "", "b"]`: empty pieces are kept. |
| Config.DuplicatePiecesKept | ml-service/app/config.py:37 | `"a,a"` gives `["a", "a"]`: duplicates are kept. |
| Config.EmptyStringGivesOneLabel | ml-service/app/config.py:37 | `""` gives `[""]`, not an empty list. |
| Config.DefaultLabels | ml-service/app/config.py:27-29 | The default setting yields the ten labels invoice … manual, in order. |
| BBox.PaddleDevice | ml-service/app/services/bbox_extractor.py:33 | `"cuda"` maps to `"gpu"`; every other name, `"cpu"` included, passes through. |
| BBox.PaddleDeviceNormalises | ml-service/app/services/bbox_extractor.py:33 | The detector is never handed `"cuda"`, and the mapping is idempotent. |
| BBox.DefaultDeviceIsGpu | ml-service/app/config.py:30 | The default device `"cuda"` loads the detector on `"gpu"`. |
| BBox.Min | ml-service/app/services/bbox_extractor.py:69-72 | `xs.min()` of a non-empty list: no element is smaller, and it is one of the elements. |
| BBox.Max | ml-service/app/services/bbox_extractor.py:71-72 | `xs.max()` of a non-empty list: no element is larger, and it is one of the elements. |
| BBox.PolygonToBox | ml-service/app/services/bbox_extractor.py:65-73 | A polygon without vertices raises. Otherwise width and height are `>= 0` and every vertex lies in the rectangle. |
| BBox.PolygonBoxIsSmallest | ml-service/app/services/bbox_extractor.py:65-73 | Every axis-aligned rectangle enclosing the polygon contains its rectangle, so the rectangle is the min/max box. |
| BBox.PolygonBoxOfBounds | ml-service/app/services/bbox_extractor.py:69-72 | When the extreme coordinates `x0..x1`, `y0..y1` are attained by vertices, the rectangle is `(x0, y0, x1 - x0, y1 - y0)`. |
| BBox.PolygonBoxPermutationInvariant | ml-service/app/services/bbox_extractor.py:65-73 | Reordering the vertices leaves the rectangle unchanged. |
| BBox.PolygonToBoxExample | ml-service/app/services/bbox_extractor.py:64-74 | `[[10,20],[100,20],[100,50],[10,50]]` gives `(10, 20, 90, 30)`. |
| BBox.DegeneratePolygonHasZeroWidth | ml-service/app/services/bbox_extractor.py:71-72 | Width can be 0: a polygon on a vertical line. |
| BBox.BoxesOf | ml-service/app/services/bbox_extractor.py:64-74 | One rectangle per polygon of an entry, in order. It fails with the empty-polygon error iff some polygon has no vertices. |
| BBox.DetectBoxes | ml-service/app/services/bbox_extractor.py:59-75 | One rectangle per polygon over all entries, ordered by entry and then by position, so the count is the total polygon count. It fails iff some polygon has no vertices. |
| BBox.EmptyEntriesContributeNothing | ml-service/app/services/bbox_extractor.py:60-63 | Entries whose polygons are missing or empty contribute nothing; an empty output gives no boxes. `BBox.EntryPolygons` reads `res.get("dt_polys")`, giving no polygons when it is `None`. |
| BBox.Detect | ml-service/app/services/bbox_extractor.py:56-75 | One detector call. A detector failure propagates; otherwise the rectangles of its output. |
| PdfConverter.PageLimit | ml-service/app/services/pdf_converter.py:29 | `min(page count, max_pages)`, and no page when `max_pages` is negative. |
| PdfConverter.DefaultPageLimit | ml-service/app/config.py:32 | With the default `ocr_max_pdf_pages` of 10, at most ten pages are rendered: `min(page count, 10)`. |
| PdfConverter.PdfBytesToImages | ml-service/app/services/pdf_converter.py:64-77 | One render call. A failure propagates; otherwise the first `min(page count, max_pages)` pages in document order. |

## Left out

- The HTTP layer and model loading (`main.py`) are not part of this model: routes, lifespan, readiness and the 503/500 mapping.
- Base64 decoding is left out: the pipeline is modelled from the decoded bytes on.
- `PIL.Image.open(...).convert("RGB")`, the PyMuPDF rasteriser, the zero-shot pipeline, GOT-OCR2 generation and PaddleOCR `predict` are function-typed parameters. Their internals are library code. This includes dtype and device handling, `stop_strings`, `max_new_tokens` and the DPI zoom.
- Logging, metrics and correlation ids are side effects only and are not modelled.
- The mock service is not modelled: its outputs are random.
- Confidences and box coordinates are opaque `real` values. Float conversion (`float(...)`, `BoundingBox(**box)`) is the identity on the integer coordinates the detector reports.
- Classifier.Classify: returns the 2-tuple `(label, score)` that the code returns. The tests expect a score map that neither `classify` nor the pipeline produces, so no `scores` field is modelled.
- BBox.PolygonToBox: promises width and height `>= 0`, as the code computes them. The mock service's test (docker/mock-ml-service/test_main.py:105-106) asserts strictly positive sizes for its random boxes. The real detector gives width 0 for a degenerate polygon (see `BBox.DegeneratePolygonHasZeroWidth`).
- Text.Lower: lower-cases ASCII letters only. The routing compares the result with `application/pdf`, `image/` and `text/`, which are ASCII. The only non-ASCII characters whose Python `lower()` is an ASCII letter are U+0130 (to "i" plus a combining dot, so never a match) and U+212A KELVIN SIGN (to "k", which no target contains). So routing is unaffected.
- Text.Strip: whitespace is the fixed set of characters for which Python's `str.isspace` holds. Unicode database versions are not modelled.
- Classifier.TruncationIdempotent: requires that the first 10 000 characters are not blank unless the whole text is. Without that requirement the property fails: a text blank only in its first 10 000 characters reaches the model, while its truncation is answered `unknown` (see `Classifier.BlankPrefixReachesModel`).
- The two PDF converter functions render the same pages; `pdf_bytes_to_images_with_dims` also pairs each image with its pixel size, which `Image` already carries. They are modelled as one function.
- Exceptions are modelled as `Failure` values that propagate to the caller. The code catches exceptions in two places. `_decode_text` catches `UnicodeDecodeError` and falls back to Latin-1 (the `None` branch of `Codec.DecodeUtf8` in `Codec.DecodeText`). `_detect_blocks` catches every exception of `detect_boxes`: the detector's own failures, and the `ValueError` of an empty polygon (`EmptyPolygon`). Both give empty blocks.
- Ocr.ExtractText: the tokenizer is a parameter, and nothing requires it to decode no tokens to `""`. A generation that ends at the prompt therefore gives the stripped decoding of no tokens, which is `""` only for such a tokenizer (see `Ocr.ExtractTextPastEnd`).

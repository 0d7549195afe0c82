/**
  `DocumentPipeline`: MIME routing, per-page OCR with bounding boxes, the
  degenerate-input policy, and the shape of the classification and OCR
  results. Content arrives as raw bytes (after base64 decoding).
 */
module Pipeline {
  import opened Wrappers
  import opened Text
  import opened Codec
  import opened Adapters
  import opened Schemas
  import opened Classifier
  import opened Ocr
  import opened BBox
  import opened PdfConverter

  /** `Image.open(...).convert("RGB")`; bytes it cannot read raise. */
  type ImageDecoder = seq<Byte> -> Result<Image, Error>

  datatype DocumentPipeline = DocumentPipeline(
    classifier: ZeroShotModel,
    ocr: OcrModel,
    candidateLabels: seq<string>,
    ocrMaxPdfPages: int,
    bboxExtractor: Option<TextDetector>,
    renderPdf: PdfRasterizer,
    decodeImage: ImageDecoder)

  /** The `(label, score, ocr)` triple of `classify_and_ocr_document`. */
  datatype Classified = Classified(prediction: Prediction, ocr: Option<OcrResult>)

  const PdfMime: string := "application/pdf"
  const TextPrefix: string := "text/"
  const ImagePrefix: string := "image/"

  datatype Route = TextRoute | PdfRoute | ImageRoute

  /** The routing decision, on the lower-cased MIME type: exactly
      "application/pdf" is a PDF, an "image/" prefix is an image, anything
      else (a "text/" prefix or an unrecognised type) is decoded as text. */
  function RouteOf(mimeType: string): (r: Route)
    ensures r == PdfRoute <==> Lower(mimeType) == PdfMime
    ensures r == ImageRoute <==> StartsWith(Lower(mimeType), ImagePrefix)
    ensures r == TextRoute <==> Lower(mimeType) != PdfMime && !StartsWith(Lower(mimeType), ImagePrefix)
  {
    var m := Lower(mimeType);
    assert !StartsWith(PdfMime, ImagePrefix) by {
      assert PdfMime[..|ImagePrefix|][0] != ImagePrefix[0];
    }
    if m == PdfMime then PdfRoute
    else if StartsWith(m, ImagePrefix) then ImageRoute
    else TextRoute
  }

  /** The texts of the pages, in page order. */
  function PageTexts(pages: seq<OcrPage>): (texts: seq<string>)
    ensures |texts| == |pages| && forall i | 0 <= i < |pages| :: texts[i] == pages[i].text
  {
    seq(|pages|, i requires 0 <= i < |pages| => pages[i].text)
  }

  /** The shape every OCR result has: pages numbered from 0 in document
      order, each page's text stripped, and `fullText` the non-empty page
      texts joined with a blank line. */
  predicate WellFormedOcr(r: OcrResult) {
    && (forall i | 0 <= i < |r.pages| :: r.pages[i].pageIndex == i && IsStripped(r.pages[i].text))
    && r.fullText == Join(PageSeparator, NonEmpty(PageTexts(r.pages)))
  }

  /** Attach an OCR result to a classifier outcome. */
  function WithOcr(r: Result<Prediction, Error>, ocr: OcrResult): (c: Result<Classified, Error>)
    ensures c.Success? <==> r.Success?
    ensures c.Success? ==> c.value == Classified(r.value, Some(ocr))
    ensures c.Failure? ==> c.error == r.error
  {
    match r
    case Success(p) => Success(Classified(p, Some(ocr)))
    case Failure(e) => Failure(e)
  }

  /** `_detect_blocks`: one detection-only block per rectangle, or no blocks
      at all when there is no extractor or the extractor raises. It never fails. */
  function DetectBlocks(p: DocumentPipeline, image: Image): (run: Run<seq<TextBlock>>)
    ensures run.result.Success?
    ensures p.bboxExtractor.None? ==> run == Run(Success([]), [])
    ensures p.bboxExtractor.Some? ==> run.calls == [DetectCall(image)]
    ensures p.bboxExtractor.Some? && Detect(p.bboxExtractor.value, image).result.Failure? ==>
      run.result.value == []
    ensures p.bboxExtractor.Some? && Detect(p.bboxExtractor.value, image).result.Success? ==>
      var boxes := Detect(p.bboxExtractor.value, image).result.value;
      && |run.result.value| == |boxes|
      && forall i | 0 <= i < |boxes| :: run.result.value[i] == TextBlock("", boxes[i], None)
  {
    match p.bboxExtractor
    case None => Run(Success([]), [])
    case Some(detector) =>
      var detected := Detect(detector, image);
      match detected.result
      case Failure(_) => Run(Success([]), detected.calls)
      case Success(boxes) =>
        Run(Success(seq(|boxes|, i requires 0 <= i < |boxes| => TextBlock("", boxes[i], None))), detected.calls)
  }

  /** `calls` with the detector calls left out. */
  function WithoutDetections(calls: seq<Call>): (r: seq<Call>)
    ensures forall i | 0 <= i < |r| :: !r[i].DetectCall?
    ensures (forall i | 0 <= i < |calls| :: !calls[i].DetectCall?) ==> r == calls
  {
    if calls == [] then []
    else
      var rest := WithoutDetections(calls[1..]);
      assert calls == [calls[0]] + calls[1..];
      if calls[0].DetectCall? then rest else [calls[0]] + rest
  }

  lemma {:induction false} WithoutDetectionsAppend(a: seq<Call>, b: seq<Call>)
    ensures WithoutDetections(a + b) == WithoutDetections(a) + WithoutDetections(b)
    decreases |a|
  {
    if a == [] {
      assert a + b == b;
    } else {
      assert (a + b)[1..] == a[1..] + b;
      WithoutDetectionsAppend(a[1..], b);
    }
  }

  /** The page record the loop of `_classify_pdf_with_ocr` builds for one
      rendered page: its number, its pixel size, its OCR text and its boxes. */
  function PageOf(p: DocumentPipeline, image: Image, index: nat, text: string): OcrPage {
    OcrPage(index, image.width, image.height, text, DetectBlocks(p, image).result.value)
  }

  /** The loop of `_classify_pdf_with_ocr` over the rendered pages: per page,
      OCR and then detection; the page numbered `start` plus its position.
      An OCR failure stops the loop; a detection failure only empties that
      page's blocks. */
  function OcrPages(p: DocumentPipeline, images: seq<Image>, start: nat): (run: Run<seq<OcrPage>>)
    ensures run.result.Success? <==> forall i | 0 <= i < |images| :: p.ocr.generate(images[i]).Success?
    ensures run.result.Failure? ==> run.result.error == FirstFailure(p.ocr, images)
    decreases |images|
  {
    if images == [] then Run(Success([]), [])
    else
      var image := images[0];
      var text := Ocr.ExtractText(p.ocr, image);
      if text.result.Failure? then
        Run(text.result.PropagateFailure(), text.calls)
      else
        var blocks := DetectBlocks(p, image);
        var page := PageOf(p, image, start, text.result.value);
        var rest := OcrPages(p, images[1..], start + 1);
        var calls := text.calls + blocks.calls + rest.calls;
        assert forall i | 1 <= i < |images| :: images[1..][i - 1] == images[i];
        if rest.result.Failure? then
          Run(rest.result.PropagateFailure(), calls)
        else
          Run(Success([page] + rest.result.value), calls)
  }

  /** One turn of the page loop: the first page followed by the pages of the rest. */
  lemma OcrPagesStep(p: DocumentPipeline, images: seq<Image>, start: nat)
    requires images != [] && p.ocr.generate(images[0]).Success?
    requires OcrPages(p, images[1..], start + 1).result.Success?
    ensures OcrPages(p, images, start).result ==
      Success([PageOf(p, images[0], start, Ocr.ExtractText(p.ocr, images[0]).result.value)]
              + OcrPages(p, images[1..], start + 1).result.value)
  {
  }

  /** A successful loop has one page per image, in order, numbered from
      `start`, each holding that image's OCR text and boxes. */
  lemma {:induction false} OcrPagesValue(p: DocumentPipeline, images: seq<Image>, start: nat, texts: seq<string>)
    requires ExtractAll(p.ocr, images).result == Success(texts)
    ensures OcrPages(p, images, start).result.Success?
    ensures var pages := OcrPages(p, images, start).result.value;
      && |pages| == |images|
      && forall i | 0 <= i < |images| :: pages[i] == PageOf(p, images[i], start + i, texts[i])
    decreases |images|
  {
    if images != [] {
      var tail, tailTexts := images[1..], texts[1..];
      assert ExtractAll(p.ocr, images).result.value == [Ocr.ExtractText(p.ocr, images[0]).result.value] + ExtractAll(p.ocr, tail).result.value;
      OcrPagesValue(p, tail, start + 1, tailTexts);
      var rest := OcrPages(p, tail, start + 1).result.value;
      OcrPagesStep(p, images, start);
      ConsPages(p, images, start, texts, rest);
    }
  }

  /** Index shifting for `OcrPagesValue`: a first page followed by the pages
      of the remaining images, numbered from the next index. */
  lemma ConsPages(p: DocumentPipeline, images: seq<Image>, start: nat, texts: seq<string>, rest: seq<OcrPage>)
    requires |images| == |texts| > 0 && |rest| == |images| - 1
    requires forall j | 0 <= j < |rest| :: rest[j] == PageOf(p, images[1..][j], start + 1 + j, texts[1..][j])
    ensures var pages := [PageOf(p, images[0], start, texts[0])] + rest;
      forall i | 0 <= i < |images| :: pages[i] == PageOf(p, images[i], start + i, texts[i])
  {
    var pages := [PageOf(p, images[0], start, texts[0])] + rest;
    forall i | 1 <= i < |images| ensures pages[i] == PageOf(p, images[i], start + i, texts[i]) {
      assert pages[i] == rest[i - 1];
      assert images[1..][i - 1] == images[i] && texts[1..][i - 1] == texts[i];
    }
  }

  /** Setting the detector calls aside, the page loop makes exactly the OCR
      calls of `extract_text_from_images` on the same pages. */
  lemma {:induction false} OcrPagesCalls(p: DocumentPipeline, images: seq<Image>, start: nat)
    ensures WithoutDetections(OcrPages(p, images, start).calls) == ExtractAll(p.ocr, images).calls
    decreases |images|
  {
    if images != [] {
      var text := Ocr.ExtractText(p.ocr, images[0]);
      if text.result.Success? {
        var blocks := DetectBlocks(p, images[0]);
        var rest := OcrPages(p, images[1..], start + 1);
        assert OcrPages(p, images, start).calls == text.calls + blocks.calls + rest.calls;
        assert ExtractAll(p.ocr, images).calls == text.calls + ExtractAll(p.ocr, images[1..]).calls;
        OcrPagesCalls(p, images[1..], start + 1);
        WithoutDetectionsAppend(text.calls + blocks.calls, rest.calls);
        WithoutDetectionsAppend(text.calls, blocks.calls);
        assert WithoutDetections(blocks.calls) == [];
      }
    }
  }

  lemma NoRankCallAppend(a: seq<Call>, b: seq<Call>)
    requires NoRankCall(a) && NoRankCall(b)
    ensures NoRankCall(a + b)
  {
  }

  /** The page loop never calls the classifier. */
  lemma {:induction false} OcrPagesNeverRank(p: DocumentPipeline, images: seq<Image>, start: nat)
    ensures NoRankCall(OcrPages(p, images, start).calls)
    decreases |images|
  {
    if images != [] {
      var text := Ocr.ExtractText(p.ocr, images[0]);
      if text.result.Success? {
        var blocks := DetectBlocks(p, images[0]);
        var rest := OcrPages(p, images[1..], start + 1);
        assert OcrPages(p, images, start).calls == text.calls + blocks.calls + rest.calls;
        OcrPagesNeverRank(p, images[1..], start + 1);
        NoRankCallAppend(text.calls, blocks.calls);
        NoRankCallAppend(text.calls + blocks.calls, rest.calls);
      }
    }
  }

  /** The OCR half of `_classify_pdf_with_ocr`: the pages, then the non-empty
      page texts joined with a blank line. Its full text is exactly what
      `extract_text_from_images` returns for the same pages. */
  function OcrDocument(p: DocumentPipeline, images: seq<Image>): (run: Run<OcrResult>)
    ensures run.result.Success? <==> ExtractAll(p.ocr, images).result.Success?
    ensures run.result.Failure? ==> run.result.error == ExtractAll(p.ocr, images).result.error
    ensures WithoutDetections(run.calls) == ExtractAll(p.ocr, images).calls
    ensures NoRankCall(run.calls)
    ensures run.result.Success? ==>
      var r := run.result.value;
      && WellFormedOcr(r)
      && |r.pages| == |images|
      && (forall i | 0 <= i < |images| ::
            r.pages[i] == PageOf(p, images[i], i, Ocr.ExtractText(p.ocr, images[i]).result.value))
      && ExtractTextFromImages(p.ocr, images).result == Success(r.fullText)
  {
    var paged := OcrPages(p, images, 0);
    OcrPagesCalls(p, images, 0);
    OcrPagesNeverRank(p, images, 0);
    if paged.result.Failure? then
      Run(paged.result.PropagateFailure(), paged.calls)
    else
      var all := ExtractAll(p.ocr, images).result.value;
      OcrPagesValue(p, images, 0, all);
      var pages := paged.result.value;
      var texts := PageTexts(pages);
      assert texts == ExtractAll(p.ocr, images).result.value;
      PageTextsStripped(pages);
      Run(Success(OcrResult(pages, Join(PageSeparator, NonEmpty(texts)))), paged.calls)
  }

  /** Page texts that OCR produced are stripped (they come out of `Strip`). */
  lemma PageTextsStripped(pages: seq<OcrPage>)
    requires forall i | 0 <= i < |pages| :: IsStripped(pages[i].text)
    ensures var kept := NonEmpty(PageTexts(pages));
      forall i | 0 <= i < |kept| :: kept[i] != [] && IsStripped(kept[i])
  {
    var texts := PageTexts(pages);
    var kept := NonEmpty(texts);
    NonEmptyCounts(texts);
    forall i | 0 <= i < |kept| ensures IsStripped(kept[i]) {
      assert multiset(kept)[kept[i]] > 0;
      assert kept[i] in texts;
    }
  }

  /** The classification half of `_classify_pdf_with_ocr`: a blank full text
      keeps the pages, empties the full text and skips the classifier. */
  function ClassifyOcr(p: DocumentPipeline, r: OcrResult): (run: Run<Classified>)
    ensures IsBlank(r.fullText) ==> run == Run(Success(Classified(Unknown, Some(OcrResult(r.pages, [])))), [])
    ensures !IsBlank(r.fullText) ==>
      var c := Classify(p.classifier, r.fullText, p.candidateLabels);
      && run.calls == c.calls
      && (run.result.Success? <==> c.result.Success?)
      && (run.result.Success? ==> run.result.value == Classified(c.result.value, Some(r)))
      && (run.result.Failure? ==> run.result.error == c.result.error)
  {
    if IsBlank(r.fullText) then
      Run(Success(Classified(Unknown, Some(OcrResult(r.pages, [])))), [])
    else
      var c := Classify(p.classifier, r.fullText, p.candidateLabels);
      Run(WithOcr(c.result, r), c.calls)
  }

  /** `_classify_pdf_with_ocr`: no rendered page means no OCR result at all;
      otherwise every page is OCRed (and boxed) before the classifier sees
      the joined text. */
  function ClassifyPdfWithOcr(p: DocumentPipeline, raw: seq<Byte>): (run: Run<Classified>)
    ensures |run.calls| > 0 && run.calls[0] == RenderPdfCall(raw)
    ensures p.renderPdf(raw).Failure? ==> run == Run(p.renderPdf(raw).PropagateFailure(), [RenderPdfCall(raw)])
    ensures PdfBytesToImages(p.renderPdf, raw, p.ocrMaxPdfPages).result == Success([]) ==>
      run == Run(Success(Classified(Unknown, None)), [RenderPdfCall(raw)])
    ensures PdfBytesToImages(p.renderPdf, raw, p.ocrMaxPdfPages).result.Success? ==>
      var images := PdfBytesToImages(p.renderPdf, raw, p.ocrMaxPdfPages).result.value;
      var ocr := OcrDocument(p, images);
      && (images != [] && ocr.result.Failure? ==>
            run == Run(ocr.result.PropagateFailure(), [RenderPdfCall(raw)] + ocr.calls))
      && (images != [] && ocr.result.Success? ==>
            var c := ClassifyOcr(p, ocr.result.value);
            run == Run(c.result, [RenderPdfCall(raw)] + ocr.calls + c.calls))
    ensures run.result.Success? && run.result.value.ocr.Some? ==> WellFormedOcr(run.result.value.ocr.value)
  {
    var converted := PdfBytesToImages(p.renderPdf, raw, p.ocrMaxPdfPages);
    if converted.result.Failure? then
      Run(converted.result.PropagateFailure(), converted.calls)
    else if converted.result.value == [] then
      Run(Success(Classified(Unknown, None)), converted.calls)
    else
      var images := converted.result.value;
      var ocr := OcrDocument(p, images);
      if ocr.result.Failure? then
        Run(ocr.result.PropagateFailure(), converted.calls + ocr.calls)
      else
        var r := ocr.result.value;
        var c := ClassifyOcr(p, r);
        assert IsBlank(r.fullText) ==> r.fullText == [] by {
          if IsBlank(r.fullText) { StrippedBlankIsEmpty(r.fullText); }
        }
        assert IsBlank(r.fullText) ==> OcrResult(r.pages, []) == r;
        Run(c.result, converted.calls + ocr.calls + c.calls)
  }

  /** The OCR half of `_classify_image_with_ocr`: one page, numbered 0, whose
      text is also the full text. */
  function ImageOcr(p: DocumentPipeline, image: Image): (run: Run<OcrResult>)
    ensures var text := Ocr.ExtractText(p.ocr, image);
      && (run.result.Success? <==> text.result.Success?)
      && (run.result.Failure? ==> run.result.error == text.result.error)
      && (run.result.Success? ==>
            && run.result.value == OcrResult([OcrPage(0, image.width, image.height, text.result.value,
                                                      DetectBlocks(p, image).result.value)],
                                             text.result.value)
            && WellFormedOcr(run.result.value))
      && (text.result.Success? ==> run.calls == text.calls + DetectBlocks(p, image).calls)
      && (text.result.Failure? ==> run.calls == text.calls)
  {
    var text := Ocr.ExtractText(p.ocr, image);
    if text.result.Failure? then
      Run(text.result.PropagateFailure(), text.calls)
    else
      var pageText := text.result.value;
      var blocks := DetectBlocks(p, image);
      var page := OcrPage(0, image.width, image.height, pageText, blocks.result.value);
      assert PageTexts([page]) == [pageText];
      assert NonEmpty([pageText]) == if pageText == [] then [] else [pageText];
      Run(Success(OcrResult([page], pageText)), text.calls + blocks.calls)
  }

  /** `_classify_image_with_ocr`: once the image decodes and OCR succeeds the
      one-page OCR result is returned whatever the text; the classifier runs
      only on text that is not blank. The OCR text is stripped, so keeping the
      page text as the full text of a blank page is the same as the PDF
      route's emptying it: both routes end in `ClassifyOcr`. */
  function ClassifyImageWithOcr(p: DocumentPipeline, raw: seq<Byte>): (run: Run<Classified>)
    ensures |run.calls| > 0 && run.calls[0] == DecodeImageCall(raw)
    ensures p.decodeImage(raw).Failure? ==> run == Run(p.decodeImage(raw).PropagateFailure(), [DecodeImageCall(raw)])
    ensures p.decodeImage(raw).Success? ==>
      var ocr := ImageOcr(p, p.decodeImage(raw).value);
      && (ocr.result.Failure? ==> run == Run(ocr.result.PropagateFailure(), [DecodeImageCall(raw)] + ocr.calls))
      && (ocr.result.Success? ==>
            var c := ClassifyOcr(p, ocr.result.value);
            run == Run(c.result, [DecodeImageCall(raw)] + ocr.calls + c.calls))
    ensures run.result.Success? ==> run.result.value.ocr.Some? && WellFormedOcr(run.result.value.ocr.value)
  {
    var decoded := p.decodeImage(raw);
    if decoded.Failure? then
      Run(decoded.PropagateFailure(), [DecodeImageCall(raw)])
    else
      var image := decoded.value;
      var ocr := ImageOcr(p, image);
      var calls := [DecodeImageCall(raw)] + ocr.calls;
      if ocr.result.Failure? then
        Run(ocr.result.PropagateFailure(), calls)
      else
        var r := ocr.result.value;
        assert IsStripped(r.fullText);
        if IsBlank(r.fullText) then
          assert r.fullText == [] by { StrippedBlankIsEmpty(r.fullText); }
          assert OcrResult(r.pages, []) == r;
          Run(Success(Classified(Unknown, Some(r))), calls)
        else
          var c := Classify(p.classifier, r.fullText, p.candidateLabels);
          Run(WithOcr(c.result, r), calls + c.calls)
  }

  /** `_extract_from_pdf`: OCR text of the first pages, "" when no page renders. */
  function ExtractFromPdf(p: DocumentPipeline, raw: seq<Byte>): (run: Run<string>)
    ensures p.renderPdf(raw).Failure? ==> run == Run(p.renderPdf(raw).PropagateFailure(), [RenderPdfCall(raw)])
    ensures p.renderPdf(raw).Success? ==>
      var images := PdfBytesToImages(p.renderPdf, raw, p.ocrMaxPdfPages).result.value;
      && run.result == ExtractTextFromImages(p.ocr, images).result
      && run.calls == [RenderPdfCall(raw)] + ExtractAll(p.ocr, images).calls
    ensures NoRankCall(run.calls)
  {
    var converted := PdfBytesToImages(p.renderPdf, raw, p.ocrMaxPdfPages);
    if converted.result.Failure? then
      Run(converted.result.PropagateFailure(), converted.calls)
    else if converted.result.value == [] then
      Run(Success(""), converted.calls)
    else
      var text := ExtractTextFromImages(p.ocr, converted.result.value);
      ExtractAllMakesOnlyOcrCalls(p.ocr, converted.result.value);
      Run(text.result, converted.calls + text.calls)
  }

  lemma ExtractAllMakesOnlyOcrCalls(m: OcrModel, images: seq<Image>)
    ensures forall i | 0 <= i < |ExtractAll(m, images).calls| :: ExtractAll(m, images).calls[i].OcrCall?
  {
  }

  /** `_extract_from_image`. */
  function ExtractFromImage(p: DocumentPipeline, raw: seq<Byte>): (run: Run<string>)
    ensures p.decodeImage(raw).Failure? ==> run == Run(p.decodeImage(raw).PropagateFailure(), [DecodeImageCall(raw)])
    ensures p.decodeImage(raw).Success? ==>
      var text := Ocr.ExtractText(p.ocr, p.decodeImage(raw).value);
      run == Run(text.result, [DecodeImageCall(raw)] + text.calls)
  {
    match p.decodeImage(raw)
    case Failure(e) => Run(Failure(e), [DecodeImageCall(raw)])
    case Success(image) =>
      var text := Ocr.ExtractText(p.ocr, image);
      Run(text.result, [DecodeImageCall(raw)] + text.calls)
  }

  /** `_extract_text`: checks a "text/" prefix first, then the PDF type, then an
      "image/" prefix, and falls back to decoding. Text decoding makes no
      external call and cannot fail. */
  function ExtractText(p: DocumentPipeline, raw: seq<Byte>, mimeType: string): (run: Run<string>)
    ensures RouteOf(mimeType) == TextRoute ==> run == Run(Success(DecodeText(raw)), [])
    ensures RouteOf(mimeType) == PdfRoute ==> run == ExtractFromPdf(p, raw)
    ensures RouteOf(mimeType) == ImageRoute ==> run == ExtractFromImage(p, raw)
    ensures NoRankCall(run.calls)
  {
    var m := Lower(mimeType);
    if StartsWith(m, TextPrefix) then
      assert m != PdfMime && !StartsWith(m, ImagePrefix) by {
        assert m[0] == m[..5][0] == 't';
        assert PdfMime[0] == 'a';
        if |m| >= 6 { assert m[..6][0] == 't' && ImagePrefix[0] == 'i'; }
      }
      Run(Success(DecodeText(raw)), [])
    else if m == PdfMime then ExtractFromPdf(p, raw)
    else if StartsWith(m, ImagePrefix) then ExtractFromImage(p, raw)
    else Run(Success(DecodeText(raw)), [])
  }

  /** `classify_document`: the classifier runs only on text that is not
      whitespace-only, and its result is returned unchanged. */
  function ClassifyDocument(p: DocumentPipeline, raw: seq<Byte>, mimeType: string): (run: Run<Prediction>)
    ensures var extracted := ExtractText(p, raw, mimeType);
      && (extracted.result.Failure? ==> run == Run(extracted.result.PropagateFailure(), extracted.calls))
      && (extracted.result.Success? && IsBlank(extracted.result.value) ==>
            run.result == Success(Unknown) && NoRankCall(run.calls))
      && (extracted.result.Success? && !IsBlank(extracted.result.value) ==>
            && run.result == Classify(p.classifier, extracted.result.value, p.candidateLabels).result
            && run.calls == extracted.calls +
                 [RankCall(Take(extracted.result.value, MaxTextChars), p.candidateLabels, false)])
  {
    var extracted := ExtractText(p, raw, mimeType);
    if extracted.result.Failure? then
      Run(extracted.result.PropagateFailure(), extracted.calls)
    else if IsBlank(extracted.result.value) then
      Run(Success(Unknown), extracted.calls)
    else
      var c := Classify(p.classifier, extracted.result.value, p.candidateLabels);
      Run(c.result, extracted.calls + c.calls)
  }

  /** `classify_and_ocr_document`: PDFs and images go through the visual
      pipeline; everything else is decoded as text, with no OCR result and no
      visual call, whether or not the text is blank. */
  function ClassifyAndOcrDocument(p: DocumentPipeline, raw: seq<Byte>, mimeType: string): (run: Run<Classified>)
    ensures RouteOf(mimeType) == PdfRoute ==> run == ClassifyPdfWithOcr(p, raw)
    ensures RouteOf(mimeType) == ImageRoute ==> run == ClassifyImageWithOcr(p, raw)
    ensures RouteOf(mimeType) == TextRoute ==>
      var text := DecodeText(raw);
      var c := Classify(p.classifier, text, p.candidateLabels);
      && (run.result.Success? ==> run.result.value.ocr.None?)
      && NoVisualCall(run.calls)
      && (IsBlank(text) ==> run == Run(Success(Classified(Unknown, None)), []))
      && (!IsBlank(text) ==> run.calls == [RankCall(Take(text, MaxTextChars), p.candidateLabels, false)])
      && (!IsBlank(text) ==> (run.result.Success? <==> c.result.Success?))
      && (!IsBlank(text) && run.result.Success? ==> run.result.value.prediction == c.result.value)
      && (!IsBlank(text) && run.result.Failure? ==> run.result.error == c.result.error)
    ensures run.result.Success? && run.result.value.ocr.Some? ==> WellFormedOcr(run.result.value.ocr.value)
  {
    var m := Lower(mimeType);
    if m == PdfMime then ClassifyPdfWithOcr(p, raw)
    else if StartsWith(m, ImagePrefix) then ClassifyImageWithOcr(p, raw)
    else
      var extracted := ExtractText(p, raw, mimeType);
      var text := extracted.result.value;
      if IsBlank(text) then
        Run(Success(Classified(Unknown, None)), extracted.calls)
      else
        var c := Classify(p.classifier, text, p.candidateLabels);
        match c.result
        case Success(prediction) => Run(Success(Classified(prediction, None)), extracted.calls + c.calls)
        case Failure(e) => Run(Failure(e), extracted.calls + c.calls)
  }
}

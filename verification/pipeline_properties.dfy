/**
  Properties that relate several pipeline operations: the two classification
  entry points agree, box detection never influences a classification, the
  shape of the OCR result on the PDF and image routes, and MIME routing is
  case-insensitive.
 */
module PipelineProperties {
  import opened Wrappers
  import opened Text
  import opened Codec
  import opened Adapters
  import opened Schemas
  import opened Classifier
  import opened Ocr
  import opened BBox
  import opened PdfConverter
  import opened Pipeline

  /** Detector calls are the only calls `DetectBlocks` makes. */
  lemma DetectBlocksOnlyDetects(p: DocumentPipeline, image: Image)
    ensures WithoutDetections(DetectBlocks(p, image).calls) == []
  {
  }

  /** A log without detector calls is its own detection-free part. */
  lemma NoDetections(calls: seq<Call>)
    requires forall i | 0 <= i < |calls| :: calls[i].RankCall? || calls[i].OcrCall? || calls[i].RenderPdfCall? || calls[i].DecodeImageCall?
    ensures WithoutDetections(calls) == calls
  {
  }

  lemma PdfRouteAgrees(p: DocumentPipeline, raw: seq<Byte>, mimeType: string)
    requires RouteOf(mimeType) == PdfRoute
    ensures var a := ClassifyDocument(p, raw, mimeType);
      var b := ClassifyAndOcrDocument(p, raw, mimeType);
      && (a.result.Success? <==> b.result.Success?)
      && (a.result.Success? ==> a.result.value == b.result.value.prediction)
      && (a.result.Failure? ==> a.result.error == b.result.error)
      && WithoutDetections(b.calls) == a.calls
  {
    var render := [RenderPdfCall(raw)];
    assert Pipeline.ExtractText(p, raw, mimeType) == ExtractFromPdf(p, raw);
    if p.renderPdf(raw).Failure? {
      NoDetections(render);
    } else if PdfBytesToImages(p.renderPdf, raw, p.ocrMaxPdfPages).result.value == [] {
      NoDetections(render);
    } else {
      PdfOcrAgrees(p, raw, mimeType);
    }
  }

  /** The case of `PdfRouteAgrees` where at least one page was rendered. */
  lemma PdfOcrAgrees(p: DocumentPipeline, raw: seq<Byte>, mimeType: string)
    requires RouteOf(mimeType) == PdfRoute
    requires p.renderPdf(raw).Success?
    requires PdfBytesToImages(p.renderPdf, raw, p.ocrMaxPdfPages).result.value != []
    ensures var a := ClassifyDocument(p, raw, mimeType);
      var b := ClassifyAndOcrDocument(p, raw, mimeType);
      && (a.result.Success? <==> b.result.Success?)
      && (a.result.Success? ==> a.result.value == b.result.value.prediction)
      && (a.result.Failure? ==> a.result.error == b.result.error)
      && WithoutDetections(b.calls) == a.calls
  {
    var a := ClassifyDocument(p, raw, mimeType);
    var b := ClassifyAndOcrDocument(p, raw, mimeType);
    var extracted := Pipeline.ExtractText(p, raw, mimeType);
    assert extracted == ExtractFromPdf(p, raw);
    assert b == ClassifyPdfWithOcr(p, raw);
    var render := [RenderPdfCall(raw)];
    var images := PdfBytesToImages(p.renderPdf, raw, p.ocrMaxPdfPages).result.value;
    var all := ExtractAll(p.ocr, images);
    assert extracted.calls == render + all.calls;
    var ocr := OcrDocument(p, images);
    WithoutDetectionsAppend(render, ocr.calls);
    NoDetections(render);
    if ocr.result.Failure? {
      assert b.calls == render + ocr.calls;
    } else {
      var r := ocr.result.value;
      var c := ClassifyOcr(p, r);
      assert extracted.result == Success(r.fullText);
      WithoutDetectionsAppend(render + ocr.calls, c.calls);
      NoDetections(c.calls);
      if IsBlank(r.fullText) {
        assert c.calls == [];
        assert a.calls == extracted.calls;
        assert render + all.calls + [] == render + all.calls;
      } else {
        assert a.calls == render + all.calls + c.calls;
      }
    }
  }

  lemma ImageRouteAgrees(p: DocumentPipeline, raw: seq<Byte>, mimeType: string)
    requires RouteOf(mimeType) == ImageRoute
    ensures var a := ClassifyDocument(p, raw, mimeType);
      var b := ClassifyAndOcrDocument(p, raw, mimeType);
      && (a.result.Success? <==> b.result.Success?)
      && (a.result.Success? ==> a.result.value == b.result.value.prediction)
      && (a.result.Failure? ==> a.result.error == b.result.error)
      && WithoutDetections(b.calls) == a.calls
  {
    var a := ClassifyDocument(p, raw, mimeType);
    var b := ClassifyAndOcrDocument(p, raw, mimeType);
    var extracted := Pipeline.ExtractText(p, raw, mimeType);
    assert extracted == ExtractFromImage(p, raw);
    assert b == ClassifyImageWithOcr(p, raw);
    var decode := [DecodeImageCall(raw)];
    NoDetections(decode);
    if p.decodeImage(raw).Success? {
      var image := p.decodeImage(raw).value;
      var text := Ocr.ExtractText(p.ocr, image);
      var ocr := ImageOcr(p, image);
      assert extracted == Run(text.result, decode + text.calls);
      WithoutDetectionsAppend(decode, ocr.calls);
      NoDetections(text.calls);
      if ocr.result.Failure? {
        assert b.calls == decode + text.calls;
      } else {
        var r := ocr.result.value;
        var c := ClassifyOcr(p, r);
        var blocks := DetectBlocks(p, image);
        WithoutDetectionsAppend(text.calls, blocks.calls);
        DetectBlocksOnlyDetects(p, image);
        assert text.calls + [] == text.calls;
        WithoutDetectionsAppend(decode + ocr.calls, c.calls);
        NoDetections(c.calls);
        if IsBlank(r.fullText) {
          assert c.calls == [];
          assert decode + text.calls + [] == decode + text.calls;
        }
      }
    }
  }

  /** `classify_document` and `classify_and_ocr_document` classify every
      input alike: the same outcome, the same prediction, the same error, and
      the same external calls once the detector calls are set aside. */
  lemma ClassifyOperationsAgree(p: DocumentPipeline, raw: seq<Byte>, mimeType: string)
    ensures var a := ClassifyDocument(p, raw, mimeType);
      var b := ClassifyAndOcrDocument(p, raw, mimeType);
      && (a.result.Success? <==> b.result.Success?)
      && (a.result.Success? ==> a.result.value == b.result.value.prediction)
      && (a.result.Failure? ==> a.result.error == b.result.error)
      && WithoutDetections(b.calls) == a.calls
  {
    match RouteOf(mimeType)
    case PdfRoute => PdfRouteAgrees(p, raw, mimeType);
    case ImageRoute => ImageRouteAgrees(p, raw, mimeType);
    case TextRoute =>
      var a := ClassifyDocument(p, raw, mimeType);
      NoDetections(a.calls);
  }

  /** `classify_document` never looks at the box extractor. */
  lemma ClassifyDocumentIgnoresExtractor(p: DocumentPipeline, e: Option<TextDetector>, raw: seq<Byte>, mimeType: string)
    ensures ClassifyDocument(p, raw, mimeType) == ClassifyDocument(p.(bboxExtractor := e), raw, mimeType)
  {
    var q := p.(bboxExtractor := e);
    assert ExtractFromPdf(p, raw) == ExtractFromPdf(q, raw);
    assert ExtractFromImage(p, raw) == ExtractFromImage(q, raw);
    assert Pipeline.ExtractText(p, raw, mimeType) == Pipeline.ExtractText(q, raw, mimeType);
  }

  /** Box detection, present or absent, succeeding or failing, never changes
      whether `classify_and_ocr_document` succeeds, what it predicts, the
      error it reports, or the other external calls it makes. */
  lemma ExtractorNeverChangesPrediction(p: DocumentPipeline, e: Option<TextDetector>, raw: seq<Byte>, mimeType: string)
    ensures var b := ClassifyAndOcrDocument(p, raw, mimeType);
      var b' := ClassifyAndOcrDocument(p.(bboxExtractor := e), raw, mimeType);
      && (b.result.Success? <==> b'.result.Success?)
      && (b.result.Success? ==> b.result.value.prediction == b'.result.value.prediction)
      && (b.result.Failure? ==> b.result.error == b'.result.error)
      && WithoutDetections(b.calls) == WithoutDetections(b'.calls)
  {
    ClassifyOperationsAgree(p, raw, mimeType);
    ClassifyOperationsAgree(p.(bboxExtractor := e), raw, mimeType);
    ClassifyDocumentIgnoresExtractor(p, e, raw, mimeType);
  }

  /** The PDF route without OCR: no rendered page gives ("unknown", 0.0) and
      no OCR result, and that is the only way to get no OCR result; a page
      whose OCR raises fails the whole request. */
  lemma PdfWithoutOcr(p: DocumentPipeline, raw: seq<Byte>, mimeType: string)
    requires RouteOf(mimeType) == PdfRoute
    ensures var run := ClassifyAndOcrDocument(p, raw, mimeType);
      var converted := PdfBytesToImages(p.renderPdf, raw, p.ocrMaxPdfPages).result;
      && (converted == Success([]) ==> run.result == Success(Classified(Unknown, None)))
      && (run.result.Success? && run.result.value.ocr.None? ==> converted == Success([]))
      && (converted.Success? && (exists i | 0 <= i < |converted.value| :: p.ocr.generate(converted.value[i]).Failure?) ==>
            run.result.Failure?)
  {
    assert ClassifyAndOcrDocument(p, raw, mimeType) == ClassifyPdfWithOcr(p, raw);
  }

  /** The PDF route's pages: one per rendered page, at most `ocr_max_pdf_pages`,
      numbered from 0, each with its own pixel size, OCR text and boxes, even
      when its text is empty. */
  lemma PdfPages(p: DocumentPipeline, raw: seq<Byte>, mimeType: string)
    requires RouteOf(mimeType) == PdfRoute
    ensures var run := ClassifyAndOcrDocument(p, raw, mimeType);
      run.result.Success? && run.result.value.ocr.Some? ==>
        var images := PdfBytesToImages(p.renderPdf, raw, p.ocrMaxPdfPages).result.value;
        var r := run.result.value.ocr.value;
        && 0 < |r.pages| == |images| <= p.ocrMaxPdfPages
        && (forall i | 0 <= i < |images| ::
              && r.pages[i].pageIndex == i
              && r.pages[i].width == images[i].width && r.pages[i].height == images[i].height
              && Ocr.ExtractText(p.ocr, images[i]).result == Success(r.pages[i].text)
              && r.pages[i].blocks == DetectBlocks(p, images[i]).result.value)
  {
    var run := ClassifyAndOcrDocument(p, raw, mimeType);
    assert run == ClassifyPdfWithOcr(p, raw);
    var converted := PdfBytesToImages(p.renderPdf, raw, p.ocrMaxPdfPages).result;
    if run.result.Success? && run.result.value.ocr.Some? {
      var images := converted.value;
      var ocr := OcrDocument(p, images);
      assert ocr.result.Success?;
      var r := ocr.result.value;
      assert run.result.value.ocr.value.pages == r.pages;
      forall i | 0 <= i < |images|
        ensures Ocr.ExtractText(p.ocr, images[i]).result == Success(r.pages[i].text)
      {
        assert r.pages[i] == PageOf(p, images[i], i, Ocr.ExtractText(p.ocr, images[i]).result.value);
      }
    }
  }

  /** The PDF route's text: the full text is the non-empty page texts joined
      with a blank line (the text `extract_text_from_images` would give); when
      it is blank it is returned empty and the classifier is not called,
      otherwise the classifier sees exactly that text. */
  lemma PdfTextAndPrediction(p: DocumentPipeline, raw: seq<Byte>, mimeType: string)
    requires RouteOf(mimeType) == PdfRoute
    ensures var run := ClassifyAndOcrDocument(p, raw, mimeType);
      run.result.Success? && run.result.value.ocr.Some? ==>
        var images := PdfBytesToImages(p.renderPdf, raw, p.ocrMaxPdfPages).result.value;
        var r := run.result.value.ocr.value;
        && r.fullText == Join(PageSeparator, NonEmpty(PageTexts(r.pages)))
        && ExtractTextFromImages(p.ocr, images).result == Success(r.fullText)
        && (IsBlank(r.fullText) ==>
              r.fullText == [] && run.result.value.prediction == Unknown && NoRankCall(run.calls))
        && (!IsBlank(r.fullText) ==>
              && run.result.value.prediction == Classify(p.classifier, r.fullText, p.candidateLabels).result.value
              && run.calls[|run.calls| - 1] == RankCall(Take(r.fullText, MaxTextChars), p.candidateLabels, false))
  {
    var run := ClassifyAndOcrDocument(p, raw, mimeType);
    assert run == ClassifyPdfWithOcr(p, raw);
    if run.result.Success? && run.result.value.ocr.Some? {
      var images := PdfBytesToImages(p.renderPdf, raw, p.ocrMaxPdfPages).result.value;
      var ocr := OcrDocument(p, images);
      var r := ocr.result.value;
      var c := ClassifyOcr(p, r);
      var render := [RenderPdfCall(raw)];
      assert run.calls == render + ocr.calls + c.calls;
      if IsBlank(r.fullText) {
        assert c.calls == [];
        assert NoRankCall(run.calls) by {
          NoRankCallAppend(render, ocr.calls);
          assert run.calls == render + ocr.calls;
        }
      }
    }
  }

  /** The image route: a successful request always carries a one-page OCR
      result (page 0, the decoded image's size, the OCR text as both the page
      text and the full text, the detected boxes), and the classifier runs
      only when that text is not blank. */
  lemma ImageOcrShape(p: DocumentPipeline, raw: seq<Byte>, mimeType: string)
    requires RouteOf(mimeType) == ImageRoute
    ensures var run := ClassifyAndOcrDocument(p, raw, mimeType);
      run.result.Success? ==>
        && p.decodeImage(raw).Success?
        && var image := p.decodeImage(raw).value;
           var text := Ocr.ExtractText(p.ocr, image).result;
           && text.Success?
           && run.result.value.ocr ==
                Some(OcrResult([OcrPage(0, image.width, image.height, text.value, DetectBlocks(p, image).result.value)],
                               text.value))
           && (IsBlank(text.value) ==> run.result.value.prediction == Unknown && NoRankCall(run.calls))
           && (!IsBlank(text.value) ==>
                 run.result.value.prediction == Classify(p.classifier, text.value, p.candidateLabels).result.value)
  {
    assert ClassifyAndOcrDocument(p, raw, mimeType) == ClassifyImageWithOcr(p, raw);
    ImageClassificationShape(p, raw);
  }

  /** `ImageOcrShape` stated on `_classify_image_with_ocr` itself. */
  lemma ImageClassificationShape(p: DocumentPipeline, raw: seq<Byte>)
    ensures var run := ClassifyImageWithOcr(p, raw);
      run.result.Success? ==>
        && p.decodeImage(raw).Success?
        && var image := p.decodeImage(raw).value;
           var text := Ocr.ExtractText(p.ocr, image).result;
           && text.Success?
           && run.result.value.ocr ==
                Some(OcrResult([OcrPage(0, image.width, image.height, text.value, DetectBlocks(p, image).result.value)],
                               text.value))
           && (IsBlank(text.value) ==> run.result.value.prediction == Unknown && NoRankCall(run.calls))
           && (!IsBlank(text.value) ==>
                 run.result.value.prediction == Classify(p.classifier, text.value, p.candidateLabels).result.value)
  {
    var run := ClassifyImageWithOcr(p, raw);
    if run.result.Success? {
      var image := p.decodeImage(raw).value;
      var ocr := ImageOcr(p, image);
      var r := ocr.result.value;
      var c := ClassifyOcr(p, r);
      if IsBlank(r.fullText) {
        assert r.fullText == [] by { StrippedBlankIsEmpty(r.fullText); }
        assert OcrResult(r.pages, []) == r;
        var text := Ocr.ExtractText(p.ocr, image);
        var blocks := DetectBlocks(p, image);
        DetectBlocksOnlyDetects(p, image);
        assert NoRankCall(blocks.calls) by {
          forall i | 0 <= i < |blocks.calls| ensures !blocks.calls[i].RankCall? {
            assert blocks.calls[i].DetectCall?;
          }
        }
        NoRankCallAppend([DecodeImageCall(raw)] + text.calls, blocks.calls);
        assert run.calls == [DecodeImageCall(raw)] + text.calls + blocks.calls + c.calls;
        assert c.calls == [];
        assert run.calls == [DecodeImageCall(raw)] + text.calls + blocks.calls;
      }
    }
  }

  lemma LowerIdempotent(s: string)
    ensures Lower(Lower(s)) == Lower(s)
  {
  }

  /** Routing looks only at the lower-cased MIME type, so both entry points
      treat a MIME type and its lower-cased form alike. */
  lemma RoutingIgnoresCase(p: DocumentPipeline, raw: seq<Byte>, mimeType: string)
    ensures RouteOf(mimeType) == RouteOf(Lower(mimeType))
    ensures ClassifyDocument(p, raw, mimeType) == ClassifyDocument(p, raw, Lower(mimeType))
    ensures ClassifyAndOcrDocument(p, raw, mimeType) == ClassifyAndOcrDocument(p, raw, Lower(mimeType))
  {
    LowerIdempotent(mimeType);
    assert Pipeline.ExtractText(p, raw, mimeType) == Pipeline.ExtractText(p, raw, Lower(mimeType));
  }

  /** Any type that is neither exactly "application/pdf" nor an "image/"
      prefix is classified exactly as "text/plain" would be. */
  lemma UnknownTypesDecodeAsText(p: DocumentPipeline, raw: seq<Byte>, mimeType: string)
    requires RouteOf(mimeType) == TextRoute
    ensures ClassifyDocument(p, raw, mimeType) == ClassifyDocument(p, raw, "text/plain")
    ensures ClassifyAndOcrDocument(p, raw, mimeType) == ClassifyAndOcrDocument(p, raw, "text/plain")
  {
    assert RouteOf("text/plain") == TextRoute by {
      var m := Lower("text/plain");
      assert m[0] == 't';
      assert m != PdfMime by { assert PdfMime[0] == 'a'; }
      assert !StartsWith(m, ImagePrefix) by { assert m[..6][0] == 't'; }
    }
  }

  /** Routing of a few MIME types: case does not matter, the PDF type must
      match exactly, and an unrecognised type is decoded as text. */
  lemma RoutingExamples()
    ensures RouteOf("APPLICATION/PDF") == PdfRoute
    ensures RouteOf("Image/PNG") == ImageRoute
    ensures RouteOf("application/json") == TextRoute
    ensures RouteOf("application/pdfa") == TextRoute
  {
    assert Lower("APPLICATION/PDF") == PdfMime;
    assert Lower("Image/PNG")[..6] == ImagePrefix;
    assert Lower("application/json") != PdfMime by { assert Lower("application/json")[12] == 'j'; }
    assert Lower("application/json")[0] == 'a';
    assert |Lower("application/pdfa")| != |PdfMime|;
    assert Lower("application/pdfa")[0] == 'a';
  }
}

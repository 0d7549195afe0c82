/**
  What the pipeline shares with its collaborators: decoded images, the
  errors their exceptions stand for, and the log of calls made into them.
  Every operation returns a `Run`: its outcome together with the calls it
  made, in order, into the zero-shot model, the OCR model, the text
  detector, the PDF rasteriser and the image decoder.
 */
module Adapters {
  import opened Wrappers
  import opened Codec

  /** A decoded RGB image; `width` and `height` are its size in pixels. */
  datatype Image = Image(width: nat, height: nat, pixels: seq<Byte>)

  datatype Error =
    | External(reason: string)  // an exception raised inside a model or library call
    | EmptyRanking              // IndexError: the model ranked no labels
    | EmptyPolygon              // ValueError: min() over a polygon with no vertices

  datatype Call =
    | RankCall(text: string, candidateLabels: seq<string>, multiLabel: bool)
    | OcrCall(image: Image)
    | DetectCall(image: Image)
    | RenderPdfCall(document: seq<Byte>)
    | DecodeImageCall(data: seq<Byte>)

  datatype Run<+T> = Run(result: Result<T, Error>, calls: seq<Call>)

  /** The zero-shot classifier was never invoked. */
  predicate NoRankCall(calls: seq<Call>) {
    forall i | 0 <= i < |calls| :: !calls[i].RankCall?
  }

  /** Neither OCR, detection, rasterisation nor image decoding was invoked. */
  predicate NoVisualCall(calls: seq<Call>) {
    forall i | 0 <= i < |calls| :: calls[i].RankCall?
  }

  /** `calls` is one `OcrCall` per image, in order. */
  predicate OcrCallsFor(calls: seq<Call>, images: seq<Image>) {
    && |calls| == |images|
    && forall i | 0 <= i < |calls| :: calls[i] == OcrCall(images[i])
  }
}

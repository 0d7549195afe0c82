/** The OCR response records of schemas.py. */
module Schemas {
  import opened Wrappers

  /** Axis-aligned rectangle in pixel coordinates of the page image. */
  datatype BoundingBox = BoundingBox(x: real, y: real, width: real, height: real)

  /** A detected region; `text` is empty and `confidence` absent in detection-only mode. */
  datatype TextBlock = TextBlock(text: string, bbox: BoundingBox, confidence: Option<real>)

  datatype OcrPage = OcrPage(pageIndex: int, width: int, height: int, text: string, blocks: seq<TextBlock>)

  datatype OcrResult = OcrResult(pages: seq<OcrPage>, fullText: string)
}

/** `pdf_bytes_to_images(_with_dims)`: rasterise at most `max_pages` pages. */
module PdfConverter {
  import opened Wrappers
  import opened Codec
  import opened Adapters
  import Config

  /** PyMuPDF: open the document and render its pages (at 200 dpi by default), in
      document order; a document it cannot open raises. */
  type PdfRasterizer = seq<Byte> -> Result<seq<Image>, Error>

  /** `min(len(doc), max_pages)`, and no page at all when `max_pages` is
      negative, as `range` of a negative bound is empty. */
  function PageLimit(pageCount: nat, maxPages: int): (n: nat)
    ensures n <= pageCount
    ensures maxPages < 0 ==> n == 0
    ensures maxPages >= 0 ==> n <= maxPages && (n == pageCount || n == maxPages)
  {
    if maxPages < 0 then 0 else if pageCount < maxPages then pageCount else maxPages
  }

  /** The first `min(page count, max_pages)` pages, in document order. Both
      converter functions of the source render the same pages; the
      "with dims" variant pairs each image with its own pixel size, which
      `Image` already carries. */
  function PdfBytesToImages(render: PdfRasterizer, document: seq<Byte>, maxPages: int): (run: Run<seq<Image>>)
    ensures run.calls == [RenderPdfCall(document)]
    ensures run.result.Success? <==> render(document).Success?
    ensures run.result.Success? ==>
      var all := render(document).value;
      && |run.result.value| == PageLimit(|all|, maxPages)
      && run.result.value == all[..|run.result.value|]
    ensures run.result.Failure? ==> run.result == render(document).PropagateFailure()
  {
    match render(document)
    case Failure(e) => Run(Failure(e), [RenderPdfCall(document)])
    case Success(pages) => Run(Success(pages[..PageLimit(|pages|, maxPages)]), [RenderPdfCall(document)])
  }

  /** With the default settings at most ten pages are rendered. */
  lemma DefaultPageLimit(pageCount: nat)
    ensures PageLimit(pageCount, Config.Defaults.ocrMaxPdfPages) == if pageCount < 10 then pageCount else 10
  {
  }
}

/**
 * backend/src/services/imageRenderingService.ts: rasterising a PDF into page images, dropping
 * pages below the size floor, and the two fail-open sharp preprocessing steps.
 * The rasteriser (pdf-to-png-converter) and sharp are oracles handed in as functions.
 */
module ImageRendering {
  import opened Wrappers
  import opened Types
  import Seqs

  /** Pages whose image is smaller than this many bytes are treated as blank artifacts. */
  const MIN_IMAGE_SIZE: nat := 30000
  /** Above this many bytes the vision preprocessor re-encodes as JPEG instead of PNG. */
  const VISION_JPEG_THRESHOLD: nat := 300000
  /** Rendering scale used for OCR (about 150 DPI). */
  const OCR_SCALE: real := 1.5
  /** Rendering scale used for the vision model (about 200 DPI). */
  const VISION_SCALE: real := 2.0

  const NO_VALID_PAGES: string := "No valid pages were rendered from PDF"

  /** One page as the rasteriser reports it; its image content may be missing. */
  datatype RasterPage = RasterPage(pageNumber: int, content: Option<Bytes>, width: int, height: int)

  /** `RenderedPage`. */
  datatype RenderedPage = RenderedPage(pageNum: int, imageBuffer: Bytes, width: int, height: int, originalSize: nat)

  /** `PreprocessedImage`. */
  datatype PreprocessedImage = PreprocessedImage(pageNum: int, imageBuffer: Bytes, width: int, height: int, preprocessedSize: nat)

  /** The three sharp pipelines: OCR enhancement to PNG, vision re-encoding to JPEG, vision re-encoding to PNG. */
  datatype Pipeline = OcrPng | VisionJpeg | VisionPng

  /** `pdfToPng(pdf, { viewportScale })`: the page list, or the error it throws. */
  type Rasteriser = (Bytes, real) -> Result<seq<RasterPage>, string>

  /** A sharp pipeline run on an image: the new image, or the error it throws. */
  type Enhancer = (Bytes, Pipeline) -> Result<Bytes, string>

  /** The buffer exists and reaches the size floor. */
  predicate IsValidPage(p: RasterPage) {
    p.content.Some? && |p.content.value| >= MIN_IMAGE_SIZE
  }

  function ToRendered(p: RasterPage): RenderedPage {
    var buffer := p.content.GetOr([]);
    RenderedPage(p.pageNumber, buffer, p.width, p.height, |buffer|)
  }

  /** The pages `renderPDFToImages` keeps from the rasteriser's output. */
  function ValidPages(raster: seq<RasterPage>): seq<RenderedPage> {
    Seqs.Map(Seqs.Filter(raster, IsValidPage), ToRendered)
  }

  /** What `renderPDFToImages(pdf, scale)` returns or throws. */
  function RenderSpec(pdf: Bytes, scale: real, rasterise: Rasteriser): Result<seq<RenderedPage>, string> {
    match rasterise(pdf, scale)
    case Failure(e) => Failure(e)
    case Success(raster) =>
      var kept := ValidPages(raster);
      if kept == [] then Failure(NO_VALID_PAGES) else Success(kept)
  }

  /**
   * The kept pages are exactly the rasterised pages whose buffer exists and reaches the size
   * floor, in their original order (`idx` gives their positions); each keeps its page number,
   * buffer and dimensions, and its `originalSize` is the buffer's length.
   */
  lemma ValidPagesSelection(raster: seq<RasterPage>) returns (idx: seq<int>)
    ensures |idx| == |ValidPages(raster)|
    ensures forall j, k :: 0 <= j < k < |idx| ==> idx[j] < idx[k]
    ensures forall j :: 0 <= j < |idx| ==>
      0 <= idx[j] < |raster| && IsValidPage(raster[idx[j]]) &&
      ValidPages(raster)[j] == ToRendered(raster[idx[j]])
    ensures forall i :: 0 <= i < |raster| && IsValidPage(raster[i]) ==> i in idx
    ensures forall p :: p in ValidPages(raster) ==> |p.imageBuffer| >= MIN_IMAGE_SIZE && p.originalSize == |p.imageBuffer|
  {
    idx := Seqs.FilterSelection(raster, IsValidPage);
  }

  /** Rendering fails with "No valid pages were rendered from PDF" exactly when no page is valid. */
  lemma RenderFailsWithoutValidPages(pdf: Bytes, scale: real, rasterise: Rasteriser)
    requires rasterise(pdf, scale).Success?
    ensures RenderSpec(pdf, scale, rasterise) == Failure(NO_VALID_PAGES) <==>
      forall i :: 0 <= i < |rasterise(pdf, scale).value| ==> !IsValidPage(rasterise(pdf, scale).value[i])
  {
    var raster := rasterise(pdf, scale).value;
    if forall i :: 0 <= i < |raster| ==> !IsValidPage(raster[i]) {
      Seqs.FilterDropsAll(raster, IsValidPage);
    } else {
      var i :| 0 <= i < |raster| && IsValidPage(raster[i]);
      var idx := Seqs.FilterSelection(raster, IsValidPage);
      assert i in idx;
    }
  }

  /** `renderPDFToImages`: rasterise, drop missing and undersized pages, throw when none is left. */
  method RenderPdfToImages(pdf: Bytes, dpiScale: real, rasterise: Rasteriser) returns (r: Result<seq<RenderedPage>, string>)
    ensures r == RenderSpec(pdf, dpiScale, rasterise)
  {
    var pngPages := rasterise(pdf, dpiScale);
    if pngPages.Failure? {
      return Failure(pngPages.error);
    }
    var pages := pngPages.value;
    var renderedPages: seq<RenderedPage> := [];
    for i := 0 to |pages|
      invariant renderedPages == ValidPages(pages[..i])
    {
      assert pages[..i + 1] == pages[..i] + [pages[i]];
      Seqs.FilterSnoc(pages[..i], pages[i], IsValidPage);
      var page := pages[i];
      if page.content.None? || |page.content.value| < MIN_IMAGE_SIZE {
        continue;
      }
      var imageBuffer := page.content.value;
      Seqs.MapSnoc(Seqs.Filter(pages[..i], IsValidPage), page, ToRendered);
      renderedPages := renderedPages + [RenderedPage(page.pageNumber, imageBuffer, page.width, page.height, |imageBuffer|)];
    }
    assert pages[..|pages|] == pages;
    if |renderedPages| == 0 {
      return Failure(NO_VALID_PAGES);
    }
    return Success(renderedPages);
  }

  /** `preprocessImageForOCR`: enhance for OCR, or hand back the original image if sharp throws. */
  function PreprocessImageForOcr(imageBuffer: Bytes, pageNum: int, enhance: Enhancer): (r: PreprocessedImage)
    ensures r.pageNum == pageNum && r.width == 0 && r.height == 0
    ensures r.preprocessedSize == |r.imageBuffer|
    ensures enhance(imageBuffer, OcrPng).Failure? ==> r.imageBuffer == imageBuffer
    ensures enhance(imageBuffer, OcrPng).Success? ==> r.imageBuffer == enhance(imageBuffer, OcrPng).value
  {
    match enhance(imageBuffer, OcrPng)
    case Success(processed) => PreprocessedImage(pageNum, processed, 0, 0, |processed|)
    case Failure(_) => PreprocessedImage(pageNum, imageBuffer, 0, 0, |imageBuffer|)
  }

  /** The sharp pipeline the vision preprocessor runs on an image of `size` bytes. */
  function VisionPipeline(size: nat): (p: Pipeline)
    ensures p == VisionJpeg <==> size > VISION_JPEG_THRESHOLD
    ensures p == VisionJpeg || p == VisionPng
  {
    if size > VISION_JPEG_THRESHOLD then VisionJpeg else VisionPng
  }

  /** `preprocessImageForVision`: JPEG above 300 000 bytes, PNG otherwise; the original image if sharp throws. */
  function PreprocessImageForVision(imageBuffer: Bytes, pageNum: int, enhance: Enhancer): (r: PreprocessedImage)
    ensures r.pageNum == pageNum && r.width == 0 && r.height == 0
    ensures r.preprocessedSize == |r.imageBuffer|
    ensures enhance(imageBuffer, VisionPipeline(|imageBuffer|)).Failure? ==> r.imageBuffer == imageBuffer
    ensures enhance(imageBuffer, VisionPipeline(|imageBuffer|)).Success? ==>
      r.imageBuffer == enhance(imageBuffer, VisionPipeline(|imageBuffer|)).value
  {
    var optimized := if |imageBuffer| > VISION_JPEG_THRESHOLD then enhance(imageBuffer, VisionJpeg)
                     else enhance(imageBuffer, VisionPng);
    match optimized
    case Success(processed) => PreprocessedImage(pageNum, processed, 0, 0, |processed|)
    case Failure(_) => PreprocessedImage(pageNum, imageBuffer, 0, 0, |imageBuffer|)
  }

  /** What `renderAndPreprocessPDF` returns or throws: render at scale 1.5, then preprocess every page for OCR. */
  function RenderAndPreprocessSpec(pdf: Bytes, rasterise: Rasteriser, enhance: Enhancer): (r: Result<seq<PreprocessedImage>, string>)
    ensures r.Failure? <==> RenderSpec(pdf, OCR_SCALE, rasterise).Failure?
    ensures r.Failure? ==> r.error == RenderSpec(pdf, OCR_SCALE, rasterise).error
    ensures r.Success? ==> var pages := RenderSpec(pdf, OCR_SCALE, rasterise).value;
      |r.value| == |pages| &&
      forall i :: 0 <= i < |pages| ==> r.value[i] == PreprocessImageForOcr(pages[i].imageBuffer, pages[i].pageNum, enhance)
  {
    match RenderSpec(pdf, OCR_SCALE, rasterise)
    case Failure(e) => Failure(e)
    case Success(pages) =>
      Success(seq(|pages|, i requires 0 <= i < |pages| => PreprocessImageForOcr(pages[i].imageBuffer, pages[i].pageNum, enhance)))
  }

  /** What `renderPDFForVision` returns or throws: render at scale 2.0, then preprocess every page for the vision model. */
  function RenderForVisionSpec(pdf: Bytes, rasterise: Rasteriser, enhance: Enhancer): (r: Result<seq<PreprocessedImage>, string>)
    ensures r.Failure? <==> RenderSpec(pdf, VISION_SCALE, rasterise).Failure?
    ensures r.Failure? ==> r.error == RenderSpec(pdf, VISION_SCALE, rasterise).error
    ensures r.Success? ==> var pages := RenderSpec(pdf, VISION_SCALE, rasterise).value;
      |r.value| == |pages| &&
      forall i :: 0 <= i < |pages| ==> r.value[i] == PreprocessImageForVision(pages[i].imageBuffer, pages[i].pageNum, enhance)
  {
    match RenderSpec(pdf, VISION_SCALE, rasterise)
    case Failure(e) => Failure(e)
    case Success(pages) =>
      Success(seq(|pages|, i requires 0 <= i < |pages| => PreprocessImageForVision(pages[i].imageBuffer, pages[i].pageNum, enhance)))
  }

  /** `renderAndPreprocessPDF`: one OCR-preprocessed image per rendered page, same order and page numbers. */
  method RenderAndPreprocessPdf(pdf: Bytes, rasterise: Rasteriser, enhance: Enhancer) returns (r: Result<seq<PreprocessedImage>, string>)
    ensures r == RenderAndPreprocessSpec(pdf, rasterise, enhance)
  {
    var rendered := RenderPdfToImages(pdf, 1.5, rasterise);
    if rendered.Failure? {
      return Failure(rendered.error);
    }
    var pages := rendered.value;
    var preprocessed: seq<PreprocessedImage> := [];
    for i := 0 to |pages|
      invariant |preprocessed| == i
      invariant forall j :: 0 <= j < i ==> preprocessed[j] == PreprocessImageForOcr(pages[j].imageBuffer, pages[j].pageNum, enhance)
    {
      var processed := PreprocessImageForOcr(pages[i].imageBuffer, pages[i].pageNum, enhance);
      preprocessed := preprocessed + [processed];
    }
    assert preprocessed == RenderAndPreprocessSpec(pdf, rasterise, enhance).value;
    return Success(preprocessed);
  }

  /** `renderPDFForVision`: one vision-optimised image per rendered page, same order and page numbers. */
  method RenderPdfForVision(pdf: Bytes, rasterise: Rasteriser, enhance: Enhancer) returns (r: Result<seq<PreprocessedImage>, string>)
    ensures r == RenderForVisionSpec(pdf, rasterise, enhance)
  {
    var rendered := RenderPdfToImages(pdf, 2.0, rasterise);
    if rendered.Failure? {
      return Failure(rendered.error);
    }
    var pages := rendered.value;
    var optimized: seq<PreprocessedImage> := [];
    for i := 0 to |pages|
      invariant |optimized| == i
      invariant forall j :: 0 <= j < i ==> optimized[j] == PreprocessImageForVision(pages[j].imageBuffer, pages[j].pageNum, enhance)
    {
      var processed := PreprocessImageForVision(pages[i].imageBuffer, pages[i].pageNum, enhance);
      optimized := optimized + [processed];
    }
    assert optimized == RenderForVisionSpec(pdf, rasterise, enhance).value;
    return Success(optimized);
  }
}

# Document extraction and reconciliation core of OCR-Vanderson

OCR-Vanderson is a service that receives a ZIP archive of insurance PDFs and does three things:

- It extracts the personal data and the vehicle data from each document.
- It cross-checks the documents against each other.
- It answers with `ok`, `divergencies` or `error`, together with one record per document.

This project models the backend pipeline behind that answer and proves properties of the model:

- **Page rendering** (`imageRenderingService.ts`). The rasteriser renders the PDF pages.
  - Pages under 30 000 bytes are dropped, and a PDF with no page left fails.
  - Each kept page is enhanced for OCR or for the vision model. If the enhancement fails, the original image is used.
- **Text extraction** (`pdfService.ts`). This is a cascade:
  - First the embedded text layer, when it has more than 50 characters.
  - Otherwise Tesseract OCR of every rendered page. A page counts when it has text and more than 50 % confidence. Confidence is averaged over the pages that count. A quality gate discards results that are both short and unsure.
  - Every text is sanitised.
- **Model calls** (`config/openai.ts`).
  - The chat replies lose their ```` ```json ```` fences.
  - An empty reply fails, except that an empty vision reply is retried exactly once.
  - Images under 30 000 bytes are never sent.
  - The cross-document comparison is only asked when two or more documents hold data.
- **Orchestration** (`analysisService.ts`).
  - For each file, the pipeline chooses between the text model and page-by-page vision. It uses vision when the clean text is empty or its confidence is below 80.
  - On the vision path it merges the pages. A field takes the first value that carries evidence.
  - It then validates every merged field against the first evidence collected for it: 11 digits for a CPF, 11 to 20 alphanumerics for a chassis number, a year 19xx/20xx, an `@`, a digit, or 3 characters.
  - It builds the record metadata.
  - Finally it decides the batch status. The first failing document turns the whole batch into an error.

The services the code calls are parameters of the model:

- `pdf-parse`, `pdf-to-png-converter`, `sharp` and Tesseract;
- the three OpenAI chat calls;
- `JSON.parse`;
- the ZIP unpacker.

Each service is a total function from its inputs to a result or the error it throws. The loops that the source writes step by step are Dafny methods:

- the page filter;
- the OCR page loop;
- the vision page loop;
- the merge over `Object.keys`;
- the evidence collection;
- the validation loops;
- the file loop;
- `analyzeZipFile` itself.

Each method is proved equal to a specification function. The properties are proved about those functions.

Files:

| file | module | contents |
|---|---|---|
| `wrappers.dfy` | `Wrappers` | `Option`, `Result` |
| `seqs.dfy` | `Seqs` | order-preserving `Filter` and `Map` with their lemmas |
| `chars.dfy` | `Chars` | the whitespace class of `\s`, digits, letters, `trim` |
| `types.dfy` | `Types` | JSON values and dictionaries, the model's reply, the records of `types/analysis.ts` |
| `image_rendering.dfy` | `ImageRendering` | `renderPDFToImages`, both preprocessors, both wrappers |
| `pdf_service.dfy` | `PdfService` | `sanitizeText`, `extractTextWithTesseractOCR`, `extractTextFromPDF` |
| `openai.dfy` | `OpenAi` | fence stripping, `extractDataWithAI`, `extractDataFromImage`, `detectDivergencies` |
| `evidence.dfy` | `Evidence` | `validateFieldByEvidence` and the meaning of each rule |
| `merge.dfy` | `Merge` | first-evidence-wins merge, evidence collection, section validation |
| `analysis.dfy` | `AnalysisService` | the per-file step, the batch, `analyzeZipFile` |

Two behaviours of the code are easy to miss. The model follows the code in both:

- **A document failure fails the batch.** A document that throws takes the batch down with it. This includes a document sent to the vision model whose rendering at scale 2.0 has no page of at least 30 000 bytes. A document that takes the text path is never rendered for vision, and an OCR render failure is caught and gives empty text. The per-file `catch` at analysisService.ts:182-191 returns `error` for the whole batch, with no records; `ProcessFiles` returns at that file (`BatchErrors`, `FirstFailureAborts`, `VisionRenderFailure`).
- **Validation reads the first evidence, not the winning page's.** The vision path checks each merged field against the first truthy evidence for that key on any page. That need not be the evidence of the page whose value won the merge. Such evidence can even be blank, so a blank first evidence nulls a field that a later page backed properly (`BlankFirstEvidenceNullsKey`). The field stays in the record with the value `null`, rather than disappearing.

A third detail only affects a log line. The OCR loop counts a page as skipped only when its text is empty or its recognition threw. A page with text but low confidence is dropped without being counted.

## Model

| member | source | states |
|---|---|---|
| `ImageRendering.RenderPdfToImages` | backend/src/services/imageRenderingService.ts:29-92 | the result equals `RenderSpec`: the rasteriser's error is rethrown; otherwise the pages with a buffer of at least 30 000 bytes, in order, or "No valid pages" when none remains |
| `ImageRendering.ValidPagesSelection` | backend/src/services/imageRenderingService.ts:46-67 | the kept pages are exactly the rasterised pages with a buffer of at least 30 000 bytes, in their original order; each keeps its number, buffer and size, and its `originalSize` is its buffer length |
| `ImageRendering.RenderFailsWithoutValidPages` | backend/src/services/imageRenderingService.ts:80-82 | after a successful rasterisation, rendering fails with "No valid pages" exactly when no page passes the size floor |
| `ImageRendering.PreprocessImageForOcr` | backend/src/services/imageRenderingService.ts:103-140 | keeps the page number, has zero width and height, and its size is its buffer length; the enhanced image when sharp succeeds, the original image when sharp throws |
| `ImageRendering.VisionPipeline` | backend/src/services/imageRenderingService.ts:159-173 | JPEG exactly for images over 300 000 bytes, PNG otherwise |
| `ImageRendering.PreprocessImageForVision` | backend/src/services/imageRenderingService.ts:150-193 | as for OCR, with the pipeline chosen by size, and fail-open to the original image |
| `ImageRendering.RenderAndPreprocessSpec` | backend/src/services/imageRenderingService.ts:201-220 | fails exactly when rendering at scale 1.5 fails, with the same error; otherwise gives one OCR-preprocessed image per rendered page, in order |
| `ImageRendering.RenderForVisionSpec` | backend/src/services/imageRenderingService.ts:228-247 | fails exactly when rendering at scale 2.0 fails, with the same error; otherwise gives one vision-preprocessed image per rendered page, in order |
| `ImageRendering.RenderAndPreprocessPdf` | backend/src/services/imageRenderingService.ts:201-220 | the loop's result equals `RenderAndPreprocessSpec` |
| `ImageRendering.RenderPdfForVision` | backend/src/services/imageRenderingService.ts:228-247 | the loop's result equals `RenderForVisionSpec` |
| `PdfService.CollapseWhitespace` | backend/src/services/pdfService.ts:126 | never longer than its input and empty only for empty input; every character is a space or a non-whitespace character of the input, and no two whitespace characters are adjacent |
| `PdfService.CollapseAppend` | backend/src/services/pdfService.ts:126 | the collapse splits after a non-whitespace character: the text up to it collapses on its own, and so does the rest |
| `PdfService.CollapseJoin` | backend/src/services/pdfService.ts:126 | a whitespace run between two words becomes exactly one space: the words are neither glued together nor dropped |
| `PdfService.StripLineControls` | backend/src/services/pdfService.ts:123-125 | no NUL, line feed or carriage return survives, and the text does not grow |
| `PdfService.StripLineControlsAppend` | backend/src/services/pdfService.ts:123-125 | the three replacements work character by character: they distribute over concatenation |
| `PdfService.StripLineControlsChar` | backend/src/services/pdfService.ts:123-125 | on one character, NUL and CR vanish, LF becomes a space, and any other character stays; together with `StripLineControlsAppend` this fixes the result for every text |
| `PdfService.StripLineControlsBlank` | backend/src/services/pdfService.ts:123-125 | a whitespace run stays whitespace, and it keeps at least one character when it holds anything besides carriage returns |
| `PdfService.SanitizeText` | backend/src/services/pdfService.ts:121-128 | the result is no longer than the input and is sanitised: no control characters, only single spaces as whitespace, and nothing to trim |
| `PdfService.SanitizeFixpoint` | backend/src/services/pdfService.ts:121-128 | sanitised text is left unchanged |
| `PdfService.SanitizeIdempotent` | backend/src/services/pdfService.ts:121-128 | sanitising twice is the same as sanitising once |
| `PdfService.SanitizeJoin` | backend/src/services/pdfService.ts:121-128 | words stay separated: two sanitised texts around a whitespace run come out joined by exactly one space, unless the run is only carriage returns, which are deleted |
| `PdfService.SanitizeKeepsVisible` | backend/src/services/pdfService.ts:121-128 | sanitising removes only whitespace and NUL characters: the visible characters are kept, in order |
| `PdfService.PageTallyMeaning` | backend/src/services/pdfService.ts:76-99 | the page loop accumulates the trimmed texts of exactly the pages with text and confidence over 50, in page order, with their count and confidence sum; it counts as skipped the pages that threw or read no text |
| `PdfService.AggregateIsFinish` | backend/src/services/pdfService.ts:101-114 | the aggregate over all pages equals finishing the loop's tally: sanitised joined text, mean confidence, and the quality gate |
| `PdfService.ExtractTextWithTesseractOcr` | backend/src/services/pdfService.ts:66-119 | the loop's result equals `OcrSpec`: empty with confidence 0 when rendering fails, otherwise the aggregate of the accepted pages |
| `PdfService.MeanConfidenceRange` | backend/src/services/pdfService.ts:84-102 | for recogniser confidences of at most 100, the mean is 0 exactly when no page is accepted, and otherwise above 50 and at most 100 |
| `PdfService.OcrResultShape` | backend/src/services/pdfService.ts:101-118 | the OCR text is sanitised and its character count is its length; a non-empty result has at least 20 characters or confidence of at least 60 |
| `PdfService.ExtractTextFromPdf` | backend/src/services/pdfService.ts:25-64 | the result equals `ExtractTextSpec`, the cascade over the text layer and OCR |
| `PdfService.CascadeShape` | backend/src/services/pdfService.ts:25-64 | the text is sanitised and `charCount` is its length; the method is never `vision`; `pdfjs` means confidence 100 and more than 50 characters; `none` means the empty zero result; a pdf-parse failure gives the OCR result labelled `tesseract` |
| `PdfService.CascadeWithText` | backend/src/services/pdfService.ts:36-58 | an embedded text with more than 50 characters wins with confidence 100; otherwise OCR text wins, and when OCR found nothing the result is `none` |
| `PdfService.ExtractTextShape` | backend/src/services/pdfService.ts:25-64 | the shape of `CascadeShape` holds for every PDF and every service |
| `OpenAi.StripFences` | backend/src/config/openai.ts:74 | the cleaned reply has no whitespace at either end, and a reply without fences is only trimmed |
| `OpenAi.StripFencesUnwraps` | backend/src/config/openai.ts:74 | a ```` ```json ```` fence, in any letter case, around a body leaves the trimmed body |
| `OpenAi.StripFencesKeepsCleanJson` | backend/src/config/openai.ts:139 | an already trimmed reply without fences is left unchanged |
| `OpenAi.ExtractDataWithAi` | backend/src/config/openai.ts:9-77 | a failed call rethrows its error; an empty reply fails with "No content in OpenAI response"; a success is the parse of the de-fenced non-empty reply |
| `OpenAi.EmptyTextReplyNeverParsed` | backend/src/config/openai.ts:68-71 | after an empty reply, the result is that error whatever the parser does |
| `OpenAi.TextReplyUnfenced` | backend/src/config/openai.ts:68-76 | a fenced reply is parsed as its trimmed body |
| `OpenAi.ExtractDataFromImage` | backend/src/config/openai.ts:79-141 | an image under 30 000 bytes gives `null` without a call; otherwise a call that throws passes its error on, a reply with content is parsed once its fences are stripped, and an empty reply on the retry fails with "No content in OpenAI response for image", each after one call; there are two calls only when the first attempt returned empty content |
| `OpenAi.ImageRetriedOnce` | backend/src/config/openai.ts:129-137 | after an empty first reply, the outcome is that of the second call: its error, "No content in OpenAI response for image" when it is empty too, or the parse of its de-fenced content |
| `OpenAi.DetectDivergencies` | backend/src/config/openai.ts:143-217 | fewer than two documents, or fewer than two with data, give [] without a call; there is never more than one call; non-empty divergencies come from the parsed reply to the documents with data |
| `OpenAi.ComparisonOutcome` | backend/src/config/openai.ts:166-216 | with two or more documents with data there is exactly one call; its error, an empty reply, a parse error and a JSON `null` each fail, and an object gives its `divergencies` or [] |
| `OpenAi.DocumentsWithDataInOrder` | backend/src/config/openai.ts:152-157 | the compared documents are exactly those with a truthy personal or vehicle value, in their original order |
| `Evidence.ValidateFieldByEvidence` | backend/src/services/analysisService.ts:104-133 | the result is `null` or the value itself; it is the value exactly when the value and the evidence are truthy and the evidence supports the field's rule |
| `Evidence.MatchesYearMeaning` | backend/src/services/analysisService.ts:117-121 | the regex scan for `(19\|20)\d{2}` succeeds exactly when such a year occurs somewhere in the evidence |
| `Evidence.TestsDigitMeaning` | backend/src/services/analysisService.ts:126-129 | the digit test succeeds exactly when the evidence holds a digit |
| `Evidence.RuleMeaning` | backend/src/services/analysisService.ts:106-132 | on non-blank evidence, each rule as the code computes it agrees with its meaning: exactly 11 digits, 11 to 20 letters and digits, a year, an `@`, a digit, or 3 trimmed characters |
| `Evidence.CpfExamples` | backend/src/services/analysisService.ts:107-111 | 11 digits in the evidence keep a CPF value even when the value itself is formatted; 10 digits null it |
| `Evidence.AnoFound` | backend/src/services/analysisService.ts:117-121 | example: the year inside the evidence "fab 2015" keeps the value |
| `Evidence.AnoRejected` | backend/src/services/analysisService.ts:117-121 | example: the evidence "1899" holds no accepted year, so the value is nulled |
| `Merge.FirstWinsDomain` | backend/src/services/analysisService.ts:82-101 | after absorbing truthy candidates in order, a key is present exactly when some candidate offered it, and its value is truthy |
| `Merge.FirstWinsValue` | backend/src/services/analysisService.ts:82-101 | a key holds the value of the first candidate that offered it |
| `Merge.FirstWinsPrefixStable` | backend/src/services/analysisService.ts:82-101 | later candidates never overwrite a merged key |
| `Merge.PageCandidates` | backend/src/services/analysisService.ts:86-100 | a page offers a key exactly when its value is truthy and its evidence is truthy and not blank; it offers the page's own value |
| `Merge.MergeFirstWins` | backend/src/services/analysisService.ts:82-101 | the merged value of a key is the value of the first page, in page order, that backs it with evidence |
| `Merge.MergeOnlyBacked` | backend/src/services/analysisService.ts:82-101 | a key is merged exactly when some page backs it, and merged values are truthy |
| `Merge.MergeLaterPagesKeep` | backend/src/services/analysisService.ts:82-101 | appending pages never changes a key that is already merged |
| `Merge.MergeSnoc` | backend/src/services/analysisService.ts:82-101 | one more page adds its backed values for the keys not yet filled with a truthy value |
| `Merge.MergeIgnoresNull` | backend/src/services/analysisService.ts:82-83 | `null` page results change neither the merge nor the collected evidence |
| `Merge.EvidenceCandidates` | backend/src/services/analysisService.ts:139-140 | a page offers exactly its truthy evidence entries |
| `Merge.CollectSnoc` | backend/src/services/analysisService.ts:137-142 | one more page adds its truthy evidence for the keys not yet collected |
| `Merge.CollectFirstTruthy` | backend/src/services/analysisService.ts:136-142 | evidence is collected for a key exactly when some page has truthy evidence for it, and it is the first such page's evidence |
| `Merge.ValidateSection` | backend/src/services/analysisService.ts:144-149 | validation keeps the merged keys and replaces each value by its evidence-validated value |
| `Merge.VisionSectionMeaning` | backend/src/services/analysisService.ts:144-149 | a vision field is present exactly when some page backed it; its value is `null` or the merged value, and non-null exactly when the first collected evidence supports the field's rule |
| `Merge.BlankFirstEvidenceNullsKey` | backend/src/services/analysisService.ts:136-149 | when the first truthy evidence for a key is blank, the key ends up `null` even if a later page backed it |
| `AnalysisService.PageResultsInOrder` | backend/src/services/analysisService.ts:64-74 | the page results are the replies of exactly the pages whose vision call did not throw, in page order |
| `AnalysisService.PageResultsSnoc` | backend/src/services/analysisService.ts:66-74 | a page that throws adds nothing; any other page appends its reply |
| `AnalysisService.AbsorbKeys` | backend/src/services/analysisService.ts:86-92 | the key loop sets exactly the admitted keys that do not yet hold a truthy value, whatever order the keys are visited in |
| `AnalysisService.CollectPageResults` | backend/src/services/analysisService.ts:64-74 | the page loop's result equals `PageResults` of the pages' outcomes |
| `AnalysisService.MergePageResults` | backend/src/services/analysisService.ts:77-101 | the merge loop's two dictionaries equal `MergePages` of each section |
| `AnalysisService.CollectEvidenceLoop` | backend/src/services/analysisService.ts:136-142 | the evidence loop's result equals `CollectEvidence` |
| `AnalysisService.ValidateFields` | backend/src/services/analysisService.ts:144-149 | the validation loop's result equals `ValidateSection` |
| `AnalysisService.ProcessDocument` | backend/src/services/analysisService.ts:30-181 | the body of the file loop equals `DocumentSpec` |
| `AnalysisService.ProcessFiles` | backend/src/services/analysisService.ts:30-192 | the loop succeeds exactly when every file does, and its two lists are the records and the named data of the files, in order |
| `AnalysisService.AnalyzeZipFile` | backend/src/services/analysisService.ts:7-245 | the result equals `AnalyzeSpec` |
| `AnalysisService.FirstFailureAborts` | backend/src/services/analysisService.ts:182-191 | a failing file fails the whole file loop |
| `AnalysisService.ProcessAllMeaning` | backend/src/services/analysisService.ts:30-192 | the file loop succeeds exactly when every file succeeds, and then gives one result per file, in order |
| `AnalysisService.BatchResultShape` | backend/src/services/analysisService.ts:170-234 | an error carries no records and no divergencies; the status is `divergencies` exactly when some were found; without an error, each file has its own record, in order |
| `AnalysisService.BatchErrors` | backend/src/services/analysisService.ts:11-22 | an unzip failure, an empty archive, or any failing file gives the error result |
| `AnalysisService.SingleFileNotCompared` | backend/src/services/analysisService.ts:194-216 | a single document is never compared: the result is independent of the comparison, with status `ok` or `error` and no divergencies |
| `AnalysisService.SeveralFilesCompared` | backend/src/services/analysisService.ts:194-220 | several documents are compared by their named data, in file order; the batch errs exactly when the comparison fails, and otherwise carries its divergencies |
| `AnalysisService.VisionSkipsText` | backend/src/services/analysisService.ts:61-151 | on the vision path the text model is never consulted |
| `AnalysisService.TextSkipsVision` | backend/src/services/analysisService.ts:152-155 | on the text path the vision model is never consulted |
| `AnalysisService.VisionDataIgnoresText` | backend/src/services/analysisService.ts:61-151 | the vision data does not depend on the text model |
| `AnalysisService.ExtractionWellFormed` | backend/src/services/pdfService.ts:25-64 | every extraction is sanitised, has `charCount` equal to its length, and is never labelled `vision` |
| `AnalysisService.DocumentMetadata` | backend/src/services/analysisService.ts:174-177 | the method is `vision` exactly when the clean text is empty or its confidence is below 80, and then the confidence is 100; otherwise the extractor's method and confidence; `textLength` is the clean text's length |
| `AnalysisService.VisionRecord` | backend/src/services/analysisService.ts:61-151 | on the vision path a field is in the record exactly when some successful page backed it, and its value is `null` or the first backed value |
| `AnalysisService.VisionRenderFailure` | backend/src/services/analysisService.ts:63 | a vision render failure fails the document with the render error |
| `AnalysisService.TextRecord` | backend/src/services/analysisService.ts:152-173 | on the text path the document fails exactly when the call fails or replies `null`; otherwise the record carries the reply's personal and vehicle data |

## Left out

- Messages and log output are not modelled:
  - the Portuguese `message` strings;
  - the `timestamp`;
  - `ocrTimeMs` and `renderTimeMs`;
  - all console logging, including the "Worker version" hint in `renderPDFToImages`.
- The `DOMMatrix`/`Path2D` polyfills of `pdfService.ts` are not modelled. They only make pdf.js load.
- Numbers are modelled as exact reals. JavaScript floating-point rounding of the confidence mean is not modelled.
- Only strings and `null` are modelled as JSON field values:
  - Numbers, booleans and nested objects inside `personalData`, `vehicleData` or `evidence` are not.
  - Neither are extra members of a reply (`rawText`, `pageNumber`).
  - A parsed reply that is not `null` and not an object is modelled as an object with empty sections.
- The JSON `data` forwarded to the comparison call is modelled as the file name with its two sections. Extra members of a text-path reply are not forwarded.
- Keys inherited from `Object.prototype` (such as `constructor`) are not modelled. In JavaScript they read as truthy on the empty `merged` and `collectedEvidence` objects.
- Key order: `Object.keys` visits keys in insertion order. The model visits them in an arbitrary order and proves that the result does not depend on it (`AnalysisService.AbsorbKeys`).
- `\s` and `trim()` are modelled on ASCII whitespace. The Unicode space separators are not.
- `Evidence.ValidateFieldByEvidence`, `PdfService.Cascade`, `PdfService.AggregateOcr` (through `PdfService.FinishOcr`) and `AnalysisService.Metadata` measure text with `|s|`, which counts Unicode code points. JavaScript's `.length` counts UTF-16 code units, so a character outside the Basic Multilingual Plane counts once here and twice in the source. This affects the 3-character evidence rule (analysisService.ts:130-131), the `> 50` embedded-text test (pdfService.ts:38-42), the `< 20` OCR quality gate (pdfService.ts:109), `charCount` and `textLength` (analysisService.ts:174-177).
- The prompts are not modelled, apart from the empty-document placeholder. The external calls are oracle parameters of the model:
  - the OpenAI chat calls;
  - `JSON.parse`;
  - pdf-parse, pdf-to-png-converter, sharp, Tesseract;
  - the ZIP unpacker, whose `.pdf` entry filter is not modelled.
- The oracles are deterministic in their inputs. The vision oracle also receives the attempt number, so a retry may be answered differently.
- The per-page `catch` in `renderPDFToImages` (imageRenderingService.ts:72-74) is not modelled. Nothing in the modelled page handling can throw.
- Tesseract's `confidence || 0` (a `NaN` read as 0) is not modelled.
- The HTTP routes, the server, the database models, the environment configuration, the error middleware and the frontend are not part of this model.
- PdfService.MeanConfidenceRange: assumes the recogniser reports confidences of at most 100, as Tesseract does. The source does not check this.
- OpenAi.DetectDivergencies: the divergency objects the model returns are passed through unchecked, as in the source. Their fields are not validated, and a `divergencies` member that is neither an array nor absent is not modelled. A `null` element of `divergencies` makes the log line at analysisService.ts:206 throw, and the outer `catch` at analysisService.ts:235-244 then answers `error`. The model keeps such an element as a divergency and answers `divergencies`.

/**
 * `analyzeZipFile` of backend/src/services/analysisService.ts: every PDF of the archive is
 * read (embedded text, else OCR), sent either to the text model or, when its text is empty or
 * of low confidence, page by page to the vision model whose results are merged and checked
 * against their evidence; the per-file records are collected in file order, and with more than
 * one file the comparison model reports divergencies. Any failure on a file aborts the batch.
 */
module AnalysisService {
  import opened Wrappers
  import opened Types
  import Seqs
  import ImageRendering
  import PdfService
  import OpenAi
  import Evidence
  import opened Merge

  /** Below this extraction confidence a document goes to the vision model. */
  const LOW_CONFIDENCE: real := 80.0
  /** The confidence recorded for a document read by the vision model. */
  const VISION_CONFIDENCE: real := 100.0
  /** The TypeError raised when the text model's reply parses to `null` (`aiExtracted.personalData`). */
  const NULL_REPLY_ERROR: string := "Cannot read properties of null (reading 'personalData')"

  /** `extractZipBuffer`: the PDF entries of the archive, or the error it throws. */
  type Unzipper = Bytes -> Result<seq<PdfFile>, string>

  /** The libraries and services used to read one document. */
  datatype DocumentServices = DocumentServices(
    pdfParse: PdfService.TextLayerParser,
    rasterise: ImageRendering.Rasteriser,
    enhance: ImageRendering.Enhancer,
    recognise: PdfService.Recogniser,
    askText: OpenAi.TextService,
    askVision: OpenAi.VisionService,
    parseReply: OpenAi.ReplyParser)

  /** Every external library and service the analysis calls. */
  datatype Services = Services(
    unzip: Unzipper,
    document: DocumentServices,
    askCompare: OpenAi.CompareService,
    parseDivergencies: OpenAi.DivergencyParser)

  /** What one file contributes: its entry of `pdfContents` and of `extractedDataWithNames`. */
  datatype Extracted = Extracted(record: PdfContent, data: NamedData)

  /** `cleanText.length === 0 || isLowConfidence`: the document goes to the vision model. */
  predicate UsesVision(cleanText: string, confidence: real) {
    |cleanText| == 0 || confidence < LOW_CONFIDENCE
  }

  // ---------------------------------------------------------------------------------------
  // The vision path
  // ---------------------------------------------------------------------------------------

  /** What `extractDataFromImage` gives for one rendered page (first attempt, `retryCount` 0). */
  function PageOutcome(page: ImageRendering.PreprocessedImage, fileName: string, s: DocumentServices): Result<ModelReply, string> {
    OpenAi.ExtractDataFromImage(page.imageBuffer, fileName, page.pageNum, 0, s.askVision, s.parseReply).result
  }

  /** The outcome of every page, in page order. */
  function PageOutcomes(pages: seq<ImageRendering.PreprocessedImage>, fileName: string, s: DocumentServices): (r: seq<Result<ModelReply, string>>)
    ensures |r| == |pages| && forall i :: 0 <= i < |pages| ==> r[i] == PageOutcome(pages[i], fileName, s)
  {
    seq(|pages|, i requires 0 <= i < |pages| => PageOutcome(pages[i], fileName, s))
  }

  predicate Succeeded(o: Result<ModelReply, string>) {
    o.Success?
  }

  function ReplyOf(o: Result<ModelReply, string>): ModelReply {
    if o.Success? then o.value else NullReply
  }

  /** `pageResults`: the replies of the pages whose call did not throw, in page order. */
  function PageResults(outcomes: seq<Result<ModelReply, string>>): seq<ModelReply> {
    Seqs.Map(Seqs.Filter(outcomes, Succeeded), ReplyOf)
  }

  /**
   * Pages whose vision call throws contribute nothing, and the others keep page order: `idx`
   * lists, strictly increasing, the pages that succeeded, and `pageResults` holds their replies.
   */
  lemma PageResultsInOrder(outcomes: seq<Result<ModelReply, string>>) returns (idx: seq<int>)
    ensures |idx| == |PageResults(outcomes)|
    ensures forall j :: 0 <= j < |idx| ==> 0 <= idx[j] < |outcomes| && outcomes[idx[j]] == Success(PageResults(outcomes)[j])
    ensures forall j, k :: 0 <= j < k < |idx| ==> idx[j] < idx[k]
    ensures forall i :: 0 <= i < |outcomes| ==> (outcomes[i].Success? <==> i in idx)
  {
    idx := Seqs.FilterSelection(outcomes, Succeeded);
  }

  /** The merged and validated `personalData` and `vehicleData` of the vision path, or the render error. */
  function VisionData(file: PdfFile, s: DocumentServices): Result<(Dict, Dict), string> {
    match ImageRendering.RenderForVisionSpec(file.content, s.rasterise, s.enhance)
    case Failure(e) => Failure(e)
    case Success(pages) =>
      var pageResults := PageResults(PageOutcomes(pages, file.name, s));
      Success((VisionSection(pageResults, PersonalSection), VisionSection(pageResults, VehicleSection)))
  }

  /** `personalData` and `vehicleData` of the text model's reply; a `null` reply throws. */
  function TextData(cleanText: string, s: DocumentServices): Result<(Dict, Dict), string> {
    match OpenAi.ExtractDataWithAi(cleanText, s.askText, s.parseReply)
    case Failure(e) => Failure(e)
    case Success(NullReply) => Failure(NULL_REPLY_ERROR)
    case Success(ObjectReply(personalData, vehicleData, _)) => Success((personalData, vehicleData))
  }

  /** The `metadata` of a record: overridden on the vision path. */
  function Metadata(extraction: PdfService.TextExtractionResult, cleanText: string): ExtractionMetadata {
    if UsesVision(cleanText, extraction.confidence) then ExtractionMetadata(Vision, |cleanText|, VISION_CONFIDENCE)
    else ExtractionMetadata(extraction.extractionMethod, |cleanText|, extraction.confidence)
  }

  /** What `extractTextFromPDF` gives for the file. */
  function Extraction(file: PdfFile, s: DocumentServices): PdfService.TextExtractionResult {
    PdfService.ExtractTextSpec(file.content, s.pdfParse, s.rasterise, s.enhance, s.recognise)
  }

  /**
   * What the body of the file loop produces for one file once its text has been extracted, or
   * the error that aborts the batch.
   */
  function DocumentFrom(file: PdfFile, extraction: PdfService.TextExtractionResult, s: DocumentServices): Result<Extracted, string> {
    var cleanText := PdfService.SanitizeText(extraction.text);
    var sections := if UsesVision(cleanText, extraction.confidence) then VisionData(file, s) else TextData(cleanText, s);
    match sections
    case Failure(e) => Failure(e)
    case Success((personalData, vehicleData)) =>
      Success(Extracted(
        PdfContent(file.name, personalData, vehicleData, Metadata(extraction, cleanText)),
        NamedData(file.name, personalData, vehicleData)))
  }

  /** What the body of the file loop produces for one file. */
  function DocumentSpec(file: PdfFile, s: DocumentServices): Result<Extracted, string> {
    DocumentFrom(file, Extraction(file, s), s)
  }

  // ---------------------------------------------------------------------------------------
  // The batch
  // ---------------------------------------------------------------------------------------

  /** How one file is processed. */
  type Processor = PdfFile -> Result<Extracted, string>

  /** The file loop: the documents of all files in order, or the first file's error. */
  function ProcessAll(files: seq<PdfFile>, process: Processor): Result<seq<Extracted>, string> {
    if files == [] then Success([])
    else
      match ProcessAll(files[..|files| - 1], process)
      case Failure(e) => Failure(e)
      case Success(prev) =>
        match process(files[|files| - 1])
        case Failure(e) => Failure(e)
        case Success(doc) => Success(prev + [doc])
  }

  function RecordOf(x: Extracted): PdfContent { x.record }

  function DataOf(x: Extracted): NamedData { x.data }

  /** The result of a batch that failed: no records and no divergencies. */
  const ERROR_RESULT: AnalysisResult := AnalysisResult(Error, [], [])

  /** The batch, given what the archive unpacked to and how each file is processed. */
  function Batch(unzipped: Result<seq<PdfFile>, string>, process: Processor,
                 askCompare: OpenAi.CompareService, parseDivergencies: OpenAi.DivergencyParser): AnalysisResult
  {
    match unzipped
    case Failure(_) => ERROR_RESULT
    case Success(files) =>
      if files == [] then ERROR_RESULT
      else
        match ProcessAll(files, process)
        case Failure(_) => ERROR_RESULT
        case Success(docs) =>
          var pdfContents := Seqs.Map(docs, RecordOf);
          var named := Seqs.Map(docs, DataOf);
          if |named| > 1 then
            match OpenAi.DetectDivergencies(named, askCompare, parseDivergencies).result
            case Failure(_) => ERROR_RESULT
            case Success(divergencies) =>
              AnalysisResult(if |divergencies| > 0 then Divergencies else Ok, pdfContents, divergencies)
          else AnalysisResult(Ok, pdfContents, [])
  }

  /** Every file read with the document services. */
  function DocumentProcessor(s: DocumentServices): Processor {
    file => DocumentSpec(file, s)
  }

  /** What `analyzeZipFile` resolves to. */
  function AnalyzeSpec(zipBuffer: Bytes, s: Services): AnalysisResult {
    Batch(s.unzip(zipBuffer), DocumentProcessor(s.document), s.askCompare, s.parseDivergencies)
  }

  // ---------------------------------------------------------------------------------------
  // The loops of analyzeZipFile
  // ---------------------------------------------------------------------------------------

  /** The entries of `d` whose key `accept` admits. */
  function Offered(d: Dict, accept: string -> bool): (c: Dict)
    ensures forall k :: k in c <==> k in d && accept(k)
    ensures forall k :: k in c ==> c[k] == d[k]
  {
    map k | k in d && accept(k) :: d[k]
  }

  /** `r` is `m` with the candidates `c` absorbed, stated key by key. */
  lemma AbsorbPointwise(m: Dict, c: Dict, r: Dict)
    requires forall k :: k in r <==> k in m || k in c
    requires forall k :: k in r ==> r[k] == if k in c && !Truthy(Lookup(m, k)) then c[k] else m[k]
    ensures r == Absorb(m, c)
  {
  }

  /**
   * The key loop of one page: every key of `d` that `accept` admits is set in the dictionary,
   * unless the dictionary already holds a truthy value for it. The keys are visited in an
   * arbitrary order; the result is the same for all of them.
   */
  method AbsorbKeys(m: Dict, d: Dict, accept: string -> bool) returns (r: Dict)
    ensures r == Absorb(m, Offered(d, accept))
  {
    r := m;
    var keys := d.Keys;
    while keys != {}
      invariant keys <= d.Keys
      invariant forall k :: k in r <==> k in m || (k in d && k !in keys && accept(k))
      invariant forall k :: k in r ==>
        r[k] == if k in d && k !in keys && accept(k) && !Truthy(Lookup(m, k)) then d[k] else m[k]
      decreases keys
    {
      var k :| k in keys;
      if accept(k) && !Truthy(Lookup(r, k)) {
        r := r[k := d[k]];
      }
      keys := keys - {k};
    }
    AbsorbPointwise(m, Offered(d, accept), r);
  }

  /** The candidates a page offers are its section's entries that the page's evidence backs. */
  lemma PageCandidatesOffered(pr: ModelReply, section: Section)
    ensures PageCandidates(pr, section) == Offered(SectionOf(pr, section), k => Backs(pr, section, k))
  {
  }

  /** The evidence a page offers is its truthy evidence. */
  lemma EvidenceCandidatesOffered(pr: ModelReply)
    ensures EvidenceCandidates(pr) == Offered(EvidenceOf(pr), k => Truthy(Lookup(EvidenceOf(pr), k)))
  {
  }

  /** The page loop's step: a page whose call succeeded adds its reply, any other page nothing. */
  lemma PageResultsSnoc(outcomes: seq<Result<ModelReply, string>>, o: Result<ModelReply, string>)
    ensures PageResults(outcomes + [o]) == if o.Success? then PageResults(outcomes) + [o.value] else PageResults(outcomes)
  {
    Seqs.FilterSnoc(outcomes, o, Succeeded);
    if o.Success? {
      Seqs.MapSnoc(Seqs.Filter(outcomes, Succeeded), o, ReplyOf);
    }
  }

  /** The vision page loop: one call per rendered page; pages whose call throws are left out. */
  method CollectPageResults(pages: seq<ImageRendering.PreprocessedImage>, fileName: string, s: DocumentServices)
    returns (pageResults: seq<ModelReply>)
    ensures pageResults == PageResults(PageOutcomes(pages, fileName, s))
  {
    ghost var outcomes := PageOutcomes(pages, fileName, s);
    pageResults := [];
    for i := 0 to |pages|
      invariant pageResults == PageResults(outcomes[..i])
    {
      var pageData := OpenAi.ExtractDataFromImage(pages[i].imageBuffer, fileName, pages[i].pageNum, 0, s.askVision, s.parseReply).result;
      assert outcomes[i] == pageData;
      assert outcomes[..i + 1] == outcomes[..i] + [pageData];
      PageResultsSnoc(outcomes[..i], pageData);
      if pageData.Success? {
        pageResults := pageResults + [pageData.value];
      }
    }
    assert outcomes[..|pages|] == outcomes;
  }

  /** The merge loop: page by page, skipping `null` results, both sections absorb what the page's evidence backs. */
  method MergePageResults(pageResults: seq<ModelReply>) returns (personalData: Dict, vehicleData: Dict)
    ensures personalData == MergePages(pageResults, PersonalSection)
    ensures vehicleData == MergePages(pageResults, VehicleSection)
  {
    personalData, vehicleData := map[], map[];
    for i := 0 to |pageResults|
      invariant personalData == MergePages(pageResults[..i], PersonalSection)
      invariant vehicleData == MergePages(pageResults[..i], VehicleSection)
    {
      var pr := pageResults[i];
      assert pageResults[..i + 1] == pageResults[..i] + [pr];
      MergeSnoc(pageResults[..i], pr, PersonalSection);
      MergeSnoc(pageResults[..i], pr, VehicleSection);
      if pr.NullReply? {
        NullOffersNothing(personalData, PersonalSection);
        NullOffersNothing(vehicleData, VehicleSection);
        continue;
      }
      PageCandidatesOffered(pr, PersonalSection);
      PageCandidatesOffered(pr, VehicleSection);
      personalData := AbsorbKeys(personalData, pr.personalData, k => Backs(pr, PersonalSection, k));
      vehicleData := AbsorbKeys(vehicleData, pr.vehicleData, k => Backs(pr, VehicleSection, k));
    }
    assert pageResults[..|pageResults|] == pageResults;
  }

  /** The evidence loop: page by page, skipping `null` results, the first truthy evidence per key is kept. */
  method CollectEvidenceLoop(pageResults: seq<ModelReply>) returns (collectedEvidence: Dict)
    ensures collectedEvidence == CollectEvidence(pageResults)
  {
    collectedEvidence := map[];
    for i := 0 to |pageResults|
      invariant collectedEvidence == CollectEvidence(pageResults[..i])
    {
      var pr := pageResults[i];
      assert pageResults[..i + 1] == pageResults[..i] + [pr];
      CollectSnoc(pageResults[..i], pr);
      if pr.NullReply? {
        NullOffersNothing(collectedEvidence, PersonalSection);
        continue;
      }
      EvidenceCandidatesOffered(pr);
      collectedEvidence := AbsorbKeys(collectedEvidence, pr.evidence, k => Truthy(Lookup(pr.evidence, k)));
    }
    assert pageResults[..|pageResults|] == pageResults;
  }

  /** The validation loop: every merged key is replaced, in place, by its value checked against the collected evidence. */
  method ValidateFields(merged: Dict, collectedEvidence: Dict) returns (r: Dict)
    ensures r == ValidateSection(merged, collectedEvidence)
  {
    r := merged;
    var keys := merged.Keys;
    while keys != {}
      invariant keys <= merged.Keys && r.Keys == merged.Keys
      invariant forall k :: k in keys ==> r[k] == merged[k]
      invariant forall k :: k in merged && k !in keys ==>
        r[k] == Evidence.ValidateFieldByEvidence(k, merged[k], Lookup(collectedEvidence, k))
      decreases keys
    {
      var k :| k in keys;
      r := r[k := Evidence.ValidateFieldByEvidence(k, r[k], Lookup(collectedEvidence, k))];
      keys := keys - {k};
    }
  }

  /** The body of the file loop: extraction, the vision/text decision, and the record of the file. */
  method ProcessDocument(file: PdfFile, s: DocumentServices) returns (r: Result<Extracted, string>)
    ensures r == DocumentSpec(file, s)
  {
    var extractionResult := PdfService.ExtractTextFromPdf(file.content, s.pdfParse, s.rasterise, s.enhance, s.recognise);
    var cleanText := PdfService.SanitizeText(extractionResult.text);
    var isLowConfidence := extractionResult.confidence < LOW_CONFIDENCE;
    var personalData: Dict, vehicleData: Dict;
    if |cleanText| == 0 || isLowConfidence {
      var rendered := ImageRendering.RenderPdfForVision(file.content, s.rasterise, s.enhance);
      if rendered.Failure? {
        return Failure(rendered.error);
      }
      var pageResults := CollectPageResults(rendered.value, file.name, s);
      var mergedPersonal, mergedVehicle := MergePageResults(pageResults);
      var collectedEvidence := CollectEvidenceLoop(pageResults);
      personalData := ValidateFields(mergedPersonal, collectedEvidence);
      vehicleData := ValidateFields(mergedVehicle, collectedEvidence);
    } else {
      var aiExtracted := OpenAi.ExtractDataWithAi(cleanText, s.askText, s.parseReply);
      if aiExtracted.Failure? {
        return Failure(aiExtracted.error);
      }
      if aiExtracted.value.NullReply? {
        return Failure(NULL_REPLY_ERROR);
      }
      personalData, vehicleData := aiExtracted.value.personalData, aiExtracted.value.vehicleData;
    }
    var metadata := Metadata(extractionResult, cleanText);
    r := Success(Extracted(
      PdfContent(file.name, personalData, vehicleData, metadata),
      NamedData(file.name, personalData, vehicleData)));
  }

  /**
   * The file loop of `analyzeZipFile`: each file's record and data are pushed in file order;
   * the first file that fails stops the loop (`ok` is then false).
   */
  method ProcessFiles(files: seq<PdfFile>, s: DocumentServices)
    returns (ok: bool, pdfContents: seq<PdfContent>, extractedDataWithNames: seq<NamedData>)
    ensures ok <==> ProcessAll(files, DocumentProcessor(s)).Success?
    ensures ok ==> pdfContents == Seqs.Map(ProcessAll(files, DocumentProcessor(s)).value, RecordOf)
    ensures ok ==> extractedDataWithNames == Seqs.Map(ProcessAll(files, DocumentProcessor(s)).value, DataOf)
  {
    ghost var process := DocumentProcessor(s);
    extractedDataWithNames, pdfContents := [], [];
    ghost var docs: seq<Extracted> := [];
    for i := 0 to |files|
      invariant ProcessAll(files[..i], process) == Success(docs)
      invariant pdfContents == Seqs.Map(docs, RecordOf)
      invariant extractedDataWithNames == Seqs.Map(docs, DataOf)
    {
      var doc := ProcessDocument(files[i], s);
      ProcessAllSnoc(files, i, process, docs);
      if doc.Failure? {
        FirstFailureAborts(files, process, i + 1);
        return false, [], [];
      }
      Seqs.MapSnoc(docs, doc.value, RecordOf);
      Seqs.MapSnoc(docs, doc.value, DataOf);
      extractedDataWithNames := extractedDataWithNames + [doc.value.data];
      pdfContents := pdfContents + [doc.value.record];
      docs := docs + [doc.value];
    }
    assert files[..|files|] == files;
    ok := true;
  }

  /** `analyzeZipFile`, proved to resolve to `AnalyzeSpec`. */
  method AnalyzeZipFile(zipBuffer: Bytes, s: Services) returns (r: AnalysisResult)
    ensures r == AnalyzeSpec(zipBuffer, s)
  {
    var unzipped := s.unzip(zipBuffer);
    if unzipped.Failure? {
      return ERROR_RESULT;
    }
    var files := unzipped.value;
    if |files| == 0 {
      return ERROR_RESULT;
    }
    var ok, pdfContents, extractedDataWithNames := ProcessFiles(files, s.document);
    if !ok {
      return ERROR_RESULT;
    }
    var divergencies: seq<Divergency> := [];
    if |extractedDataWithNames| > 1 {
      var detected := OpenAi.DetectDivergencies(extractedDataWithNames, s.askCompare, s.parseDivergencies).result;
      if detected.Failure? {
        return ERROR_RESULT;
      }
      divergencies := detected.value;
    }
    var hasDivergencies := |divergencies| > 0;
    var status := if hasDivergencies then Divergencies else Ok;
    r := AnalysisResult(status, pdfContents, divergencies);
  }

  // ---------------------------------------------------------------------------------------
  // Properties of the batch
  // ---------------------------------------------------------------------------------------

  /** The file loop's step: one more file is processed after the others. */
  lemma ProcessAllSnoc(files: seq<PdfFile>, i: nat, process: Processor, docs: seq<Extracted>)
    requires i < |files| && ProcessAll(files[..i], process) == Success(docs)
    ensures process(files[i]).Success? ==> ProcessAll(files[..i + 1], process) == Success(docs + [process(files[i]).value])
  {
    assert files[..i + 1][..i] == files[..i];
  }

  /** A failure on the last file of a prefix aborts the whole batch, however many files follow. */
  lemma {:induction false} FirstFailureAborts(files: seq<PdfFile>, process: Processor, n: nat)
    requires 0 < n <= |files| && ProcessAll(files[..n - 1], process).Success? && process(files[n - 1]).Failure?
    ensures ProcessAll(files, process).Failure?
    decreases |files|
  {
    if n < |files| {
      var front := files[..|files| - 1];
      assert front[..n - 1] == files[..n - 1] && front[n - 1] == files[n - 1];
      FirstFailureAborts(front, process, n);
    } else {
      assert files[..|files| - 1] == files[..n - 1];
    }
  }

  /**
   * The file loop succeeds exactly when every file succeeds, and then yields one document per
   * file, in file order.
   */
  lemma {:induction false} ProcessAllMeaning(files: seq<PdfFile>, process: Processor)
    ensures ProcessAll(files, process).Success? <==> forall i :: 0 <= i < |files| ==> process(files[i]).Success?
    ensures ProcessAll(files, process).Success? ==>
      |ProcessAll(files, process).value| == |files| &&
      forall i :: 0 <= i < |files| ==> ProcessAll(files, process).value[i] == process(files[i]).value
  {
    if files != [] {
      var n := |files| - 1;
      var front := files[..n];
      ProcessAllMeaning(front, process);
      assert forall i :: 0 <= i < n ==> front[i] == files[i];
    }
  }

  /**
   * The shape of every batch result: an error carries no records and no divergencies; the
   * status is 'divergencies' exactly when the list is non-empty; otherwise every file was
   * processed and the records are the files' records, one per file, in file order.
   */
  lemma BatchResultShape(unzipped: Result<seq<PdfFile>, string>, process: Processor,
                         askCompare: OpenAi.CompareService, parseDivergencies: OpenAi.DivergencyParser)
    ensures var r := Batch(unzipped, process, askCompare, parseDivergencies);
      && (r.status == Error ==> r.pdfContents == [] && r.divergencies == [])
      && (r.status == Divergencies <==> r.divergencies != [])
      && (r.status != Error ==>
            && unzipped.Success? && |unzipped.value| > 0
            && |r.pdfContents| == |unzipped.value|
            && forall i :: 0 <= i < |unzipped.value| ==>
                 process(unzipped.value[i]).Success? && r.pdfContents[i] == process(unzipped.value[i]).value.record)
  {
    if unzipped.Success? {
      ProcessAllMeaning(unzipped.value, process);
    }
  }

  /** A failed unzip, an archive without PDFs, or a failure on any one file gives the error result. */
  lemma BatchErrors(unzipped: Result<seq<PdfFile>, string>, process: Processor,
                    askCompare: OpenAi.CompareService, parseDivergencies: OpenAi.DivergencyParser, i: nat)
    requires unzipped.Success? ==> unzipped.value == [] || (i < |unzipped.value| && process(unzipped.value[i]).Failure?)
    ensures Batch(unzipped, process, askCompare, parseDivergencies) == ERROR_RESULT
  {
    if unzipped.Success? && unzipped.value != [] {
      ProcessAllMeaning(unzipped.value, process);
    }
  }

  /**
   * Divergency detection runs only with more than one file: with a single file the comparison
   * services are never consulted, and the status is 'ok' unless the file failed.
   */
  lemma SingleFileNotCompared(files: seq<PdfFile>, process: Processor,
                              askCompare: OpenAi.CompareService, parseDivergencies: OpenAi.DivergencyParser,
                              askCompare': OpenAi.CompareService, parseDivergencies': OpenAi.DivergencyParser)
    requires |files| == 1
    ensures Batch(Success(files), process, askCompare, parseDivergencies) == Batch(Success(files), process, askCompare', parseDivergencies')
    ensures Batch(Success(files), process, askCompare, parseDivergencies).status in {Ok, Error}
    ensures Batch(Success(files), process, askCompare, parseDivergencies).divergencies == []
  {
    ProcessAllMeaning(files, process);
  }

  /**
   * With several files and none failing, the comparison is made on the files' data in file
   * order, and its divergencies are reported as they are.
   */
  lemma SeveralFilesCompared(files: seq<PdfFile>, process: Processor,
                             askCompare: OpenAi.CompareService, parseDivergencies: OpenAi.DivergencyParser)
    requires |files| > 1 && forall i :: 0 <= i < |files| ==> process(files[i]).Success?
    ensures ProcessAll(files, process).Success? &&
      var named := Seqs.Map(ProcessAll(files, process).value, DataOf);
      var r := Batch(Success(files), process, askCompare, parseDivergencies);
      && |named| == |files|
      && (forall i :: 0 <= i < |files| ==> named[i] == process(files[i]).value.data)
      && (r.status == Error <==> OpenAi.DetectDivergencies(named, askCompare, parseDivergencies).result.Failure?)
      && (r.status != Error ==>
            OpenAi.DetectDivergencies(named, askCompare, parseDivergencies).result.Success? &&
            r.divergencies == OpenAi.DetectDivergencies(named, askCompare, parseDivergencies).result.value)
  {
    ProcessAllMeaning(files, process);
  }

  // ---------------------------------------------------------------------------------------
  // Properties of one document
  // ---------------------------------------------------------------------------------------

  /**
   * A document goes to the vision model when its sanitised text is empty or its confidence is
   * below 80, and then the text model is never consulted.
   */
  lemma VisionSkipsText(file: PdfFile, extraction: PdfService.TextExtractionResult, s: DocumentServices, askText: OpenAi.TextService)
    requires UsesVision(PdfService.SanitizeText(extraction.text), extraction.confidence)
    ensures DocumentFrom(file, extraction, s) == DocumentFrom(file, extraction, s.(askText := askText))
  {
    VisionDataIgnoresText(file, s, askText);
  }

  /**
   * Otherwise the document goes to the text model, and the vision model is never consulted.
   */
  lemma TextSkipsVision(file: PdfFile, extraction: PdfService.TextExtractionResult, s: DocumentServices, askVision: OpenAi.VisionService)
    requires !UsesVision(PdfService.SanitizeText(extraction.text), extraction.confidence)
    ensures DocumentFrom(file, extraction, s) == DocumentFrom(file, extraction, s.(askVision := askVision))
  {
  }

  /** The vision path does not consult the text model. */
  lemma VisionDataIgnoresText(file: PdfFile, s: DocumentServices, askText: OpenAi.TextService)
    ensures VisionData(file, s) == VisionData(file, s.(askText := askText))
  {
    var s' := s.(askText := askText);
    match ImageRendering.RenderForVisionSpec(file.content, s.rasterise, s.enhance)
    case Failure(_) =>
    case Success(pages) =>
      assert PageOutcomes(pages, file.name, s) == PageOutcomes(pages, file.name, s');
  }

  /** The shape `extractTextFromPDF` guarantees of its result. */
  ghost predicate WellFormedExtraction(extraction: PdfService.TextExtractionResult) {
    && extraction.charCount == |extraction.text|
    && PdfService.IsSanitized(extraction.text)
    && extraction.extractionMethod != Vision
  }

  /** Every extraction result is well formed. */
  lemma ExtractionWellFormed(file: PdfFile, s: DocumentServices)
    ensures WellFormedExtraction(Extraction(file, s))
  {
    PdfService.ExtractTextShape(file.content, s.pdfParse, s.rasterise, s.enhance, s.recognise);
  }

  /**
   * The record's metadata: method 'vision' exactly on the vision path, and then confidence 100;
   * otherwise the extractor's method and confidence; the text length is the sanitised length,
   * which is the extractor's character count.
   */
  lemma DocumentMetadata(file: PdfFile, extraction: PdfService.TextExtractionResult, s: DocumentServices)
    requires WellFormedExtraction(extraction) && DocumentFrom(file, extraction, s).Success?
    ensures var cleanText := PdfService.SanitizeText(extraction.text);
      var metadata := DocumentFrom(file, extraction, s).value.record.metadata;
      && (metadata.extractionMethod == Vision <==> UsesVision(cleanText, extraction.confidence))
      && (UsesVision(cleanText, extraction.confidence) ==> metadata.confidence == VISION_CONFIDENCE)
      && (!UsesVision(cleanText, extraction.confidence) ==>
            metadata.extractionMethod == extraction.extractionMethod && metadata.confidence == extraction.confidence)
      && metadata.textLength == |cleanText| == extraction.charCount
  {
    PdfService.SanitizeFixpoint(extraction.text);
  }

  /**
   * On the vision path, once the pages are rendered the document cannot fail: its sections are
   * the validated merge of the page results, so a key is present exactly when some page backed
   * it, and holds null or the first backed value.
   */
  lemma VisionRecord(file: PdfFile, extraction: PdfService.TextExtractionResult, s: DocumentServices, section: Section, k: string)
    requires UsesVision(PdfService.SanitizeText(extraction.text), extraction.confidence)
    requires ImageRendering.RenderForVisionSpec(file.content, s.rasterise, s.enhance).Success?
    ensures DocumentFrom(file, extraction, s).Success?
    ensures var pages := ImageRendering.RenderForVisionSpec(file.content, s.rasterise, s.enhance).value;
      var pageResults := PageResults(PageOutcomes(pages, file.name, s));
      var record := DocumentFrom(file, extraction, s).value.record;
      var d := if section == PersonalSection then record.personalData else record.vehicleData;
      && (k in d <==> exists i :: 0 <= i < |pageResults| && Backs(pageResults[i], section, k))
      && (k in d ==> d[k] == None || d[k] == MergePages(pageResults, section)[k])
  {
    var pages := ImageRendering.RenderForVisionSpec(file.content, s.rasterise, s.enhance).value;
    VisionSectionMeaning(PageResults(PageOutcomes(pages, file.name, s)), section, k);
  }

  /** On the vision path a render failure aborts the document with the render error. */
  lemma VisionRenderFailure(file: PdfFile, extraction: PdfService.TextExtractionResult, s: DocumentServices)
    requires UsesVision(PdfService.SanitizeText(extraction.text), extraction.confidence)
    requires ImageRendering.RenderForVisionSpec(file.content, s.rasterise, s.enhance).Failure?
    ensures DocumentFrom(file, extraction, s) == Failure(ImageRendering.RenderForVisionSpec(file.content, s.rasterise, s.enhance).error)
  {
  }

  /**
   * On the text path the document fails when the text model's call fails or its reply is
   * `null`; otherwise the record holds the reply's `personalData` and `vehicleData` as they are.
   */
  lemma TextRecord(file: PdfFile, extraction: PdfService.TextExtractionResult, s: DocumentServices)
    requires !UsesVision(PdfService.SanitizeText(extraction.text), extraction.confidence)
    ensures var reply := OpenAi.ExtractDataWithAi(PdfService.SanitizeText(extraction.text), s.askText, s.parseReply);
      && (DocumentFrom(file, extraction, s).Failure? <==> reply.Failure? || reply.value.NullReply?)
      && (reply.Success? && reply.value.ObjectReply? ==>
            DocumentFrom(file, extraction, s).value.record.personalData == reply.value.personalData &&
            DocumentFrom(file, extraction, s).value.record.vehicleData == reply.value.vehicleData &&
            DocumentFrom(file, extraction, s).value.data == NamedData(file.name, reply.value.personalData, reply.value.vehicleData))
  {
  }
}

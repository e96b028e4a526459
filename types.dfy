/**
 * The record shapes of backend/src/types/analysis.ts, together with the loosely typed JSON
 * values that the extraction services hand back.
 */
module Types {
  import opened Wrappers

  /** A Node `Buffer`; only its length and identity matter to the model. */
  type Bytes = seq<bv8>

  /** A field value as it arrives in parsed JSON: `None` is `null` or `undefined`. */
  type Value = Option<string>

  /** A JSON object of field values, such as `personalData`, `vehicleData` or `evidence`. */
  type Dict = map<string, Value>

  /** JavaScript truthiness of a field value: `null`, `undefined` and `""` are all falsy. */
  predicate Truthy(v: Value) {
    v.Some? && v.value != ""
  }

  /** True when some entry of `d` holds a truthy value (`Object.values(d).filter(v => v).length > 0`). */
  predicate HasTruthyValue(d: Dict) {
    exists k :: k in d && Truthy(d[k])
  }

  /**
   * What `JSON.parse` yields for a model reply. `NullReply` is the JSON `null` (and the `null`
   * that the vision call returns for a too-small image); any other value is an `ObjectReply`
   * whose missing `personalData`, `vehicleData` or `evidence` members read as empty objects.
   */
  datatype ModelReply =
    | NullReply
    | ObjectReply(personalData: Dict, vehicleData: Dict, evidence: Dict)

  /** `ExtractionMetadata.method`; `NoMethod` is the source's `'none'`. */
  datatype ExtractionMethod = Pdfjs | Tesseract | Vision | NoMethod

  /** `ExtractionMetadata` without the timing fields; `extractionMethod` is the source's `method`. */
  datatype ExtractionMetadata = ExtractionMetadata(extractionMethod: ExtractionMethod, textLength: nat, confidence: real)

  /** `PDFContent`: one record per analysed file. */
  datatype PdfContent = PdfContent(fileName: string, personalData: Dict, vehicleData: Dict, metadata: ExtractionMetadata)

  /** `Divergency.type`. */
  datatype DivergencyType = MissingField | InconsistentData | InvalidFormat | Anomaly

  /** `Divergency`, as the comparison service reports it. */
  datatype Divergency = Divergency(
    kind: DivergencyType, field: string, file1: string, file2: Option<string>,
    value1: Option<string>, value2: Option<string>, description: string)

  /** `AnalysisResult.status`. */
  datatype Status = Ok | Divergencies | Error

  /** `AnalysisResult` without the message text and the timestamp. */
  datatype AnalysisResult = AnalysisResult(status: Status, pdfContents: seq<PdfContent>, divergencies: seq<Divergency>)

  /** An entry of `extractedDataWithNames`: a file name with the data extracted from it. */
  datatype NamedData = NamedData(fileName: string, personalData: Dict, vehicleData: Dict)

  /** A PDF entry of the uploaded archive. */
  datatype PdfFile = PdfFile(name: string, content: Bytes)

  /** The outcome of an operation together with how many external service calls it made. */
  datatype Called<T> = Called(result: T, calls: nat)
}

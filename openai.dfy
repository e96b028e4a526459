/**
 * backend/src/config/openai.ts: the guards around the OpenAI chat calls. The calls themselves
 * and `JSON.parse` are oracles handed in as functions; what is modelled is the fence stripping,
 * the empty-content guard, the 30 000-byte floor with its single retry, and the document filter
 * in front of the divergency comparison.
 */
module OpenAi {
  import opened Wrappers
  import opened Types
  import opened Chars
  import Seqs

  /** `extractDataFromImage` skips images smaller than this many bytes. */
  const MIN_VISION_IMAGE_SIZE: nat := 30000
  /** The opening fence, matched case-insensitively. */
  const JSON_FENCE: string := "```json"
  /** The closing fence. */
  const CLOSING_FENCE: string := "```"
  /** What the text prompt shows in place of an empty document. */
  const EMPTY_DOCUMENT: string := "(empty - image-only document)"
  /** Thrown by `extractDataWithAI` and `detectDivergencies` when the reply has no content. */
  const NO_CONTENT: string := "No content in OpenAI response"
  /** Thrown by `extractDataFromImage` when the retried reply has no content either. */
  const NO_IMAGE_CONTENT: string := "No content in OpenAI response for image"
  /** Thrown when `detectDivergencies` reads `divergencies` off a JSON `null`. */
  const NULL_DIVERGENCY_REPLY: string := "Cannot read properties of null (reading 'divergencies')"

  /**
   * `message.choices[0]?.message?.content` of the text chat call, given the document text placed
   * in the prompt, or the error the call throws.
   */
  type TextService = string -> Result<Option<string>, string>

  /**
   * The same for the vision chat call, given the image, the file name, the page number and the
   * attempt (0 for the first call, 1 for the retry): a retry may be answered differently.
   */
  type VisionService = (Bytes, string, int, nat) -> Result<Option<string>, string>

  /** The same for the comparison chat call, given the documents it is shown. */
  type CompareService = seq<NamedData> -> Result<Option<string>, string>

  /** `JSON.parse` of an extraction reply, or the `SyntaxError` it throws. */
  type ReplyParser = string -> Result<ModelReply, string>

  /** `JSON.parse` of a comparison reply: JSON `null`, or an object whose `divergencies` may be missing. */
  datatype DivergencyReply = NullDivergencyReply | DivergencyObject(divergencies: Option<seq<Divergency>>)

  type DivergencyParser = string -> Result<DivergencyReply, string>

  // ---------------------------------------------------------------------------------------
  // Fence stripping
  // ---------------------------------------------------------------------------------------

  /** ASCII lower case, which is what a case-insensitive match of "json" compares. */
  function LowerAscii(c: char): char {
    if 'A' <= c <= 'Z' then (c as int + 32) as char else c
  }

  /** `/^```json/i`: `s` starts with three backticks and "json" in any letter case. */
  predicate StartsWithJsonFence(s: string) {
    |s| >= |JSON_FENCE| && forall i :: 0 <= i < |JSON_FENCE| ==> LowerAscii(s[i]) == JSON_FENCE[i]
  }

  /** `/```$/`: `s` ends with three backticks. */
  predicate EndsWithClosingFence(s: string) {
    |s| >= |CLOSING_FENCE| && s[|s| - |CLOSING_FENCE|..] == CLOSING_FENCE
  }

  /** `replace(/^```json\s*\/i, '')`: the opening fence and the whitespace run after it. */
  function StripOpeningFence(s: string): string {
    if StartsWithJsonFence(s) then TrimStart(s[|JSON_FENCE|..]) else s
  }

  /** `replace(/\s*```$/, '')`: the closing fence and the whole whitespace run before it. */
  function StripClosingFence(s: string): string {
    if EndsWithClosingFence(s) then TrimEnd(s[..|s| - |CLOSING_FENCE|]) else s
  }

  /**
   * The clean-up applied to a reply before `JSON.parse`: strip the opening fence, then the
   * closing fence, then trim. The result has no whitespace at either end, and content with
   * neither fence is only trimmed.
   */
  function StripFences(content: string): (r: string)
    ensures r == [] || (!IsWhitespace(r[0]) && !IsWhitespace(r[|r| - 1]))
    ensures !StartsWithJsonFence(content) && !EndsWithClosingFence(content) ==> r == Trim(content)
  {
    Trim(StripClosingFence(StripOpeningFence(content)))
  }

  /**
   * A reply wrapped in a fence, with any letter case in "json" and any whitespace inside the
   * fences, comes out as its trimmed body.
   */
  lemma StripFencesUnwraps(fence: string, body: string)
    requires |fence| == |JSON_FENCE| && StartsWithJsonFence(fence)
    ensures StripFences(fence + body + CLOSING_FENCE) == Trim(body)
  {
    var s := fence + body + CLOSING_FENCE;
    assert StartsWithJsonFence(s) by {
      forall i | 0 <= i < |JSON_FENCE| ensures LowerAscii(s[i]) == JSON_FENCE[i] {
        assert s[i] == fence[i];
      }
    }
    assert s[|JSON_FENCE|..] == body + CLOSING_FENCE;
    TrimStartAppend(body, CLOSING_FENCE);
    var afterOpening := TrimStart(body) + CLOSING_FENCE;
    assert StripOpeningFence(s) == afterOpening;
    assert afterOpening[|afterOpening| - |CLOSING_FENCE|..] == CLOSING_FENCE;
    assert afterOpening[..|afterOpening| - |CLOSING_FENCE|] == TrimStart(body);
    assert StripClosingFence(afterOpening) == Trim(body);
    TrimFixpoint(Trim(body));
  }

  /** Stripping is idempotent on replies without fences: a trimmed, fence-free reply is left as it is. */
  lemma StripFencesKeepsCleanJson(s: string)
    requires !StartsWithJsonFence(s) && !EndsWithClosingFence(s)
    requires s == [] || (!IsWhitespace(s[0]) && !IsWhitespace(s[|s| - 1]))
    ensures StripFences(s) == s
  {
    TrimFixpoint(s);
  }

  // ---------------------------------------------------------------------------------------
  // extractDataWithAI
  // ---------------------------------------------------------------------------------------

  /** The document text as the prompt shows it: `pdfContent || '(empty - image-only document)'`. */
  function PromptDocument(pdfContent: string): string {
    if pdfContent == "" then EMPTY_DOCUMENT else pdfContent
  }

  /**
   * `extractDataWithAI`: ask the text model about the document, fail with "No content in OpenAI
   * response" when the reply is missing or empty, otherwise parse the reply with its fences
   * stripped. A failed call fails with its own error.
   */
  function ExtractDataWithAi(pdfContent: string, ask: TextService, parse: ReplyParser): (r: Result<ModelReply, string>)
    ensures ask(PromptDocument(pdfContent)).Failure? ==> r == Failure(ask(PromptDocument(pdfContent)).error)
    ensures ask(PromptDocument(pdfContent)).Success? && !Truthy(ask(PromptDocument(pdfContent)).value) ==> r == Failure(NO_CONTENT)
    ensures r.Success? ==> exists c :: ask(PromptDocument(pdfContent)) == Success(Some(c)) && c != "" && r == parse(StripFences(c))
  {
    match ask(PromptDocument(pdfContent))
    case Failure(e) => Failure(e)
    case Success(content) =>
      if !Truthy(content) then Failure(NO_CONTENT)
      else parse(StripFences(content.value))
  }

  /** A missing or empty reply fails before any parse: the parser cannot change the outcome. */
  lemma EmptyTextReplyNeverParsed(pdfContent: string, ask: TextService, parse1: ReplyParser, parse2: ReplyParser)
    requires ask(PromptDocument(pdfContent)).Success? && !Truthy(ask(PromptDocument(pdfContent)).value)
    ensures ExtractDataWithAi(pdfContent, ask, parse1) == ExtractDataWithAi(pdfContent, ask, parse2) == Failure(NO_CONTENT)
  {
  }

  /** A fenced text reply is parsed as its trimmed body. */
  lemma TextReplyUnfenced(pdfContent: string, ask: TextService, parse: ReplyParser, fence: string, body: string)
    requires |fence| == |JSON_FENCE| && StartsWithJsonFence(fence)
    requires ask(PromptDocument(pdfContent)) == Success(Some(fence + body + CLOSING_FENCE))
    ensures ExtractDataWithAi(pdfContent, ask, parse) == parse(Trim(body))
  {
    StripFencesUnwraps(fence, body);
  }

  // ---------------------------------------------------------------------------------------
  // extractDataFromImage
  // ---------------------------------------------------------------------------------------

  /**
   * `extractDataFromImage`, with the number of vision calls it makes. An image under 30 000 bytes
   * gives `null` without any call. Otherwise the vision model is asked; a missing or empty reply
   * is retried once when `retryCount` is 0, and a second empty reply fails with "No content in
   * OpenAI response for image". A reply with content is parsed once its fences are stripped, and
   * a call that throws passes its error on. So there are at most two calls, and exactly one when
   * the first reply has content or the call throws.
   */
  function ExtractDataFromImage(imageBuffer: Bytes, fileName: string, pageNum: int, retryCount: nat,
                                ask: VisionService, parse: ReplyParser): (r: Called<Result<ModelReply, string>>)
    ensures |imageBuffer| < MIN_VISION_IMAGE_SIZE ==> r == Called(Success(NullReply), 0)
    ensures |imageBuffer| >= MIN_VISION_IMAGE_SIZE ==> 1 <= r.calls <= (if retryCount < 1 then 2 else 1)
    ensures r.calls == 2 ==> retryCount == 0 && ask(imageBuffer, fileName, pageNum, 0).Success? && !Truthy(ask(imageBuffer, fileName, pageNum, 0).value)
    ensures |imageBuffer| >= MIN_VISION_IMAGE_SIZE && ask(imageBuffer, fileName, pageNum, retryCount).Failure? ==>
      r == Called(Failure(ask(imageBuffer, fileName, pageNum, retryCount).error), 1)
    ensures |imageBuffer| >= MIN_VISION_IMAGE_SIZE && ask(imageBuffer, fileName, pageNum, retryCount).Success? &&
            Truthy(ask(imageBuffer, fileName, pageNum, retryCount).value) ==>
      r == Called(parse(StripFences(ask(imageBuffer, fileName, pageNum, retryCount).value.value)), 1)
    ensures |imageBuffer| >= MIN_VISION_IMAGE_SIZE && retryCount >= 1 && ask(imageBuffer, fileName, pageNum, retryCount).Success? &&
            !Truthy(ask(imageBuffer, fileName, pageNum, retryCount).value) ==>
      r == Called(Failure(NO_IMAGE_CONTENT), 1)
    decreases if retryCount < 1 then 1 else 0
  {
    if |imageBuffer| < MIN_VISION_IMAGE_SIZE then Called(Success(NullReply), 0)
    else
      match ask(imageBuffer, fileName, pageNum, retryCount)
      case Failure(e) => Called(Failure(e), 1)
      case Success(content) =>
        if !Truthy(content) then
          if retryCount < 1 then
            var retry := ExtractDataFromImage(imageBuffer, fileName, pageNum, retryCount + 1, ask, parse);
            Called(retry.result, 1 + retry.calls)
          else Called(Failure(NO_IMAGE_CONTENT), 1)
        else Called(parse(StripFences(content.value)), 1)
  }

  /**
   * The retry in full: after an empty first reply, the page's outcome is whatever the second
   * call gives, read with the same guard, and a second empty reply fails.
   */
  lemma ImageRetriedOnce(imageBuffer: Bytes, fileName: string, pageNum: int, ask: VisionService, parse: ReplyParser)
    requires |imageBuffer| >= MIN_VISION_IMAGE_SIZE
    requires ask(imageBuffer, fileName, pageNum, 0).Success? && !Truthy(ask(imageBuffer, fileName, pageNum, 0).value)
    ensures var r := ExtractDataFromImage(imageBuffer, fileName, pageNum, 0, ask, parse);
      var second := ask(imageBuffer, fileName, pageNum, 1);
      && r.calls == 2
      && (second.Failure? ==> r.result == Failure(second.error))
      && (second.Success? && !Truthy(second.value) ==> r.result == Failure(NO_IMAGE_CONTENT))
      && (second.Success? && Truthy(second.value) ==> r.result == parse(StripFences(second.value.value)))
  {
  }

  // ---------------------------------------------------------------------------------------
  // detectDivergencies
  // ---------------------------------------------------------------------------------------

  /** A document with at least one truthy `personalData` or `vehicleData` value. */
  predicate HasData(doc: NamedData) {
    HasTruthyValue(doc.personalData) || HasTruthyValue(doc.vehicleData)
  }

  /** `validDocuments`: the documents shown to the comparison model. */
  function DocumentsWithData(docs: seq<NamedData>): seq<NamedData> {
    Seqs.Filter(docs, HasData)
  }

  /**
   * `detectDivergencies`, with the number of comparison calls it makes: [] without a call for
   * fewer than two documents, or fewer than two with data; otherwise one call on the documents
   * with data, in their order. A missing or empty reply fails with "No content in OpenAI
   * response"; a reply is parsed as it is, without fence stripping, and its `divergencies` are
   * returned unchecked, or [] when absent.
   */
  function DetectDivergencies(docs: seq<NamedData>, ask: CompareService, parse: DivergencyParser): (r: Called<Result<seq<Divergency>, string>>)
    ensures |docs| < 2 || |DocumentsWithData(docs)| < 2 ==> r == Called(Success([]), 0)
    ensures r.calls <= 1
    ensures r.result.Success? && r.result.value != [] ==>
      r.calls == 1 && exists c :: ask(DocumentsWithData(docs)) == Success(Some(c)) && parse(c) == Success(DivergencyObject(Some(r.result.value)))
  {
    if |docs| < 2 then Called(Success([]), 0)
    else
      var validDocuments := DocumentsWithData(docs);
      if |validDocuments| < 2 then Called(Success([]), 0)
      else
        var outcome :=
          match ask(validDocuments)
          case Failure(e) => Failure(e)
          case Success(content) =>
            if !Truthy(content) then Failure(NO_CONTENT)
            else
              match parse(content.value)
              case Failure(e) => Failure(e)
              case Success(NullDivergencyReply) => Failure(NULL_DIVERGENCY_REPLY)
              case Success(DivergencyObject(divergencies)) => Success(divergencies.GetOr([]));
        Called(outcome, 1)
  }

  /**
   * With two or more documents holding data, there is exactly one comparison call, and its
   * outcome decides the result: the call's error, "No content" for an empty reply, the parser's
   * error, a `TypeError` for a JSON `null`, or the reply's `divergencies` ([] when absent).
   */
  lemma ComparisonOutcome(docs: seq<NamedData>, ask: CompareService, parse: DivergencyParser)
    requires |DocumentsWithData(docs)| >= 2
    ensures var r := DetectDivergencies(docs, ask, parse);
      var reply := ask(DocumentsWithData(docs));
      && r.calls == 1
      && (reply.Failure? ==> r.result == Failure(reply.error))
      && (reply.Success? && !Truthy(reply.value) ==> r.result == Failure(NO_CONTENT))
      && (reply.Success? && Truthy(reply.value) ==>
            var parsed := parse(reply.value.value);
            && (parsed.Failure? ==> r.result == Failure(parsed.error))
            && (parsed == Success(NullDivergencyReply) ==> r.result == Failure(NULL_DIVERGENCY_REPLY))
            && (parsed.Success? && parsed.value.DivergencyObject? ==> r.result == Success(parsed.value.divergencies.GetOr([]))))
  {
  }

  /**
   * The documents shown to the comparison model are exactly those with data, in their original
   * order: `idx` gives their strictly increasing positions in `docs`.
   */
  lemma DocumentsWithDataInOrder(docs: seq<NamedData>) returns (idx: seq<int>)
    ensures |idx| == |DocumentsWithData(docs)|
    ensures forall j :: 0 <= j < |idx| ==> 0 <= idx[j] < |docs| && DocumentsWithData(docs)[j] == docs[idx[j]]
    ensures forall j, k :: 0 <= j < k < |idx| ==> idx[j] < idx[k]
    ensures forall i :: 0 <= i < |docs| ==> (HasData(docs[i]) <==> i in idx)
  {
    idx := Seqs.FilterSelection(docs, HasData);
  }
}

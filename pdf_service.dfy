/**
 * backend/src/services/pdfService.ts: whitespace normalisation of extracted text, the
 * Tesseract page loop with its confidence filter and quality gate, and the cascade from the
 * embedded text layer to OCR. pdf-parse and Tesseract are oracles handed in as functions.
 */
module PdfService {
  import opened Wrappers
  import opened Types
  import opened Chars
  import Seqs
  import ImageRendering

  // ---------------------------------------------------------------------------------------
  // sanitizeText
  // ---------------------------------------------------------------------------------------

  predicate NotNul(c: char) { c != '\0' }

  predicate NotCr(c: char) { c != '\r' }

  function LfToSpace(c: char): char {
    if c == '\n' then ' ' else c
  }

  /** A character that is neither whitespace nor NUL: the characters that sanitising never drops. */
  predicate IsVisible(c: char) {
    !IsWhitespace(c) && c != '\0'
  }

  /** No two neighbouring characters are both whitespace. */
  ghost predicate NoAdjacentWhitespace(s: string) {
    forall i, j :: 0 <= i < j < |s| && j == i + 1 ==> !(IsWhitespace(s[i]) && IsWhitespace(s[j]))
  }

  /** The characters `sanitizeText` removes or rewrites before collapsing: NUL, CR and LF. */
  predicate IsLineControl(c: char) {
    c == '\0' || c == '\r' || c == '\n'
  }

  /** The shape of a sanitised string. */
  ghost predicate IsSanitized(s: string) {
    && (forall i :: 0 <= i < |s| ==> !IsLineControl(s[i]))
    && (forall i :: 0 <= i < |s| && IsWhitespace(s[i]) ==> s[i] == ' ')
    && (s == [] || (!IsWhitespace(s[0]) && !IsWhitespace(s[|s| - 1])))
    && NoAdjacentWhitespace(s)
  }

  /** `replace(/\s+/g, ' ')`: every maximal run of whitespace becomes a single space. */
  function CollapseWhitespace(s: string): (r: string)
    ensures |r| <= |s|
    ensures |r| == 0 <==> |s| == 0
    ensures |s| > 0 ==> (IsWhitespace(r[0]) <==> IsWhitespace(s[0]))
    ensures forall i :: 0 <= i < |r| ==> r[i] == ' ' || (!IsWhitespace(r[i]) && r[i] in s)
    ensures NoAdjacentWhitespace(r)
    decreases |s|
  {
    if s == [] then []
    else if IsWhitespace(s[0]) then
      TrimStartIsSuffix(s[1..]);
      [' '] + CollapseWhitespace(TrimStart(s[1..]))
    else [s[0]] + CollapseWhitespace(s[1..])
  }

  /** The first three replacements: drop NUL, turn LF into a space, drop CR. */
  function StripLineControls(text: string): (r: string)
    ensures |r| <= |text|
    ensures forall i :: 0 <= i < |r| ==> !IsLineControl(r[i])
  {
    var noNul := Seqs.Filter(text, NotNul);
    Seqs.FilterMembers(text, NotNul);
    var noLf := Seqs.Map(noNul, LfToSpace);
    assert forall i :: 0 <= i < |noLf| ==> noLf[i] != '\n' && noLf[i] != '\0' by {
      forall i | 0 <= i < |noLf| ensures noLf[i] != '\n' && noLf[i] != '\0' {
        assert noNul[i] in noNul;
      }
    }
    var r := Seqs.Filter(noLf, NotCr);
    Seqs.FilterMembers(noLf, NotCr);
    assert forall i :: 0 <= i < |r| ==> r[i] in noLf && NotCr(r[i]);
    r
  }

  /** Trimming a collapsed string free of NUL, CR and LF gives a sanitised string. */
  lemma TrimCollapsed(c: string)
    requires forall i :: 0 <= i < |c| ==> c[i] == ' ' || (!IsWhitespace(c[i]) && !IsLineControl(c[i]))
    requires NoAdjacentWhitespace(c)
    ensures IsSanitized(Trim(c))
  {
    var r := Trim(c);
    var k := TrimOffset(c);
    assert r == c[k..k + |r|];
    forall i | 0 <= i < |r|
      ensures !IsLineControl(r[i]) && (IsWhitespace(r[i]) ==> r[i] == ' ')
    {
      assert r[i] == c[k + i];
    }
    forall i, j | 0 <= i < j < |r| && j == i + 1
      ensures !(IsWhitespace(r[i]) && IsWhitespace(r[j]))
    {
      assert r[i] == c[k + i] && r[j] == c[k + j];
    }
  }

  /**
   * `sanitizeText`: drop NUL, turn LF into a space, drop CR, collapse whitespace runs to one
   * space, trim. A CR is removed outright, so "a\rb" becomes "ab". The result has no NUL, CR or
   * LF, no whitespace at either end, no two neighbouring whitespace characters, and is never
   * longer than the input.
   */
  function SanitizeText(text: string): (r: string)
    ensures |r| <= |text|
    ensures IsSanitized(r)
  {
    var collapsed := CollapseWhitespace(StripLineControls(text));
    TrimCollapsed(collapsed);
    Trim(collapsed)
  }

  /** Collapsing leaves a string alone when its only whitespace is single spaces. */
  lemma {:induction false} CollapseFixpoint(s: string)
    requires forall i :: 0 <= i < |s| && IsWhitespace(s[i]) ==> s[i] == ' '
    requires NoAdjacentWhitespace(s)
    ensures CollapseWhitespace(s) == s
    decreases |s|
  {
    if s != [] {
      assert NoAdjacentWhitespace(s[1..]) by {
        assert forall i :: 0 <= i < |s| - 1 ==> s[1..][i] == s[i + 1];
      }
      CollapseFixpoint(s[1..]);
      if IsWhitespace(s[0]) {
        assert s[1..] == [] || !IsWhitespace(s[1..][0]);
        assert TrimStart(s[1..]) == s[1..];
      }
      assert s == [s[0]] + s[1..];
    }
  }

  /** Text without NUL, CR or LF passes the first three replacements unchanged. */
  lemma StripLineControlsFixpoint(t: string)
    requires forall i :: 0 <= i < |t| ==> !IsLineControl(t[i])
    ensures StripLineControls(t) == t
  {
    Seqs.FilterKeepsAll(t, NotNul);
    assert Seqs.Map(t, LfToSpace) == t;
    Seqs.FilterKeepsAll(t, NotCr);
  }

  /** A sanitised string passes through `sanitizeText` unchanged. */
  lemma SanitizeFixpoint(t: string)
    requires IsSanitized(t)
    ensures SanitizeText(t) == t
  {
    StripLineControlsFixpoint(t);
    CollapseFixpoint(t);
    TrimFixpoint(t);
  }

  /** `sanitizeText` is idempotent: its output is already sanitised. */
  lemma SanitizeIdempotent(text: string)
    ensures SanitizeText(SanitizeText(text)) == SanitizeText(text)
  {
    SanitizeFixpoint(SanitizeText(text));
  }

  /** The first three replacements work character by character ... */
  lemma StripLineControlsAppend(a: string, b: string)
    ensures StripLineControls(a + b) == StripLineControls(a) + StripLineControls(b)
  {
    var na, nb := Seqs.Filter(a, NotNul), Seqs.Filter(b, NotNul);
    Seqs.FilterAppend(a, b, NotNul);
    Seqs.MapAppend(na, nb, LfToSpace);
    Seqs.FilterAppend(Seqs.Map(na, LfToSpace), Seqs.Map(nb, LfToSpace), NotCr);
  }

  /** ... and on one character: NUL and CR vanish, LF becomes a space, any other character stays. */
  lemma StripLineControlsChar(c: char)
    ensures StripLineControls([c]) == if c == '\0' || c == '\r' then [] else if c == '\n' then " " else [c]
  {
    assert [c][..0] == [];
    var noLf := Seqs.Map(Seqs.Filter([c], NotNul), LfToSpace);
    if c != '\0' {
      assert noLf == [LfToSpace(c)];
      assert noLf[..0] == [];
    }
  }

  /**
   * A whitespace run keeps only whitespace through the first three replacements, and keeps at
   * least one character when it holds anything besides carriage returns.
   */
  lemma StripLineControlsBlank(w: string)
    requires IsBlank(w)
    ensures IsBlank(StripLineControls(w))
    ensures (exists i :: 0 <= i < |w| && w[i] != '\r') ==> StripLineControls(w) != []
  {
    var noNul := Seqs.Filter(w, NotNul);
    var noLf := Seqs.Map(noNul, LfToSpace);
    var r := Seqs.Filter(noLf, NotCr);
    Seqs.FilterMembers(w, NotNul);
    Seqs.FilterMembers(noLf, NotCr);
    forall k | 0 <= k < |noLf| ensures IsWhitespace(noLf[k]) {
      assert noNul[k] in noNul;
    }
    forall k | 0 <= k < |r| ensures IsWhitespace(r[k]) {
      assert r[k] in r;
    }
    if exists i :: 0 <= i < |w| && w[i] != '\r' {
      var i :| 0 <= i < |w| && w[i] != '\r';
      Seqs.FilterKeepsMember(w, NotNul, w[i]);
      var j :| 0 <= j < |noNul| && noNul[j] == w[i];
      assert noLf[j] == LfToSpace(w[i]) && NotCr(noLf[j]);
      Seqs.FilterKeepsMember(noLf, NotCr, noLf[j]);
    }
  }

  /** One step of the collapse at a leading whitespace character. */
  lemma CollapseAtWhitespace(s: string)
    requires s != [] && IsWhitespace(s[0])
    ensures CollapseWhitespace(s) == [' '] + CollapseWhitespace(TrimStart(s[1..]))
  {
  }

  /** One step of the collapse at a leading non-whitespace character. */
  lemma CollapseAtOther(s: string)
    requires s != [] && !IsWhitespace(s[0])
    ensures CollapseWhitespace(s) == [s[0]] + CollapseWhitespace(s[1..])
  {
  }

  /** Collapsing splits after a non-whitespace character: what precedes it collapses on its own. */
  lemma {:induction false} CollapseAppend(a: string, b: string)
    requires a == [] || !IsWhitespace(a[|a| - 1])
    ensures CollapseWhitespace(a + b) == CollapseWhitespace(a) + CollapseWhitespace(b)
    decreases |a|, 1
  {
    if a == [] {
      assert a + b == b;
    } else if IsWhitespace(a[0]) {
      CollapseAppendAtWhitespace(a, b);
    } else {
      CollapseAppendAtOther(a, b);
    }
  }

  /** `CollapseAppend` when `a` starts with whitespace: the run is skipped, then the rest splits. */
  lemma {:induction false} CollapseAppendAtWhitespace(a: string, b: string)
    requires a != [] && IsWhitespace(a[0]) && !IsWhitespace(a[|a| - 1])
    ensures CollapseWhitespace(a + b) == CollapseWhitespace(a) + CollapseWhitespace(b)
    decreases |a|, 0
  {
    var ab := a + b;
    var rest := a[1..];
    assert rest[|rest| - 1] == a[|a| - 1];
    TrimStartKeepsEnd(rest);
    var t := TrimStart(rest);
    calc {
      CollapseWhitespace(ab);
      { assert ab[0] == a[0] && ab[1..] == rest + b; CollapseAtWhitespace(ab); }
      [' '] + CollapseWhitespace(TrimStart(rest + b));
      { TrimStartNonBlankAppend(rest, b); }
      [' '] + CollapseWhitespace(t + b);
      { CollapseAppend(t, b); }
      [' '] + (CollapseWhitespace(t) + CollapseWhitespace(b));
      ([' '] + CollapseWhitespace(t)) + CollapseWhitespace(b);
      { CollapseAtWhitespace(a); }
      CollapseWhitespace(a) + CollapseWhitespace(b);
    }
  }

  /** `CollapseAppend` when `a` starts with another character: it is kept, then the rest splits. */
  lemma {:induction false} CollapseAppendAtOther(a: string, b: string)
    requires a != [] && !IsWhitespace(a[0]) && !IsWhitespace(a[|a| - 1])
    ensures CollapseWhitespace(a + b) == CollapseWhitespace(a) + CollapseWhitespace(b)
    decreases |a|, 0
  {
    assert (a + b)[1..] == a[1..] + b;
    CollapseAppend(a[1..], b);
    CollapseAtOther(a + b);
    CollapseAtOther(a);
  }

  /** A non-empty whitespace run in front of a word collapses to one space. */
  lemma CollapseBlankPrefix(w: string, y: string)
    requires w != [] && IsBlank(w)
    requires y != [] && !IsWhitespace(y[0])
    ensures CollapseWhitespace(w + y) == " " + CollapseWhitespace(y)
  {
    var wy := w + y;
    assert wy[0] == w[0] && wy[1..] == w[1..] + y;
    TrimStartAppend(w[1..], y);
    TrimStartEmpty(w[1..]);
    assert TrimStart(wy[1..]) == y;
    CollapseAtWhitespace(wy);
  }

  /**
   * `replace(/\s+/g, ' ')` turns the whitespace run between two words into exactly one space:
   * the words on either side are neither glued together nor dropped.
   */
  lemma CollapseJoin(x: string, w: string, y: string)
    requires x != [] && !IsWhitespace(x[|x| - 1])
    requires w != [] && IsBlank(w)
    requires y != [] && !IsWhitespace(y[0])
    ensures CollapseWhitespace(x + w + y) == CollapseWhitespace(x) + " " + CollapseWhitespace(y)
  {
    var wy := w + y;
    assert x + w + y == x + wy;
    CollapseAppend(x, wy);
    CollapseBlankPrefix(w, y);
    var cx, cy := CollapseWhitespace(x), CollapseWhitespace(y);
    assert cx + (" " + cy) == cx + " " + cy;
  }

  /**
   * Words stay separated: two sanitised texts around a whitespace run come out joined by exactly
   * one space, provided the run holds something besides carriage returns (a run of carriage
   * returns alone is deleted, as `replace(/\r/g, '')` does, and the two texts then touch).
   */
  lemma SanitizeJoin(x: string, w: string, y: string)
    requires x != [] && IsSanitized(x) && y != [] && IsSanitized(y)
    requires IsBlank(w) && exists i :: 0 <= i < |w| && w[i] != '\r'
    ensures SanitizeText(x + w + y) == x + " " + y
  {
    StripLineControlsAppend(x + w, y);
    StripLineControlsAppend(x, w);
    StripLineControlsFixpoint(x);
    StripLineControlsFixpoint(y);
    StripLineControlsBlank(w);
    CollapseJoin(x, StripLineControls(w), y);
    CollapseFixpoint(x);
    CollapseFixpoint(y);
    var j := x + " " + y;
    assert j[0] == x[0] && j[|j| - 1] == y[|y| - 1];
    TrimFixpoint(j);
  }

  lemma {:induction false} FilterVisibleMapLf(s: string)
    ensures Seqs.Filter(Seqs.Map(s, LfToSpace), IsVisible) == Seqs.Filter(s, IsVisible)
  {
    if s != [] {
      var n := |s| - 1;
      FilterVisibleMapLf(s[..n]);
      assert s == s[..n] + [s[n]];
      Seqs.MapSnoc(s[..n], s[n], LfToSpace);
      Seqs.FilterSnoc(Seqs.Map(s[..n], LfToSpace), LfToSpace(s[n]), IsVisible);
      Seqs.FilterSnoc(s[..n], s[n], IsVisible);
    }
  }

  /** Prepending a character adds it to the visible characters exactly when it is visible. */
  lemma FilterVisibleCons(c: char, t: string)
    ensures Seqs.Filter([c] + t, IsVisible) == if IsVisible(c) then [c] + Seqs.Filter(t, IsVisible) else Seqs.Filter(t, IsVisible)
  {
    Seqs.FilterAppend([c], t, IsVisible);
    FilterVisibleSingle(c);
  }

  lemma FilterVisibleTrimStart(s: string)
    ensures Seqs.Filter(TrimStart(s), IsVisible) == Seqs.Filter(s, IsVisible)
  {
    var t := TrimStart(s);
    var w := s[..|s| - |t|];
    TrimStartIsSuffix(s);
    assert s == w + t;
    Seqs.FilterAppend(w, t, IsVisible);
    Seqs.FilterDropsAll(w, IsVisible);
  }

  lemma {:induction false} FilterVisibleCollapse(s: string)
    ensures Seqs.Filter(CollapseWhitespace(s), IsVisible) == Seqs.Filter(s, IsVisible)
    decreases |s|
  {
    if s != [] {
      assert s == [s[0]] + s[1..];
      FilterVisibleCons(s[0], s[1..]);
      if IsWhitespace(s[0]) {
        var t := TrimStart(s[1..]);
        FilterVisibleCollapse(t);
        FilterVisibleCons(' ', CollapseWhitespace(t));
        FilterVisibleTrimStart(s[1..]);
      } else {
        FilterVisibleCollapse(s[1..]);
        FilterVisibleCons(s[0], CollapseWhitespace(s[1..]));
      }
    }
  }

  lemma FilterVisibleSingle(c: char)
    ensures Seqs.Filter([c], IsVisible) == if IsVisible(c) then [c] else []
  {
    Seqs.FilterSnoc([], c, IsVisible);
  }

  lemma FilterVisibleTrim(s: string)
    ensures Seqs.Filter(Trim(s), IsVisible) == Seqs.Filter(s, IsVisible)
  {
    TrimSplit(s);
    var k := TrimOffset(s);
    var t := Trim(s);
    var head, tail := s[..k], s[k + |t|..];
    Seqs.FilterAppend(head + t, tail, IsVisible);
    Seqs.FilterAppend(head, t, IsVisible);
    Seqs.FilterDropsAll(head, IsVisible);
    Seqs.FilterDropsAll(tail, IsVisible);
  }

  /** Sanitising keeps every visible character, in order: it only drops or rewrites whitespace and NUL. */
  lemma SanitizeKeepsVisible(text: string)
    ensures Seqs.Filter(SanitizeText(text), IsVisible) == Seqs.Filter(text, IsVisible)
  {
    var noNul := Seqs.Filter(text, NotNul);
    var noLf := Seqs.Map(noNul, LfToSpace);
    var noCr := Seqs.Filter(noLf, NotCr);
    assert noCr == StripLineControls(text);
    var collapsed := CollapseWhitespace(noCr);
    FilterVisibleTrim(collapsed);
    FilterVisibleCollapse(noCr);
    Seqs.FilterFilter(noLf, NotCr, IsVisible);
    FilterVisibleMapLf(noNul);
    Seqs.FilterFilter(text, NotNul, IsVisible);
  }

  // ---------------------------------------------------------------------------------------
  // extractTextWithTesseractOCR
  // ---------------------------------------------------------------------------------------

  /** A page is accepted only above this confidence. */
  const MIN_PAGE_CONFIDENCE: real := 50.0
  /** The quality gate discards OCR text shorter than this ... */
  const QUALITY_MIN_CHARS: nat := 20
  /** ... when the mean confidence is also below this. */
  const QUALITY_MIN_CONFIDENCE: real := 60.0
  /** Embedded text longer than this is used without OCR. */
  const EMBEDDED_TEXT_MIN_CHARS: nat := 50

  /** `result.data` of `Tesseract.recognize`: the page text and its confidence. */
  datatype OcrReading = OcrReading(text: string, confidence: real)

  /** `Tesseract.recognize(image, 'por')`: the reading, or the error it throws. */
  type Recogniser = Bytes -> Result<OcrReading, string>

  /** What `extractTextWithTesseractOCR` resolves to. */
  datatype OcrResult = OcrResult(text: string, confidence: real, charCount: nat)

  /** `TextExtractionResult`; `extractionMethod` is the source's `method`. */
  datatype TextExtractionResult = TextExtractionResult(text: string, extractionMethod: ExtractionMethod, confidence: real, charCount: nat)

  /** A page reading the loop accepts: non-empty trimmed text and confidence above 50. */
  predicate Accepted(o: Result<OcrReading, string>) {
    o.Success? && |Trim(o.value.text)| > 0 && o.value.confidence > MIN_PAGE_CONFIDENCE
  }

  /** A page reading the loop counts as skipped: recognition threw, or the trimmed text is empty. */
  predicate Skipped(o: Result<OcrReading, string>) {
    o.Failure? || |Trim(o.value.text)| == 0
  }

  function AcceptedText(o: Result<OcrReading, string>): string {
    if o.Success? then Trim(o.value.text) else ""
  }

  function AcceptedConfidence(o: Result<OcrReading, string>): real {
    if o.Success? then o.value.confidence else 0.0
  }

  /** The reading Tesseract gives for each preprocessed page, in page order. */
  function Readings(pages: seq<ImageRendering.PreprocessedImage>, recognise: Recogniser): (r: seq<Result<OcrReading, string>>)
    ensures |r| == |pages| && forall i :: 0 <= i < |pages| ==> r[i] == recognise(pages[i].imageBuffer)
  {
    seq(|pages|, i requires 0 <= i < |pages| => recognise(pages[i].imageBuffer))
  }

  function Sum(xs: seq<real>): real {
    if xs == [] then 0.0 else Sum(xs[..|xs| - 1]) + xs[|xs| - 1]
  }

  /** The arithmetic mean, or 0 for no values. */
  function Mean(xs: seq<real>): real {
    if |xs| == 0 then 0.0 else Sum(xs) / (|xs| as real)
  }

  /** `parts.join('\n')`. */
  function JoinLines(parts: seq<string>): string {
    if parts == [] then ""
    else if |parts| == 1 then parts[0]
    else JoinLines(parts[..|parts| - 1]) + "\n" + parts[|parts| - 1]
  }

  /** The confidences of the accepted pages. */
  function AcceptedConfidences(readings: seq<Result<OcrReading, string>>): seq<real> {
    Seqs.Map(Seqs.Filter(readings, Accepted), AcceptedConfidence)
  }

  /** The page loop, the mean confidence and the quality gate applied to the page readings. */
  function AggregateOcr(readings: seq<Result<OcrReading, string>>): OcrResult {
    var accepted := Seqs.Filter(readings, Accepted);
    var finalText := SanitizeText(JoinLines(Seqs.Map(accepted, AcceptedText)));
    var avgConfidence := Mean(AcceptedConfidences(readings));
    if |finalText| < QUALITY_MIN_CHARS && avgConfidence < QUALITY_MIN_CONFIDENCE then OcrResult("", avgConfidence, 0)
    else OcrResult(finalText, avgConfidence, |finalText|)
  }

  /** What `extractTextWithTesseractOCR` resolves to; a render failure gives empty text and confidence 0. */
  function OcrSpec(pdf: Bytes, rasterise: ImageRendering.Rasteriser, enhance: ImageRendering.Enhancer, recognise: Recogniser): OcrResult {
    match ImageRendering.RenderAndPreprocessSpec(pdf, rasterise, enhance)
    case Failure(_) => OcrResult("", 0.0, 0)
    case Success(pages) => AggregateOcr(Readings(pages, recognise))
  }

  /** How one more page reading changes what the page loop has accumulated. */
  lemma PageStep(prefix: seq<Result<OcrReading, string>>, o: Result<OcrReading, string>)
    ensures Seqs.Map(Seqs.Filter(prefix + [o], Accepted), AcceptedText) ==
      if Accepted(o) then Seqs.Map(Seqs.Filter(prefix, Accepted), AcceptedText) + [AcceptedText(o)]
      else Seqs.Map(Seqs.Filter(prefix, Accepted), AcceptedText)
    ensures |Seqs.Filter(prefix + [o], Accepted)| == |Seqs.Filter(prefix, Accepted)| + (if Accepted(o) then 1 else 0)
    ensures Sum(AcceptedConfidences(prefix + [o])) == Sum(AcceptedConfidences(prefix)) + (if Accepted(o) then o.value.confidence else 0.0)
    ensures |Seqs.Filter(prefix + [o], Skipped)| == |Seqs.Filter(prefix, Skipped)| + (if Skipped(o) then 1 else 0)
  {
    var before := Seqs.Filter(prefix, Accepted);
    Seqs.FilterSnoc(prefix, o, Accepted);
    Seqs.FilterSnoc(prefix, o, Skipped);
    if Accepted(o) {
      Seqs.MapSnoc(before, o, AcceptedText);
      Seqs.MapSnoc(before, o, AcceptedConfidence);
      var xs := AcceptedConfidences(prefix + [o]);
      assert xs[..|xs| - 1] == AcceptedConfidences(prefix);
    }
  }

  /** What the page loop has accumulated: the accepted texts, the two counters and the confidence total. */
  datatype Tally = Tally(texts: seq<string>, processed: nat, total: real, skipped: nat)

  /** The page loop's accumulation over the readings so far, one page at a time in the loop's own branching. */
  function PageTally(readings: seq<Result<OcrReading, string>>): Tally {
    if readings == [] then Tally([], 0, 0.0, 0)
    else
      var t := PageTally(readings[..|readings| - 1]);
      match readings[|readings| - 1]
      case Failure(_) => t.(skipped := t.skipped + 1)
      case Success(reading) =>
        var text := Trim(reading.text);
        if |text| > 0 && reading.confidence > MIN_PAGE_CONFIDENCE then
          Tally(t.texts + [text], t.processed + 1, t.total + reading.confidence, t.skipped)
        else if |text| == 0 then t.(skipped := t.skipped + 1)
        else t
  }

  /**
   * The loop's tally is the declarative one: the texts of the accepted pages in page order,
   * their number, the sum of their confidences, and the number of skipped pages.
   */
  lemma {:induction false} PageTallyMeaning(readings: seq<Result<OcrReading, string>>)
    ensures PageTally(readings) == Tally(Seqs.Map(Seqs.Filter(readings, Accepted), AcceptedText),
                                         |Seqs.Filter(readings, Accepted)|,
                                         Sum(AcceptedConfidences(readings)),
                                         |Seqs.Filter(readings, Skipped)|)
  {
    if readings != [] {
      var prefix := readings[..|readings| - 1];
      var o := readings[|readings| - 1];
      assert readings == prefix + [o];
      PageTallyMeaning(prefix);
      PageStep(prefix, o);
    }
  }

  /** The steps after the page loop: join, sanitise, average, and the quality gate. */
  function FinishOcr(t: Tally): OcrResult {
    var finalText := SanitizeText(JoinLines(t.texts));
    var avgConfidence := if t.processed > 0 then t.total / (t.processed as real) else 0.0;
    if |finalText| < QUALITY_MIN_CHARS && avgConfidence < QUALITY_MIN_CONFIDENCE then OcrResult("", avgConfidence, 0)
    else OcrResult(finalText, avgConfidence, |finalText|)
  }

  /** Finishing the loop's tally gives the declarative aggregate of the page readings. */
  lemma AggregateIsFinish(readings: seq<Result<OcrReading, string>>)
    ensures AggregateOcr(readings) == FinishOcr(PageTally(readings))
  {
    PageTallyMeaning(readings);
  }

  /**
   * `extractTextWithTesseractOCR`: render at scale 1.5 and preprocess, recognise page by page,
   * keep pages with text and confidence above 50, average their confidences, apply the quality
   * gate. The counters keep their meaning throughout: `processedPages` counts accepted pages and
   * `skippedPages` the pages that threw or had no text; a page with text but confidence of 50 or
   * less is in neither.
   */
  method ExtractTextWithTesseractOcr(pdf: Bytes, rasterise: ImageRendering.Rasteriser, enhance: ImageRendering.Enhancer, recognise: Recogniser)
    returns (r: OcrResult)
    ensures r == OcrSpec(pdf, rasterise, enhance, recognise)
  {
    var preprocessed := ImageRendering.RenderAndPreprocessPdf(pdf, rasterise, enhance);
    if preprocessed.Failure? {
      return OcrResult("", 0.0, 0);
    }
    var pages := preprocessed.value;
    ghost var readings := Readings(pages, recognise);
    var allText: seq<string> := [];
    var processedPages: nat := 0;
    var skippedPages: nat := 0;
    var totalConfidence: real := 0.0;
    for i := 0 to |pages|
      invariant Tally(allText, processedPages, totalConfidence, skippedPages) == PageTally(readings[..i])
    {
      var result := recognise(pages[i].imageBuffer);
      assert readings[..i + 1][..i] == readings[..i];
      if result.Failure? {
        skippedPages := skippedPages + 1;
      } else {
        var text := Trim(result.value.text);
        var confidence := result.value.confidence;
        if |text| > 0 && confidence > MIN_PAGE_CONFIDENCE {
          allText := allText + [text];
          processedPages := processedPages + 1;
          totalConfidence := totalConfidence + confidence;
        } else if |text| == 0 {
          skippedPages := skippedPages + 1;
        }
      }
    }
    assert readings[..|pages|] == readings;
    AggregateIsFinish(readings);
    var finalText := SanitizeText(JoinLines(allText));
    var avgConfidence := if processedPages > 0 then totalConfidence / (processedPages as real) else 0.0;
    if |finalText| < QUALITY_MIN_CHARS && avgConfidence < QUALITY_MIN_CONFIDENCE {
      return OcrResult("", avgConfidence, 0);
    }
    return OcrResult(finalText, avgConfidence, |finalText|);
  }

  lemma {:induction false} SumBounds(xs: seq<real>)
    requires forall i :: 0 <= i < |xs| ==> MIN_PAGE_CONFIDENCE < xs[i] <= 100.0
    ensures |xs| > 0 ==> MIN_PAGE_CONFIDENCE * (|xs| as real) < Sum(xs)
    ensures Sum(xs) <= 100.0 * (|xs| as real)
  {
    if xs != [] {
      SumBounds(xs[..|xs| - 1]);
    }
  }

  /**
   * The mean confidence of the accepted pages is 0 when no page was accepted, and otherwise
   * lies in (50, 100] when Tesseract reports confidences of at most 100.
   */
  lemma MeanConfidenceRange(readings: seq<Result<OcrReading, string>>)
    requires forall i :: 0 <= i < |readings| && readings[i].Success? ==> readings[i].value.confidence <= 100.0
    ensures var m := Mean(AcceptedConfidences(readings));
      (m == 0.0 <==> Seqs.Filter(readings, Accepted) == []) &&
      (m == 0.0 || (MIN_PAGE_CONFIDENCE < m <= 100.0))
  {
    var accepted := Seqs.Filter(readings, Accepted);
    var xs := AcceptedConfidences(readings);
    Seqs.FilterMembers(readings, Accepted);
    forall i | 0 <= i < |xs| ensures MIN_PAGE_CONFIDENCE < xs[i] <= 100.0 {
      assert accepted[i] in accepted;
      assert accepted[i] in readings;
    }
    MeanBounds(xs);
  }

  /** The mean of values in (50, 100] lies in (50, 100]. */
  lemma MeanBounds(xs: seq<real>)
    requires forall i :: 0 <= i < |xs| ==> MIN_PAGE_CONFIDENCE < xs[i] <= 100.0
    ensures |xs| > 0 ==> MIN_PAGE_CONFIDENCE < Mean(xs) <= 100.0
  {
    SumBounds(xs);
    if |xs| > 0 {
      var n := |xs| as real;
      var total := Sum(xs);
      assert 50.0 * n < total <= 100.0 * n;
      QuotientBounds(total, n, 50.0, 100.0);
    }
  }

  lemma QuotientBounds(total: real, n: real, lo: real, hi: real)
    requires n > 0.0 && lo * n < total <= hi * n
    ensures lo < total / n <= hi
  {
  }

  /**
   * Whatever the services answer, the OCR result's `charCount` is the length of its text, the
   * text is already sanitised, and text that survives the quality gate has at least 20
   * characters or a mean confidence of at least 60.
   */
  lemma OcrResultShape(pdf: Bytes, rasterise: ImageRendering.Rasteriser, enhance: ImageRendering.Enhancer, recognise: Recogniser)
    ensures var r := OcrSpec(pdf, rasterise, enhance, recognise);
      && WellFormedOcr(r)
      && (r.text != "" ==> |r.text| >= QUALITY_MIN_CHARS || r.confidence >= QUALITY_MIN_CONFIDENCE)
  {
  }

  // ---------------------------------------------------------------------------------------
  // extractTextFromPDF
  // ---------------------------------------------------------------------------------------

  /** `pdfParse(pdf).text`, or the error pdf-parse throws. */
  type TextLayerParser = Bytes -> Result<string, string>

  /**
   * The decision `extractTextFromPDF` takes once it knows what pdf-parse gave and what OCR
   * would give; OCR only matters on the paths that run it.
   */
  function Cascade(parsed: Result<string, string>, ocr: OcrResult): TextExtractionResult {
    match parsed
    case Failure(_) => TextExtractionResult(ocr.text, Tesseract, ocr.confidence, ocr.charCount)
    case Success(raw) =>
      var extractedText := SanitizeText(raw);
      var charCount := |Trim(extractedText)|;
      if charCount > EMBEDDED_TEXT_MIN_CHARS then TextExtractionResult(extractedText, Pdfjs, 100.0, charCount)
      else if |Trim(ocr.text)| > 0 then TextExtractionResult(ocr.text, Tesseract, ocr.confidence, ocr.charCount)
      else TextExtractionResult("", NoMethod, 0.0, 0)
  }

  /** What `extractTextFromPDF` resolves to. */
  function ExtractTextSpec(pdf: Bytes, pdfParse: TextLayerParser, rasterise: ImageRendering.Rasteriser,
                           enhance: ImageRendering.Enhancer, recognise: Recogniser): TextExtractionResult
  {
    Cascade(pdfParse(pdf), OcrSpec(pdf, rasterise, enhance, recognise))
  }

  /**
   * `extractTextFromPDF`: the embedded text when it has more than 50 characters, otherwise
   * Tesseract OCR; OCR is labelled 'tesseract' when it found text, and also, whatever it
   * found, when pdf-parse threw.
   */
  method ExtractTextFromPdf(pdf: Bytes, pdfParse: TextLayerParser, rasterise: ImageRendering.Rasteriser,
                            enhance: ImageRendering.Enhancer, recognise: Recogniser) returns (r: TextExtractionResult)
    ensures r == ExtractTextSpec(pdf, pdfParse, rasterise, enhance, recognise)
  {
    var data := pdfParse(pdf);
    if data.Failure? {
      var ocrResult := ExtractTextWithTesseractOcr(pdf, rasterise, enhance, recognise);
      return TextExtractionResult(ocrResult.text, Tesseract, ocrResult.confidence, ocrResult.charCount);
    }
    var extractedText := SanitizeText(data.value);
    var charCount := |Trim(extractedText)|;
    if charCount > EMBEDDED_TEXT_MIN_CHARS {
      return TextExtractionResult(extractedText, Pdfjs, 100.0, charCount);
    }
    var ocrResult := ExtractTextWithTesseractOcr(pdf, rasterise, enhance, recognise);
    if |Trim(ocrResult.text)| > 0 {
      return TextExtractionResult(ocrResult.text, Tesseract, ocrResult.confidence, ocrResult.charCount);
    }
    return TextExtractionResult("", NoMethod, 0.0, 0);
  }

  /** The shape `OcrResultShape` proves of every OCR result. */
  ghost predicate WellFormedOcr(ocr: OcrResult) {
    ocr.charCount == |ocr.text| && IsSanitized(ocr.text)
  }

  /**
   * Given a well-formed OCR result: `charCount` is the length of the text, the text is already
   * sanitised, the method is never 'vision', 'pdfjs' comes with confidence 100 and more than 50
   * characters, 'none' comes with empty text and confidence 0, and a pdf-parse failure always
   * yields the OCR result labelled 'tesseract'.
   */
  lemma CascadeShape(parsed: Result<string, string>, ocr: OcrResult)
    requires WellFormedOcr(ocr)
    ensures var r := Cascade(parsed, ocr);
      && r.charCount == |r.text|
      && IsSanitized(r.text)
      && r.extractionMethod != Vision
      && (r.extractionMethod == Pdfjs ==> r.confidence == 100.0 && |r.text| > EMBEDDED_TEXT_MIN_CHARS)
      && (r.extractionMethod == NoMethod ==> r == TextExtractionResult("", NoMethod, 0.0, 0))
      && (parsed.Failure? ==> r == TextExtractionResult(ocr.text, Tesseract, ocr.confidence, ocr.charCount))
  {
    if parsed.Success? {
      TrimFixpoint(SanitizeText(parsed.value));
    }
  }

  /**
   * With text from pdf-parse: more than 50 characters after sanitising are used as is, with
   * method 'pdfjs' and confidence 100; otherwise OCR's text is labelled 'tesseract' when there
   * is any, and the empty 'none' result is returned when there is none.
   */
  lemma CascadeWithText(raw: string, ocr: OcrResult)
    requires WellFormedOcr(ocr)
    ensures var t := SanitizeText(raw); var r := Cascade(Success(raw), ocr);
      && (|t| > EMBEDDED_TEXT_MIN_CHARS ==> r == TextExtractionResult(t, Pdfjs, 100.0, |t|))
      && (|t| <= EMBEDDED_TEXT_MIN_CHARS && ocr.text != "" ==> r == TextExtractionResult(ocr.text, Tesseract, ocr.confidence, ocr.charCount))
      && (|t| <= EMBEDDED_TEXT_MIN_CHARS && ocr.text == "" ==> r == TextExtractionResult("", NoMethod, 0.0, 0))
  {
    TrimFixpoint(SanitizeText(raw));
    TrimFixpoint(ocr.text);
  }

  /** Whatever the services answer, `extractTextFromPDF`'s result has the shape `CascadeShape` states. */
  lemma ExtractTextShape(pdf: Bytes, pdfParse: TextLayerParser, rasterise: ImageRendering.Rasteriser,
                         enhance: ImageRendering.Enhancer, recognise: Recogniser)
    ensures var r := ExtractTextSpec(pdf, pdfParse, rasterise, enhance, recognise);
      && r.charCount == |r.text|
      && IsSanitized(r.text)
      && r.extractionMethod != Vision
      && (r.extractionMethod == Pdfjs ==> r.confidence == 100.0 && |r.text| > EMBEDDED_TEXT_MIN_CHARS)
      && (r.extractionMethod == NoMethod ==> r == TextExtractionResult("", NoMethod, 0.0, 0))
  {
    OcrResultShape(pdf, rasterise, enhance, recognise);
    CascadeShape(pdfParse(pdf), OcrSpec(pdf, rasterise, enhance, recognise));
  }
}

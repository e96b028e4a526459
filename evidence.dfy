/**
 * `validateFieldByEvidence` of backend/src/services/analysisService.ts: the per-field check that
 * keeps a vision-extracted value only when the evidence text the model quoted for it looks like
 * such a value. Each rule is written twice: as the source computes it (a character filter, a
 * scan) and as the property it decides, with a lemma joining the two.
 */
module Evidence {
  import opened Wrappers
  import opened Types
  import opened Chars
  import Seqs

  /** The `chassi` rule accepts this many alphanumerics at least ... */
  const CHASSI_MIN: nat := 11
  /** ... and at most this many. */
  const CHASSI_MAX: nat := 20
  /** The `cpf` rule wants exactly this many digits. */
  const CPF_DIGITS: nat := 11
  /** Any other field wants trimmed evidence at least this long. */
  const MIN_EVIDENCE_LENGTH: nat := 3

  // ---------------------------------------------------------------------------------------
  // The rules as the source computes them
  // ---------------------------------------------------------------------------------------

  /** `ev.replace(/[^0-9]/g, '')`. */
  function DigitsOf(ev: string): string {
    Seqs.Filter(ev, IsDigit)
  }

  /** `ev.replace(/[^A-Za-z0-9]/g, '')`. */
  function AlnumsOf(ev: string): string {
    Seqs.Filter(ev, IsAlnum)
  }

  /** `(19|20)\d{2}` matches at position `i`. */
  predicate YearAt(ev: string, i: int)
    requires 0 <= i && i + 4 <= |ev|
  {
    ((ev[i] == '1' && ev[i + 1] == '9') || (ev[i] == '2' && ev[i + 1] == '0')) && IsDigit(ev[i + 2]) && IsDigit(ev[i + 3])
  }

  /** `ev.match(/(19|20)\d{2}/)` is non-null: the regex tries every start position from the left. */
  function MatchesYear(ev: string): bool
    decreases |ev|
  {
    |ev| >= 4 && (YearAt(ev, 0) || MatchesYear(ev[1..]))
  }

  /** `/[0-9]/.test(ev)`. */
  function TestsDigit(ev: string): bool
    decreases |ev|
  {
    ev != [] && (IsDigit(ev[0]) || TestsDigit(ev[1..]))
  }

  /** The rule of `field` as the source computes it, applied to non-blank evidence. */
  function RuleHolds(field: string, ev: string): bool {
    if field == "cpf" then |DigitsOf(ev)| == CPF_DIGITS
    else if field == "chassi" then CHASSI_MIN <= |AlnumsOf(ev)| <= CHASSI_MAX
    else if field == "ano" then MatchesYear(ev)
    else if field == "email" then '@' in ev
    else if field == "telefone" || field == "placa" then TestsDigit(ev)
    else |Trim(ev)| >= MIN_EVIDENCE_LENGTH
  }

  /**
   * `validateFieldByEvidence`: `null` when the value is falsy or the evidence is missing or
   * blank; otherwise the value itself when the field's rule accepts the evidence, and `null`
   * when it does not. It never produces a value of its own.
   */
  function ValidateFieldByEvidence(field: string, value: Value, evidence: Value): (r: Value)
    ensures r == None || r == value
    ensures r != None <==> Truthy(value) && Truthy(evidence) && EvidenceSupports(field, evidence.value)
  {
    if !Truthy(value) || !Truthy(evidence) || |Trim(evidence.value)| == 0 then None
    else
      RuleMeaning(field, evidence.value);
      if RuleHolds(field, evidence.value) then value else None
  }

  // ---------------------------------------------------------------------------------------
  // The rules as properties
  // ---------------------------------------------------------------------------------------

  /** The number of positions of `ev` that hold a character of the class `p`. */
  ghost function CountOf(ev: string, p: char -> bool): nat {
    |Seqs.Positions(ev, p)|
  }

  /** `ev` holds `(19|20)` followed by two digits somewhere. */
  ghost predicate HasYear(ev: string) {
    exists i :: 0 <= i && i + 4 <= |ev| && YearAt(ev, i)
  }

  /** `ev` holds a digit somewhere. */
  ghost predicate HasDigit(ev: string) {
    exists i :: 0 <= i < |ev| && IsDigit(ev[i])
  }

  /**
   * When evidence supports a value of `field`: it is not blank, and it has exactly 11 digits
   * (cpf), 11 to 20 letters and digits (chassi), a year 19dd or 20dd (ano), an '@' (email), a
   * digit (telefone, placa), or at least 3 characters once trimmed (any other field).
   */
  ghost predicate EvidenceSupports(field: string, ev: string) {
    && !IsBlank(ev)
    && (if field == "cpf" then CountOf(ev, IsDigit) == CPF_DIGITS
        else if field == "chassi" then CHASSI_MIN <= CountOf(ev, IsAlnum) <= CHASSI_MAX
        else if field == "ano" then HasYear(ev)
        else if field == "email" then exists i :: 0 <= i < |ev| && ev[i] == '@'
        else if field == "telefone" || field == "placa" then HasDigit(ev)
        else |Trim(ev)| >= MIN_EVIDENCE_LENGTH)
  }

  /** The year scan finds a match exactly when there is one. */
  lemma {:induction false} MatchesYearMeaning(ev: string)
    ensures MatchesYear(ev) <==> HasYear(ev)
    decreases |ev|
  {
    if |ev| >= 4 {
      MatchesYearMeaning(ev[1..]);
      if HasYear(ev[1..]) {
        var i :| 0 <= i && i + 4 <= |ev[1..]| && YearAt(ev[1..], i);
        assert YearAt(ev, i + 1);
      }
      if HasYear(ev) && !YearAt(ev, 0) {
        var i :| 0 <= i && i + 4 <= |ev| && YearAt(ev, i);
        assert i > 0;
        assert YearAt(ev[1..], i - 1);
      }
    } else {
      assert !HasYear(ev);
    }
  }

  /** The digit test succeeds exactly when there is a digit. */
  lemma {:induction false} TestsDigitMeaning(ev: string)
    ensures TestsDigit(ev) <==> HasDigit(ev)
    decreases |ev|
  {
    if ev != [] {
      TestsDigitMeaning(ev[1..]);
      if HasDigit(ev[1..]) {
        var i :| 0 <= i < |ev[1..]| && IsDigit(ev[1..][i]);
        assert IsDigit(ev[i + 1]);
      }
      if HasDigit(ev) && !IsDigit(ev[0]) {
        var i :| 0 <= i < |ev| && IsDigit(ev[i]);
        assert IsDigit(ev[1..][i - 1]);
      }
    }
  }

  /** On non-blank evidence, each computed rule decides the property it stands for. */
  lemma RuleMeaning(field: string, ev: string)
    requires !IsBlank(ev)
    ensures RuleHolds(field, ev) <==> EvidenceSupports(field, ev)
  {
    if field == "cpf" {
      Seqs.FilterCount(ev, IsDigit);
    } else if field == "chassi" {
      Seqs.FilterCount(ev, IsAlnum);
    } else if field == "ano" {
      MatchesYearMeaning(ev);
    } else if field == "telefone" || field == "placa" {
      TestsDigitMeaning(ev);
    }
  }

  // ---------------------------------------------------------------------------------------
  // Examples
  // ---------------------------------------------------------------------------------------

  /** Evidence of 11 digits keeps a CPF value, 10 digits drop it; the value itself is never looked at. */
  lemma CpfExamples()
    ensures ValidateFieldByEvidence("cpf", Some("123.456.789-09"), Some("12345678909")) == Some("123.456.789-09")
    ensures ValidateFieldByEvidence("cpf", Some("12345678909"), Some("1234567890")) == None
  {
    Seqs.FilterKeepsAll("12345678909", IsDigit);
    Seqs.FilterKeepsAll("1234567890", IsDigit);
  }

  /** A year is found anywhere in the evidence ... */
  lemma AnoFound()
    ensures ValidateFieldByEvidence("ano", Some("2015"), Some("fab 2015")) == Some("2015")
  {
    assert YearAt("2015", 0);
    assert MatchesYear("fab 2015"[4..]);
    assert "fab 2015"[4..] == "2015";
  }

  /** ... and "1899" is not one. */
  lemma AnoRejected()
    ensures ValidateFieldByEvidence("ano", Some("1899"), Some("1899")) == None
  {
    assert !YearAt("1899", 0);
  }
}

/**
 * The vision-path reconciliation of backend/src/services/analysisService.ts: the per-page
 * results of the vision model are merged so that, key by key, the first page whose value is
 * backed by non-blank evidence wins; the evidence strings are collected the same way (first
 * truthy one per key, from any page); and each merged value is then re-checked against the
 * collected evidence. Both first-wins passes are instances of `FirstWins` below.
 */
module Merge {
  import opened Wrappers
  import opened Types
  import opened Chars
  import Evidence
  import Seqs

  /** `d[k]` in JavaScript: a missing key reads as `undefined`. */
  function Lookup(d: Dict, k: string): Value {
    if k in d then d[k] else None
  }

  /** The entries of `c` whose keys `m` does not hold a truthy value for, added to `m`. */
  function Absorb(m: Dict, c: Dict): Dict {
    m + map k | k in c && !Truthy(Lookup(m, k)) :: c[k]
  }

  /** Absorbs the candidate dictionaries in order: a key keeps the first truthy value offered for it. */
  function FirstWins(cs: seq<Dict>): Dict {
    if cs == [] then map[] else Absorb(FirstWins(cs[..|cs| - 1]), cs[|cs| - 1])
  }

  /** Every value of every candidate dictionary is truthy. */
  ghost predicate AllTruthy(cs: seq<Dict>) {
    forall i, k :: 0 <= i < |cs| && k in cs[i] ==> Truthy(cs[i][k])
  }

  /** A key is present after the merge exactly when some candidate offered it, and its value is truthy. */
  lemma {:induction false} FirstWinsDomain(cs: seq<Dict>, k: string)
    requires AllTruthy(cs)
    ensures k in FirstWins(cs) <==> exists i :: 0 <= i < |cs| && k in cs[i]
    ensures k in FirstWins(cs) ==> Truthy(FirstWins(cs)[k])
  {
    if cs != [] {
      var n := |cs| - 1;
      FirstWinsDomain(cs[..n], k);
      if exists i :: 0 <= i < n && k in cs[..n][i] {
        var i :| 0 <= i < n && k in cs[..n][i];
        assert k in cs[i];
      }
      if exists i :: 0 <= i < |cs| && k in cs[i] {
        var i :| 0 <= i < |cs| && k in cs[i];
        if i < n {
          assert k in cs[..n][i];
        }
      }
    }
  }

  /** The value a key ends up with is the one offered by the first candidate that offers the key. */
  lemma {:induction false} FirstWinsValue(cs: seq<Dict>, k: string, i: nat)
    requires AllTruthy(cs)
    requires i < |cs| && k in cs[i] && forall j :: 0 <= j < i ==> k !in cs[j]
    ensures k in FirstWins(cs) && FirstWins(cs)[k] == cs[i][k]
  {
    var n := |cs| - 1;
    var before := FirstWins(cs[..n]);
    assert AllTruthy(cs[..n]) by {
      forall j, key | 0 <= j < n && key in cs[..n][j] ensures Truthy(cs[..n][j][key]) {
        assert cs[..n][j] == cs[j];
      }
    }
    if i < n {
      FirstWinsValue(cs[..n], k, i);
      FirstWinsDomain(cs[..n], k);
    } else {
      FirstWinsDomain(cs[..n], k);
    }
  }

  /** Later candidates never overwrite a key an earlier prefix has already settled. */
  lemma {:induction false} FirstWinsPrefixStable(cs: seq<Dict>, more: seq<Dict>, k: string)
    requires AllTruthy(cs)
    requires k in FirstWins(cs)
    ensures k in FirstWins(cs + more) && FirstWins(cs + more)[k] == FirstWins(cs)[k]
    decreases |more|
  {
    FirstWinsDomain(cs, k);
    if more != [] {
      var n := |more| - 1;
      var all := cs + more;
      assert all[..|all| - 1] == cs + more[..n];
      assert all[|all| - 1] == more[n];
      FirstWinsPrefixStable(cs, more[..n], k);
    } else {
      assert cs + more == cs;
    }
  }

  // ---------------------------------------------------------------------------------------
  // The merge of personalData / vehicleData
  // ---------------------------------------------------------------------------------------

  /** Which of the two data sections a pass works on. */
  datatype Section = PersonalSection | VehicleSection

  /** `pr.personalData || {}` or `pr.vehicleData || {}`; nothing for a `null` page result. */
  function SectionOf(pr: ModelReply, section: Section): Dict {
    match pr
    case NullReply => map[]
    case ObjectReply(personalData, vehicleData, _) => if section == PersonalSection then personalData else vehicleData
  }

  /** `pr.evidence || {}`; nothing for a `null` page result. */
  function EvidenceOf(pr: ModelReply): Dict {
    match pr
    case NullReply => map[]
    case ObjectReply(_, _, evidence) => evidence
  }

  /**
   * The merge condition without its last conjunct: the page's value for `k` is truthy and its
   * evidence for `k` is truthy and not blank once trimmed.
   */
  predicate Backs(pr: ModelReply, section: Section, k: string) {
    var data := SectionOf(pr, section);
    var ev := Lookup(EvidenceOf(pr), k);
    k in data && Truthy(data[k]) && Truthy(ev) && |Trim(ev.value)| > 0
  }

  /** The values a page offers to the merge: those its evidence backs. */
  function PageCandidates(pr: ModelReply, section: Section): (c: Dict)
    ensures forall k :: k in c <==> Backs(pr, section, k)
    ensures forall k :: k in c ==> k in SectionOf(pr, section) && c[k] == SectionOf(pr, section)[k] && Truthy(c[k])
  {
    var data := SectionOf(pr, section);
    map k | k in data && Backs(pr, section, k) :: data[k]
  }

  /** The candidates of every page, in page order. */
  function SectionCandidates(pages: seq<ModelReply>, section: Section): (cs: seq<Dict>)
    ensures |cs| == |pages| && AllTruthy(cs)
    ensures forall i :: 0 <= i < |pages| ==> cs[i] == PageCandidates(pages[i], section)
  {
    seq(|pages|, i requires 0 <= i < |pages| => PageCandidates(pages[i], section))
  }

  /** What the merge loop leaves in `merged.personalData` or `merged.vehicleData`. */
  function MergePages(pages: seq<ModelReply>, section: Section): Dict {
    FirstWins(SectionCandidates(pages, section))
  }

  /**
   * Merge is first-evidence-wins: a key is merged exactly when some page backs it, and then it
   * holds the value of the first page, in page order, that backs it.
   */
  lemma MergeFirstWins(pages: seq<ModelReply>, section: Section, k: string, i: nat)
    requires i < |pages| && Backs(pages[i], section, k)
    requires forall j :: 0 <= j < i ==> !Backs(pages[j], section, k)
    ensures k in MergePages(pages, section)
    ensures MergePages(pages, section)[k] == SectionOf(pages[i], section)[k]
  {
    FirstWinsValue(SectionCandidates(pages, section), k, i);
  }

  /** A key no page backs is absent from the merge: it is neither set nor set to null. */
  lemma MergeOnlyBacked(pages: seq<ModelReply>, section: Section, k: string)
    ensures k in MergePages(pages, section) <==> exists i :: 0 <= i < |pages| && Backs(pages[i], section, k)
    ensures k in MergePages(pages, section) ==> Truthy(MergePages(pages, section)[k])
  {
    var cs := SectionCandidates(pages, section);
    FirstWinsDomain(cs, k);
    if exists i :: 0 <= i < |pages| && Backs(pages[i], section, k) {
      var i :| 0 <= i < |pages| && Backs(pages[i], section, k);
      assert k in cs[i];
    }
  }

  /** Pages after the one that settled a key never overwrite it. */
  lemma MergeLaterPagesKeep(pages: seq<ModelReply>, more: seq<ModelReply>, section: Section, k: string)
    requires k in MergePages(pages, section)
    ensures k in MergePages(pages + more, section)
    ensures MergePages(pages + more, section)[k] == MergePages(pages, section)[k]
  {
    var cs := SectionCandidates(pages, section);
    var cm := SectionCandidates(more, section);
    var all := SectionCandidates(pages + more, section);
    forall i | 0 <= i < |all| ensures all[i] == (cs + cm)[i] {
      if i < |pages| {
        assert (pages + more)[i] == pages[i];
      } else {
        assert (pages + more)[i] == more[i - |pages|];
      }
    }
    assert all == cs + cm;
    FirstWinsPrefixStable(cs, cm, k);
  }

  /** One more candidate dictionary is absorbed into the merge so far. */
  lemma FirstWinsSnoc(cs: seq<Dict>, c: Dict)
    ensures FirstWins(cs + [c]) == Absorb(FirstWins(cs), c)
  {
    assert (cs + [c])[..|cs|] == cs;
  }

  /** Adding one page adds that page's candidates after the others. */
  lemma SectionCandidatesSnoc(pages: seq<ModelReply>, pr: ModelReply, section: Section)
    ensures SectionCandidates(pages + [pr], section) == SectionCandidates(pages, section) + [PageCandidates(pr, section)]
  {
    var all := SectionCandidates(pages + [pr], section);
    var cs := SectionCandidates(pages, section);
    forall i | 0 <= i < |all| ensures all[i] == (cs + [PageCandidates(pr, section)])[i] {
      if i < |pages| {
        assert (pages + [pr])[i] == pages[i];
      }
    }
  }

  /** The merge loop's step: one more page result is absorbed with the candidates it offers. */
  lemma MergeSnoc(pages: seq<ModelReply>, pr: ModelReply, section: Section)
    ensures MergePages(pages + [pr], section) == Absorb(MergePages(pages, section), PageCandidates(pr, section))
  {
    SectionCandidatesSnoc(pages, pr, section);
    FirstWinsSnoc(SectionCandidates(pages, section), PageCandidates(pr, section));
  }

  /** A `null` page result offers nothing. */
  lemma NullOffersNothing(m: Dict, section: Section)
    ensures PageCandidates(NullReply, section) == map[] && EvidenceCandidates(NullReply) == map[]
    ensures Absorb(m, map[]) == m
  {
  }

  /** The page results that are objects: the ones the merge loop does not skip. */
  predicate IsObject(pr: ModelReply) {
    pr.ObjectReply?
  }

  /** Null page results contribute nothing: merging only the object results gives the same dictionaries. */
  lemma {:induction false} MergeIgnoresNull(pages: seq<ModelReply>, section: Section)
    ensures MergePages(Seqs.Filter(pages, IsObject), section) == MergePages(pages, section)
    ensures CollectEvidence(Seqs.Filter(pages, IsObject)) == CollectEvidence(pages)
  {
    if pages != [] {
      var n := |pages| - 1;
      var front := pages[..n];
      var objects := Seqs.Filter(front, IsObject);
      MergeIgnoresNull(front, section);
      assert pages == front + [pages[n]];
      Seqs.FilterSnoc(front, pages[n], IsObject);
      MergeSnoc(front, pages[n], section);
      CollectSnoc(front, pages[n]);
      if IsObject(pages[n]) {
        MergeSnoc(objects, pages[n], section);
        CollectSnoc(objects, pages[n]);
      } else {
        NullOffersNothing(MergePages(front, section), section);
        NullOffersNothing(CollectEvidence(front), section);
      }
    }
  }

  // ---------------------------------------------------------------------------------------
  // collectedEvidence
  // ---------------------------------------------------------------------------------------

  /** The evidence entries of a page that `collectedEvidence` may take: the truthy ones. */
  function EvidenceCandidates(pr: ModelReply): (c: Dict)
    ensures forall k :: k in c <==> k in EvidenceOf(pr) && Truthy(EvidenceOf(pr)[k])
    ensures forall k :: k in c ==> c[k] == EvidenceOf(pr)[k]
  {
    var ev := EvidenceOf(pr);
    map k | k in ev && Truthy(ev[k]) :: ev[k]
  }

  function AllEvidenceCandidates(pages: seq<ModelReply>): (cs: seq<Dict>)
    ensures |cs| == |pages| && AllTruthy(cs)
    ensures forall i :: 0 <= i < |pages| ==> cs[i] == EvidenceCandidates(pages[i])
  {
    seq(|pages|, i requires 0 <= i < |pages| => EvidenceCandidates(pages[i]))
  }

  /** What the evidence loop leaves in `collectedEvidence`. */
  function CollectEvidence(pages: seq<ModelReply>): Dict {
    FirstWins(AllEvidenceCandidates(pages))
  }

  /** The evidence loop's step: one more page result is absorbed with its truthy evidence. */
  lemma CollectSnoc(pages: seq<ModelReply>, pr: ModelReply)
    ensures CollectEvidence(pages + [pr]) == Absorb(CollectEvidence(pages), EvidenceCandidates(pr))
  {
    var all := AllEvidenceCandidates(pages + [pr]);
    var cs := AllEvidenceCandidates(pages);
    forall i | 0 <= i < |all| ensures all[i] == (cs + [EvidenceCandidates(pr)])[i] {
      if i < |pages| {
        assert (pages + [pr])[i] == pages[i];
      }
    }
    assert all == cs + [EvidenceCandidates(pr)];
    FirstWinsSnoc(cs, EvidenceCandidates(pr));
  }

  /**
   * The evidence used for a key is the first truthy evidence for it on any page, whether or not
   * that page's value was the one merged; a key without truthy evidence anywhere has none.
   */
  lemma CollectFirstTruthy(pages: seq<ModelReply>, k: string)
    ensures k in CollectEvidence(pages) <==> exists i :: 0 <= i < |pages| && Truthy(Lookup(EvidenceOf(pages[i]), k))
    ensures forall i :: 0 <= i < |pages| && Truthy(Lookup(EvidenceOf(pages[i]), k)) &&
                        (forall j :: 0 <= j < i ==> !Truthy(Lookup(EvidenceOf(pages[j]), k))) ==>
                        CollectEvidence(pages)[k] == EvidenceOf(pages[i])[k]
  {
    var cs := AllEvidenceCandidates(pages);
    FirstWinsDomain(cs, k);
    if exists i :: 0 <= i < |pages| && Truthy(Lookup(EvidenceOf(pages[i]), k)) {
      var i :| 0 <= i < |pages| && Truthy(Lookup(EvidenceOf(pages[i]), k));
      assert k in cs[i];
    }
    forall i | 0 <= i < |pages| && Truthy(Lookup(EvidenceOf(pages[i]), k)) &&
               (forall j :: 0 <= j < i ==> !Truthy(Lookup(EvidenceOf(pages[j]), k)))
      ensures CollectEvidence(pages)[k] == EvidenceOf(pages[i])[k]
    {
      forall j | 0 <= j < i ensures k !in cs[j] {
        assert !Truthy(Lookup(EvidenceOf(pages[j]), k));
      }
      FirstWinsValue(cs, k, i);
    }
  }

  // ---------------------------------------------------------------------------------------
  // Validation of the merged values
  // ---------------------------------------------------------------------------------------

  /** The validation loop: every merged key is re-checked against the collected evidence for it. */
  function ValidateSection(merged: Dict, collected: Dict): (r: Dict)
    ensures r.Keys == merged.Keys
    ensures forall k :: k in r ==> r[k] == Evidence.ValidateFieldByEvidence(k, merged[k], Lookup(collected, k))
  {
    map k | k in merged :: Evidence.ValidateFieldByEvidence(k, merged[k], Lookup(collected, k))
  }

  /** `personalData` or `vehicleData` of the merged vision record. */
  function VisionSection(pages: seq<ModelReply>, section: Section): Dict {
    ValidateSection(MergePages(pages, section), CollectEvidence(pages))
  }

  /**
   * After validation, a key is present exactly when some page backed it; its value is then
   * either null or the first backed value, and the latter only when the first truthy evidence
   * for the key, from whichever page, supports it.
   */
  lemma VisionSectionMeaning(pages: seq<ModelReply>, section: Section, k: string)
    ensures k in VisionSection(pages, section) <==> exists i :: 0 <= i < |pages| && Backs(pages[i], section, k)
    ensures k in VisionSection(pages, section) ==>
      var v := VisionSection(pages, section)[k];
      var ev := Lookup(CollectEvidence(pages), k);
      && (v == None || v == MergePages(pages, section)[k])
      && (v != None <==> Truthy(ev) && Evidence.EvidenceSupports(k, ev.value))
  {
    MergeOnlyBacked(pages, section, k);
  }

  /**
   * The quirk of validating against evidence from any page: when the first truthy evidence for
   * a key is blank, the key is nulled, even though a later page may have backed its value with
   * evidence of its own that would have passed.
   */
  lemma BlankFirstEvidenceNullsKey(pages: seq<ModelReply>, section: Section, k: string, j: nat)
    requires j < |pages| && Truthy(Lookup(EvidenceOf(pages[j]), k)) && IsBlank(EvidenceOf(pages[j])[k].value)
    requires forall i :: 0 <= i < j ==> !Truthy(Lookup(EvidenceOf(pages[i]), k))
    ensures k in VisionSection(pages, section) ==> VisionSection(pages, section)[k] == None
  {
    CollectFirstTruthy(pages, k);
  }
}

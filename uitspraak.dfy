/** The decision-document extractor (`parse_uitspraak`). A parsed
    document is the sequence of the root's descendant elements in
    document order, which is what every `.//tag` lookup searches; the
    extractor is a set of first-match lookups with `or` fallbacks, a
    default court name, a two-stage date parse, the first non-empty case
    number, the stripped summary text and the filtered related ECLIs. */
module Uitspraak {
  import opened Common
  import opened Text
  import opened Dates
  import opened Courts

  /** A namespace-qualified tag or attribute name, `{namespace}local`. */
  datatype QName = QName(namespace: string, local: string)

  const DcTermsNs := "http://purl.org/dc/terms/"
  const RdfNs := "http://www.w3.org/1999/02/22-rdf-syntax-ns#"
  const PsiNs := "http://psi.rechtspraak.nl/"
  const RsNs := "http://www.rechtspraak.nl/schema/rechtspraak-1.0"

  const Identifier := QName(DcTermsNs, "identifier")
  const RsEcli := QName(RsNs, "ecli")
  const DcDate := QName(DcTermsNs, "date")
  const RsDatum := QName(RsNs, "datum")
  const Issued := QName(DcTermsNs, "issued")
  const Creator := QName(DcTermsNs, "creator")
  const DcType := QName(DcTermsNs, "type")
  const PsiProcedure := QName(PsiNs, "procedure")
  const Subject := QName(DcTermsNs, "subject")
  const Zaaknummer := QName(PsiNs, "zaaknummer")
  const Inhoudsindicatie := QName(RsNs, "inhoudsindicatie")
  const Relation := QName(DcTermsNs, "relation")
  const RdfResource := QName(RdfNs, "resource")

  /** One element: its tag, its `.text` (None when it has none), its
      attributes, the text content of the element and all its descendants
      (what `tostring(method="text")` writes before the tail), and its
      `.tail`. */
  datatype Element = Element(tag: QName, text: Option<string>, attributes: map<QName, string>,
                             innerText: string, tail: string)

  /** The bytes given to the extractor: not well-formed XML, or the
      descendants of the root element in document order. */
  datatype XmlInput = Malformed | WellFormed(elements: seq<Element>)

  /** The record `parse_uitspraak` returns. */
  datatype DecisionRecord = DecisionRecord(
    ecli: Option<string>,
    caseNumber: Option<string>,
    decisionDate: Option<Date>,
    publicationDate: Option<Date>,
    court: string,
    courtType: CourtType,
    procedureType: Option<string>,
    subjectArea: Option<string>,
    summary: Option<string>,
    relatedEclis: seq<string>)

  // ---------------------------------------------------------------- lookups

  /** The position of the first element with the tag, |elements| if none. */
  function FirstIndex(elements: seq<Element>, tag: QName): (i: nat)
    ensures i <= |elements|
    ensures forall j :: 0 <= j < i ==> elements[j].tag != tag
    ensures i < |elements| ==> elements[i].tag == tag
  {
    if elements == [] then 0
    else if elements[0].tag == tag then 0
    else 1 + FirstIndex(elements[1..], tag)
  }

  /** `root.find(".//tag")`: the first element with the tag in document
      order, None if there is none. */
  function Find(elements: seq<Element>, tag: QName): (r: Option<Element>)
    ensures r.None? <==> forall j :: 0 <= j < |elements| ==> elements[j].tag != tag
    ensures r.Some? ==> exists i :: 0 <= i < |elements| && r.value == elements[i] && r.value.tag == tag
                          && forall j :: 0 <= j < i ==> elements[j].tag != tag
  {
    var i := FirstIndex(elements, tag);
    if i < |elements| then Some(elements[i]) else None
  }

  predicate HasText(e: Element) {
    e.text.Some? && e.text.value != ""
  }

  /** `get_text`: the text of the first element with the tag, None when
      there is no such element or its text is missing or empty. */
  function GetText(elements: seq<Element>, tag: QName): Option<string> {
    match Find(elements, tag)
    case None => None
    case Some(e) => if HasText(e) then e.text else None
  }

  /** The element `get_all_text` keeps: one with the tag and a non-empty text. */
  function TextWithTag(tag: QName, e: Element): Option<string> {
    if e.tag == tag && HasText(e) then Some(e.text.value) else None
  }

  /** `get_all_text`: the non-empty texts of all elements with the tag, in
      document order. */
  function GetAllText(elements: seq<Element>, tag: QName): seq<string> {
    Select(elements, e => TextWithTag(tag, e))
  }

  /** Python's `a or b` on two optional strings: `a` unless it is None or
      empty. */
  function OrElse(a: Option<string>, b: Option<string>): (r: Option<string>)
    ensures a.Some? && a.value != "" ==> r == a
    ensures a.None? || a.value == "" ==> r == b
  {
    if a.Some? && a.value != "" then a else b
  }

  /** The value a `dcterms:relation` element contributes to
      related_eclis: its `rdf:resource` attribute when that is present and
      begins with "ECLI:". */
  function RelatedRef(e: Element): (r: Option<string>)
    ensures r.Some? <==> e.tag == Relation && RdfResource in e.attributes
                         && StartsWith(e.attributes[RdfResource], "ECLI:")
    ensures r.Some? ==> r.value == e.attributes[RdfResource]
  {
    if e.tag == Relation && RdfResource in e.attributes && e.attributes[RdfResource] != ""
       && StartsWith(e.attributes[RdfResource], "ECLI:") then
      Some(e.attributes[RdfResource])
    else None
  }

  /** The related-ECLI loop of `parse_uitspraak`. */
  method CollectRelated(elements: seq<Element>) returns (related: seq<string>)
    ensures related == Select(elements, RelatedRef)
    ensures forall k :: 0 <= k < |related| ==> StartsWith(related[k], "ECLI:")
  {
    related := [];
    var i := 0;
    while i < |elements|
      invariant 0 <= i <= |elements|
      invariant related == Select(elements[..i], RelatedRef)
    {
      SelectStep(elements, RelatedRef, i);
      var e := elements[i];
      if e.tag == Relation && RdfResource in e.attributes {
        var ref := e.attributes[RdfResource];
        if ref != "" && StartsWith(ref, "ECLI:") {
          related := related + [ref];
        }
      }
      i := i + 1;
    }
    assert elements[..i] == elements;
    forall k | 0 <= k < |related|
      ensures StartsWith(related[k], "ECLI:")
    {
      SelectMember(elements, RelatedRef, k);
    }
  }

  /** The summary: the text of the first `rs:inhoudsindicatie` element
      including its tail, stripped; None when there is no such element. */
  function Summary(elements: seq<Element>): Option<string> {
    match Find(elements, Inhoudsindicatie)
    case None => None
    case Some(e) => Some(Strip(e.innerText + e.tail))
  }

  /** The record built from a well-formed document. `fromIsoFormat` stands
      for `datetime.fromisoformat(...).date()`, None where it raises. */
  function Record(elements: seq<Element>, fromIsoFormat: string -> Option<Date>, related: seq<string>): DecisionRecord {
    var court := OrElse(GetText(elements, Creator), Some("Unknown")).value;
    var caseNums := GetAllText(elements, Zaaknummer);
    DecisionRecord(
      ecli := OrElse(GetText(elements, Identifier), GetText(elements, RsEcli)),
      caseNumber := if caseNums != [] then Some(caseNums[0]) else None,
      decisionDate := ParseDateField(OrElse(GetText(elements, DcDate), GetText(elements, RsDatum)), fromIsoFormat),
      publicationDate := ParseDateField(GetText(elements, Issued), fromIsoFormat),
      court := court,
      courtType := ExtractCourtType(court),
      procedureType := OrElse(GetText(elements, DcType), GetText(elements, PsiProcedure)),
      subjectArea := GetText(elements, Subject),
      summary := Summary(elements),
      relatedEclis := related)
  }

  /** `parse_uitspraak` as a function: None exactly for a malformed
      document, otherwise the whole record. */
  function Extract(input: XmlInput, fromIsoFormat: string -> Option<Date>): (r: Option<DecisionRecord>)
    ensures r.None? <==> input.Malformed?
    ensures r.Some? ==> r.value.court != "" && r.value.courtType == ExtractCourtType(r.value.court)
    ensures r.Some? ==> forall k :: 0 <= k < |r.value.relatedEclis| ==> StartsWith(r.value.relatedEclis[k], "ECLI:")
  {
    match input
    case Malformed => None
    case WellFormed(elements) =>
      var related := Select(elements, RelatedRef);
      assert forall k :: 0 <= k < |related| ==> StartsWith(related[k], "ECLI:") by {
        forall k | 0 <= k < |related|
          ensures StartsWith(related[k], "ECLI:")
        {
          SelectMember(elements, RelatedRef, k);
        }
      }
      Some(Record(elements, fromIsoFormat, related))
  }

  /** `parse_uitspraak`: the lookups, then the related-ECLI loop. */
  method ParseUitspraak(input: XmlInput, fromIsoFormat: string -> Option<Date>) returns (r: Option<DecisionRecord>)
    ensures r == Extract(input, fromIsoFormat)
  {
    if input.Malformed? {
      return None;
    }
    var related := CollectRelated(input.elements);
    r := Some(Record(input.elements, fromIsoFormat, related));
  }

  // ---------------------------------------------------------------- properties

  /** `get_text` reads only the first element with the tag: its text when
      non-empty, and None otherwise even when a later element has text. */
  lemma GetTextFirstOnly(elements: seq<Element>, tag: QName, i: nat)
    requires i < |elements| && elements[i].tag == tag
    requires forall j :: 0 <= j < i ==> elements[j].tag != tag
    ensures GetText(elements, tag) == if HasText(elements[i]) then elements[i].text else None
  {
    assert FirstIndex(elements, tag) == i;
  }

  /** `get_text` gives None, or a non-empty text, and None only when the
      first element with the tag is missing or has no text. */
  lemma GetTextCases(elements: seq<Element>, tag: QName)
    ensures GetText(elements, tag).Some? ==> GetText(elements, tag).value != ""
    ensures GetText(elements, tag).None? <==>
              (forall j :: 0 <= j < |elements| ==> elements[j].tag != tag)
              || !HasText(elements[FirstIndex(elements, tag)])
  {
  }

  /** A fallback is taken exactly when the first lookup gives None: the
      ecli is the `dcterms:identifier` text if there is one, and otherwise
      the `rs:ecli` text. */
  lemma EcliFallback(elements: seq<Element>, fromIsoFormat: string -> Option<Date>)
    ensures var r := Extract(WellFormed(elements), fromIsoFormat).value;
      (GetText(elements, Identifier).Some? ==> r.ecli == GetText(elements, Identifier))
      && (GetText(elements, Identifier).None? ==> r.ecli == GetText(elements, RsEcli))
  {
    GetTextCases(elements, Identifier);
  }

  /** The same for the procedure: `dcterms:type`, else `psi:procedure`. */
  lemma ProcedureFallback(elements: seq<Element>, fromIsoFormat: string -> Option<Date>)
    ensures var r := Extract(WellFormed(elements), fromIsoFormat).value;
      (GetText(elements, DcType).Some? ==> r.procedureType == GetText(elements, DcType))
      && (GetText(elements, DcType).None? ==> r.procedureType == GetText(elements, PsiProcedure))
  {
    GetTextCases(elements, DcType);
  }

  /** The case number is the text of the first `psi:zaaknummer` whose text
      is non-empty; earlier ones with empty text are passed over. */
  lemma CaseNumberFirstNonEmpty(elements: seq<Element>, fromIsoFormat: string -> Option<Date>, i: nat)
    requires i < |elements| && elements[i].tag == Zaaknummer && HasText(elements[i])
    requires forall j :: 0 <= j < i ==> elements[j].tag != Zaaknummer || !HasText(elements[j])
    ensures Extract(WellFormed(elements), fromIsoFormat).value.caseNumber == elements[i].text
  {
    SelectHead(elements, e => TextWithTag(Zaaknummer, e), i);
  }

  /** Without a `psi:zaaknummer` with text there is no case number. */
  lemma CaseNumberAbsent(elements: seq<Element>, fromIsoFormat: string -> Option<Date>)
    requires forall j :: 0 <= j < |elements| ==> elements[j].tag != Zaaknummer || !HasText(elements[j])
    ensures Extract(WellFormed(elements), fromIsoFormat).value.caseNumber.None?
  {
    SelectEmpty(elements, e => TextWithTag(Zaaknummer, e));
  }

  /** Without a `dcterms:creator` text the court is "Unknown" and its type
      OTHER. */
  lemma UnknownCourtWithoutCreator(elements: seq<Element>, fromIsoFormat: string -> Option<Date>)
    requires GetText(elements, Creator).None?
    ensures Extract(WellFormed(elements), fromIsoFormat).value.court == "Unknown"
    ensures Extract(WellFormed(elements), fromIsoFormat).value.courtType == OTHER
  {
    UnknownCourtIsOther();
  }

  /** With a `dcterms:creator` text the court is that text, classified. */
  lemma CourtFromCreator(elements: seq<Element>, fromIsoFormat: string -> Option<Date>)
    requires GetText(elements, Creator).Some?
    ensures Extract(WellFormed(elements), fromIsoFormat).value.court == GetText(elements, Creator).value
  {
    GetTextCases(elements, Creator);
  }

  /** A document without any date element has neither date. */
  lemma NoDatesWithoutDateElements(elements: seq<Element>, fromIsoFormat: string -> Option<Date>)
    requires forall j :: 0 <= j < |elements| ==> elements[j].tag !in {DcDate, RsDatum, Issued}
    ensures Extract(WellFormed(elements), fromIsoFormat).value.decisionDate.None?
    ensures Extract(WellFormed(elements), fromIsoFormat).value.publicationDate.None?
  {
  }

  /** A decision date whose text begins with a canonical "YYYY-MM-DD" is
      that day whenever `fromisoformat` fails on it or agrees. */
  lemma DecisionDateFromPrefix(elements: seq<Element>, fromIsoFormat: string -> Option<Date>, d: Date, rest: string)
    requires ValidDate(d)
    requires GetText(elements, DcDate) == Some(IsoFormat(d) + rest)
    requires fromIsoFormat(ReplaceChar(IsoFormat(d) + rest, 'Z', "+00:00")) in {None, Some(d)}
    ensures Extract(WellFormed(elements), fromIsoFormat).value.decisionDate == Some(d)
  {
    DateFieldOfIsoPrefix(d, rest, fromIsoFormat);
  }

  /** The decision date falls back from the `dcterms:date` text to the
      `rs:datum` text. The choice is made on the texts, before any parsing:
      a `dcterms:date` text is parsed even when it does not read as a date. */
  lemma DecisionDateFallback(elements: seq<Element>, fromIsoFormat: string -> Option<Date>)
    ensures var r := Extract(WellFormed(elements), fromIsoFormat).value;
      (GetText(elements, DcDate).Some? ==> r.decisionDate == ParseDateField(GetText(elements, DcDate), fromIsoFormat))
      && (GetText(elements, DcDate).None? ==> r.decisionDate == ParseDateField(GetText(elements, RsDatum), fromIsoFormat))
  {
    GetTextCases(elements, DcDate);
  }

  /** A `dcterms:date` text that neither parse stage reads gives no decision
      date, whatever `rs:datum` holds: the fallback is not consulted. */
  lemma UnparsableDateNoFallback(elements: seq<Element>, fromIsoFormat: string -> Option<Date>)
    requires GetText(elements, DcDate).Some?
    requires ParseDateField(GetText(elements, DcDate), fromIsoFormat).None?
    ensures Extract(WellFormed(elements), fromIsoFormat).value.decisionDate.None?
  {
    DecisionDateFallback(elements, fromIsoFormat);
  }

  /** The publication date comes from `dcterms:issued` alone and the subject
      area from `dcterms:subject` alone; neither has a fallback, so a
      missing text leaves the field None. */
  lemma IssuedAndSubjectWithoutFallback(elements: seq<Element>, fromIsoFormat: string -> Option<Date>)
    ensures var r := Extract(WellFormed(elements), fromIsoFormat).value;
      r.publicationDate == ParseDateField(GetText(elements, Issued), fromIsoFormat)
      && r.subjectArea == GetText(elements, Subject)
      && (GetText(elements, Issued).None? ==> r.publicationDate.None?)
      && (GetText(elements, Subject).None? ==> r.subjectArea.None?)
  {
  }

  /** related_eclis is exactly the `rdf:resource` values of the
      `dcterms:relation` elements that begin with "ECLI:", in document
      order: value k comes from element KeptIndices[k], those positions
      ascend, and an element contributes exactly when it qualifies. */
  lemma RelatedIsOrderedFilter(elements: seq<Element>, fromIsoFormat: string -> Option<Date>)
    ensures var rel, idx := Extract(WellFormed(elements), fromIsoFormat).value.relatedEclis, KeptIndices(elements, RelatedRef);
      |idx| == |rel|
      && (forall k :: 0 <= k < |idx| ==> idx[k] < |elements| && elements[idx[k]].tag == Relation
                                         && RdfResource in elements[idx[k]].attributes
                                         && elements[idx[k]].attributes[RdfResource] == rel[k])
      && (forall k, l :: 0 <= k < l < |idx| ==> idx[k] < idx[l])
      && (forall i :: 0 <= i < |elements| ==>
            (i in idx <==> elements[i].tag == Relation && RdfResource in elements[i].attributes
                           && StartsWith(elements[i].attributes[RdfResource], "ECLI:")))
  {
    SelectIsSubsequence(elements, RelatedRef);
  }

  /** The summary is present exactly when an `rs:inhoudsindicatie`
      element is, and is then the element's text with its tail, with the
      surrounding white space removed and nothing else. */
  lemma SummaryStripped(elements: seq<Element>, fromIsoFormat: string -> Option<Date>)
    ensures var s := Extract(WellFormed(elements), fromIsoFormat).value.summary;
      (s.None? <==> forall j :: 0 <= j < |elements| ==> elements[j].tag != Inhoudsindicatie)
      && (s.Some? ==> var e := Find(elements, Inhoudsindicatie).value; var t := e.innerText + e.tail;
            (exists i, j :: 0 <= i <= j <= |t| && s.value == t[i..j]
               && (forall k :: 0 <= k < i ==> IsSpace(t[k])) && (forall k :: j <= k < |t| ==> IsSpace(t[k])))
            && (s.value != [] ==> !IsSpace(s.value[0]) && !IsSpace(s.value[|s.value| - 1])))
  {
  }
}

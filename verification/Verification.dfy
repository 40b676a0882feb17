// The ordered gates of verify_identity that feed the receipt.
module Verification {
  import opened Prelude
  import opened Text
  import opened Dates
  import opened Pki
  import opened Td3
  import Dg11
  import opened VisualCheck
  import DocOcr
  import PassiveAuth

  datatype DocResult = DocResult(fields: Fields, docType: string, issuingState: string, docExpiry: string,
                                 passiveAuth: bool, chipAuth: bool, viz: Option<bool>, notExpired: bool,
                                 mrzValid: bool, dscTimeValid: Option<bool>)

  // The decoded request: EF.SOD, the data groups by number, and the text lines the OCR
  // recognised when a page image was sent.
  datatype Document = Document(sod: Option<bytes>, groups: map<int, bytes>, lines: Option<seq<string>>)

  // dict.get(key, default)
  function GetOr(fields: Fields, key: string, default: string): string {
    if key in fields then fields[key] else default
  }

  function VerificationUnless<T>(r: Result<T>): Result<T> {
    if r == Err(MrzFault) then Err(VerificationFault) else r
  }

  // parse_dg1, then parse_dg11 over it; an MRZError of the latter is ignored.
  function CertifiedFields(groups: map<int, bytes>, now: nat, decode: bytes -> string): Result<Fields>
    requires 1 in groups
  {
    var fields :- VerificationUnless(ParseDg1(groups[1], now));
    if 11 !in groups then Ok(fields)
    else
      match Dg11.PersonalDetails(groups[11], decode)
      case Err(MrzFault) => Ok(fields)
      case Err(fault) => Err(fault)
      case Ok(more) => Ok(fields + more)
  }

  predicate Expired(fields: Fields, today: Date) {
    var expiry := ParseDate(GetOr(fields, "doc_expiry", ""));
    expiry.None? || expiry.value.Before(today)
  }

  // GPG45 box 3: recorded, never fatal.
  function VisualMatch(dg1: bytes, lines: Option<seq<string>>): Result<Option<bool>> {
    match lines
    case None => Ok(None)
    case Some(found) =>
      var mrz := DocOcr.AssembleMrz(DocOcr.DetectedLines(found));
      if mrz == "" then Ok(None)
      else
        var check :- CrossReference(mrz, dg1);
        Ok(if check.Checked? then Some(check.consistent) else None)
  }

  lemma ComparedWith(mrz: string, dg1: bytes, page: string)
    requires MrzString(dg1) == Ok(page) && Upper(Compact(page)) == page && |page| == 88
    requires Upper(Compact(mrz)) == mrz && |mrz| <= 88
    ensures CrossReference(mrz, dg1).Ok?
    ensures var check := CrossReference(mrz, dg1).value;
            && (check.Checked? <==> |mrz| == 88)
            && (check.Checked? ==> (check.consistent <==> Agree(mrz, page)))
  {
    ConsistentMeansNoContradiction(mrz, dg1);
    assert |mrz| == 88 ==> mrz[..88] == mrz;
  }

  lemma ComparedPages(mrz: string, page: string)
    requires AllMrz(page) && |page| == 88 && AllMrz(mrz) && |mrz| <= 88
    ensures CrossReference(mrz, BuildDg1(page)).Ok?
    ensures var check := CrossReference(mrz, BuildDg1(page)).value;
            && (check.Checked? <==> |mrz| == 88)
            && (check.Checked? ==> (check.consistent <==> Agree(mrz, page)))
  {
    ReadingThePage(page);
    ReadAsItIs(mrz);
    ComparedWith(mrz, BuildDg1(page), page);
  }

  lemma ReadAsItIs(mrz: string)
    requires AllMrz(mrz)
    ensures Upper(Compact(mrz)) == mrz
  {
    CompactMrz(mrz);
  }

  // The visual comparison is made of a page of 88 characters, and records whether no field is
  // flagged; without one, or of a shorter page, nothing is recorded.
  lemma VisualMatchExactly(page: string, texts: seq<string>)
    requires AllMrz(page) && |page| == 88
    ensures var mrz := DocOcr.AssembleMrz(DocOcr.DetectedLines(texts));
            && VisualMatch(BuildDg1(page), None) == Ok(None)
            && VisualMatch(BuildDg1(page), Some(texts)) == Ok(if |mrz| == 88 then Some(Agree(mrz, page)) else None)
  {
    DocOcr.AssembledLength(DocOcr.DetectedLines(texts));
    DocOcr.AssembledAlphabet(texts);
    ComparedPages(DocOcr.AssembleMrz(DocOcr.DetectedLines(texts)), page);
  }

  // A page photographed with its own chip matches, when its two rows stand out among the
  // recognised texts.
  lemma OwnPageMatches(texts: seq<string>, cut: string, l1: string, l2: string)
    requires |l1| == 44 && |l2| == 44 && AllMrz(l1 + l2)
    requires |cut| <= 44 && cut + Repeat('<', 44 - |cut|) == l1
    requires DocOcr.StandOut(DocOcr.DetectedLines(texts), cut, l2) && DocOcr.DigitCount(cut) < DocOcr.DigitCount(l2)
    ensures VisualMatch(BuildDg1(l1 + l2), Some(texts)) == Ok(Some(true))
  {
    DocOcr.RebuildsPage(DocOcr.DetectedLines(texts), cut, l1, l2);
    DocOcr.RecognisedPageIsConsistent(DocOcr.DetectedLines(texts), cut, l1, l2);
  }

  predicate GroupsMatch(lib: Library, pa: PassiveAuth.PAResult, groups: map<int, bytes>) {
    forall n :: n in groups ==> PassiveAuth.GroupMatches(lib, pa, n, groups[n])
  }

  // Every presented group has a signed hash, and that is its digest.
  predicate Untampered(lib: Library, pa: PassiveAuth.PAResult, groups: map<int, bytes>) {
    forall n :: n in groups ==> n in pa.hashes && lib.digest(pa.hashAlgo, groups[n]) == Some(pa.hashes[n])
  }

  // The loop over the data groups: it stops at the first whose hash is not the signed one.
  method CheckGroups(lib: Library, pa: PassiveAuth.PAResult, groups: map<int, bytes>) returns (ok: bool)
    ensures ok <==> GroupsMatch(lib, pa, groups)
    ensures ok <==>
            forall n :: n in groups ==>
              n in pa.hashes && lib.digest(pa.hashAlgo, groups[n]) == Some(pa.hashes[n])
  {
    var todo := groups.Keys;
    while todo != {}
      invariant todo <= groups.Keys
      invariant forall n :: n in groups ==> n in todo || PassiveAuth.GroupMatches(lib, pa, n, groups[n])
      decreases |todo|
    {
      ghost var some := AnElement(todo);
      var n :| n in todo;
      if !PassiveAuth.GroupMatches(lib, pa, n, groups[n]) { return false; }
      todo := todo - {n};
    }
    ok := true;
  }

  function AuthenticateAndExtract(lib: Library, anchors: seq<bytes>, doc: Document, today: Date,
                                  decode: bytes -> string)
    : Result<DocResult>
    requires today.year >= 0
  {
    if doc.sod.None? || doc.sod.value == [] || 1 !in doc.groups then Err(VerificationFault)
    else
      var pa :- PassiveAuth.Verify(lib, doc.sod.value, anchors);
      if !GroupsMatch(lib, pa, doc.groups) then Err(VerificationFault)
      else
        var fields :- CertifiedFields(doc.groups, today.year, decode);
        if Expired(fields, today) then Err(VerificationFault)
        else
          var mrzValid :- CheckDigitsConsistent(doc.groups[1]);
          var viz :- VisualMatch(doc.groups[1], doc.lines);
          Ok(DocResult(fields, GetOr(fields, "document_type", "P"), GetOr(fields, "issuing_state", pa.country),
                       GetOr(fields, "doc_expiry", ""), true, false, viz, true, mrzValid,
                       if pa.signingTimeVerified then Some(true) else None))
  }

  // The fields of a result come from data groups whose hashes a Document Signer signed, a
  // trusted anchor issued that signer, and the document has not expired.
  lemma ResultIsAuthentic(lib: Library, anchors: seq<bytes>, doc: Document, today: Date, decode: bytes -> string)
    requires today.year >= 0
    requires AuthenticateAndExtract(lib, anchors, doc, today, decode).Ok?
    ensures var r := AuthenticateAndExtract(lib, anchors, doc, today, decode).value;
            && doc.sod.Some? && 1 in doc.groups
            && (exists pa :: PassiveAuth.Authentic(lib, doc.sod.value, anchors, pa) && Untampered(lib, pa, doc.groups))
            && CertifiedFields(doc.groups, today.year, decode) == Ok(r.fields)
            && r.passiveAuth && !r.chipAuth && r.notExpired
            && "doc_expiry" in r.fields && ParseDate(r.fields["doc_expiry"]).Some?
            && !ParseDate(r.fields["doc_expiry"]).value.Before(today)
  {
    var pa := PassiveAuth.Verify(lib, doc.sod.value, anchors).value;
    PassiveAuth.VerifiedIsAuthentic(lib, doc.sod.value, anchors, pa);
    assert ParseDate("").None? by {
      assert |Split("", '-')| == 1;
    }
  }

  // An optional DG11 is read, or passed over as an MRZError; what cuts a header short is not.
  predicate Dg11Tolerated(groups: map<int, bytes>, decode: bytes -> string) {
    11 in groups ==>
      Dg11.PersonalDetails(groups[11], decode).Ok? || Dg11.PersonalDetails(groups[11], decode) == Err(MrzFault)
  }

  ghost predicate SameButDg11(fields: Fields, more: Fields) {
    forall key :: key !in {"place_of_birth", "personal_number"} ==>
      GetOr(more, key, "") == GetOr(fields, key, "") && (key in more <==> key in fields)
  }

  // DG11 adds its two fields and changes none of DG1.
  lemma Dg11Adds(groups: map<int, bytes>, now: nat, decode: bytes -> string)
    requires 1 in groups && ParseDg1(groups[1], now).Ok?
    ensures CertifiedFields(groups, now, decode).Ok? <==> Dg11Tolerated(groups, decode)
    ensures CertifiedFields(groups, now, decode).Ok? ==>
              SameButDg11(ParseDg1(groups[1], now).value, CertifiedFields(groups, now, decode).value)
  {
    if 11 in groups {
      Dg11.DetailsAreKnown(groups[11], decode);
    }
  }

  lemma SameReports(fields: Fields, more: Fields, p: Passport, now: nat)
    requires p.Valid(now) && Reports(fields, p, now) && SameButDg11(fields, more)
    ensures Reports(more, p, now)
  {}

  // One group without a signed hash, or with another digest, is enough to refuse the document.
  lemma TamperedGroupRefused(lib: Library, anchors: seq<bytes>, doc: Document, today: Date, decode: bytes -> string,
                             pa: PassiveAuth.PAResult, n: int)
    requires today.year >= 0 && doc.sod.Some? && doc.sod.value != [] && 1 in doc.groups
    requires PassiveAuth.Authentic(lib, doc.sod.value, anchors, pa)
    requires n in doc.groups && (n !in pa.hashes || lib.digest(pa.hashAlgo, doc.groups[n]) != Some(pa.hashes[n]))
    ensures AuthenticateAndExtract(lib, anchors, doc, today, decode) == Err(VerificationFault)
  {
    PassiveAuth.VerifiedIsAuthentic(lib, doc.sod.value, anchors, pa);
    assert !PassiveAuth.GroupMatches(lib, pa, n, doc.groups[n]);
  }

  // No SOD, an empty one, or no DG1: refused.
  lemma MissingPartRefused(lib: Library, anchors: seq<bytes>, doc: Document, today: Date, decode: bytes -> string)
    requires today.year >= 0 && (doc.sod.None? || doc.sod.value == [] || 1 !in doc.groups)
    ensures AuthenticateAndExtract(lib, anchors, doc, today, decode) == Err(VerificationFault)
  {}

  // A genuine document whose MRZ does not parse is refused like any other failed check.
  lemma UnreadablePageRefused(lib: Library, anchors: seq<bytes>, doc: Document, today: Date, decode: bytes -> string,
                              pa: PassiveAuth.PAResult)
    requires today.year >= 0 && doc.sod.Some? && doc.sod.value != [] && 1 in doc.groups
    requires PassiveAuth.Authentic(lib, doc.sod.value, anchors, pa)
    requires ParseDg1(doc.groups[1], today.year) == Err(MrzFault)
    ensures AuthenticateAndExtract(lib, anchors, doc, today, decode) == Err(VerificationFault)
  {
    PassiveAuth.VerifiedIsAuthentic(lib, doc.sod.value, anchors, pa);
  }

  lemma PrintedFieldsCertified(groups: map<int, bytes>, l1: string, p: Passport, today: Date, decode: bytes -> string)
    requires 2000 <= today.year <= 2099 && |l1| == 44 && AllMrz(l1) && p.Valid(today.year)
    requires 1 in groups && groups[1] == BuildDg1(Page(l1, p, today.year))
    ensures CertifiedFields(groups, today.year, decode).Ok? <==> Dg11Tolerated(groups, decode)
    ensures Dg11Tolerated(groups, decode) ==> Reports(CertifiedFields(groups, today.year, decode).value, p, today.year)
    ensures CheckDigitsConsistent(groups[1]) == Ok(true)
  {
    PrintedPageParses(l1, p, today.year);
    PrintedPageIsConsistent(l1, p, today.year);
    Dg11Adds(groups, today.year, decode);
    if Dg11Tolerated(groups, decode) {
      var fields, more := ParseDg1(groups[1], today.year).value, CertifiedFields(groups, today.year, decode).value;
      SameReports(fields, more, p, today.year);
    }
  }

  lemma ReportedExpiry(fields: Fields, p: Passport, today: Date)
    requires today.year >= 0 && p.Valid(today.year) && Reports(fields, p, today.year)
    ensures var expiry := Date(p.expiryYear, p.expiryMonth, p.expiryDay);
            Expired(fields, today) <==> !IsDate(expiry) || expiry.Before(today)
  {
    PrintedDateParses(Date(p.expiryYear, p.expiryMonth, p.expiryDay));
  }

  // Whatever was recognised on a page image, comparing it with a printed page raises nothing.
  lemma PageIsComparable(page: string, lines: Option<seq<string>>)
    requires AllMrz(page) && |page| == 88
    ensures VisualMatch(BuildDg1(page), lines).Ok?
  {
    ReadingThePage(page);
  }

  lemma GatesPassed(lib: Library, anchors: seq<bytes>, doc: Document, today: Date, decode: bytes -> string)
    requires today.year >= 0 && doc.sod.Some? && doc.sod.value != [] && 1 in doc.groups
    requires PassiveAuth.Verify(lib, doc.sod.value, anchors).Ok?
    requires GroupsMatch(lib, PassiveAuth.Verify(lib, doc.sod.value, anchors).value, doc.groups)
    requires CheckDigitsConsistent(doc.groups[1]) == Ok(true) && VisualMatch(doc.groups[1], doc.lines).Ok?
    ensures var r, fields :=
              AuthenticateAndExtract(lib, anchors, doc, today, decode), CertifiedFields(doc.groups, today.year, decode);
            && (r.Ok? <==> fields.Ok? && !Expired(fields.value, today))
            && (r.Ok? ==> r.value.mrzValid && r.value.fields == fields.value)
  {}

  // The other way: a printed document whose EF.SOD verifies and covers its groups is accepted
  // exactly up to and including its day of expiry, with any page image and any DG11 that is
  // tolerated, and its check digits are recorded as consistent.
  lemma PrintedDocumentAccepted(lib: Library, anchors: seq<bytes>, doc: Document, l1: string, p: Passport, today: Date,
                                decode: bytes -> string)
    requires 2000 <= today.year <= 2099 && |l1| == 44 && AllMrz(l1) && p.Valid(today.year)
    requires doc.sod.Some? && doc.sod.value != [] && 1 in doc.groups
    requires doc.groups[1] == BuildDg1(Page(l1, p, today.year))
    requires PassiveAuth.Verify(lib, doc.sod.value, anchors).Ok?
    requires GroupsMatch(lib, PassiveAuth.Verify(lib, doc.sod.value, anchors).value, doc.groups)
    ensures var r := AuthenticateAndExtract(lib, anchors, doc, today, decode);
            var expiry := Date(p.expiryYear, p.expiryMonth, p.expiryDay);
            && (r.Ok? <==> Dg11Tolerated(doc.groups, decode) && IsDate(expiry) && !expiry.Before(today))
            && (r.Ok? ==> r.value.mrzValid && Reports(r.value.fields, p, today.year))
  {
    PrintedFieldsCertified(doc.groups, l1, p, today, decode);
    PageIsComparable(Page(l1, p, today.year), doc.lines);
    GatesPassed(lib, anchors, doc, today, decode);
    if Dg11Tolerated(doc.groups, decode) {
      ReportedExpiry(CertifiedFields(doc.groups, today.year, decode).value, p, today);
    }
  }

  // The certified birth date is a year, month and day as the MRZ names them.
  lemma CertifiedBirthdate(groups: map<int, bytes>, now: nat, decode: bytes -> string) returns (d: Date)
    requires 1 in groups && CertifiedFields(groups, now, decode).Ok?
    ensures 1900 <= d.year <= 2099 && 0 <= d.month <= 12 && 0 <= d.day <= 31
    ensures var fields := CertifiedFields(groups, now, decode).value;
            "birthdate" in fields && fields["birthdate"] == Printed(d)
  {
    d := ParsedBirthdate(groups[1], now);
    Dg11Adds(groups, now, decode);
  }

  lemma ParsedBirthdate(dg1: bytes, now: nat) returns (d: Date)
    requires ParseDg1(dg1, now).Ok?
    ensures 1900 <= d.year <= 2099 && 0 <= d.month <= 12 && 0 <= d.day <= 31
    ensures var fields := ParseDg1(dg1, now).value; "birthdate" in fields && fields["birthdate"] == Printed(d)
  {
    var page := Compact(MrzString(dg1).value);
    d := PageBirthdate(page, now);
    PrintedDateParses(d);
    assert Printed(d) != "";
  }

  lemma PageBirthdate(page: string, now: nat) returns (d: Date)
    requires |page| == 88 && PageFields(page, now).Ok?
    ensures 1900 <= d.year <= 2099 && 0 <= d.month <= 12 && 0 <= d.day <= 31
    ensures var fields := PageFields(page, now).value; "birthdate" in fields && fields["birthdate"] == Printed(d)
  {
    d := MrzDateIsPrinted(page[44..88][13..19], true, now);
  }

  const TEXT_FIELDS :=
    {"document_type", "issuing_state", "family_name", "given_name", "document_number", "nationality",
     "birthdate", "sex", "doc_expiry", "place_of_birth", "personal_number"}

  // Every field the parsers can produce.
  lemma FieldsAreKnown(groups: map<int, bytes>, now: nat, decode: bytes -> string)
    requires 1 in groups && CertifiedFields(groups, now, decode).Ok?
    ensures CertifiedFields(groups, now, decode).value.Keys <= TEXT_FIELDS
  {
    if 11 in groups {
      Dg11.DetailsAreKnown(groups[11], decode);
    }
  }
}

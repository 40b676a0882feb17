// The TD3 page in DG1: slicing it into fields, checking it, deriving the chip access key,
// and the printer those undo.
module Td3 {
  import opened Prelude
  import opened Text
  import opened BerTlv
  import opened CheckDigits
  import opened LookAlikes
  import opened Recovery
  import opened Dates

  type Fields = map<string, string>

  // bytes.decode("ascii", "replace")
  function Ascii(b: bytes): string {
    Map(x => if x < 128 then x as char else '\U{FFFD}', b)
  }

  function MrzString(dg1: bytes): Result<string> {
    var outer :- Read(dg1);
    var inner :- if outer.tag == 0x61 then Read(outer.value) else Ok(outer);
    if inner.tag != 0x5F1F then Err(MrzFault) else Ok(Ascii(inner.value))
  }

  // ---- parse_dg1 ----

  // The nine fields of an 88-character page; the dates are read in the calendar year now.
  function PageFields(page: string, now: nat): Result<Fields>
    requires |page| == 88
  {
    var l1, l2 := page[0..44], page[44..88];
    var (surname, given) := Partition(l1[5..44]);
    var birth :- MrzDate(l2[13..19], true, now);
    var expiry :- MrzDate(l2[21..27], false, now);
    Ok(map["document_type" := Strip(Without(l1[0..2], '<')),
           "issuing_state" := Without(l1[2..5], '<'),
           "family_name" := Strip(Replace(surname, '<', ' ')),
           "given_name" := Strip(Replace(given, '<', ' ')),
           "document_number" := Without(l2[0..9], '<'),
           "nationality" := Without(l2[10..13], '<'),
           "birthdate" := birth,
           "sex" := if l2[20] == 'M' || l2[20] == 'F' then [l2[20]] else "",
           "doc_expiry" := expiry])
  }

  function NonEmpty(fields: Fields): Fields {
    map k | k in fields && fields[k] != "" :: fields[k]
  }

  function ParseDg1(dg1: bytes, now: nat): Result<Fields> {
    var text :- MrzString(dg1);
    var page := Compact(text);
    if |page| != 88 then Err(MrzFault)
    else
      var fields :- PageFields(page, now);
      Ok(NonEmpty(fields))
  }

  // ---- check_digits_consistent ----

  predicate LineChecks(l2: string)
    requires |l2| == 44
  {
    && CheckDigit(l2[0..9]) == l2[9]
    && CheckDigit(l2[13..19]) == l2[19]
    && CheckDigit(l2[21..27]) == l2[27]
    && CheckDigit(l2[0..10] + l2[13..20] + l2[21..43]) == l2[43]
  }

  function CheckDigitsConsistent(dg1: bytes): Result<bool> {
    match MrzString(dg1)
    case Err(MrzFault) => Ok(false)
    case Err(fault) => Err(fault)
    case Ok(text) =>
      var page := Upper(Compact(text));
      Ok(|page| == 88 && LineChecks(page[44..88]))
  }

  // The four checks at their positions on the page: the number, the two dates, and the
  // composite over line 2 without nationality and sex.
  ghost predicate FourChecks(page: string)
    requires |page| == 88
  {
    && page[53] == CheckDigit(page[44..53]) && page[63] == CheckDigit(page[57..63])
    && page[71] == CheckDigit(page[65..71])
    && page[87] == CheckDigit(page[44..54] + page[57..64] + page[65..87])
  }

  lemma LineChecksAt(page: string)
    requires |page| == 88
    ensures LineChecks(page[44..88]) <==> FourChecks(page)
  {
    SliceOfSlice(page, 44, 88, 0, 9);
    SliceOfSlice(page, 44, 88, 0, 10);
    SliceOfSlice(page, 44, 88, 13, 19);
    SliceOfSlice(page, 44, 88, 13, 20);
    SliceOfSlice(page, 44, 88, 21, 27);
    SliceOfSlice(page, 44, 88, 21, 43);
  }

  lemma ConsistentExactly(dg1: bytes)
    requires MrzString(dg1).Ok?
    ensures var page := Upper(Compact(MrzString(dg1).value));
            CheckDigitsConsistent(dg1) == Ok(|page| == 88 && FourChecks(page))
  {
    var page := Upper(Compact(MrzString(dg1).value));
    if |page| == 88 {
      LineChecksAt(page);
    }
  }

  // ---- mrz_access_fields ----

  datatype AccessKey = AccessKey(number: string, birth: string, expiry: string)

  ghost predicate IsBest(read: string, field: string, check: char) {
    exists out: seq<string> :: IsRanking(out, field, check, CONFUSE_ALNUM) && out != [] && out[0] == read
  }

  ghost predicate HasCandidate(field: string, check: char) {
    exists read :: IsCandidate(field, check, CONFUSE_ALNUM, read)
  }

  // What line 2 yields: a key exactly when the document number has a candidate and both
  // dates are recoverable.
  ghost predicate IsLineKey(l2: string, r: Result<AccessKey>)
    requires |l2| == 44
  {
    if HasCandidate(l2[0..9], l2[9]) && Recoverable(l2[13..19], l2[19]) && Recoverable(l2[21..27], l2[27]) then
      && r.Ok?
      && (exists read :: IsBest(read, l2[0..9], l2[9]) && r.value.number == Strip(Without(read, '<')))
      && r.value.birth == DigitFold(l2[13..19])
      && r.value.expiry == DigitFold(l2[21..27])
    else r == Err(MrzFault)
  }

  function SecondLine(mrz: string): (l2: string)
    requires |mrz| >= 88
    ensures |l2| == 44
  {
    mrz[44..88]
  }

  // What the access-key extraction returns for an OCR'd text.
  ghost predicate IsAccessKey(text: string, r: Result<AccessKey>) {
    var mrz := Upper(Compact(text));
    if |mrz| < 88 then r == Err(MrzFault) else IsLineKey(SecondLine(mrz), r)
  }

  // The best candidate of a document number, if there is any.
  method BestNumber(field: string, check: char) returns (best: Option<string>)
    ensures best.Some? <==> HasCandidate(field, check)
    ensures best.Some? ==> IsBest(best.value, field, check)
  {
    var docs := Candidates(field, check, CONFUSE_ALNUM);
    if docs == [] {
      assert !HasCandidate(field, check);
      return None;
    }
    assert docs[0] in docs;
    best := Some(docs[0]);
  }

  method MrzAccessFields(text: string) returns (r: Result<AccessKey>)
    ensures IsAccessKey(text, r)
  {
    var mrz := Upper(Compact(text));
    if |mrz| < 88 { return Err(MrzFault); }
    r := LineAccessFields(SecondLine(mrz));
  }

  method LineAccessFields(l2: string) returns (r: Result<AccessKey>)
    requires |l2| == 44
    ensures IsLineKey(l2, r)
  {
    var number := BestNumber(l2[0..9], l2[9]);
    var births := DateReads(l2[13..19], l2[19]);
    var expiries := DateReads(l2[21..27], l2[27]);
    if number.None? || births == [] || expiries == [] { return Err(MrzFault); }
    r := Ok(AccessKey(Strip(Without(number.value, '<')), births[0], expiries[0]));
  }

  // ---- The printer ----

  datatype Passport = Passport(number: string, nationality: string, birthYear: nat, birthMonth: nat, birthDay: nat,
                               sex: char, expiryYear: nat, expiryMonth: nat, expiryDay: nat, optional: string)
  {
    // A document that can be printed, in the calendar year now.
    predicate Valid(now: nat) {
      && 1 <= |number| <= 9 && AllMrz(number) && '<' !in number
      && |nationality| == 3 && AllMrz(nationality)
      && 2000 <= now <= 2099 && now - 100 < birthYear <= now && birthMonth <= 12 && birthDay <= 31
      && 2000 <= expiryYear <= 2099 && expiryMonth <= 12 && expiryDay <= 31
      && IsMrz(sex) && |optional| == 14 && AllMrz(optional)
    }

    function Number9(): string
      requires |number| <= 9
    {
      number + Repeat('<', 9 - |number|)
    }

    function Birth(): string
      requires birthMonth < 100 && birthDay < 100
    {
      TwoDigits(birthYear % 100) + TwoDigits(birthMonth) + TwoDigits(birthDay)
    }

    function Expiry(): string
      requires expiryMonth < 100 && expiryDay < 100
    {
      TwoDigits(expiryYear % 100) + TwoDigits(expiryMonth) + TwoDigits(expiryDay)
    }

    // The dates with full years, as the parser reports them.
    function BirthDate(): string
      requires birthMonth < 100 && birthDay < 100
    {
      Decimal(birthYear) + "-" + TwoDigits(birthMonth) + "-" + TwoDigits(birthDay)
    }

    function ExpiryDate(): string
      requires expiryMonth < 100 && expiryDay < 100
    {
      Decimal(expiryYear) + "-" + TwoDigits(expiryMonth) + "-" + TwoDigits(expiryDay)
    }

    function Body(now: nat): (body: string)
      requires Valid(now)
      ensures |body| == 43
    {
      Number9() + [CheckDigit(Number9())] + nationality + Birth() + [CheckDigit(Birth())] + [sex] +
      Expiry() + [CheckDigit(Expiry())] + optional + [CheckDigit(optional)]
    }

    function Line2(now: nat): (line: string)
      requires Valid(now)
      ensures |line| == 44
    {
      var body := Body(now);
      body + [CheckDigit(body[0..10] + body[13..20] + body[21..43])]
    }
  }

  // The length octets the fixtures' builder writes.
  function BerLength(n: nat): (l: bytes)
    requires n < 0x10000
    ensures IsLength(l, n)
  {
    if n < 0x80 then [n]
    else if n < 0x100 then
      var l: bytes := [0x81, n];
      BigEndianSnoc(l[1..], 0);
      assert l[1..][..1] == l[1..];
      l
    else
      var l: bytes := [0x82, n / 256, n % 256];
      BigEndianSnoc(l[1..], 0);
      BigEndianSnoc(l[1..], 1);
      assert l[1..][..2] == l[1..];
      l
  }

  function OctetOf(c: char): byte {
    if c < '\U{80}' then c as int else 0xFF
  }

  // str.encode("ascii")
  function Octets(page: string): bytes
    requires forall c :: c in page ==> c < '\U{80}'
  {
    Map(OctetOf, page)
  }

  function BuildDg1(page: string): bytes
    requires |page| < 0xFF00 && forall c :: c in page ==> c < '\U{80}'
  {
    Wrap([0x61], Wrap([0x5F, 0x1F], Octets(page)))
  }

  function Wrap(tag: bytes, value: bytes): (r: bytes)
    requires |value| < 0x10000
    ensures |r| <= |tag| + |value| + 3
  {
    Element(tag, BerLength(|value|), value).Encoding()
  }

  lemma ReadWrapped(tag: bytes, value: bytes)
    requires IsTag(tag) && |value| < 0x10000
    ensures Read(Wrap(tag, value)) == Ok(Tlv(BigEndian(tag), value, []))
  {
    var e := Element(tag, BerLength(|value|), value);
    ReadUndoesEncoding(e, []);
    assert e.Encoding() + [] == e.Encoding();
  }

  // Reading a wrapped page gives back the page.
  lemma MrzStringOfBuilt(page: string)
    requires |page| < 0xFF00 && forall c :: c in page ==> c < '\U{80}'
    ensures MrzString(BuildDg1(page)) == Ok(page)
  {
    ReadWrapped([0x5F, 0x1F], Octets(page));
    ReadWrapped([0x61], Wrap([0x5F, 0x1F], Octets(page)));
    TagValues();
    AsciiUndoesOctets(page);
  }

  lemma AsciiUndoesOctets(page: string)
    requires forall c :: c in page ==> c < '\U{80}'
    ensures Ascii(Octets(page)) == page
  {
    forall i | 0 <= i < |page| ensures Ascii(Octets(page))[i] == page[i] {
      assert page[i] in page;
    }
  }

  lemma TagValues()
    ensures BigEndian([0x61]) == 0x61 && BigEndian([0x5F, 0x1F]) == 0x5F1F
  {
    var t: bytes := [0x5F, 0x1F];
    BigEndianSnoc(t, 0);
    BigEndianSnoc(t, 1);
    assert t[..2] == t && t[..1] == [0x5F];
    var u: bytes := [0x61];
    BigEndianSnoc(u, 0);
    assert u[..1] == u;
  }

  lemma CompactMrz(page: string)
    requires AllMrz(page)
    ensures Compact(page) == page && Upper(page) == page
  {
    FilterAll(c => !IsSpace(c), page);
    forall i | 0 <= i < |page| ensures UpperChar(page[i]) == page[i] {
      assert page[i] in page;
    }
  }

  // Where the printed parts stand on line 2.
  lemma Line2Parts(p: Passport, now: nat)
    requires p.Valid(now)
    ensures var l2 := p.Line2(now);
            && l2[0..9] == p.Number9() && l2[9] == CheckDigit(p.Number9())
            && l2[10..13] == p.nationality
            && l2[13..19] == p.Birth() && l2[19] == CheckDigit(p.Birth())
            && l2[20] == p.sex
            && l2[21..27] == p.Expiry() && l2[27] == CheckDigit(p.Expiry())
  {}

  lemma Line2Composite(p: Passport, now: nat)
    requires p.Valid(now)
    ensures var l2 := p.Line2(now); CheckDigit(l2[0..10] + l2[13..20] + l2[21..43]) == l2[43]
  {
    var l2, body := p.Line2(now), p.Body(now);
    assert l2[0..10] == body[0..10] && l2[13..20] == body[13..20] && l2[21..43] == body[21..43];
  }

  lemma Line2IsMrz(p: Passport, now: nat)
    requires p.Valid(now)
    ensures AllMrz(p.Line2(now))
  {
    assert AllMrz(p.Number9());
  }

  lemma NumberWithoutFiller(p: Passport, now: nat)
    requires p.Valid(now)
    ensures Without(p.Number9(), '<') == p.number
  {
    FilterConcat(d => d != '<', p.number, Repeat('<', 9 - |p.number|));
    FilterAll(d => d != '<', p.number);
    FilterNone(d => d != '<', Repeat('<', 9 - |p.number|));
  }

  // The well-formed page: any first line, and the printed second line.
  function Page(l1: string, p: Passport, now: nat): (page: string)
    requires |l1| == 44 && AllMrz(l1) && p.Valid(now)
    ensures |page| == 88 && page[0..44] == l1 && page[44..88] == p.Line2(now) && AllMrz(page)
  {
    Line2IsMrz(p, now);
    l1 + p.Line2(now)
  }

  lemma ReadingThePage(page: string)
    requires AllMrz(page) && |page| == 88
    ensures MrzString(BuildDg1(page)) == Ok(page)
    ensures Compact(page) == page && Upper(page) == page
  {
    CompactMrz(page);
    MrzStringOfBuilt(page);
  }

  // The outer template may be missing; what is not ASCII is replaced.
  lemma BareMrz(page: string)
    requires AllMrz(page) && |page| == 88
    ensures MrzString(Wrap([0x5F, 0x1F], Octets(page))) == Ok(page)
  {
    TagValues();
    ReadWrapped([0x5F, 0x1F], Octets(page));
    AsciiUndoesOctets(page);
  }

  // Under any other tag there is no MRZ.
  lemma OtherTagRefused(dg1: bytes)
    requires Read(dg1).Ok?
    ensures var outer := Read(dg1).value;
            && (outer.tag != 0x61 && outer.tag != 0x5F1F ==> MrzString(dg1) == Err(MrzFault))
            && (outer.tag == 0x61 && Read(outer.value).Ok? && Read(outer.value).value.tag != 0x5F1F ==>
                  MrzString(dg1) == Err(MrzFault))
  {}

  lemma ReplacedOctet(b: byte)
    ensures Ascii([b]) == [if b < 128 then b as char else '\U{FFFD}']
  {}

  // Another length than 88 is an MRZError, and never consistent.
  lemma OtherLengthRefused(dg1: bytes, now: nat)
    requires MrzString(dg1).Ok? && |Compact(MrzString(dg1).value)| != 88
    ensures ParseDg1(dg1, now) == Err(MrzFault) && CheckDigitsConsistent(dg1) == Ok(false)
  {}

  lemma GarbageIsInconsistent(dg1: bytes, now: nat)
    requires MrzString(dg1).Err?
    ensures ParseDg1(dg1, now) == Err(MrzString(dg1).fault)
    ensures CheckDigitsConsistent(dg1) ==
            if MrzString(dg1) == Err(MrzFault) then Ok(false) else Err(MrzString(dg1).fault)
  {}

  // Every printed page has consistent check digits.
  lemma PrintedPageIsConsistent(l1: string, p: Passport, now: nat)
    requires |l1| == 44 && AllMrz(l1) && p.Valid(now)
    ensures CheckDigitsConsistent(BuildDg1(Page(l1, p, now))) == Ok(true)
  {
    ReadingThePage(Page(l1, p, now));
    Line2Parts(p, now);
    Line2Composite(p, now);
  }

  lemma MrzWithOneReplaced(page: string, k: nat, c: char)
    requires AllMrz(page) && k < |page| && IsMrz(c)
    ensures AllMrz(page[k := c])
  {
    forall x | x in page[k := c] ensures IsMrz(x) {
      var m :| 0 <= m < |page| && page[k := c][m] == x;
      assert m != k ==> page[m] in page;
    }
  }

  // A printed page on which one of the four check digits is replaced is not consistent.
  lemma WrongDigitIsInconsistent(l1: string, p: Passport, now: nat, k: nat, c: char)
    requires |l1| == 44 && AllMrz(l1) && p.Valid(now) && k in {53, 63, 71, 87} && IsMrz(c)
    requires c != Page(l1, p, now)[k]
    ensures var page := Page(l1, p, now)[k := c]; AllMrz(page) && CheckDigitsConsistent(BuildDg1(page)) == Ok(false)
  {
    var page := Page(l1, p, now);
    var wrong := page[k := c];
    MrzWithOneReplaced(page, k, c);
    ReadingThePage(page);
    ReadingThePage(wrong);
    PrintedPageIsConsistent(l1, p, now);
    ConsistentExactly(BuildDg1(page));
    ConsistentExactly(BuildDg1(wrong));
    assert page[44..53] == wrong[44..53] && page[57..63] == wrong[57..63] && page[65..71] == wrong[65..71];
    if k == 87 {
      assert page[44..54] == wrong[44..54] && page[57..64] == wrong[57..64] && page[65..87] == wrong[65..87];
    }
  }

  // The parsed fields report the printed document number, nationality and dates.
  ghost predicate Reports(fields: Fields, p: Passport, now: nat)
    requires p.Valid(now)
  {
    && "document_number" in fields && fields["document_number"] == p.number
    && "birthdate" in fields && fields["birthdate"] == p.BirthDate()
    && "doc_expiry" in fields && fields["doc_expiry"] == p.ExpiryDate()
    && (if "nationality" in fields then fields["nationality"] else "") == Without(p.nationality, '<')
  }

  lemma PrintedFields(l1: string, p: Passport, now: nat)
    requires |l1| == 44 && AllMrz(l1) && p.Valid(now)
    ensures var fields := PageFields(Page(l1, p, now), now); fields.Ok? && Reports(fields.value, p, now)
  {
    Line2Parts(p, now);
    NumberWithoutFiller(p, now);
    BirthDateReadBack(p.birthYear, p.birthMonth, p.birthDay, now);
    ExpiryReadBack(p.expiryYear, p.expiryMonth, p.expiryDay, now);
  }

  lemma NonEmptyReports(fields: Fields, p: Passport, now: nat)
    requires p.Valid(now) && Reports(fields, p, now)
    ensures Reports(NonEmpty(fields), p, now)
  {
    assert p.BirthDate() != "" && p.ExpiryDate() != "";
  }

  lemma ParseOfPage(page: string, now: nat)
    requires AllMrz(page) && |page| == 88
    ensures PageFields(page, now).Ok? ==> ParseDg1(BuildDg1(page), now) == Ok(NonEmpty(PageFields(page, now).value))
  {
    ReadingThePage(page);
  }

  // Parsing the DG1 of a printed page gives back the document number, the nationality
  // and both dates, with the full years.
  lemma PrintedPageParses(l1: string, p: Passport, now: nat)
    requires |l1| == 44 && AllMrz(l1) && p.Valid(now)
    ensures var parsed := ParseDg1(BuildDg1(Page(l1, p, now)), now); parsed.Ok? && Reports(parsed.value, p, now)
  {
    PrintedFields(l1, p, now);
    var fields := PageFields(Page(l1, p, now), now).value;
    NonEmptyReports(fields, p, now);
    ParseOfPage(Page(l1, p, now), now);
  }

  // The sex is reported when it is M or F, and absent otherwise.
  lemma PrintedSexParses(l1: string, p: Passport, now: nat)
    requires |l1| == 44 && AllMrz(l1) && p.Valid(now)
    ensures var parsed := ParseDg1(BuildDg1(Page(l1, p, now)), now);
            && parsed.Ok?
            && ("sex" in parsed.value <==> p.sex == 'M' || p.sex == 'F')
            && ("sex" in parsed.value ==> parsed.value["sex"] == [p.sex])
  {
    PrintedFields(l1, p, now);
    PrintedSex(l1, p, now);
    ParseOfPage(Page(l1, p, now), now);
  }

  lemma PrintedSex(l1: string, p: Passport, now: nat)
    requires |l1| == 44 && AllMrz(l1) && p.Valid(now) && PageFields(Page(l1, p, now), now).Ok?
    ensures var fields := PageFields(Page(l1, p, now), now).value;
            "sex" in fields && fields["sex"] == if p.sex == 'M' || p.sex == 'F' then [p.sex] else ""
  {
    Line2Parts(p, now);
  }

  // A run of digits is its own fold, and recoverable under its own check digit.
  lemma DigitsFoldToThemselves(text: string)
    requires AllDigits(text)
    ensures DigitFold(text) == text
  {
    forall i | 0 <= i < |text| ensures DigitFold(text)[i] == text[i] {
      assert text[i] in text;
    }
  }

  lemma DigitsAreClean(text: string)
    requires AllDigits(text)
    ensures Recoverable(text, CheckDigit(text)) && DigitFold(text) == text
  {
    DigitsFoldToThemselves(text);
    RankOfSelf(text);
  }

  lemma CleanDate(yy: nat, mm: nat, dd: nat)
    requires yy < 100 && mm < 100 && dd < 100
    ensures var text := TwoDigits(yy) + TwoDigits(mm) + TwoDigits(dd);
            Recoverable(text, CheckDigit(text)) && DigitFold(text) == text
  {
    DateParts(yy, mm, dd);
    DigitsAreClean(TwoDigits(yy) + TwoDigits(mm) + TwoDigits(dd));
  }

  lemma CleanNumber(field: string, read: string)
    ensures IsBest(read, field, CheckDigit(field)) ==> read == field
    ensures HasCandidate(field, CheckDigit(field))
  {
    assert Zero.Valid(field, CONFUSE_ALNUM) && Zero.Apply(field, CONFUSE_ALNUM) == field;
    assert IsCandidate(field, CheckDigit(field), CONFUSE_ALNUM, field);
    if IsBest(read, field, CheckDigit(field)) {
      var out :| IsRanking(out, field, CheckDigit(field), CONFUSE_ALNUM) && out != [] && out[0] == read;
      CleanReadFirst(out, field, CheckDigit(field), CONFUSE_ALNUM);
    }
  }

  lemma KeyOfCleanLine(mrz: string, r: Result<AccessKey>)
    requires |mrz| == 88 && Upper(Compact(mrz)) == mrz && IsAccessKey(mrz, r)
    requires var l2 := mrz[44..88];
             && l2[9] == CheckDigit(l2[0..9])
             && Recoverable(l2[13..19], l2[19]) && Recoverable(l2[21..27], l2[27])
    ensures var l2 := mrz[44..88];
            r == Ok(AccessKey(Strip(Without(l2[0..9], '<')), DigitFold(l2[13..19]), DigitFold(l2[21..27])))
  {
    var field := mrz[44..88][0..9];
    CleanNumber(field, field);
    var read :| IsBest(read, field, CheckDigit(field)) && r.value.number == Strip(Without(read, '<'));
    CleanNumber(field, read);
  }

  lemma NumberReadBack(p: Passport, now: nat)
    requires p.Valid(now)
    ensures Strip(Without(p.Number9(), '<')) == p.number
  {
    NumberWithoutFiller(p, now);
    assert p.number[0] in p.number && p.number[|p.number| - 1] in p.number;
    NothingToStrip(p.number);
  }

  lemma DatesAreClean(p: Passport, now: nat)
    requires p.Valid(now)
    ensures Recoverable(p.Birth(), CheckDigit(p.Birth())) && DigitFold(p.Birth()) == p.Birth()
    ensures Recoverable(p.Expiry(), CheckDigit(p.Expiry())) && DigitFold(p.Expiry()) == p.Expiry()
  {
    CleanDate(p.birthYear % 100, p.birthMonth, p.birthDay);
    CleanDate(p.expiryYear % 100, p.expiryMonth, p.expiryDay);
  }

  // The access key read from a printed page is the key printed on it.
  lemma PrintedPageGivesKey(l1: string, p: Passport, now: nat, r: Result<AccessKey>)
    requires |l1| == 44 && AllMrz(l1) && p.Valid(now)
    requires IsAccessKey(Page(l1, p, now), r)
    ensures r == Ok(AccessKey(p.number, p.Birth(), p.Expiry()))
  {
    var page := Page(l1, p, now);
    CompactMrz(page);
    Line2Parts(p, now);
    DatesAreClean(p, now);
    NumberReadBack(p, now);
    KeyOfCleanLine(page, r);
  }

  lemma NothingToStrip(s: string)
    requires s != [] && !IsSpace(s[0]) && !IsSpace(s[|s| - 1])
    ensures Strip(s) == s
  {}

  // ---- Line 1: the names ----

  // A name as printed: letters with single fillers between its parts.
  predicate IsPrintedName(s: string) {
    && AllMrz(s)
    && (s != [] ==> s[0] != '<' && s[|s| - 1] != '<')
    && forall i :: 0 <= i < |s| - 1 ==> !(s[i] == '<' && s[i + 1] == '<')
  }

  predicate FitsLine1(docType: string, state: string, surname: string, given: string) {
    && |docType| == 2 && AllMrz(docType) && |state| == 3 && AllMrz(state)
    && IsPrintedName(surname) && surname != [] && IsPrintedName(given)
    && |surname| + 2 + |given| <= 39
  }

  function Line1(docType: string, state: string, surname: string, given: string): (l1: string)
    requires FitsLine1(docType, state, surname, given)
    ensures |l1| == 44 && AllMrz(l1)
  {
    docType + state + surname + "<<" + given + Repeat('<', 37 - |surname| - |given|)
  }

  lemma FirstFillerAfter(name: string, tail: string)
    requires IsPrintedName(name) && name != []
    ensures FirstFiller(name + "<<" + tail) == |name|
  {
    var s := name + "<<" + tail;
    assert s[|name|] == '<' && s[|name| + 1] == '<';
    assert forall k :: 0 <= k < |name| ==> s[k] == name[k];
  }

  lemma {:induction false} StripTrailing(s: string, k: nat)
    requires s != [] ==> !IsSpace(s[0]) && !IsSpace(s[|s| - 1])
    ensures StripRight(s + Repeat(' ', k)) == s
  {
    if k > 0 {
      assert (s + Repeat(' ', k))[..|s| + k - 1] == s + Repeat(' ', k - 1);
      StripTrailing(s, k - 1);
    } else {
      assert s + Repeat(' ', 0) == s;
    }
  }

  lemma {:induction false} StripOnlySpaces(k: nat)
    ensures Strip(Repeat(' ', k)) == ""
  {
    if k > 0 {
      assert Repeat(' ', k)[1..] == Repeat(' ', k - 1);
      StripOnlySpaces(k - 1);
    }
  }

  // A printed name and its trailing filler are reported as the name with spaces.
  lemma NameReadBack(name: string, k: nat)
    requires IsPrintedName(name)
    ensures Strip(Replace(name + Repeat('<', k), '<', ' ')) == Replace(name, '<', ' ')
  {
    var shown := Replace(name, '<', ' ');
    assert Replace(name + Repeat('<', k), '<', ' ') == shown + Repeat(' ', k);
    if name == [] {
      StripOnlySpaces(k);
      assert shown + Repeat(' ', k) == Repeat(' ', k);
    } else {
      assert name[0] in name && name[|name| - 1] in name;
      StripTrailing(shown, k);
    }
  }

  lemma Line1Parts(docType: string, state: string, surname: string, given: string)
    requires FitsLine1(docType, state, surname, given)
    ensures var l1 := Line1(docType, state, surname, given);
            && l1[0..2] == docType && l1[2..5] == state
            && Partition(l1[5..44]) == (surname, given + Repeat('<', 37 - |surname| - |given|))
  {
    var l1 := Line1(docType, state, surname, given);
    var tail := given + Repeat('<', 37 - |surname| - |given|);
    FirstFillerAfter(surname, tail);
    assert l1[5..44] == surname + "<<" + tail;
    assert l1[5..44][..|surname|] == surname && l1[5..44][|surname| + 2..] == tail;
  }

  lemma PrintedNameFields(docType: string, state: string, surname: string, given: string, page: string, now: nat)
    requires FitsLine1(docType, state, surname, given)
    requires |page| == 88 && page[0..44] == Line1(docType, state, surname, given) && PageFields(page, now).Ok?
    ensures var fields := PageFields(page, now).value;
            && "family_name" in fields && fields["family_name"] == Replace(surname, '<', ' ')
            && "given_name" in fields && fields["given_name"] == Replace(given, '<', ' ')
            && "issuing_state" in fields && fields["issuing_state"] == Without(state, '<')
            && "document_type" in fields && fields["document_type"] == Strip(Without(docType, '<'))
  {
    Line1Parts(docType, state, surname, given);
    NamesReadBack(surname, given, 37 - |surname| - |given|);
  }

  lemma NamesReadBack(surname: string, given: string, k: nat)
    requires IsPrintedName(surname) && IsPrintedName(given)
    ensures Strip(Replace(surname, '<', ' ')) == Replace(surname, '<', ' ')
    ensures Strip(Replace(given + Repeat('<', k), '<', ' ')) == Replace(given, '<', ' ')
  {
    NameReadBack(surname, 0);
    assert surname + Repeat('<', 0) == surname;
    NameReadBack(given, k);
  }

  // fields.get(key, ""): a field that would be empty is left out.
  function Reported(fields: Fields, key: string): string {
    if key in fields then fields[key] else ""
  }

  // Parsing the DG1 of a page whose first line was printed from a surname and given names
  // gives both back, each in its own field, and the document type and issuing state without
  // filler; what is empty is left out.
  lemma PrintedNamesParse(docType: string, state: string, surname: string, given: string, p: Passport, now: nat)
    requires FitsLine1(docType, state, surname, given) && p.Valid(now)
    ensures var parsed := ParseDg1(BuildDg1(Page(Line1(docType, state, surname, given), p, now)), now);
            && parsed.Ok?
            && "family_name" in parsed.value && parsed.value["family_name"] == Replace(surname, '<', ' ')
            && Reported(parsed.value, "given_name") == Replace(given, '<', ' ')
            && Reported(parsed.value, "issuing_state") == Without(state, '<')
            && Reported(parsed.value, "document_type") == Strip(Without(docType, '<'))
  {
    var l1 := Line1(docType, state, surname, given);
    var page := Page(l1, p, now);
    PrintedFields(l1, p, now);
    PrintedNameFields(docType, state, surname, given, page, now);
    ParseOfPage(page, now);
  }
}

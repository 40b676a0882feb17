// The specimen page of ICAO Doc 9303 Part 4, read character for character.
module Specimen {
  import opened Prelude
  import opened Text
  import opened CheckDigits
  import opened Dates
  import opened Td3

  const LINE1 := "P<" + "UTO" + "ERIKSSON" + "<<" + "ANNA<MARIA" + "<<<<<<<<<<<<<<<<<<<"
  const LINE2 := "L898902C3" + "6" + "UTO" + "740812" + "2" + "F" + "120415" + "9" + "ZE184226B<<<<<" + "1" + "0"

  const HOLDER: Passport := Passport("L898902C3", "UTO", 1974, 8, 12, 'F', 2012, 4, 15, "ZE184226B<<<<<")

  lemma HolderIsValid()
    ensures HOLDER.Valid(2026)
  {}

  const COMPOSITE := "L898902C3674081221204159ZE184226B<<<<<1"

  // The running sum over the first k characters.
  ghost predicate SumsTo(s: string, k: nat, total: nat) {
    k <= |s| && k % 3 == 0 && WeightedSum(s[..k]) == total
  }

  lemma NextThree(s: string, k: nat, a: char, b: char, c: char, total: nat)
    requires SumsTo(s, k, total) && k + 3 <= |s| && s[k] == a && s[k + 1] == b && s[k + 2] == c
    ensures SumsTo(s, k + 3, total + 7 * CharValue(a) + 3 * CharValue(b) + CharValue(c))
  {
    ThreeMore(s, k);
  }

  lemma OptionalDigit()
    ensures CheckDigit("ZE184226B<<<<<") == '1'
  {
    var s := "ZE184226B<<<<<" + "<";
    assert s[..0] == [];
    NextThree(s, 0, 'Z', 'E', '1', 0);
    NextThree(s, 3, '8', '4', '2', 288);
    NextThree(s, 6, '2', '6', 'B', 358);
    NextThree(s, 9, '<', '<', '<', 401);
    NextThree(s, 12, '<', '<', '<', 401);
    OneMore(s, 14);
    assert s[..15] == s && s[..14] == "ZE184226B<<<<<";
  }

  lemma CompositeHead()
    ensures SumsTo(COMPOSITE, 18, 429)
  {
    assert COMPOSITE[..0] == [];
    NextThree(COMPOSITE, 0, 'L', '8', '9', 0);
    NextThree(COMPOSITE, 3, '8', '9', '0', 180);
    NextThree(COMPOSITE, 6, '2', 'C', '3', 263);
    NextThree(COMPOSITE, 9, '6', '7', '4', 316);
    NextThree(COMPOSITE, 12, '0', '8', '1', 383);
    NextThree(COMPOSITE, 15, '2', '2', '1', 408);
  }

  lemma CompositeMiddle()
    requires SumsTo(COMPOSITE, 18, 429)
    ensures SumsTo(COMPOSITE, 27, 766)
  {
    assert COMPOSITE[18..27] == "204159ZE1";
    NextThree(COMPOSITE, 18, '2', '0', '4', 429);
    NextThree(COMPOSITE, 21, '1', '5', '9', 447);
    NextThree(COMPOSITE, 24, 'Z', 'E', '1', 478);
  }

  lemma CompositeTail()
    requires SumsTo(COMPOSITE, 27, 766)
    ensures CheckDigit(COMPOSITE) == '0'
  {
    assert COMPOSITE[27..39] == "84226B<<<<<1";
    NextThree(COMPOSITE, 27, '8', '4', '2', 766);
    NextThree(COMPOSITE, 30, '2', '6', 'B', 836);
    NextThree(COMPOSITE, 33, '<', '<', '<', 879);
    NextThree(COMPOSITE, 36, '<', '<', '1', 879);
    assert COMPOSITE[..39] == COMPOSITE;
  }

  lemma PrintedNumber()
    ensures HOLDER.Valid(2026) && HOLDER.Number9() == "L898902C3"
  {
    HolderIsValid();
  }

  lemma PrintedDates()
    ensures HOLDER.Valid(2026) && HOLDER.Birth() == "740812" && HOLDER.Expiry() == "120415"
  {
    HolderIsValid();
    assert TwoDigits(74) == "74" && TwoDigits(8) == "08" && TwoDigits(12) == "12";
    assert TwoDigits(4) == "04" && TwoDigits(15) == "15";
  }

  const BODY := "L898902C3" + "6" + "UTO" + "740812" + "2" + "F" + "120415" + "9" + "ZE184226B<<<<<" + "1"

  lemma PrintedBody()
    ensures HOLDER.Valid(2026) && HOLDER.Body(2026) == BODY
  {
    PrintedNumber();
    PrintedDates();
    SpecimenNumber();
    SpecimenBirth();
    SpecimenExpiry();
    OptionalDigit();
  }

  lemma CompositeOfBody()
    ensures |BODY| == 43 && BODY[0..10] + BODY[13..20] + BODY[21..43] == COMPOSITE
  {
    var head, dates, tail := "L898902C3" + "6", "740812" + "2", "120415" + "9" + "ZE184226B<<<<<" + "1";
    assert BODY == head + "UTO" + dates + "F" + tail;
    assert BODY[0..10] == head && BODY[13..20] == dates && BODY[21..43] == tail;
    CompositePieces();
  }

  lemma CompositePieces()
    ensures ("L898902C3" + "6") + ("740812" + "2") + ("120415" + "9" + "ZE184226B<<<<<" + "1") == COMPOSITE
  {}

  // The printer writes line 2 of the specimen,
  lemma PrintedLine2()
    ensures HOLDER.Valid(2026) && HOLDER.Line2(2026) == LINE2
  {
    PrintedBody();
    CompositeOfBody();
    CompositeHead();
    CompositeMiddle();
    CompositeTail();
  }

  lemma Filler()
    ensures Repeat('<', 19) == "<<<<<<<<<<<<<<<<<<<"
  {}

  // and line 1.
  lemma PrintedLine1()
    ensures FitsLine1("P<", "UTO", "ERIKSSON", "ANNA<MARIA")
    ensures Line1("P<", "UTO", "ERIKSSON", "ANNA<MARIA") == LINE1
  {
    Filler();
  }

  // What the specimen shows, as DG1 reports it.
  ghost predicate ShowsSpecimen(fields: Fields) {
    && Reported(fields, "document_number") == "L898902C3" && Reported(fields, "nationality") == "UTO"
    && Reported(fields, "birthdate") == "1974-08-12" && Reported(fields, "doc_expiry") == "2012-04-15"
    && Reported(fields, "sex") == "F" && Reported(fields, "family_name") == "ERIKSSON"
    && Reported(fields, "given_name") == "ANNA MARIA" && Reported(fields, "issuing_state") == "UTO"
    && Reported(fields, "document_type") == "P"
  }

  lemma SpecimenText(text: string)
    requires text == LINE1 + LINE2
    ensures |LINE1| == 44 && AllMrz(LINE1) && HOLDER.Valid(2026) && Page(LINE1, HOLDER, 2026) == text
    ensures AllMrz(text) && |text| == 88
  {
    PrintedLine1();
    PrintedLine2();
  }

  // The specimen page passes the check digits,
  lemma SpecimenIsConsistent(text: string)
    requires text == LINE1 + LINE2
    ensures AllMrz(text) && |text| == 88 && CheckDigitsConsistent(BuildDg1(text)) == Ok(true)
  {
    SpecimenText(text);
    PrintedPageIsConsistent(LINE1, HOLDER, 2026);
  }

  // yields its access key,
  lemma SpecimenGivesKey(text: string, key: Result<AccessKey>)
    requires text == LINE1 + LINE2 && IsAccessKey(text, key)
    ensures key == Ok(AccessKey("L898902C3", "740812", "120415"))
  {
    SpecimenText(text);
    PrintedDates();
    PrintedPageGivesKey(LINE1, HOLDER, 2026, key);
  }

  // and parses to what it shows.
  lemma SpecimenParses(text: string)
    requires text == LINE1 + LINE2
    ensures AllMrz(text) && |text| == 88
    ensures var parsed := ParseDg1(BuildDg1(text), 2026); parsed.Ok? && ShowsSpecimen(parsed.value)
  {
    SpecimenText(text);
    PrintedPageParses(LINE1, HOLDER, 2026);
    PrintedSexParses(LINE1, HOLDER, 2026);
    NamesOfSpecimen();
    NumbersShown(ParseDg1(BuildDg1(text), 2026).value);
  }

  lemma NamesOfSpecimen()
    ensures |LINE1| == 44 && AllMrz(LINE1) && HOLDER.Valid(2026)
    ensures var parsed := ParseDg1(BuildDg1(Page(LINE1, HOLDER, 2026)), 2026);
            && parsed.Ok? && Reported(parsed.value, "family_name") == "ERIKSSON"
            && Reported(parsed.value, "given_name") == "ANNA MARIA" && Reported(parsed.value, "issuing_state") == "UTO"
            && Reported(parsed.value, "document_type") == "P"
  {
    PrintedLine1();
    HolderIsValid();
    PrintedNamesParse("P<", "UTO", "ERIKSSON", "ANNA<MARIA", HOLDER, 2026);
    SpecimenTexts();
  }

  lemma NumbersShown(fields: Fields)
    requires HOLDER.Valid(2026) && Reports(fields, HOLDER, 2026)
    ensures Reported(fields, "document_number") == "L898902C3" && Reported(fields, "nationality") == "UTO"
    ensures Reported(fields, "birthdate") == "1974-08-12" && Reported(fields, "doc_expiry") == "2012-04-15"
  {
    SpecimenDates();
    SpecimenTexts();
  }

  lemma SpecimenDates()
    ensures HOLDER.Valid(2026) && HOLDER.BirthDate() == "1974-08-12" && HOLDER.ExpiryDate() == "2012-04-15"
  {
    HolderIsValid();
    assert Decimal(19) == "19" && Decimal(197) == "197" && Decimal(1974) == "1974";
    assert Decimal(20) == "20" && Decimal(201) == "201" && Decimal(2012) == "2012";
    assert TwoDigits(8) == "08" && TwoDigits(12) == "12" && TwoDigits(4) == "04" && TwoDigits(15) == "15";
  }

  lemma SpecimenTexts()
    ensures Replace("ERIKSSON", '<', ' ') == "ERIKSSON" && Replace("ANNA<MARIA", '<', ' ') == "ANNA MARIA"
    ensures Without("UTO", '<') == "UTO" && Strip(Without("P<", '<')) == "P"
  {
    FilterAll(d => d != '<', "UTO");
    assert "P<"[1..] == "<" && "<"[1..] == "";
    assert Without("P<", '<') == "P";
    assert "P"[1..] == "" && "P"[..0] == "";
  }
}

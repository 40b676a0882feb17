// What a text that opens a commitment can be, for salts of any length: the ages and the
// empty fields that a shortened text or a shortened salt discloses.
module Openings {
  import opened Prelude
  import opened Text
  import opened Dates
  import opened Base64Url
  import opened Jose
  import Td3
  import opened Verification
  import opened Receipt
  import opened Server
  import opened Runs
  import opened Provenance
  import opened Completeness

  // ---- What opens a certified date ----

  // Given texts that read as dates and open a printed date: the text itself, with sixteen
  // bytes of salt, or the text without its last digit, with that digit before the salt.
  lemma DateOpening(c: Primitives, d: Date, salt: bytes, given: string, givenSalt: bytes)
    requires c.Sound() && Printable(d) && |salt| == 16 && ParseDate(given).Some?
    requires c.utf8(given) + givenSalt == c.utf8(Printed(d)) + salt
    ensures |givenSalt| == 16 || |givenSalt| == 17
    ensures |givenSalt| == 16 ==> given == Printed(d) && ParseDate(given) == Some(d)
    ensures |givenSalt| == 17 ==> d.day >= 10 && ParseDate(given) == Some(Shortened(d))
  {
    PrintedDateParses(d);
    DateTextIsShort(given);
    OpeningIsPrefix(c, Printed(d), salt, given, givenSalt);
    if |given| <= 8 {
      BeginningHasNoDay(d, |given|);
    } else if |given| == 9 {
      ShortenedParses(d);
    } else {
      assert Printed(d)[..10] == Printed(d);
    }
  }

  // The salt that opens a printed date without its last digit.
  function SaltOfShortened(d: Date, salt: bytes): bytes
    requires Printable(d)
  {
    Codes(Printed(d))[|Printed(d)| - 1..] + salt
  }

  lemma ShortenedMakesUp(c: Primitives, d: Date, salt: bytes)
    requires c.Sound() && Printable(d)
    ensures |Printed(d)| == 10 && |SaltOfShortened(d, salt)| == |salt| + 1
    ensures c.utf8(Printed(d)[..9]) + SaltOfShortened(d, salt) == c.utf8(Printed(d)) + salt
  {
    PrintedDateParses(d);
    forall x | x in Printed(d)[..9] ensures x in Printed(d) {
    }
    OpeningIsPrefix(c, Printed(d), salt, Printed(d)[..9], SaltOfShortened(d, salt));
  }

  // Some age can be proved from a certified birth date exactly when the calendar has it, or
  // has it without the last digit of its day.
  lemma AgeProvableExactly(c: Primitives, ivr: Json, values: Td3.Fields, salt: string -> Salt, d: Date)
    requires c.Sound() && Commits(c, ivr, values, salt) && Printable(d)
    requires "birthdate" in values && values["birthdate"] == Printed(d)
    ensures (exists given, text :: Open(c, ivr, "birthdate", given, text).None? && ParseDate(given).Some?) <==>
            IsDate(d) || IsDate(Shortened(d))
  {
    if given, text :| Open(c, ivr, "birthdate", given, text).None? && ParseDate(given).Some? {
      OpenMeansConcatenation(c, ivr, values, salt, "birthdate", given, text);
      DateOpening(c, d, salt("birthdate"), given, Decode(text).value);
    }
    if IsDate(d) {
      PrintedDateParses(d);
      DecodeUndoesEncode(salt("birthdate"));
      OpenMeansConcatenation(c, ivr, values, salt, "birthdate", Printed(d), Encode(salt("birthdate")));
    } else if IsDate(Shortened(d)) {
      ShortenedParses(d);
      ShortenedMakesUp(c, d, salt("birthdate"));
      DecodeUndoesEncode(SaltOfShortened(d, salt("birthdate")));
      OpenMeansConcatenation(c, ivr, values, salt, "birthdate", Printed(d)[..9],
                             Encode(SaltOfShortened(d, salt("birthdate"))));
    }
  }

  // ---- What an age token says ----

  predicate AgePath(q: ProveRequest) {
    q.path.AgeOverPath? || q.path.AgeBandPath?
  }

  // The birth date of the receipt of request j is d, and request i reads it: as it is with
  // sixteen bytes of salt, without the last digit of its day with seventeen, never otherwise.
  ghost predicate ReadsBirth(run: Run, i: nat, j: nat, d: Date, read: Date)
    requires run.Steps() && i < |run.requests| && run.requests[i].Prove?
    requires j < |run.requests| && run.requests[j].Identity?
    requires Examine(run.env, run.At(j), run.requests[j].identity).Ok?
  {
    var q, values := run.requests[i].prove, CommittedAt(run, j);
    && Printable(d) && "birthdate" in values && values["birthdate"] == Printed(d)
    && ParseDate(q.birthdate) == Some(read) && Decode(q.salt).Some?
    && |Decode(q.salt).value| == (if SixteenByteSalt(q) then 16 else 17)
    && read == if SixteenByteSalt(q) then d else Shortened(d)
  }

  lemma CommittedBirthdate(run: Run, j: nat) returns (d: Date)
    requires run.Steps() && j < |run.requests| && run.requests[j].Identity?
    requires Examine(run.env, run.At(j), run.requests[j].identity).Ok?
    ensures Printable(d) && "birthdate" in CommittedAt(run, j) && CommittedAt(run, j)["birthdate"] == Printed(d)
  {
    d := ExaminedBirthdate(run.env, run.At(j), run.requests[j].identity);
  }

  lemma ExaminedBirthdate(env: Env, s: State, q: IdentityRequest) returns (d: Date)
    requires Examine(env, s, q).Ok?
    ensures Printable(d)
    ensures var values := Committed(Examine(env, s, q).value.fields, Portrait(q.doc.groups));
            "birthdate" in values && values["birthdate"] == Printed(d)
  {
    ResultIsAuthentic(env.lib, s.anchors, q.doc, s.today, env.decode);
    d := CertifiedBirthdate(q.doc.groups, s.today.year, env.decode);
    PortraitKeepsBirthdate(Examine(env, s, q).value.fields, Portrait(q.doc.groups));
  }

  lemma PortraitKeepsBirthdate(fields: Td3.Fields, dg2: bytes)
    requires "birthdate" in fields
    ensures "birthdate" in Committed(fields, dg2) && Committed(fields, dg2)["birthdate"] == fields["birthdate"]
  {}

  // Every successful age token goes back to a certified birth date in this way.
  lemma AgeTokenReads(run: Run, i: nat) returns (j: nat, holder: bytes, d: Date, read: Date)
    requires run.Valid() && i < |run.requests| && Succeeded(run, i)
    requires run.requests[i].Prove? && AgePath(run.requests[i].prove)
    ensures j < i && TracesTo(run, i, j, holder) && ReadsBirth(run, i, j, d, read)
    ensures SaysOpened(run.requests[i].prove, run.Reply(i).minted.payload.Get("value"), run.At(i).today)
  {
    j, holder := DisclosureProvenance(run, i);
    d := CommittedBirthdate(run, j);
    var q := run.requests[i].prove;
    DateOpening(run.env.c, d, run.requests[j].salt("birthdate"), q.birthdate, Decode(q.salt).value);
    read := ParseDate(q.birthdate).value;
  }

  // The age read from it: one year too high exactly when the salt is one byte too long and
  // today lies between the shortened birthday and the birthday.
  predicate Early(q: ProveRequest, d: Date, today: Date) {
    !(Decode(q.salt).Some? && |Decode(q.salt).value| == 16) && BirthdayBetween(d, today)
  }

  lemma ReadAge(run: Run, i: nat, j: nat, d: Date, read: Date)
    requires run.Steps() && i < |run.requests| && run.requests[i].Prove? && AgePath(run.requests[i].prove)
    requires j < |run.requests| && run.requests[j].Identity?
    requires Examine(run.env, run.At(j), run.requests[j].identity).Ok?
    requires ReadsBirth(run, i, j, d, read) && IsDate(d)
    ensures Age(read, run.At(i).today) ==
            Age(d, run.At(i).today) + if Early(run.requests[i].prove, d, run.At(i).today) then 1 else 0
  {
    if !SixteenByteSalt(run.requests[i].prove) {
      ShortenedAge(d, run.At(i).today);
    }
  }

  // age_over_n is true exactly when the certified age is at least n, or one less and the
  // birth date was read early.
  lemma AgeOverTokenSays(run: Run, i: nat) returns (j: nat, holder: bytes, d: Date)
    requires run.Valid() && i < |run.requests| && Succeeded(run, i)
    requires run.requests[i].Prove? && run.requests[i].prove.path.AgeOverPath?
    ensures j < i && TracesTo(run, i, j, holder) && Printable(d)
    ensures "birthdate" in CommittedAt(run, j) && CommittedAt(run, j)["birthdate"] == Printed(d)
    ensures run.requests[i].prove.threshold.Some?
    ensures IsDate(d) ==>
              var q, today := run.requests[i].prove, run.At(i).today;
              var age, n := Age(d, today), q.threshold.value;
              run.Reply(i).minted.payload.Get("value") == Bool(age >= n || (age + 1 == n && Early(q, d, today)))
  {
    var read;
    j, holder, d, read := AgeTokenReads(run, i);
    if IsDate(d) {
      ReadAge(run, i, j, d, read);
    }
  }

  // The band a successful token names holds the certified age exactly when some requested
  // bound is at most that age, and the birth date was not read early across a bound.
  lemma BandTokenHoldsAge(run: Run, i: nat) returns (j: nat, holder: bytes, d: Date, band: Band)
    requires run.Valid() && i < |run.requests| && Succeeded(run, i)
    requires run.requests[i].Prove? && run.requests[i].prove.path.AgeBandPath?
    ensures j < i && TracesTo(run, i, j, holder) && Printable(d)
    ensures "birthdate" in CommittedAt(run, j) && CommittedAt(run, j)["birthdate"] == Printed(d)
    ensures run.Reply(i).minted.payload.Get("value") == Str(band.Label())
    ensures IsBand(band, Bounds(run.requests[i].prove.bands))
    ensures IsDate(d) ==>
              var q, today := run.requests[i].prove, run.At(i).today;
              var age, bounds := Age(d, today), Bounds(q.bands);
              band.Holds(age) <==> (exists b :: b in bounds && b <= age) && !(Early(q, d, today) && age + 1 in bounds)
  {
    var read;
    j, holder, d, read := AgeTokenReads(run, i);
    var q, today := run.requests[i].prove, run.At(i).today;
    band := BandOf(Age(read, today), Bounds(q.bands));
    BandHoldsAge(Age(read, today), Bounds(q.bands));
    if IsDate(d) {
      ReadAge(run, i, j, d, read);
      BandOfNearby(Bounds(q.bands), Age(d, today), Age(read, today), Early(q, d, today));
    }
  }

  lemma BandOfNearby(bounds: seq<int>, age: int, read: int, early: bool)
    requires bounds != [] && read == age + if early then 1 else 0
    ensures BandOf(read, bounds).Holds(age) <==>
            (exists b :: b in bounds && b <= age) && !(early && age + 1 in bounds)
  {
    BandHoldsAge(read, bounds);
    BandHoldsNearby(BandOf(read, bounds), bounds, age, read, early);
  }

  lemma BandHoldsNearby(band: Band, bounds: seq<int>, age: int, read: int, early: bool)
    requires IsBand(band, bounds) && read == age + if early then 1 else 0
    requires band.Holds(read) <==> exists b :: b in bounds && b <= read
    ensures band.Holds(age) <==> (exists b :: b in bounds && b <= age) && !(early && age + 1 in bounds)
  {}

  // ---- The inputs that show it ----

  // A request that gives the certified birth date without its last digit, and that digit
  // before the salt.
  ghost predicate GivesShortened(run: Run, j: nat, i: nat, d: Date)
    requires run.Steps() && j < |run.requests| && run.requests[j].Identity?
    requires i < |run.requests| && run.requests[i].Prove? && Printable(d)
    requires Examine(run.env, run.At(j), run.requests[j].identity).Ok?
  {
    var q, values := run.requests[i].prove, CommittedAt(run, j);
    && AgePath(q) && (q.path.AgeOverPath? ==> q.threshold.Some?)
    && "birthdate" in values && values["birthdate"] == Printed(d) && |Printed(d)| == 10
    && q.birthdate == Printed(d)[..9] && Decode(q.salt) == Some(SaltOfShortened(d, run.requests[j].salt("birthdate")))
  }

  lemma ShortenedOpens(run: Run, j: nat, i: nat, d: Date)
    requires run.Valid() && j < i < |run.requests| && run.Reply(j).ReceiptIssued? && run.requests[j].Identity?
    requires Examine(run.env, run.At(j), run.requests[j].identity).Ok?
    requires run.requests[i].Prove? && Printable(d) && GivesShortened(run, j, i, d)
    ensures var q := run.requests[i].prove;
            Open(run.env.c, run.Reply(j).minted.payload, "birthdate", q.birthdate, q.salt).None? && q.salt != ""
  {
    var q := run.requests[i].prove;
    var holder := ReceiptBehind(run, j);
    ShortenedMatches(run.env.c, run.Reply(j).minted.payload, CommittedAt(run, j), run.requests[j].salt, d, q.salt);
  }

  lemma ShortenedMatches(c: Primitives, ivr: Json, values: Td3.Fields, salt: string -> Salt, d: Date, text: string)
    requires c.Sound() && Commits(c, ivr, values, salt) && Printable(d) && |Printed(d)| == 10
    requires "birthdate" in values && values["birthdate"] == Printed(d)
    requires Decode(text) == Some(SaltOfShortened(d, salt("birthdate")))
    ensures Open(c, ivr, "birthdate", Printed(d)[..9], text).None? && text != ""
  {
    ShortenedMakesUp(c, d, salt("birthdate"));
    OpenMeansConcatenation(c, ivr, values, salt, "birthdate", Printed(d)[..9], text);
    assert text == "" ==> Decode(text) == Some([]);
  }

  // Such a request succeeds, with the age of the shortened date, whenever the calendar has
  // that date, also when it does not have the certified one.
  lemma ShortenedIsDisclosed(run: Run, j: nat, i: nat, d: Date)
    requires run.Valid() && j < i < |run.requests| && run.Reply(j).ReceiptIssued? && Honest(run, j, i)
    requires run.requests[j].Identity? && Examine(run.env, run.At(j), run.requests[j].identity).Ok?
    requires Printable(d) && GivesShortened(run, j, i, d) && IsDate(Shortened(d))
    ensures Succeeded(run, i)
    ensures var q, age := run.requests[i].prove, Age(Shortened(d), run.At(i).today);
            run.Reply(i).minted.payload.Get("value") ==
            if q.path.AgeOverPath? then Bool(age >= q.threshold.value) else Str(BandOf(age, Bounds(q.bands)).Label())
  {
    var q, ivr := run.requests[i].prove, run.Reply(j).minted.payload;
    ShortenedOpens(run, j, i, d);
    ShortenedParses(d);
    ShortenedDerives(run.env, run.At(i), q, ivr, Shortened(d));
    HonestSucceeds(run, j, i);
  }

  lemma ShortenedDerives(env: Env, s: State, q: ProveRequest, ivr: Json, read: Date)
    requires AgePath(q) && (q.path.AgeOverPath? ==> q.threshold.Some?) && q.salt != ""
    requires ParseDate(q.birthdate) == Some(read) && Open(env.c, ivr, "birthdate", q.birthdate, q.salt).None?
    ensures var d, age := Derive(env, s, q, ivr), Age(read, s.today);
            && d.Discloses?
            && d.value == if q.path.AgeOverPath? then Bool(age >= q.threshold.value)
                          else Str(BandOf(age, Bounds(q.bands)).Label())
  {
    assert q.birthdate == "" ==> ParseDate(q.birthdate).None? by {
      assert |Split("", '-')| == 1;
    }
  }

  // Born on 12 August 2008 and read as born on the first: on 5 August 2026 the holder is
  // seventeen, over eighteen, and in the band from eighteen although a bound is at most 17.
  lemma SeventeenReadAsEighteen()
    ensures var d, today := Date(2008, 8, 12), Date(2026, 8, 5);
            && Printed(d) == "2008-08-12" && IsDate(d) && IsDate(Shortened(d))
            && Age(d, today) == 17 && Age(Shortened(d), today) == 18
            && BandOf(18, [0, 18]).Label() == "18+" && !BandOf(18, [0, 18]).Holds(17)
  {
    Born2008();
    BandsFromEighteen();
  }

  lemma Born2008()
    ensures Printed(Date(2008, 8, 12)) == "2008-08-12"
  {
    assert Decimal(20) == "20" && Decimal(200) == "200";
  }

  lemma BandsFromEighteen()
    ensures BandOf(18, [0, 18]) == From(18) && From(18).Label() == "18+"
  {
    BandHoldsAge(18, [0, 18]);
    assert [0, 18][0] == 0 && [0, 18][1] == 18;
    BandIsUnique(18, [0, 18], From(18), BandOf(18, [0, 18]));
    assert Decimal(18) == "18";
  }

  lemma Born1974()
    ensures Printed(Date(1974, 2, 31)) == "1974-02-31"
  {
    assert Decimal(19) == "19" && Decimal(197) == "197";
  }

  // Certified as born on 31 February 1974, a day no calendar has, and read as the third.
  lemma NoSuchDayReadAsThird()
    ensures var d := Date(1974, 2, 31);
            && Printed(d) == "1974-02-31" && ParseDate(Printed(d)).None? && IsDate(Shortened(d))
            && Printed(d)[..9] == "1974-02-3" && ParseDate(Printed(d)[..9]) == Some(Date(1974, 2, 3))
  {
    Born1974();
    PrintedDateParses(Date(1974, 2, 31));
    ShortenedParses(Date(1974, 2, 31));
  }

  // ---- Empty fields ----

  // A field certified as empty is disclosed exactly as a text its own salt begins with,
  lemma EmptyFieldOpensExactly(c: Primitives, ivr: Json, values: Td3.Fields, salt: string -> Salt, field: string,
                               given: string, text: string)
    requires c.Sound() && Commits(c, ivr, values, salt) && field in values && values[field] == ""
    ensures Open(c, ivr, field, given, text).None? <==>
            Decode(text).Some? && c.utf8(given) + Decode(text).value == salt(field)
  {
    OpenMeansConcatenation(c, ivr, values, salt, field, given, text);
    NothingBefore(c, salt(field));
  }

  lemma NothingBefore(c: Primitives, b: bytes)
    requires c.Sound()
    ensures c.utf8("") + b == b
  {
    assert |c.utf8("")| == 0;
  }

  // as the character of the first byte of the salt, for one, when that is ASCII.
  lemma EmptyFieldReadFromSalt(c: Primitives, ivr: Json, values: Td3.Fields, salt: string -> Salt, field: string)
    requires c.Sound() && Commits(c, ivr, values, salt) && field in values && values[field] == ""
    requires field in CERTIFIED_FIELDS && salt(field)[0] < 128
    ensures var first := [salt(field)[0] as char];
            ProveField(c, ivr, field, first, Encode(salt(field)[1..])) == Discloses(field, Str(first), map[])
  {
    var first := [salt(field)[0] as char];
    AsciiIsItself(c, first);
    assert Codes(first) + salt(field)[1..] == salt(field);
    DecodeUndoesEncode(salt(field)[1..]);
    EmptyFieldOpensExactly(c, ivr, values, salt, field, first, Encode(salt(field)[1..]));
  }

  // In every run a field certified as empty is disclosed, if at all, as a text that is not
  // empty and that its salt begins with.
  lemma EmptyFieldDisclosedAsSalt(run: Run, i: nat) returns (j: nat, holder: bytes)
    requires run.Valid() && i < |run.requests| && Succeeded(run, i)
    requires run.requests[i].Prove? && run.requests[i].prove.path.FieldPath?
    ensures j < i && TracesTo(run, i, j, holder) && run.requests[i].prove.field in CommittedAt(run, j)
    ensures var q := run.requests[i].prove;
            CommittedAt(run, j)[q.field] == "" ==>
              && run.Reply(i).minted.payload.Get("value") == Str(q.value) && q.value != ""
              && Decode(q.salt).Some? && |Decode(q.salt).value| != 16
              && run.env.c.utf8(q.value) + Decode(q.salt).value == run.requests[j].salt(q.field)
  {
    j, holder := DisclosureProvenance(run, i);
    var q := run.requests[i].prove;
    assert CarriesOpening(run.env.c, q, run.Reply(i).minted.payload.Get("value"), CommittedAt(run, j),
                          run.requests[j].salt, run.At(i).today);
    if CommittedAt(run, j)[q.field] == "" {
      assert run.env.c.utf8("") + run.requests[j].salt(q.field) == run.requests[j].salt(q.field);
      OpenedIsCommitted(run.env.c, q, CommittedAt(run, j), run.requests[j].salt);
    }
  }
}

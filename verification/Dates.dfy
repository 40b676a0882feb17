// Two-digit MRZ years, ages and age bands.
module Dates {
  import opened Prelude
  import opened Text

  datatype Date = Date(year: int, month: int, day: int) {
    // Earlier in the calendar.
    predicate Before(other: Date) {
      if year != other.year then year < other.year
      else if month != other.month then month < other.month
      else day < other.day
    }
  }

  function DaysIn(year: int, month: int): int {
    if month == 2 then (if year % 4 == 0 && (year % 100 != 0 || year % 400 == 0) then 29 else 28)
    else if month in {4, 6, 9, 11} then 30
    else 31
  }

  predicate IsDate(d: Date) {
    1 <= d.year <= 9999 && 1 <= d.month <= 12 && 1 <= d.day <= DaysIn(d.year, d.month)
  }

  // The months of the Gregorian calendar: February has 29 days in years divisible by four,
  // but in centuries only when divisible by four hundred.
  lemma CalendarMonths(year: int, month: int, day: int)
    requires 1 <= year <= 9999 && 1 <= month <= 12
    ensures IsDate(Date(year, month, day)) <==>
            1 <= day <= (if month in {1, 3, 5, 7, 8, 10, 12} then 31 else if month != 2 then 30
                         else if year % 400 == 0 then 29 else if year % 100 == 0 then 28
                         else if year % 4 == 0 then 29 else 28)
  {}

  function TwoDigits(n: nat): (s: string)
    requires n < 100
    ensures |s| == 2 && AllDigits(s)
  {
    [DigitChar(n / 10), DigitChar(n % 10)]
  }

  // ---- MRZ dates (section 4.2 of ICAO Doc 9303 Part 4) ----

  // The year a two-digit year stands for, in the calendar year `now`.
  function FullYear(yy: nat, birth: bool, now: nat): nat {
    if birth && yy > now % 100 then 1900 + yy else 2000 + yy
  }

  function MrzDate(text: string, birth: bool, now: nat): Result<string> {
    if |text| != 6 || !AllDigits(text) then Err(MrzFault)
    else
      var yy, mm, dd := text[0..2], text[2..4], text[4..6];
      if Number(mm) > 12 || Number(dd) > 31 then Err(MrzFault)
      else Ok(Decimal(FullYear(Number(yy), birth, now)) + "-" + mm + "-" + dd)
  }

  lemma NumberOfTwoDigits(n: nat)
    requires n < 100
    ensures Number(TwoDigits(n)) == n
  {
    var s := TwoDigits(n);
    assert s[..1][..0] == [];
    assert Number(s[..1]) == n / 10;
  }

  // The pivot puts every birth year within the last hundred years exactly in the
  // calendar years 2000 to 2099.
  lemma PivotWithinCentury(now: nat)
    ensures (forall yy: nat :: yy < 100 ==> now - 100 < FullYear(yy, true, now) <= now) <==> 2000 <= now <= 2099
  {
    if now < 2000 {
      assert FullYear(0, true, now) == 2000;
    } else if now > 2099 {
      assert FullYear(0, true, now) == 2000;
      if now < 2101 {
        assert now - 100 >= FullYear(0, true, now);
      }
    }
  }

  // A birth date of the last hundred years, printed with two digits, is read back.
  lemma BirthDateReadBack(birthYear: nat, month: nat, day: nat, now: nat)
    requires 2000 <= now <= 2099 && now - 100 < birthYear <= now
    requires month <= 12 && day <= 31
    ensures MrzDate(TwoDigits(birthYear % 100) + TwoDigits(month) + TwoDigits(day), true, now)
            == Ok(Decimal(birthYear) + "-" + TwoDigits(month) + "-" + TwoDigits(day))
  {
    DateParts(birthYear % 100, month, day);
    assert FullYear(birthYear % 100, true, now) == birthYear;
  }

  // An expiry date of the years 2000 to 2099, printed with two digits, is read back.
  lemma ExpiryReadBack(expiryYear: nat, month: nat, day: nat, now: nat)
    requires 2000 <= expiryYear <= 2099
    requires month <= 12 && day <= 31
    ensures MrzDate(TwoDigits(expiryYear % 100) + TwoDigits(month) + TwoDigits(day), false, now)
            == Ok(Decimal(expiryYear) + "-" + TwoDigits(month) + "-" + TwoDigits(day))
  {
    DateParts(expiryYear % 100, month, day);
    assert FullYear(expiryYear % 100, false, now) == expiryYear;
  }

  lemma DateParts(yy: nat, mm: nat, dd: nat)
    requires yy < 100 && mm < 100 && dd < 100
    ensures var text := TwoDigits(yy) + TwoDigits(mm) + TwoDigits(dd);
            && |text| == 6 && AllDigits(text)
            && text[0..2] == TwoDigits(yy) && text[2..4] == TwoDigits(mm) && text[4..6] == TwoDigits(dd)
            && Number(text[0..2]) == yy && Number(text[2..4]) == mm && Number(text[4..6]) == dd
  {
    var text := TwoDigits(yy) + TwoDigits(mm) + TwoDigits(dd);
    NumberOfTwoDigits(yy);
    NumberOfTwoDigits(mm);
    NumberOfTwoDigits(dd);
    assert text[0..2] == TwoDigits(yy) && text[2..4] == TwoDigits(mm) && text[4..6] == TwoDigits(dd);
  }

  // ---- Calendar dates and ages ----

  // strptime with "%Y-%m-%d": a four-digit year, a month and a day of one or two digits.
  function ParseDate(text: string): (d: Option<Date>)
    ensures d.Some? ==> IsDate(d.value)
  {
    var parts := Split(text, '-');
    if |parts| != 3 || |parts[0]| != 4 || |parts[1]| > 2 || |parts[2]| > 2 then None
    else if !AllDigits(parts[0]) || !AllDigits(parts[1]) || !AllDigits(parts[2]) then None
    else
      var d := Date(Number(parts[0]), Number(parts[1]), Number(parts[2]));
      if IsDate(d) then Some(d) else None
  }

  lemma NumberSnoc(s: string, d: nat)
    requires (forall c :: c in s ==> IsDigit(c)) && d < 10
    ensures IsDigit(DigitChar(d)) && Number(s + [DigitChar(d)]) == 10 * Number(s) + d
  {
    assert (s + [DigitChar(d)])[..|s|] == s;
  }

  lemma FourDigitYear(y: nat)
    requires 1000 <= y <= 9999
    ensures var s := Decimal(y); |s| == 4 && AllDigits(s) && Number(s) == y && '-' !in s
  {
    var p := y / 10;
    var q := p / 10;
    NumberSnoc([], q / 10);
    NumberSnoc(Decimal(q / 10), q % 10);
    NumberSnoc(Decimal(q), p % 10);
    NumberSnoc(Decimal(p), y % 10);
    assert Decimal(q / 10) == [] + [DigitChar(q / 10)];
  }

  lemma ThreeParts(a: string, b: string, c: string)
    requires '-' !in a && '-' !in b && '-' !in c
    ensures Split(a + "-" + b + "-" + c, '-') == [a, b, c]
  {
    assert a + "-" + b + "-" + c == a + ['-'] + (b + ['-'] + c);
    SplitFirst(a, '-', b + ['-'] + c);
    SplitFirst(b, '-', c);
    SplitWhole(c, '-');
  }

  // The date an accepted MRZ date names can be read back exactly when it is a date of the
  // calendar: the parser accepts the unknown day and month 00, and the 31st of every month.
  lemma ReadDateParses(text: string, birth: bool, now: nat)
    requires MrzDate(text, birth, now).Ok?
    ensures var d := Date(FullYear(Number(text[0..2]), birth, now), Number(text[2..4]), Number(text[4..6]));
            ParseDate(MrzDate(text, birth, now).value) == if IsDate(d) then Some(d) else None
  {
    var y, mm, dd := FullYear(Number(text[0..2]), birth, now), text[2..4], text[4..6];
    TwoDigitNumber(text[0..2]);
    FourDigitYear(y);
    assert forall c :: c in mm || c in dd ==> c in text;
    ThreeParts(Decimal(y), mm, dd);
  }

  // A year, month and day as the MRZ names them, in the calendar or not.
  predicate Printable(d: Date) {
    1000 <= d.year <= 9999 && 0 <= d.month < 100 && 0 <= d.day < 100
  }

  function Printed(d: Date): string
    requires Printable(d)
  {
    Decimal(d.year) + "-" + TwoDigits(d.month) + "-" + TwoDigits(d.day)
  }

  // A date printed in the calendar form is read back when the calendar has it.
  lemma PrintedDateParses(d: Date)
    requires Printable(d)
    ensures |Printed(d)| == 10 && (forall c :: c in Printed(d) ==> IsDigit(c) || c == '-')
    ensures ParseDate(Printed(d)) == if IsDate(d) then Some(d) else None
  {
    FourDigitYear(d.year);
    NumberOfTwoDigits(d.month);
    NumberOfTwoDigits(d.day);
    assert forall c :: c in TwoDigits(d.month) || c in TwoDigits(d.day) ==> IsDigit(c);
    ThreeParts(Decimal(d.year), TwoDigits(d.month), TwoDigits(d.day));
  }

  // The same date read without the last digit of its day.
  function Shortened(d: Date): Date {
    Date(d.year, d.month, d.day / 10)
  }

  lemma OneDigit(n: nat)
    requires n < 10
    ensures AllDigits([DigitChar(n)]) && Number([DigitChar(n)]) == n
  {
    NumberSnoc([], n);
    assert [] + [DigitChar(n)] == [DigitChar(n)];
  }

  lemma ShortenedParses(d: Date)
    requires Printable(d)
    ensures |Printed(d)| == 10
    ensures ParseDate(Printed(d)[..9]) == if IsDate(Shortened(d)) then Some(Shortened(d)) else None
  {
    FourDigitYear(d.year);
    NumberOfTwoDigits(d.month);
    OneDigit(d.day / 10);
    var y, m, first := Decimal(d.year), TwoDigits(d.month), [DigitChar(d.day / 10)];
    assert forall c :: c in m || c in first ==> IsDigit(c);
    assert Printed(d)[..9] == y + "-" + m + "-" + first;
    ThreeParts(y, m, first);
  }

  // Any shorter beginning lacks the day.
  lemma BeginningHasNoDay(d: Date, k: nat)
    requires Printable(d) && k <= 8
    ensures |Printed(d)| == 10 && ParseDate(Printed(d)[..k]).None?
  {
    FourDigitYear(d.year);
    var y, m, text := Decimal(d.year), TwoDigits(d.month), Printed(d)[..k];
    assert forall c :: c in m ==> IsDigit(c);
    if k <= 4 {
      assert text == y[..k];
      SplitWhole(text, '-');
    } else if k <= 7 {
      assert text == y + ['-'] + m[..k - 5];
      SplitFirst(y, '-', m[..k - 5]);
      SplitWhole(m[..k - 5], '-');
    } else {
      assert text == y + "-" + m + "-" + "";
      ThreeParts(y, m, "");
    }
  }

  // Whatever is read as a date has at most ten characters, all of them digits and dashes.
  lemma DateTextIsShort(text: string)
    requires ParseDate(text).Some?
    ensures |text| <= 10 && forall c :: c in text ==> IsDigit(c) || c == '-'
  {
    var parts := Split(text, '-');
    JoinSplit(text, '-');
    assert parts[1..] == [parts[1], parts[2]] && parts[1..][1..] == [parts[2]];
    assert Join(['-'], parts[1..]) == parts[1] + ['-'] + parts[2];
    assert text == parts[0] + ['-'] + (parts[1] + ['-'] + parts[2]);
  }

  // A text of a year of four digits, a month and a day of one or two, with the numbers they name.
  ghost predicate Spells(text: string, y: string, m: string, n: string, d: Date) {
    && text == y + "-" + m + "-" + n
    && |y| == 4 && |m| in {1, 2} && |n| in {1, 2}
    && (forall c :: c in y || c in m || c in n ==> '0' <= c <= '9')
    && d == Date(Number(y), Number(m), Number(n))
  }

  lemma ParsesExactly(text: string, d: Date)
    ensures ParseDate(text) == Some(d) <==> IsDate(d) && exists y, m, n :: Spells(text, y, m, n, d)
  {
    if ParseDate(text) == Some(d) {
      var parts := Split(text, '-');
      JoinSplit(text, '-');
      assert parts[1..] == [parts[1], parts[2]] && parts[1..][1..] == [parts[2]];
      assert Join(['-'], parts[1..]) == parts[1] + ['-'] + parts[2];
      assert text == parts[0] + ['-'] + (parts[1] + ['-'] + parts[2]) == parts[0] + "-" + parts[1] + "-" + parts[2];
      assert Spells(text, parts[0], parts[1], parts[2], d);
    }
    if y, m, n :| Spells(text, y, m, n, d) {
      ThreeParts(y, m, n);
    }
  }

  lemma TwoDigitsOfNumber(s: string)
    requires |s| == 2 && AllDigits(s)
    ensures Number(s) < 100 && TwoDigits(Number(s)) == s
  {
    TwoDigitNumber(s);
    var a, b := DigitValue(s[0]), DigitValue(s[1]);
    assert Number(s) / 10 == a && Number(s) % 10 == b;
    assert [s[0]] + [s[1]] == s;
  }

  // What the MRZ parser accepts is printed as the date it names.
  lemma MrzDateIsPrinted(text: string, birth: bool, now: nat) returns (d: Date)
    requires MrzDate(text, birth, now).Ok?
    ensures 1900 <= d.year <= 2099 && 0 <= d.month <= 12 && 0 <= d.day <= 31
    ensures MrzDate(text, birth, now).value == Printed(d)
  {
    d := Date(FullYear(Number(text[0..2]), birth, now), Number(text[2..4]), Number(text[4..6]));
    TwoDigitNumber(text[0..2]);
    TwoDigitsOfNumber(text[2..4]);
    TwoDigitsOfNumber(text[4..6]);
  }

  // A birthday read early: the day without its last digit comes in the same month, at most 28
  // days before, and between the two the age read is one year too high.
  predicate BirthdayBetween(d: Date, today: Date) {
    today.month == d.month && d.day / 10 <= today.day < d.day
  }

  lemma ShortenedAge(d: Date, today: Date)
    requires IsDate(d) && IsDate(Shortened(d))
    ensures Age(Shortened(d), today) == Age(d, today) + if BirthdayBetween(d, today) then 1 else 0
    ensures 0 < d.day - d.day / 10 <= 28
  {}

  lemma TwoDigitNumber(s: string)
    requires |s| == 2 && AllDigits(s)
    ensures Number(s) == 10 * DigitValue(s[0]) + DigitValue(s[1]) < 100
  {
    assert s[0] in s && s[1] in s;
    NumberSnoc([], DigitValue(s[0]));
    NumberSnoc([s[0]], DigitValue(s[1]));
    assert s == [s[0]] + [s[1]] && [s[0]] == [] + [s[0]];
  }

  // A birth in an unknown month is certified, and its age can never be proved.
  lemma UnknownMonth()
    ensures MrzDate("740012", true, 2026) == Ok("1974-00-12") && ParseDate("1974-00-12").None?
  {
    var text := "740012";
    assert text[0..2] == "74" && text[2..4] == "00" && text[4..6] == "12";
    TwoDigitNumber("74");
    TwoDigitNumber("00");
    TwoDigitNumber("12");
    assert Decimal(1974) == "1974" by {
      assert Decimal(19) == "19" && Decimal(197) == "197";
    }
    assert Decimal(1974) + "-" + "00" + "-" + "12" == "1974-00-12";
    ReadDateParses(text, true, 2026);
  }

  function Age(birth: Date, today: Date): int {
    var early := if today.month != birth.month then today.month < birth.month else today.day < birth.day;
    today.year - birth.year - if early then 1 else 0
  }

  // Being at least n means the n-th anniversary is not after today.
  lemma AgeCountsAnniversaries(birth: Date, today: Date, n: int)
    ensures Age(birth, today) >= n <==> !today.Before(Date(birth.year + n, birth.month, birth.day))
  {}

  // ---- Age bands ----

  datatype Band = Between(lo: int, hi: int) | From(lo: int) {
    predicate Holds(age: int) {
      lo <= age && (Between? ==> age <= hi)
    }

    function Label(): string {
      match this
      case Between(lo, hi) => Decimal(lo) + "-" + Decimal(hi)
      case From(lo) => Decimal(lo) + "+"
    }
  }

  ghost predicate StrictlyIncreasing(s: seq<int>) {
    forall i, j :: 0 <= i < j < |s| ==> s[i] < s[j]
  }

  function InsertInto(x: int, s: seq<int>): (r: seq<int>)
    requires StrictlyIncreasing(s)
    ensures StrictlyIncreasing(r)
    ensures r != [] && (r[0] == x || (s != [] && r[0] == s[0]))
    ensures forall y :: y in r <==> y in s || y == x
  {
    if s == [] then [x]
    else if x < s[0] then [x] + s
    else if x == s[0] then s
    else
      var rest := InsertInto(x, s[1..]);
      assert s[0] < rest[0];
      assert s == [s[0]] + s[1..];
      [s[0]] + rest
  }

  // sorted(set(bounds))
  function SortedSet(bounds: seq<int>): (r: seq<int>)
    ensures StrictlyIncreasing(r)
    ensures forall y :: y in r <==> y in bounds
    ensures bounds != [] ==> r != []
  {
    if bounds == [] then []
    else
      var r := InsertInto(bounds[0], SortedSet(bounds[1..]));
      assert bounds == [bounds[0]] + bounds[1..];
      assert bounds[0] in r;
      r
  }

  // Two neighbouring bounds, or the last bound and everything above it.
  ghost predicate IsBand(band: Band, bounds: seq<int>) {
    && band.lo in bounds
    && match band
       case Between(lo, hi) => hi + 1 in bounds && lo <= hi && forall b :: b in bounds ==> b <= lo || hi < b
       case From(lo) => forall b :: b in bounds ==> b <= lo
  }

  // The band the loop ends in, from the lower end reached so far.
  function Walk(lo: int, above: seq<int>, age: int): Band
    decreases |above|
  {
    if above == [] then From(lo)
    else if age < above[0] then Between(lo, above[0] - 1)
    else Walk(above[0], above[1..], age)
  }

  function BandOf(age: int, bounds: seq<int>): Band
    requires bounds != []
  {
    var sorted := SortedSet(bounds);
    Walk(sorted[0], sorted[1..], age)
  }

  method BandLabel(age: int, bounds: seq<int>) returns (text: string)
    requires bounds != []
    ensures text == BandOf(age, bounds).Label()
  {
    var sorted := SortedSet(bounds);
    var lo := sorted[0];
    for i := 1 to |sorted|
      invariant Walk(sorted[0], sorted[1..], age) == Walk(lo, sorted[i..], age)
    {
      var b := sorted[i];
      if age < b {
        return Between(lo, b - 1).Label();
      }
      assert sorted[i..][1..] == sorted[i + 1..];
      lo := b;
    }
    return From(lo).Label();
  }

  lemma LowerBoundKeepsBand(lo: int, above: seq<int>, band: Band)
    requires IsBand(band, above) && lo <= band.lo
    ensures IsBand(band, [lo] + above)
  {
    assert forall b :: b in [lo] + above <==> b == lo || b in above;
  }

  // The bounds of the walk: lo, and the strictly increasing bounds above it.
  ghost predicate Ladder(lo: int, above: seq<int>) {
    StrictlyIncreasing(above) && forall k :: 0 <= k < |above| ==> lo < above[k]
  }

  lemma {:induction false} WalkFindsBand(lo: int, above: seq<int>, age: int)
    requires Ladder(lo, above)
    ensures IsBand(Walk(lo, above, age), [lo] + above)
    ensures lo <= age ==> Walk(lo, above, age).Holds(age)
    ensures lo <= Walk(lo, above, age).lo
    decreases |above|
  {
    if above != [] && age >= above[0] {
      assert Ladder(above[0], above[1..]);
      WalkFindsBand(above[0], above[1..], age);
      assert [above[0]] + above[1..] == above;
      LowerBoundKeepsBand(lo, above, Walk(lo, above, age));
    } else if above != [] {
      assert ([lo] + above)[1] == above[0];
      assert forall b :: b in [lo] + above ==> b <= lo || above[0] <= b;
    }
  }

  // The label names a band of the bounds, and that band holds the age exactly when some
  // bound is at most the age; below every bound the label is the lowest band, wrongly.
  lemma BandHoldsAge(age: int, bounds: seq<int>)
    requires bounds != []
    ensures IsBand(BandOf(age, bounds), bounds)
    ensures BandOf(age, bounds).Holds(age) <==> exists b :: b in bounds && b <= age
  {
    var sorted := SortedSet(bounds);
    var band := BandOf(age, bounds);
    assert [sorted[0]] + sorted[1..] == sorted;
    WalkFindsBand(sorted[0], sorted[1..], age);
    assert sorted[0] in bounds;
    assert forall b :: b in bounds <==> b in sorted;
    assert forall b :: b in sorted ==> sorted[0] <= b;
  }

  lemma SortedThree()
    ensures SortedSet([21, 18, 0]) == [0, 18, 21]
  {
    assert [21, 18, 0][1..] == [18, 0] && [18, 0][1..] == [0] && [0][1..] == [];
    assert SortedSet([0]) == [0];
    assert SortedSet([18, 0]) == [0, 18];
  }

  lemma BandsOfThree()
    ensures BandOf(20, [21, 18, 0]) == Between(18, 20) && BandOf(21, [21, 18, 0]) == From(21)
  {
    SortedThree();
    assert [0, 18, 21][1..] == [18, 21] && [18, 21][1..] == [21] && [21][1..] == [];
  }

  // The label of a band is its two ends, or its lower end and a plus.
  lemma BandLabels()
    ensures BandOf(20, [21, 18, 0]).Label() == "18-20" && BandOf(21, [21, 18, 0]).Label() == "21+"
  {
    BandsOfThree();
    TwoLabels();
  }

  lemma TwoLabels()
    ensures Between(18, 20).Label() == "18-20" && From(21).Label() == "21+"
  {
    assert Decimal(18) == "18" && Decimal(20) == "20" && Decimal(21) == "21";
  }

  // Below every bound: a child of five is labelled with the band of the adults.
  lemma BandOfTheTooYoung()
    ensures BandOf(5, [18]).Label() == "18+" && !BandOf(5, [18]).Holds(5)
  {
    BandHoldsAge(5, [18]);
    assert SortedSet([18]) == [18];
    assert Decimal(18) == "18";
  }

  lemma BandIsUnique(age: int, bounds: seq<int>, band: Band, other: Band)
    requires IsBand(band, bounds) && band.Holds(age)
    requires IsBand(other, bounds) && other.Holds(age)
    ensures band == other
  {}

  // age_over_b and the band agree for every bound b.
  lemma BandAgreesWithAgeOver(age: int, bounds: seq<int>, b: int)
    requires b in bounds && exists c :: c in bounds && c <= age
    ensures age >= b <==> b <= BandOf(age, bounds).lo
  {
    BandHoldsAge(age, bounds);
  }
}

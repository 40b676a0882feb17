// The visual MRZ against the chip: tolerant of OCR noise, flagging a genuine contradiction.
module VisualCheck {
  import opened Prelude
  import opened Text
  import opened EditDistance
  import opened Td3

  // ---- Folding look-alikes ----

  const OCR_FOLD: map<char, char> := map['O' := '0', 'I' := '1', 'S' := '5', 'B' := '8', 'Z' := '2']

  function FoldChar(c: char): char {
    var u := UpperChar(c);
    if u in OCR_FOLD then OCR_FOLD[u] else u
  }

  function Fold(s: string): string {
    Map(FoldChar, s)
  }

  // round(0.2 * n): a fifth of an integer is never halfway between two integers.
  function RoundedFifth(n: nat): (r: nat)
    ensures -2 <= 5 * r - n <= 2
  {
    (n + 2) / 5
  }

  predicate Differs(a: string, b: string) {
    Dist(Fold(a), Fold(b)) > Max(2, RoundedFifth(Max(|a|, |b|)))
  }

  // More than two edits, and more than a fifth of the longer text, rounded.
  ghost predicate FarApart(a: string, b: string) {
    exists d: nat :: IsLeastCost(d, Fold(a), Fold(b)) && d > 2 && 5 * d > (if |a| > |b| then |a| else |b|) + 2
  }

  lemma LeastCostIsDist(d: nat, a: string, b: string)
    ensures IsLeastCost(d, a, b) <==> d == Dist(a, b)
  {
    DistIsLeastCost(a, b);
  }

  lemma DiffersExactly(a: string, b: string)
    ensures Differs(a, b) <==> FarApart(a, b)
    ensures forall d: nat :: IsLeastCost(d, Fold(a), Fold(b)) ==>
              (Differs(a, b) <==> d > 2 && 5 * d > (if |a| > |b| then |a| else |b|) + 2)
  {
    var d := Dist(Fold(a), Fold(b));
    LeastCostIsDist(d, Fold(a), Fold(b));
    forall e: nat | IsLeastCost(e, Fold(a), Fold(b)) ensures e == d {
      LeastCostIsDist(e, Fold(a), Fold(b));
    }
    assert d > RoundedFifth(Max(|a|, |b|)) <==> 5 * d > Max(|a|, |b|) + 2;
  }

  method TooDifferent(a: string, b: string) returns (r: bool)
    ensures r == Differs(a, b)
    ensures forall d: nat :: IsLeastCost(d, Fold(a), Fold(b)) ==>
              (r <==> d > 2 && 5 * d > (if |a| > |b| then |a| else |b|) + 2)
  {
    DiffersExactly(a, b);
    var d := Levenshtein(Fold(a), Fold(b));
    r := d > Max(2, RoundedFifth(Max(|a|, |b|)));
  }

  // Two upper-case characters fold alike exactly when they are equal or one of the five pairs.
  lemma FoldPairs(c: char, d: char)
    requires !('a' <= c <= 'z') && !('a' <= d <= 'z')
    ensures FoldChar(c) == FoldChar(d) <==>
            c == d || (c, d) in {('O', '0'), ('0', 'O'), ('I', '1'), ('1', 'I'), ('S', '5'), ('5', 'S'),
                                 ('B', '8'), ('8', 'B'), ('Z', '2'), ('2', 'Z')}
    ensures 'A' <= c <= 'Z' ==> FoldChar((c as int + 32) as char) == FoldChar(c)
  {}

  lemma DiffersIsSymmetric(a: string, b: string)
    ensures Differs(a, b) == Differs(b, a)
  {
    Symmetric(Fold(a), Fold(b));
  }

  // Two reads that differ only in look-alikes, at any number of positions.
  ghost predicate LookAlike(a: string, b: string) {
    Fold(a) == Fold(b)
  }

  lemma SwapIsLookAlike(a: string, i: nat, c: char)
    requires i < |a| && FoldChar(c) == FoldChar(a[i])
    ensures LookAlike(a, a[i := c])
  {}

  lemma LookAlikesNeverFlagged(a: string, b: string, other: string)
    requires LookAlike(a, b)
    ensures Differs(a, other) == Differs(b, other)
    ensures !Differs(a, b)
  {
    assert |a| == |Fold(a)| == |Fold(b)| == |b|;
    ZeroOnlyOnEqual(Fold(a), Fold(b));
  }

  // One character replaced by one of its look-alikes.
  ghost predicate OneSwap(a: string, b: string) {
    exists i, c :: 0 <= i < |a| && FoldChar(c) == FoldChar(a[i]) && b == a[i := c]
  }

  // Any number of such swaps, one after the other, is never flagged against what it started
  // from, and never changes a verdict against any other field.
  lemma {:induction false} SwapsNeverFlagged(steps: seq<string>, other: string)
    requires steps != [] && forall k :: 0 <= k < |steps| - 1 ==> OneSwap(steps[k], steps[k + 1])
    ensures LookAlike(steps[0], steps[|steps| - 1]) && !Differs(steps[0], steps[|steps| - 1])
    ensures Differs(steps[0], other) == Differs(steps[|steps| - 1], other)
  {
    var n := |steps| - 1;
    if n > 0 {
      SwapsNeverFlagged(steps[..n], other);
      assert OneSwap(steps[n - 1], steps[n]);
      var i, c :| 0 <= i < |steps[n - 1]| && FoldChar(c) == FoldChar(steps[n - 1][i])
        && steps[n] == steps[n - 1][i := c];
      SwapIsLookAlike(steps[n - 1], i, c);
    }
    LookAlikesNeverFlagged(steps[0], steps[n], other);
  }

  lemma ShortNeverFlagged(a: string, b: string)
    requires |a| <= 2 && |b| <= 2
    ensures !Differs(a, b)
  {
    Bounds(Fold(a), Fold(b));
  }

  // ---- The comparison ----

  datatype RawFields = RawFields(family: string, given: string, number: string, nationality: string,
                                 birth: string, sex: string, expiry: string)
  {
    function Get(key: string): string {
      match key
      case "family_name" => family
      case "given_name" => given
      case "nationality" => nationality
      case "document_number" => number
      case "birthdate" => birth
      case "doc_expiry" => expiry
      case _ => sex
    }
  }

  const KEYS := ["family_name", "given_name", "nationality", "document_number", "birthdate", "doc_expiry", "sex"]

  function RawMrzFields(mrz: string): RawFields
    requires |mrz| == 88
  {
    var l1, l2 := mrz[0..44], mrz[44..88];
    var (surname, given) := Partition(l1[5..44]);
    RawFields(Strip(Replace(surname, '<', ' ')), Strip(Replace(given, '<', ' ')),
              Without(l2[0..9], '<'), Without(l2[10..13], '<'),
              l2[13..19], [l2[20]], l2[21..27])
  }

  datatype CrossCheck = Unreadable | Checked(consistent: bool, mismatches: seq<string>)

  predicate Contradicts(visual: RawFields, chip: RawFields, key: string) {
    visual.Get(key) != "" && chip.Get(key) != "" && Differs(visual.Get(key), chip.Get(key))
  }

  function CrossReference(ocr: string, dg1: bytes): Result<CrossCheck> {
    var visual := Upper(Compact(ocr));
    var text :- MrzString(dg1);
    var chip := Upper(Compact(text));
    if |visual| < 88 || |chip| != 88 then Ok(Unreadable)
    else
      var vf, cf := RawMrzFields(visual[..88]), RawMrzFields(chip);
      var mismatches := Filter(key => Contradicts(vf, cf, key), KEYS);
      Ok(Checked(mismatches == [], mismatches))
  }

  // The text of a field as it stands on a page.
  ghost function Shown(mrz: string, key: string): string
    requires |mrz| == 88
  {
    match key
    case "family_name" => Strip(Replace(Partition(mrz[5..44]).0, '<', ' '))
    case "given_name" => Strip(Replace(Partition(mrz[5..44]).1, '<', ' '))
    case "document_number" => Without(mrz[44..53], '<')
    case "nationality" => Without(mrz[54..57], '<')
    case "birthdate" => mrz[57..63]
    case "sex" => [mrz[64]]
    case _ => mrz[65..71]
  }

  // Both pages show the field, and what they show is far apart.
  ghost predicate Flagged(visual: string, chip: string, key: string)
    requires |visual| == 88 && |chip| == 88
  {
    Shown(visual, key) != "" && Shown(chip, key) != "" && FarApart(Shown(visual, key), Shown(chip, key))
  }

  // The seven fields that are compared.
  ghost predicate IsField(key: string) {
    key in {"family_name", "given_name", "nationality", "document_number", "birthdate", "doc_expiry", "sex"}
  }

  // No field is flagged.
  ghost predicate Agree(visual: string, chip: string)
    requires |visual| == 88 && |chip| == 88
  {
    forall key :: IsField(key) ==> !Flagged(visual, chip, key)
  }

  lemma NamesAreShown(mrz: string)
    requires |mrz| == 88
    ensures RawMrzFields(mrz).family == Shown(mrz, "family_name")
    ensures RawMrzFields(mrz).given == Shown(mrz, "given_name")
  {
    SliceOfSlice(mrz, 0, 44, 5, 44);
  }

  lemma PiecesOfLine2(mrz: string)
    requires |mrz| == 88
    ensures var f := RawMrzFields(mrz);
            && f.number == Without(mrz[44..53], '<') && f.nationality == Without(mrz[54..57], '<')
            && f.birth == mrz[57..63] && f.sex == [mrz[64]] && f.expiry == mrz[65..71]
  {
    SliceOfSlice(mrz, 44, 88, 0, 9);
    SliceOfSlice(mrz, 44, 88, 10, 13);
    SliceOfSlice(mrz, 44, 88, 13, 19);
    SliceOfSlice(mrz, 44, 88, 21, 27);
  }

  lemma NumbersAreShown(mrz: string)
    requires |mrz| == 88
    ensures var f := RawMrzFields(mrz);
            && f.number == Shown(mrz, "document_number") && f.nationality == Shown(mrz, "nationality")
            && f.birth == Shown(mrz, "birthdate") && f.sex == Shown(mrz, "sex") && f.expiry == Shown(mrz, "doc_expiry")
  {
    PiecesOfLine2(mrz);
  }

  lemma GetIsShown(mrz: string, key: string)
    requires |mrz| == 88 && key in KEYS
    ensures RawMrzFields(mrz).Get(key) == Shown(mrz, key)
  {
    NamesAreShown(mrz);
    NumbersAreShown(mrz);
    var f := RawMrzFields(mrz);
    KeysAreFields(key);
    match key
    case "family_name" => assert f.Get(key) == f.family;
    case "given_name" => assert f.Get(key) == f.given;
    case "document_number" => assert f.Get(key) == f.number;
    case "nationality" => assert f.Get(key) == f.nationality;
    case "birthdate" => assert f.Get(key) == f.birth;
    case "sex" => assert f.Get(key) == f.sex;
    case _ => assert f.Get(key) == f.expiry;
  }

  lemma ContradictsIsFlagged(visual: string, chip: string, key: string)
    requires |visual| == 88 && |chip| == 88 && key in KEYS
    ensures Contradicts(RawMrzFields(visual), RawMrzFields(chip), key) <==> Flagged(visual, chip, key)
  {
    GetIsShown(visual, key);
    GetIsShown(chip, key);
    DiffersExactly(Shown(visual, key), Shown(chip, key));
  }

  lemma KeysAreFields(key: string)
    ensures key in KEYS <==> IsField(key)
  {}

  lemma PagesCompared(visual: string, chip: string, mismatches: seq<string>)
    requires |visual| == 88 && |chip| == 88
    requires forall key :: key in mismatches <==>
               key in KEYS && Contradicts(RawMrzFields(visual), RawMrzFields(chip), key)
    ensures forall key :: key in mismatches <==> IsField(key) && Flagged(visual, chip, key)
    ensures mismatches == [] <==> Agree(visual, chip)
  {
    forall key ensures key in mismatches <==> IsField(key) && Flagged(visual, chip, key) {
      KeysAreFields(key);
      if key in KEYS {
        ContradictsIsFlagged(visual, chip, key);
      }
    }
    if mismatches != [] {
      assert mismatches[0] in mismatches;
    }
  }

  // The comparison is made when both pages are read in full; a page is consistent exactly
  // when none of the seven fields is flagged, and the mismatches are exactly the flagged ones.
  lemma ConsistentMeansNoContradiction(ocr: string, dg1: bytes)
    requires MrzString(dg1).Ok?
    ensures var visual, chip := Upper(Compact(ocr)), Upper(Compact(MrzString(dg1).value));
            && CrossReference(ocr, dg1).Ok?
            && var check := CrossReference(ocr, dg1).value;
            && (check.Checked? <==> |visual| >= 88 && |chip| == 88)
            && (check.Checked? ==>
                  && (forall key :: key in check.mismatches <==> IsField(key) && Flagged(visual[..88], chip, key))
                  && (check.consistent <==> Agree(visual[..88], chip)))
  {
    var visual, chip := Upper(Compact(ocr)), Upper(Compact(MrzString(dg1).value));
    if |visual| >= 88 && |chip| == 88 {
      PagesCompared(visual[..88], chip, CrossReference(ocr, dg1).value.mismatches);
    }
  }

  lemma SixCharactersDiffer(a: string, b: string)
    requires |a| == 6 && |b| == 6
    ensures Differs(a, b) <==> Dist(Fold(a), Fold(b)) > 2
  {}

  lemma FixedPositions(mrz: string)
    requires |mrz| == 88
    ensures var f := RawMrzFields(mrz);
            f.Get("birthdate") == mrz[57..63] && f.Get("doc_expiry") == mrz[65..71] && f.Get("sex") == [mrz[64]]
  {
    PiecesOfLine2(mrz);
  }

  // The dates stand at fixed positions, and are flagged exactly when those six characters
  // are more than two edits apart; the sex, a single character, is never flagged.
  lemma FixedFieldsFlagged(visual: string, chip: string)
    requires |visual| == 88 && |chip| == 88
    ensures var vf, cf := RawMrzFields(visual), RawMrzFields(chip);
            && (Contradicts(vf, cf, "birthdate") <==> Dist(Fold(visual[57..63]), Fold(chip[57..63])) > 2)
            && (Contradicts(vf, cf, "doc_expiry") <==> Dist(Fold(visual[65..71]), Fold(chip[65..71])) > 2)
            && !Contradicts(vf, cf, "sex")
  {
    FlaggedAt(visual, chip, "birthdate", 57, 63);
    FlaggedAt(visual, chip, "doc_expiry", 65, 71);
    FixedPositions(visual);
    FixedPositions(chip);
    ShortNeverFlagged([visual[64]], [chip[64]]);
  }

  lemma FlaggedAt(visual: string, chip: string, key: string, i: nat, j: nat)
    requires |visual| == 88 && |chip| == 88 && j == i + 6 && j <= 88
    requires (key == "birthdate" && i == 57) || (key == "doc_expiry" && i == 65)
    ensures Contradicts(RawMrzFields(visual), RawMrzFields(chip), key) <==>
            Dist(Fold(visual[i..j]), Fold(chip[i..j])) > 2
  {
    FixedPositions(visual);
    FixedPositions(chip);
    SixCharactersDiffer(visual[i..j], chip[i..j]);
  }

  // ---- Folding commutes with slicing a page into fields ----

  lemma FoldFilter(keep: char -> bool, s: string)
    requires forall c :: keep(FoldChar(c)) == keep(c)
    ensures Fold(Filter(keep, s)) == Filter(keep, Fold(s))
  {
    MapFilter(FoldChar, keep, s);
  }

  lemma {:induction false} FoldStripLeft(s: string)
    ensures Fold(StripLeft(s)) == StripLeft(Fold(s))
  {
    if s != [] && IsSpace(s[0]) {
      assert Fold(s)[1..] == Fold(s[1..]);
      FoldStripLeft(s[1..]);
    }
  }

  lemma {:induction false} FoldStripRight(s: string)
    ensures Fold(StripRight(s)) == StripRight(Fold(s))
  {
    if s != [] && IsSpace(s[|s| - 1]) {
      assert Fold(s)[..|s| - 1] == Fold(s[..|s| - 1]);
      FoldStripRight(s[..|s| - 1]);
    }
  }

  lemma FoldFirstFiller(s: string)
    ensures FirstFiller(Fold(s)) == FirstFiller(s)
  {
    assert forall k :: 0 <= k < |s| ==> (Fold(s)[k] == '<' <==> s[k] == '<');
  }

  // The name as reported: filler to spaces, spaces trimmed.
  function Name(s: string): string {
    Strip(Replace(s, '<', ' '))
  }

  lemma FoldName(s: string)
    ensures Fold(Name(s)) == Name(Fold(s))
  {
    assert Fold(Replace(s, '<', ' ')) == Replace(Fold(s), '<', ' ');
    FoldStripLeft(Replace(s, '<', ' '));
    FoldStripRight(StripLeft(Replace(s, '<', ' ')));
  }

  lemma FoldPartition(s: string)
    ensures Partition(Fold(s)) == (Fold(Partition(s).0), Fold(Partition(s).1))
  {
    FoldFirstFiller(s);
    var i := FirstFiller(s);
    if i < |s| {
      assert Fold(s)[..i] == Fold(s[..i]) && Fold(s)[i + 2..] == Fold(s[i + 2..]);
    }
  }

  function FoldFields(f: RawFields): RawFields {
    RawFields(Fold(f.family), Fold(f.given), Fold(f.number), Fold(f.nationality), Fold(f.birth), Fold(f.sex),
              Fold(f.expiry))
  }

  lemma FoldRawFields(mrz: string)
    requires |mrz| == 88
    ensures RawMrzFields(Fold(mrz)) == FoldFields(RawMrzFields(mrz))
  {
    var l1, l2, f := mrz[0..44], mrz[44..88], Fold(mrz);
    assert f[0..44] == Fold(l1) && f[44..88] == Fold(l2);
    assert Fold(l1)[5..44] == Fold(l1[5..44]);
    FoldPartition(l1[5..44]);
    var (surname, given) := Partition(l1[5..44]);
    FoldName(surname);
    FoldName(given);
    FoldLine2(l2);
  }

  lemma FoldSlice(s: string, i: nat, j: nat)
    requires i <= j <= |s|
    ensures Fold(s)[i..j] == Fold(s[i..j])
  {}

  lemma FoldWithout(s: string)
    ensures Fold(Without(s, '<')) == Without(Fold(s), '<')
  {
    FoldFilter(d => d != '<', s);
  }

  lemma FoldLine2(l2: string)
    requires |l2| == 44
    ensures Without(Fold(l2)[0..9], '<') == Fold(Without(l2[0..9], '<'))
    ensures Without(Fold(l2)[10..13], '<') == Fold(Without(l2[10..13], '<'))
    ensures Fold(l2)[13..19] == Fold(l2[13..19]) && [Fold(l2)[20]] == Fold([l2[20]])
    ensures Fold(l2)[21..27] == Fold(l2[21..27])
  {
    FoldWithout(l2[0..9]);
    FoldWithout(l2[10..13]);
    FoldSlice(l2, 0, 9);
    FoldSlice(l2, 10, 13);
    FoldSlice(l2, 13, 19);
    FoldSlice(l2, 21, 27);
  }

  lemma SameFoldNoContradiction(vf: RawFields, cf: RawFields, key: string)
    requires FoldFields(vf) == FoldFields(cf)
    ensures !Contradicts(vf, cf, key)
  {
    assert Fold(vf.Get(key)) == Fold(cf.Get(key));
    LookAlikesNeverFlagged(vf.Get(key), cf.Get(key), "");
  }

  lemma NoMismatches(vf: RawFields, cf: RawFields)
    requires FoldFields(vf) == FoldFields(cf)
    ensures Filter(key => Contradicts(vf, cf, key), KEYS) == []
  {
    forall key | key in KEYS ensures !Contradicts(vf, cf, key) {
      SameFoldNoContradiction(vf, cf, key);
    }
    FilterNone(key => Contradicts(vf, cf, key), KEYS);
  }

  // OCR that misreads any number of look-alikes, and nothing else, is consistent with the
  // chip, with no mismatches.
  lemma LookAlikeReadIsConsistent(ocr: string, dg1: bytes)
    requires MrzString(dg1).Ok?
    requires var chip := Upper(Compact(MrzString(dg1).value));
             |chip| == 88 && |Upper(Compact(ocr))| >= 88 && LookAlike(Upper(Compact(ocr))[..88], chip)
    ensures CrossReference(ocr, dg1) == Ok(Checked(true, []))
  {
    var visual, chip := Upper(Compact(ocr))[..88], Upper(Compact(MrzString(dg1).value));
    FoldRawFields(visual);
    FoldRawFields(chip);
    NoMismatches(RawMrzFields(visual), RawMrzFields(chip));
  }
}

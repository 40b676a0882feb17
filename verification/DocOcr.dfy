// Assembling the MRZ rows out of the text lines recognised on a data page.
module DocOcr {
  import opened Prelude
  import opened Text
  import Sorting
  import opened Td3
  import opened VisualCheck

  // A recognised line reduced to the MRZ alphabet.
  function Norm(s: string): (r: string)
    ensures AllMrz(r)
  {
    Filter(IsMrz, Upper(s))
  }

  // The recognised texts, normalised: the texts of one page, line by line.
  function DetectedLines(texts: seq<string>): seq<string> {
    Map(Norm, texts)
  }

  predicate IsRow(line: string) {
    |line| >= 30 && |Filter(c => c == '<', line)| >= 3
  }

  function Digits(line: string): nat {
    |Filter(IsDigit, line)|
  }

  predicate LongerFirst(x: string, y: string) {
    |x| >= |y|
  }

  predicate FewerDigitsFirst(x: string, y: string) {
    Digits(x) <= Digits(y)
  }

  function Fit(row: string, width: nat): (r: string)
    ensures |r| == width
  {
    if |row| > width then row[..width] else row + Repeat('<', width - |row|)
  }

  function AssembleMrz(lines: seq<string>): string {
    var cands := Filter(IsRow, lines);
    if |cands| < 2 then ""
    else
      var pick := Sorting.Sort(FewerDigitsFirst, Sorting.Sort(LongerFirst, cands)[..2]);
      var width := if Max(|pick[0]|, |pick[1]|) > 38 then 44 else 36;
      Fit(pick[0], width) + Fit(pick[1], width)
  }

  // What is kept of a text, character by character.
  lemma NormSnoc(s: string, c: char)
    ensures Norm(s + [c]) ==
            Norm(s) + if 'a' <= c <= 'z' then [(c as int - 'a' as int + 'A' as int) as char]
                      else if 'A' <= c <= 'Z' || '0' <= c <= '9' || c == '<' then [c] else []
  {
    assert Upper(s + [c]) == Upper(s) + [UpperChar(c)];
    FilterConcat(IsMrz, Upper(s), [UpperChar(c)]);
    assert [UpperChar(c)][1..] == [];
  }

  // At least thirty characters, three of them filler.
  ghost predicate RowLike(line: string) {
    |line| >= 30 && exists i, j, k :: 0 <= i < j < k < |line| && line[i] == '<' && line[j] == '<' && line[k] == '<'
  }

  lemma {:induction false} CountFiller(s: string)
    ensures |Filter(c => c == '<', s)| >= 1 <==> exists i :: 0 <= i < |s| && s[i] == '<'
    ensures |Filter(c => c == '<', s)| >= 2 <==> exists i, j :: 0 <= i < j < |s| && s[i] == '<' && s[j] == '<'
    ensures |Filter(c => c == '<', s)| >= 3 <==>
            exists i, j, k :: 0 <= i < j < k < |s| && s[i] == '<' && s[j] == '<' && s[k] == '<'
  {
    if s != [] {
      CountFiller(s[1..]);
    }
  }

  lemma RowIsRowLike(line: string)
    ensures IsRow(line) <==> RowLike(line)
  {
    CountFiller(line);
  }

  // Nothing, a TD2 page or a TD3 page: something exactly when two lines are row-like, and a
  // TD3 page when one of them has more than 38 characters.
  lemma AssembledLength(lines: seq<string>)
    ensures |AssembleMrz(lines)| in {0, 72, 88}
    ensures |AssembleMrz(lines)| != 0 <==>
            exists i, j :: 0 <= i < j < |lines| && RowLike(lines[i]) && RowLike(lines[j])
    ensures |AssembleMrz(lines)| == 88 <==>
            |AssembleMrz(lines)| != 0 && exists line :: line in lines && RowLike(line) && |line| > 38
  {
    TwoRows(lines);
    var cands := Filter(IsRow, lines);
    forall line ensures line in cands <==> line in lines && RowLike(line) {
      RowIsRowLike(line);
    }
    if |cands| >= 2 {
      LongestIsPicked(cands);
    }
  }

  lemma {:induction false} TwoRows(lines: seq<string>)
    ensures |Filter(IsRow, lines)| >= 1 <==> exists i :: 0 <= i < |lines| && RowLike(lines[i])
    ensures |Filter(IsRow, lines)| >= 2 <==>
            exists i, j :: 0 <= i < j < |lines| && RowLike(lines[i]) && RowLike(lines[j])
  {
    if lines != [] {
      RowIsRowLike(lines[0]);
      TwoRows(lines[1..]);
    }
  }

  // A row is cut at the width or filled up to it, character by character.
  lemma FitIs(row: string, width: nat, k: nat)
    requires k < width
    ensures |Fit(row, width)| == width && Fit(row, width)[k] == if k < |row| then row[k] else '<'
  {}

  // The longest candidate is among the two that are picked.
  lemma LongestIsPicked(cands: seq<string>)
    requires |cands| >= 2
    ensures var pick := Sorting.Sort(FewerDigitsFirst, Sorting.Sort(LongerFirst, cands)[..2]);
            Max(|pick[0]|, |pick[1]|) > 38 <==> exists line :: line in cands && |line| > 38
  {
    var longest := Sorting.Sort(LongerFirst, cands);
    var pick := Sorting.Sort(FewerDigitsFirst, longest[..2]);
    OrdersAreTotal();
    Sorting.SortSorted(LongerFirst, cands);
    Sorting.SameElements(cands, longest);
    Sorting.SameElements(longest[..2], pick);
    assert longest[0] in longest[..2];
    forall line | line in cands ensures |line| <= |longest[0]| {
      var k :| 0 <= k < |longest| && longest[k] == line;
      assert k > 0 ==> LongerFirst(longest[0], longest[k]);
    }
    LongestOfTwo(longest[..2], pick, |longest[0]|);
    assert longest[0] in cands;
  }

  lemma LongestOfTwo(two: seq<string>, pick: seq<string>, n: nat)
    requires |two| == |pick| == 2 && (forall x :: x in pick <==> x in two)
    requires |two[0]| == n && forall x :: x in two ==> |x| <= n
    ensures Max(|pick[0]|, |pick[1]|) == n
  {
    assert pick[0] in pick && pick[1] in pick && two[0] in two;
  }

  // What is assembled from recognised texts is always in the MRZ alphabet.
  lemma AssembledAlphabet(texts: seq<string>)
    ensures AllMrz(AssembleMrz(DetectedLines(texts)))
  {
    var cands := Filter(IsRow, DetectedLines(texts));
    if |cands| >= 2 {
      PickedAreCandidates(cands);
    }
  }

  lemma PickedAreCandidates(cands: seq<string>)
    requires |cands| >= 2
    ensures var pick := Sorting.Sort(FewerDigitsFirst, Sorting.Sort(LongerFirst, cands)[..2]);
            |pick| == 2 && pick[0] in cands && pick[1] in cands
  {
    var longest := Sorting.Sort(LongerFirst, cands);
    var pick := Sorting.Sort(FewerDigitsFirst, longest[..2]);
    Sorting.SameElements(cands, longest);
    Sorting.SameElements(longest[..2], pick);
    assert pick[0] in longest[..2] && pick[1] in longest[..2];
  }

  // Two rows stand out when each was recognised once and every other row-like line is
  // shorter than both.
  ghost predicate StandOut(lines: seq<string>, x: string, y: string) {
    && x != y && RowLike(x) && RowLike(y)
    && multiset(lines)[x] == 1 && multiset(lines)[y] == 1
    && forall z :: z in lines && RowLike(z) && z != x && z != y ==> |z| < |x| && |z| < |y|
  }

  lemma {:induction false} FilterKeepsCopies(lines: seq<string>, x: string)
    requires IsRow(x)
    ensures multiset(Filter(IsRow, lines))[x] == multiset(lines)[x]
  {
    if lines != [] {
      FilterKeepsCopies(lines[1..], x);
      assert lines == [lines[0]] + lines[1..];
    }
  }

  lemma StandOutAmongRows(lines: seq<string>, x: string, y: string)
    requires StandOut(lines, x, y)
    ensures var cands := Filter(IsRow, lines);
            && multiset(cands)[x] == 1 && multiset(cands)[y] == 1
            && forall z :: z in cands && z != x && z != y ==> |z| < |x| && |z| < |y|
  {
    RowIsRowLike(x);
    RowIsRowLike(y);
    FilterKeepsCopies(lines, x);
    FilterKeepsCopies(lines, y);
    forall z | z in Filter(IsRow, lines) ensures RowLike(z) {
      RowIsRowLike(z);
    }
  }

  // How many characters of a line are digits.
  ghost function DigitCount(line: string): nat {
    if line == [] then 0
    else DigitCount(line[1..]) + if '0' <= line[0] <= '9' then 1 else 0
  }

  lemma {:induction false} DigitsIsCount(line: string)
    ensures Digits(line) == DigitCount(line)
  {
    if line != [] {
      DigitsIsCount(line[1..]);
    }
  }

  lemma OrdersAreTotal()
    ensures Sorting.TotalPreorder(LongerFirst) && Sorting.TotalPreorder(FewerDigitsFirst)
  {}

  // Of a list sorted longest first, in which x and y occur once and are longer than
  // everything else, x and y are the first two.
  lemma TopTwoOfSorted(s: seq<string>, x: string, y: string, i: nat, j: nat)
    requires Sorting.Sorted(LongerFirst, s)
    requires i < |s| && j < |s| && i != j && s[i] == x && s[j] == y
    requires forall k :: 0 <= k < |s| && k != i && k != j ==> |s[k]| < |x| && |s[k]| < |y|
    ensures s[..2] in {[x, y], [y, x]}
  {
    var last := Max(i, j);
    var other := if Min(i, j) == 0 then 1 else 0;
    assert other < last ==> LongerFirst(s[other], s[last]);
    assert last == 1;
    assert s[..2] == [s[0], s[1]];
  }

  lemma TopTwoOfCopies(sorted: seq<string>, x: string, y: string, i: nat, j: nat)
    requires x != y && multiset(sorted)[x] == 1 && multiset(sorted)[y] == 1
    requires Sorting.Sorted(LongerFirst, sorted)
    requires i < |sorted| && j < |sorted| && sorted[i] == x && sorted[j] == y
    requires forall z :: z in sorted && z != x && z != y ==> |z| < |x| && |z| < |y|
    ensures sorted[..2] in {[x, y], [y, x]}
  {
    forall k | 0 <= k < |sorted| && k != i && k != j ensures |sorted[k]| < |x| && |sorted[k]| < |y| {
      OnlyCopy(sorted, x, i, k);
      OnlyCopy(sorted, y, j, k);
    }
    TopTwoOfSorted(sorted, x, y, i, j);
  }

  lemma TopTwo(cands: seq<string>, x: string, y: string)
    requires x != y && multiset(cands)[x] == 1 && multiset(cands)[y] == 1
    requires forall z :: z in cands && z != x && z != y ==> |z| < |x| && |z| < |y|
    ensures |cands| >= 2
    ensures Sorting.Sort(LongerFirst, cands)[..2] in {[x, y], [y, x]}
  {
    var sorted := Sorting.Sort(LongerFirst, cands);
    OrdersAreTotal();
    Sorting.SortSorted(LongerFirst, cands);
    Sorting.SameElements(cands, sorted);
    assert x in multiset(cands) && y in multiset(cands);
    var i :| 0 <= i < |sorted| && sorted[i] == x;
    var j :| 0 <= j < |sorted| && sorted[j] == y;
    assert forall z :: z in sorted && z != x && z != y ==> |z| < |x| && |z| < |y|;
    TopTwoOfCopies(sorted, x, y, i, j);
  }

  lemma OnlyCopy(s: seq<string>, x: string, i: nat, k: nat)
    requires i < |s| && s[i] == x && multiset(s)[x] == 1
    requires k < |s| && k != i
    ensures s[k] != x
  {
    var lo, hi := Min(i, k), Max(i, k);
    assert s == s[..lo] + [s[lo]] + s[lo + 1..hi] + [s[hi]] + s[hi + 1..];
  }

  lemma TwoByDigits(x: string, y: string)
    requires Digits(x) < Digits(y)
    ensures Sorting.Sort(FewerDigitsFirst, [x, y]) == [x, y]
    ensures Sorting.Sort(FewerDigitsFirst, [y, x]) == [x, y]
  {
    assert [x, y][1..] == [y] && [y, x][1..] == [x];
    assert Sorting.Sort(FewerDigitsFirst, [x]) == [x] && Sorting.Sort(FewerDigitsFirst, [y]) == [y];
  }

  lemma AssembledFrom(lines: seq<string>, x: string, y: string)
    requires |Filter(IsRow, lines)| >= 2
    requires Sorting.Sort(LongerFirst, Filter(IsRow, lines))[..2] in {[x, y], [y, x]}
    requires Digits(x) < Digits(y)
    ensures var width := if Max(|x|, |y|) > 38 then 44 else 36;
            AssembleMrz(lines) == Fit(x, width) + Fit(y, width)
  {
    TwoByDigits(x, y);
  }

  // When the two rows of a TD3 page stand out, in whatever order they were recognised, the
  // first without its trailing filler and the second with more digits, the page is rebuilt
  // exactly.
  lemma RebuildsPage(lines: seq<string>, cut: string, l1: string, l2: string)
    requires |l1| == 44 && |l2| == 44 && |cut| <= 44 && cut + Repeat('<', 44 - |cut|) == l1
    requires StandOut(lines, cut, l2) && DigitCount(cut) < DigitCount(l2)
    ensures AssembleMrz(lines) == l1 + l2
  {
    StandOutAmongRows(lines, cut, l2);
    DigitsIsCount(cut);
    DigitsIsCount(l2);
    TopTwo(Filter(IsRow, lines), cut, l2);
    AssembledFrom(lines, cut, l2);
    assert Fit(cut, 44) == l1;
    assert Fit(l2, 44) == l2;
  }

  lemma SelfConsistent(page: string)
    requires AllMrz(page) && |page| == 88
    ensures CrossReference(page, BuildDg1(page)) == Ok(Checked(true, []))
  {
    ReadingThePage(page);
    assert page[..88] == page;
    LookAlikeReadIsConsistent(page, BuildDg1(page));
  }

  // Hence a page so recognised cross-references with its own chip without a mismatch,
  lemma RecognisedPageIsConsistent(lines: seq<string>, cut: string, l1: string, l2: string)
    requires |l1| == 44 && |l2| == 44 && AllMrz(l1 + l2)
    requires |cut| <= 44 && cut + Repeat('<', 44 - |cut|) == l1
    requires StandOut(lines, cut, l2) && DigitCount(cut) < DigitCount(l2)
    ensures CrossReference(AssembleMrz(lines), BuildDg1(l1 + l2)) == Ok(Checked(true, []))
  {
    RebuildsPage(lines, cut, l1, l2);
    SelfConsistent(l1 + l2);
  }

  // and a printed page so recognised yields the printed access key.
  lemma RecognisedPageGivesKey(lines: seq<string>, cut: string, l1: string, p: Passport, now: nat,
                               key: Result<AccessKey>)
    requires |l1| == 44 && AllMrz(l1) && p.Valid(now)
    requires |cut| <= 44 && cut + Repeat('<', 44 - |cut|) == l1
    requires StandOut(lines, cut, p.Line2(now)) && DigitCount(cut) < DigitCount(p.Line2(now))
    requires IsAccessKey(AssembleMrz(lines), key)
    ensures key == Ok(AccessKey(p.number, p.Birth(), p.Expiry()))
  {
    RebuildsPage(lines, cut, l1, p.Line2(now));
    PrintedPageGivesKey(l1, p, now, key);
  }
}

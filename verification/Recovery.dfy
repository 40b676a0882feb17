// What the ranked search recovers: a clean read, a date, a misread document number.
module Recovery {
  import opened Text
  import opened CheckDigits
  import opened LookAlikes

  // A read is reachable exactly when every character is the field's own or its look-alike
  // and at most two characters differ.
  ghost predicate LooksLike(field: string, read: string, confuse: Table) {
    && |read| == |field|
    && (forall i :: 0 <= i < |field| ==> read[i] == field[i] || (field[i] in confuse && read[i] == confuse[field[i]]))
    && Swaps(field, read) <= 2
  }

  // A pick on a prefix reads the longer field alike, and its last character unchanged.
  lemma PickOnPrefix(field: string, confuse: Table, p: Pick)
    requires field != [] && p.Valid(field[..|field| - 1], confuse)
    ensures p.Valid(field, confuse)
    ensures p.Apply(field, confuse) == p.Apply(field[..|field| - 1], confuse) + [field[|field| - 1]]
  {}

  // One more swap, at the end.
  function SwapLast(p: Pick, n: nat): Pick
    requires !p.Two?
  {
    match p case Zero => One(n) case One(i) => Two(i, n)
  }

  lemma SwapLastApplies(field: string, confuse: Table, p: Pick)
    requires field != [] && p.Valid(field[..|field| - 1], confuse) && !p.Two? && field[|field| - 1] in confuse
    ensures var n := |field| - 1;
            && SwapLast(p, n).Valid(field, confuse)
            && SwapLast(p, n).Apply(field, confuse) == p.Apply(field[..n], confuse) + [confuse[field[n]]]
  {}

  lemma {:induction false} PickFor(field: string, read: string, confuse: Table) returns (p: Pick)
    requires LooksLike(field, read, confuse)
    ensures p.Valid(field, confuse) && p.Apply(field, confuse) == read
  {
    if field == [] {
      return Zero;
    }
    var n := |field| - 1;
    p := PickFor(field[..n], read[..n], confuse);
    assert read == read[..n] + [read[n]];
    if field[n] == read[n] {
      PickOnPrefix(field, confuse, p);
    } else {
      RankOfPick(field[..n], confuse, p);
      SwapLastApplies(field, confuse, p);
      p := SwapLast(p, n);
    }
  }

  lemma CandidateMeansLooksLike(field: string, check: char, confuse: Table, read: string)
    ensures IsCandidate(field, check, confuse, read) <==> LooksLike(field, read, confuse) && CheckDigit(read) == check
  {
    if IsCandidate(field, check, confuse, read) {
      var p: Pick :| p.Valid(field, confuse) && p.Apply(field, confuse) == read;
      RankOfPick(field, confuse, p);
    }
    if LooksLike(field, read, confuse) {
      var p := PickFor(field, read, confuse);
    }
  }

  // A field that already matches its check digit is returned as read.
  lemma CleanReadFirst(out: seq<string>, field: string, check: char, confuse: Table)
    requires IsRanking(out, field, check, confuse)
    ensures CheckDigit(field) == check <==> out != [] && out[0] == field
  {
    if CheckDigit(field) == check {
      assert Zero.Valid(field, confuse) && Zero.Apply(field, confuse) == field;
      assert IsCandidate(field, check, confuse, field);
      RankOfSelf(field);
      NoSwapsMeansSame(field, out[0]);
    } else if out != [] {
      assert out[0] in out;
    }
  }

  lemma {:induction false} NoSwapsMeansSame(field: string, read: string)
    requires |field| == |read|
    ensures Swaps(field, read) == 0 <==> field == read
  {
    if field == read {
      RankOfSelf(field);
    } else {
      var n := |field| - 1;
      NoSwapsMeansSame(field[..n], read[..n]);
      assert field == field[..n] + [field[n]] && read == read[..n] + [read[n]];
    }
  }

  // ---- Dates ----

  // Every letter of the date table folded to its digit.
  function DigitFold(field: string): string {
    Map(FoldDigit, field)
  }

  function FoldDigit(c: char): char {
    if c in CONFUSE_NUM then CONFUSE_NUM[c] else c
  }

  lemma OneDigitRead(c: char, read: char)
    requires read == c || (c in CONFUSE_NUM && read == CONFUSE_NUM[c])
    ensures IsDigit(read) ==> read == FoldDigit(c)
  {}

  lemma DigitsReadFolded(field: string, read: string)
    requires LooksLike(field, read, CONFUSE_NUM) && AllDigits(read)
    ensures read == DigitFold(field)
  {
    forall i | 0 <= i < |field| ensures read[i] == DigitFold(field)[i] {
      assert read[i] in read;
      OneDigitRead(field[i], read[i]);
    }
  }

  lemma FoldLooksLike(field: string)
    ensures LooksLike(field, DigitFold(field), CONFUSE_NUM) <==> Swaps(field, DigitFold(field)) <= 2
  {}

  predicate Recoverable(field: string, check: char) {
    && AllDigits(DigitFold(field))
    && Swaps(field, DigitFold(field)) <= 2
    && CheckDigit(DigitFold(field)) == check
  }

  // The only all-digit candidate a date can have is its full digit fold.
  lemma DigitCandidate(field: string, check: char, read: string)
    ensures IsCandidate(field, check, CONFUSE_NUM, read) && AllDigits(read) <==>
            Recoverable(field, check) && read == DigitFold(field)
  {
    CandidateMeansLooksLike(field, check, CONFUSE_NUM, read);
    if IsCandidate(field, check, CONFUSE_NUM, read) && AllDigits(read) {
      DigitsReadFolded(field, read);
    }
    FoldLooksLike(field);
  }

  lemma {:induction false} FilterSingle(keep: string -> bool, s: seq<string>, only: string)
    requires forall i, j :: 0 <= i < j < |s| ==> s[i] != s[j]
    requires forall x :: x in s && keep(x) <==> x == only && only in s && keep(only)
    ensures Filter(keep, s) == if only in s && keep(only) then [only] else []
  {
    if s != [] {
      if keep(s[0]) {
        assert forall x :: x in s[1..] ==> x != only;
        forall x ensures !(x in s[1..] && keep(x)) {
          if x in s[1..] { assert x in s; }
        }
        FilterNone(keep, s[1..]);
      } else {
        assert forall x :: x in s <==> x == s[0] || x in s[1..];
        FilterSingle(keep, s[1..], only);
      }
    }
  }

  method DateReads(field: string, check: char) returns (found: seq<string>)
    ensures found == if Recoverable(field, check) then [DigitFold(field)] else []
  {
    var out := Candidates(field, check, CONFUSE_NUM);
    found := Filter(AllDigits, out);
    var only := DigitFold(field);
    forall x ensures x in out && AllDigits(x) <==> Recoverable(field, check) && x == only {
      DigitCandidate(field, check, x);
    }
    FilterSingle(AllDigits, out, only);
  }

  // ---- One misread character of a document number ----

  // A single look-alike misread shows in the check digit unless it is the 6/G pair, whose
  // values 6 and 16 agree mod 10.
  lemma MisreadShows(number: string, i: nat)
    requires i < |number| && number[i] in CONFUSE_ALNUM
    ensures CheckDigit(number[i := CONFUSE_ALNUM[number[i]]]) == CheckDigit(number) <==> number[i] in {'6', 'G'}
  {
    SubstitutionShows(number, i, CONFUSE_ALNUM[number[i]]);
    LookAlikeValues(number[i]);
  }

  lemma LookAlikeValues(c: char)
    requires c in CONFUSE_ALNUM
    ensures CharValue(CONFUSE_ALNUM[c]) % 10 == CharValue(c) % 10 <==> c in {'6', 'G'}
  {}

  predicate Confusing(c: char) {
    c in {'1', 'I', '0', 'O'}
  }

  function Misread(number: string, i: nat): string
    requires i < |number| && Confusing(number[i])
  {
    number[i := CONFUSE_ALNUM[number[i]]]
  }

  // The first of a ranking ranks no later than any candidate.
  lemma FirstRanksBest(out: seq<string>, field: string, check: char, confuse: Table, read: string)
    requires IsRanking(out, field, check, confuse) && IsCandidate(field, check, confuse, read)
    ensures out != [] && |out[0]| == |field| == |read| && IsCandidate(field, check, confuse, out[0])
    ensures out[0] == read || Le(Rank(field, out[0]), Rank(field, read))
  {
    var m :| 0 <= m < |out| && out[m] == read;
    assert out[0] in out;
  }

  lemma LikelyIsCheapest(c: char)
    requires c in CONFUSE_ALNUM
    ensures SwapCost(c, CONFUSE_ALNUM[c]) == 1 <==> Confusing(c)
  {}

  // When the read fails its check digit but one 1/I or 0/O swap repairs it, the first
  // candidate is some such swap.
  lemma LikelySwapFirst(read: string, check: char, i: nat, out: seq<string>) returns (k: nat)
    requires IsRanking(out, read, check, CONFUSE_ALNUM)
    requires CheckDigit(read) != check
    requires i < |read| && Confusing(read[i]) && CheckDigit(Misread(read, i)) == check
    ensures out != [] && k < |read| && Confusing(read[k]) && out[0] == Misread(read, k) && CheckDigit(out[0]) == check
  {
    var fix := One(i);
    assert fix.Valid(read, CONFUSE_ALNUM);
    RankOfPick(read, CONFUSE_ALNUM, fix);
    LikelyIsCheapest(read[i]);
    FirstRanksBest(out, read, check, CONFUSE_ALNUM, fix.Apply(read, CONFUSE_ALNUM));
    var p: Pick :| p.Valid(read, CONFUSE_ALNUM) && p.Apply(read, CONFUSE_ALNUM) == out[0];
    RankOfPick(read, CONFUSE_ALNUM, p);
    assert p.One?;
    LikelyIsCheapest(read[p.i]);
    k := p.i;
  }

  lemma MisreadTwice(number: string, i: nat)
    requires i < |number| && Confusing(number[i])
    ensures Confusing(Misread(number, i)[i]) && Misread(Misread(number, i), i) == number
  {}

  // The rest of the order, between reads that took one likely swap each.
  predicate NoLater(x: string, y: string) {
    Transitions(x) < Transitions(y) || (Transitions(x) == Transitions(y) && Lex(x, y))
  }

  lemma RankOfMisread(read: string, k: nat)
    requires k < |read| && Confusing(read[k])
    ensures Rank(read, Misread(read, k)) == Scored(1, 1, Transitions(Misread(read, k)), Misread(read, k))
  {
    assert One(k).Valid(read, CONFUSE_ALNUM) && One(k).Apply(read, CONFUSE_ALNUM) == Misread(read, k);
    RankOfPick(read, CONFUSE_ALNUM, One(k));
    LikelyIsCheapest(read[k]);
  }

  lemma MisreadIsCandidate(read: string, k: nat, check: char)
    requires k < |read| && Confusing(read[k]) && CheckDigit(Misread(read, k)) == check
    ensures IsCandidate(read, check, CONFUSE_ALNUM, Misread(read, k))
  {
    assert One(k).Valid(read, CONFUSE_ALNUM) && One(k).Apply(read, CONFUSE_ALNUM) == Misread(read, k);
  }

  // Of two likely repairs the one returned is no later than the other.
  lemma FirstIsNoLater(read: string, check: char, out: seq<string>, j: nat, k: nat)
    requires IsRanking(out, read, check, CONFUSE_ALNUM)
    requires j < |read| && Confusing(read[j]) && out != [] && out[0] == Misread(read, j)
    requires k < |read| && Confusing(read[k]) && CheckDigit(Misread(read, k)) == check
    ensures NoLater(Misread(read, j), Misread(read, k))
  {
    MisreadIsCandidate(read, k, check);
    FirstRanksBest(out, read, check, CONFUSE_ALNUM, Misread(read, k));
    RankOfMisread(read, j);
    RankOfMisread(read, k);
    LexTotal(Misread(read, j), Misread(read, k));
  }

  // The true number ranks no later than any likely repair that matches its check digit.
  ghost predicate RanksLeast(number: string, read: string) {
    forall k :: 0 <= k < |read| && Confusing(read[k]) && CheckDigit(Misread(read, k)) == CheckDigit(number)
                ==> NoLater(number, Misread(read, k))
  }

  // A document number with one 1/I or 0/O misread is never returned as read: the first
  // candidate undoes one such swap, and it is the true number exactly when that one ranks
  // least among the swaps that match the check digit, as it does when it is the only one.
  lemma OneMisreadRecovered(number: string, i: nat, out: seq<string>)
    requires i < |number| && Confusing(number[i])
    requires IsRanking(out, Misread(number, i), CheckDigit(number), CONFUSE_ALNUM)
    ensures var read := Misread(number, i);
            && out != [] && out[0] != read
            && (exists k :: 0 <= k < |read| && Confusing(read[k]) && out[0] == Misread(read, k))
            && (out[0] == number <==> RanksLeast(number, read))
            && ((forall k :: 0 <= k < |read| && k != i && Confusing(read[k]) ==>
                CheckDigit(Misread(read, k)) != CheckDigit(number))
                  ==> out[0] == number)
  {
    var read, check := Misread(number, i), CheckDigit(number);
    MisreadShows(number, i);
    MisreadTwice(number, i);
    var j := LikelySwapFirst(read, check, i, out);
    if out[0] == number {
      forall k | 0 <= k < |read| && Confusing(read[k]) && CheckDigit(Misread(read, k)) == check
        ensures NoLater(number, Misread(read, k))
      {
        FirstIsNoLater(read, check, out, j, k);
      }
    }
    if RanksLeast(number, read) {
      FirstIsNoLater(read, check, out, j, i);
      LexTotal(number, out[0]);
    }
  }
}

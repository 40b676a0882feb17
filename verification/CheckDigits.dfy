// The 7-3-1 check digit of section 4.9 of ICAO Doc 9303 Part 3, and what it detects.
module CheckDigits {
  import opened Text

  function CharValue(c: char): (v: nat)
    ensures v < 36
  {
    if IsDigit(c) then DigitValue(c)
    else if 'A' <= c <= 'Z' then c as int - 55
    else 0
  }

  function Weight(i: nat): nat {
    [7, 3, 1][i % 3]
  }

  function WeightedSum(field: string): nat {
    if field == [] then 0
    else
      var n := |field| - 1;
      WeightedSum(field[..n]) + Weighted(field[n], n)
  }

  function Weighted(c: char, i: nat): nat {
    CharValue(c) * Weight(i)
  }

  function CheckDigit(field: string): (c: char)
    ensures IsDigit(c)
  {
    DigitChar(WeightedSum(field) % 10)
  }

  lemma {:induction false} SumAfterUpdate(field: string, i: nat, c: char)
    requires i < |field|
    ensures WeightedSum(field[i := c]) == WeightedSum(field) + Weighted(c, i) - Weighted(field[i], i)
  {
    var n := |field| - 1;
    if i == n {
      assert field[i := c][..n] == field[..n];
    } else {
      assert field[i := c][..n] == field[..n][i := c];
      SumAfterUpdate(field[..n], i, c);
    }
  }

  lemma DigitIsSumMod10(field: string, other: string)
    ensures CheckDigit(field) == CheckDigit(other) <==> WeightedSum(field) % 10 == WeightedSum(other) % 10
  {
    var a, b := WeightedSum(field) % 10, WeightedSum(other) % 10;
    assert DigitValue(DigitChar(a)) == a && DigitValue(DigitChar(b)) == b;
  }

  // k is a unit mod 10: a multiple k * d vanishes mod 10 only when d does.
  lemma UnitMod10(k: nat, d: int)
    requires k in {1, 3, 7}
    ensures (k * d) % 10 == 0 <==> d % 10 == 0
  {
    var m := k * d / 10;
    if (k * d) % 10 == 0 {
      assert k == 3 ==> d == 10 * (7 * m - 2 * d);
      assert k == 7 ==> d == 10 * (3 * m - 2 * d);
    }
    if d % 10 == 0 {
      TimesTen(k, d / 10);
    }
  }

  lemma TimesTen(k: nat, m: int)
    requires k in {1, 3, 7}
    ensures (k * (10 * m)) % 10 == 0
  {
    assert k * (10 * m) == 10 * (k * m);
  }

  lemma Twice(d: int)
    ensures (2 * d) % 10 == 0 <==> d % 5 == 0
  {}

  lemma FourTimes(d: int)
    ensures (4 * d) % 10 == 0 <==> d % 5 == 0
  {
    if (4 * d) % 10 == 0 {
      assert d == 5 * (d - 2 * (4 * d / 10));
    }
    if d % 5 == 0 {
      assert 4 * d == 10 * (2 * (d / 5));
    }
  }

  // k is even and coprime to 5: a multiple k * d vanishes mod 10 only when d vanishes mod 5.
  lemma EvenMod10(k: int, d: int)
    requires k in {2, 4, -6}
    ensures (k * d) % 10 == 0 <==> d % 5 == 0
  {
    if k == 2 {
      Twice(d);
    } else if k == 4 {
      FourTimes(d);
    } else {
      FourTimes(d);
      assert k * d == 4 * d - 10 * d;
    }
  }

  lemma SameModulo(a: int, b: int, n: nat)
    requires n == 5 || n == 10
    ensures a % n == b % n <==> (a - b) % n == 0
  {}

  // The three weights are units mod 10, so a substitution shows in the check digit
  // exactly when the two values differ mod 10.
  lemma SubstitutionShows(field: string, i: nat, c: char)
    requires i < |field|
    ensures CheckDigit(field[i := c]) != CheckDigit(field) <==> CharValue(c) % 10 != CharValue(field[i]) % 10
  {
    var v: int, w: int := CharValue(c), CharValue(field[i]);
    var a: int, b: int := WeightedSum(field[i := c]), WeightedSum(field);
    assert a - b == Weight(i) * (v - w) by {
      SumAfterUpdate(field, i, c);
    }
    UnitMod10(Weight(i), v - w);
    SameModulo(a, b, 10);
    SameModulo(v, w, 10);
    DigitIsSumMod10(field[i := c], field);
  }

  function SwapNeighbours(field: string, i: nat): string
    requires i + 1 < |field|
  {
    field[i := field[i + 1]][i + 1 := field[i]]
  }

  lemma TwoStepSum(field: string, i: nat)
    requires i + 1 < |field|
    ensures WeightedSum(SwapNeighbours(field, i)) ==
            WeightedSum(field) + Weighted(field[i + 1], i) - Weighted(field[i], i)
            + Weighted(field[i], i + 1) - Weighted(field[i + 1], i + 1)
  {
    var first := field[i := field[i + 1]];
    SumAfterUpdate(field, i, field[i + 1]);
    SumAfterUpdate(first, i + 1, field[i]);
    assert first[i + 1] == field[i + 1];
  }

  // Neighbouring weights differ by an even number coprime to 5.
  lemma WeightedDifference(c: char, d: char, i: nat) returns (k: int)
    ensures k in {2, 4, -6}
    ensures Weighted(d, i) - Weighted(c, i) + Weighted(c, i + 1) - Weighted(d, i + 1) ==
            k * (CharValue(d) as int - CharValue(c))
  {
    var v: int, w: int := CharValue(c), CharValue(d);
    if i % 3 == 0 {
      assert (i + 1) % 3 == 1;
      return 4;
    } else if i % 3 == 1 {
      assert (i + 1) % 3 == 2;
      return 2;
    } else {
      assert (i + 1) % 3 == 0;
      return -6;
    }
  }

  // Hence transposing two neighbours shows exactly when their values differ mod 5.
  lemma TranspositionShows(field: string, i: nat)
    requires i + 1 < |field|
    ensures CheckDigit(SwapNeighbours(field, i)) != CheckDigit(field) <==>
            CharValue(field[i]) % 5 != CharValue(field[i + 1]) % 5
  {
    var a: int, b: int := WeightedSum(field), WeightedSum(SwapNeighbours(field, i));
    var v: int, w: int := CharValue(field[i]), CharValue(field[i + 1]);
    var k := WeightedDifference(field[i], field[i + 1], i);
    assert b - a == k * (w - v) by {
      TwoStepSum(field, i);
    }
    EvenMod10(k, w - v);
    SameModulo(b, a, 10);
    SameModulo(w, v, 5);
    DigitIsSumMod10(SwapNeighbours(field, i), field);
  }

  // ---- What determines every check digit ----

  // The value a character stands for: digits as themselves, letters from ten on, filler zero.
  lemma ValueOf(c: char)
    ensures '0' <= c <= '9' ==> CharValue(c) == c as int - '0' as int
    ensures 'A' <= c <= 'Z' ==> CharValue(c) == 10 + (c as int - 'A' as int)
    ensures c == '<' ==> CharValue(c) == 0
  {}

  // Replacing the character at i moves the digit, mod 10, by seven, three or one times the
  // difference of the two values.
  lemma ReplacingMoves(field: string, i: nat, c: char)
    requires i < |field|
    ensures var w := if i % 3 == 0 then 7 else if i % 3 == 1 then 3 else 1;
            (CheckDigit(field[i := c]) as int - CheckDigit(field) as int
              - w * (CharValue(c) as int - CharValue(field[i]))) % 10 == 0
  {
    SumAfterUpdate(field, i, c);
    var a, b := WeightedSum(field[i := c]), WeightedSum(field);
    var w: int := if i % 3 == 0 then 7 else if i % 3 == 1 then 3 else 1;
    assert a as int - b == w * (CharValue(c) as int - CharValue(field[i]));
    SameResidue(a, b);
  }

  lemma SameResidue(a: nat, b: nat)
    ensures (DigitChar(a % 10) as int - DigitChar(b % 10) as int - (a as int - b)) % 10 == 0
  {
    var q := b / 10 - a / 10;
    assert (a % 10) as int - b % 10 - (a as int - b) == 10 * q;
  }

  // A field of filler has the digit zero.
  lemma {:induction false} FillerDigit(n: nat)
    ensures WeightedSum(Repeat('<', n)) == 0 && CheckDigit(Repeat('<', n)) == '0'
  {
    if n > 0 {
      FillerDigit(n - 1);
      assert Repeat('<', n)[..n - 1] == Repeat('<', n - 1);
    }
  }

  lemma Snoc(field: string, c: char)
    ensures WeightedSum(field + [c]) == WeightedSum(field) + Weighted(c, |field|)
  {
    assert (field + [c])[..|field|] == field;
  }

  // Three more characters add seven, three and one times their values.
  lemma ThreeMore(field: string, k: nat)
    requires k % 3 == 0 && k + 3 <= |field|
    ensures WeightedSum(field[..k + 3]) ==
            WeightedSum(field[..k]) + 7 * CharValue(field[k]) + 3 * CharValue(field[k + 1]) + CharValue(field[k + 2])
  {
    OneMore(field, k);
    OneMore(field, k + 1);
    OneMore(field, k + 2);
    assert Weight(k) == 7 && Weight(k + 1) == 3 && Weight(k + 2) == 1;
  }

  lemma OneMore(field: string, k: nat)
    requires k < |field|
    ensures WeightedSum(field[..k + 1]) == WeightedSum(field[..k]) + Weighted(field[k], k)
  {
    Snoc(field[..k], field[k]);
    assert field[..k + 1] == field[..k] + [field[k]];
  }

  // The specimen of ICAO Doc 9303 Part 4: number, date of birth, date of expiry.
  lemma SpecimenNumber()
    ensures CheckDigit("L898902C3") == '6'
  {
    var s := "L898902C3";
    ThreeMore(s, 0);
    ThreeMore(s, 3);
    ThreeMore(s, 6);
    assert s[..9] == s && s[..0] == [];
  }

  lemma SpecimenBirth()
    ensures CheckDigit("740812") == '2'
  {
    var s := "740812";
    ThreeMore(s, 0);
    ThreeMore(s, 3);
    assert s[..6] == s && s[..0] == [];
  }

  lemma SpecimenExpiry()
    ensures CheckDigit("120415") == '9'
  {
    var s := "120415";
    ThreeMore(s, 0);
    ThreeMore(s, 3);
    assert s[..6] == s && s[..0] == [];
  }
}

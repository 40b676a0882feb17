// The Levenshtein distance that cross-references the visual MRZ with the chip.
// An edit script is an alignment of two strings; the distance is the least cost of
// any alignment, and the two-row dynamic programme is proved to compute it.
module EditDistance {
  import opened Prelude

  datatype Edit = Keep(c: char) | Delete(c: char) | Insert(c: char) | Substitute(c: char, d: char)

  // The string a script reads.
  function Source(script: seq<Edit>): string {
    if script == [] then []
    else
      var last := script[|script| - 1];
      Source(script[..|script| - 1]) + if last.Insert? then [] else [last.c]
  }

  // The string a script writes.
  function Target(script: seq<Edit>): string {
    if script == [] then []
    else
      Target(script[..|script| - 1]) +
      match script[|script| - 1]
      case Keep(c) => [c]
      case Delete(_) => []
      case Insert(c) => [c]
      case Substitute(_, d) => [d]
  }

  function Cost(script: seq<Edit>): nat {
    if script == [] then 0
    else Cost(script[..|script| - 1]) + if script[|script| - 1].Keep? then 0 else 1
  }

  ghost predicate Turns(script: seq<Edit>, a: string, b: string) {
    Source(script) == a && Target(script) == b
  }

  ghost predicate IsLeastCost(d: nat, a: string, b: string) {
    && (exists script :: Turns(script, a, b) && Cost(script) == d)
    && (forall script :: Turns(script, a, b) ==> d <= Cost(script))
  }

  function Init<T>(s: seq<T>): seq<T>
    requires s != []
  {
    s[..|s| - 1]
  }

  function Last<T>(s: seq<T>): T
    requires s != []
  {
    s[|s| - 1]
  }

  // The recurrence behind the table: the distance of two prefixes.
  function Dist(a: string, b: string): nat
    decreases |a| + |b|
  {
    if a == [] || b == [] then |a| + |b|
    else
      Min(Min(Dist(Init(a), b) + 1, Dist(a, Init(b)) + 1),
          Dist(Init(a), Init(b)) + if Last(a) != Last(b) then 1 else 0)
  }

  lemma Snoc(script: seq<Edit>, e: Edit)
    ensures Source(script + [e]) == Source(script) + if e.Insert? then [] else [e.c]
    ensures Target(script + [e]) ==
            Target(script) +
            (match e case Keep(c) => [c] case Delete(_) => [] case Insert(c) => [c] case Substitute(_, d) => [d])
    ensures Cost(script + [e]) == Cost(script) + if e.Keep? then 0 else 1
  {
    assert (script + [e])[..|script|] == script;
  }

  ghost predicate Attains(script: seq<Edit>, a: string, b: string, d: nat) {
    Turns(script, a, b) && Cost(script) == d
  }

  lemma ThenDelete(script: seq<Edit>, a: string, b: string, d: nat)
    requires a != [] && Attains(script, Init(a), b, d)
    ensures Attains(script + [Delete(Last(a))], a, b, d + 1)
  {
    Snoc(script, Delete(Last(a)));
  }

  lemma ThenInsert(script: seq<Edit>, a: string, b: string, d: nat)
    requires b != [] && Attains(script, a, Init(b), d)
    ensures Attains(script + [Insert(Last(b))], a, b, d + 1)
  {
    Snoc(script, Insert(Last(b)));
  }

  function Align(c: char, d: char): Edit {
    if c == d then Keep(c) else Substitute(c, d)
  }

  lemma ThenAlign(script: seq<Edit>, a: string, b: string, d: nat)
    requires a != [] && b != [] && Attains(script, Init(a), Init(b), d)
    ensures Attains(script + [Align(Last(a), Last(b))], a, b, d + if Last(a) != Last(b) then 1 else 0)
  {
    Snoc(script, Align(Last(a), Last(b)));
  }

  // Some script attains the recurrence.
  lemma {:induction false} Attained(a: string, b: string) returns (script: seq<Edit>)
    ensures Attains(script, a, b, Dist(a, b))
    decreases |a| + |b|
  {
    if a == [] && b == [] {
      script := [];
    } else if a != [] && Dist(a, b) == Dist(Init(a), b) + 1 {
      var shorter := Attained(Init(a), b);
      ThenDelete(shorter, a, b, Dist(Init(a), b));
      script := shorter + [Delete(Last(a))];
    } else if b != [] && Dist(a, b) == Dist(a, Init(b)) + 1 {
      var shorter := Attained(a, Init(b));
      ThenInsert(shorter, a, b, Dist(a, Init(b)));
      script := shorter + [Insert(Last(b))];
    } else {
      var shorter := Attained(Init(a), Init(b));
      ThenAlign(shorter, a, b, Dist(Init(a), Init(b)));
      script := shorter + [Align(Last(a), Last(b))];
    }
  }

  // Dropping a last character changes the distance by at most one.
  lemma {:induction false} OneStep(a: string, b: string)
    ensures a != [] ==> Dist(a, b) <= Dist(Init(a), b) + 1
    ensures b != [] ==> Dist(a, b) <= Dist(a, Init(b)) + 1
  {}

  // No script does better than the recurrence.
  lemma {:induction false} Minimal(script: seq<Edit>)
    ensures Dist(Source(script), Target(script)) <= Cost(script)
  {
    if script != [] {
      var rest := Init(script);
      var a, b := Source(rest), Target(rest);
      Minimal(rest);
      match Last(script)
      case Keep(c) =>
        OneStepBoth(a, b, c, c);
      case Delete(c) =>
        assert Init(a + [c]) == a && b + [] == b;
        OneStep(a + [c], b);
      case Insert(c) =>
        assert Init(b + [c]) == b && a + [] == a;
        OneStep(a, b + [c]);
      case Substitute(c, d) =>
        OneStepBoth(a, b, c, d);
    }
  }

  // The recurrence, on strings taken apart at their last characters.
  lemma LastStep(a: string, b: string, c: char, d: char)
    ensures Dist(a + [c], b + [d]) ==
            Min(Min(Dist(a, b + [d]) + 1, Dist(a + [c], b) + 1), Dist(a, b) + if c != d then 1 else 0)
  {
    assert Init(a + [c]) == a && Init(b + [d]) == b;
  }

  lemma OneStepBoth(a: string, b: string, c: char, d: char)
    ensures Dist(a + [c], b + [d]) <= Dist(a, b) + if c != d then 1 else 0
  {
    LastStep(a, b, c, d);
  }

  lemma DistIsLeastCost(a: string, b: string)
    ensures IsLeastCost(Dist(a, b), a, b)
  {
    var script := Attained(a, b);
    forall other | Turns(other, a, b) ensures Dist(a, b) <= Cost(other) {
      Minimal(other);
    }
  }

  ghost predicate IsRow(row: seq<nat>, a: string, b: string, n: nat) {
    |row| == n <= |b| + 1 && forall j :: 0 <= j < n ==> row[j] == Dist(a, b[..j])
  }

  lemma RowGrows(row: seq<nat>, a: string, b: string, n: nat, d: nat)
    requires n <= |b| && IsRow(row, a, b, n) && d == Dist(a, b[..n])
    ensures IsRow(row + [d], a, b, n + 1)
  {}

  lemma NextEntry(x: string, c: char, before: string, d: char, upTo: string)
    requires upTo != [] && before == Init(upTo) && d == Last(upTo)
    ensures Dist(x + [c], upTo) == Min(Min(Dist(x, upTo) + 1, Dist(x + [c], before) + 1),
                                       Dist(x, before) + if c != d then 1 else 0)
  {
    assert Init(x + [c]) == x;
  }

  // The row for x + [c], from the row for x.
  method NextRow(ghost x: string, c: char, b: string, prev: seq<nat>) returns (cur: seq<nat>)
    requires IsRow(prev, x, b, |b| + 1)
    ensures IsRow(cur, x + [c], b, |b| + 1)
  {
    cur := [prev[0] + 1];
    assert b[..0] == [];
    for j := 1 to |b| + 1
      invariant IsRow(cur, x + [c], b, j)
    {
      var d: nat := Min(Min(prev[j] + 1, cur[j - 1] + 1), prev[j - 1] + if c != b[j - 1] then 1 else 0);
      assert b[..j - 1] == Init(b[..j]);
      NextEntry(x, c, b[..j - 1], b[j - 1], b[..j]);
      RowGrows(cur, x + [c], b, j, d);
      cur := cur + [d];
    }
  }

  method Levenshtein(a: string, b: string) returns (d: nat)
    ensures d == Dist(a, b)
    ensures IsLeastCost(d, a, b)
  {
    DistIsLeastCost(a, b);
    if a == b {
      ZeroOnlyOnEqual(a, b);
      return 0;
    }
    if a == [] || b == [] {
      return |a| + |b|;
    }
    var prev: seq<nat> := seq(|b| + 1, j => j);
    for i := 1 to |a| + 1
      invariant IsRow(prev, a[..i - 1], b, |b| + 1)
    {
      prev := NextRow(a[..i - 1], a[i - 1], b, prev);
      assert a[..i] == a[..i - 1] + [a[i - 1]];
    }
    assert a[..|a|] == a && b[..|b|] == b;
    d := prev[|b|];
  }

  // ---- The distance is a metric ----

  lemma {:induction false} ZeroOnlyOnEqual(a: string, b: string)
    ensures Dist(a, b) == 0 <==> a == b
    decreases |a|
  {
    if a != [] && b != [] {
      ZeroOnlyOnEqual(Init(a), Init(b));
      assert a == Init(a) + [Last(a)] && b == Init(b) + [Last(b)];
    }
  }

  lemma {:induction false} Symmetric(a: string, b: string)
    ensures Dist(a, b) == Dist(b, a)
    decreases |a| + |b|
  {
    if a != [] && b != [] {
      Symmetric(Init(a), b);
      Symmetric(a, Init(b));
      Symmetric(Init(a), Init(b));
    }
  }

  // The distance lies between the difference of the lengths and the longer length.
  lemma {:induction false} Bounds(a: string, b: string)
    ensures |a| - |b| <= Dist(a, b) && |b| - |a| <= Dist(a, b)
    ensures Dist(a, b) <= Max(|a|, |b|)
    decreases |a| + |b|
  {
    if a != [] && b != [] {
      Bounds(Init(a), b);
      Bounds(a, Init(b));
      Bounds(Init(a), Init(b));
    }
  }

  lemma {:induction false} Triangle(a: string, b: string, c: string)
    ensures Dist(a, c) <= Dist(a, b) + Dist(b, c)
    decreases |a| + |b| + |c|
  {
    if b == [] {
      Bounds(a, c);
    } else if a == [] {
      Bounds(b, c);
    } else if c == [] {
      Bounds(a, b);
    } else if Dist(a, b) == Dist(Init(a), b) + 1 {
      Triangle(Init(a), b, c);
    } else if Dist(b, c) == Dist(b, Init(c)) + 1 {
      Triangle(a, b, Init(c));
    } else {
      TriangleThroughLast(a, b, c);
    }
  }

  // The cases where both shortest scripts consume the last character of b.
  lemma {:induction false} TriangleThroughLast(a: string, b: string, c: string)
    requires a != [] && b != [] && c != []
    requires Dist(a, b) != Dist(Init(a), b) + 1 && Dist(b, c) != Dist(b, Init(c)) + 1
    ensures Dist(a, c) <= Dist(a, b) + Dist(b, c)
    decreases |a| + |b| + |c|, 0
  {
    OneStep(a, c);
    if Dist(a, b) == Dist(a, Init(b)) + 1 {
      if Dist(b, c) == Dist(Init(b), c) + 1 {
        Triangle(a, Init(b), c);
      } else {
        Triangle(a, Init(b), Init(c));
      }
    } else if Dist(b, c) == Dist(Init(b), c) + 1 {
      Triangle(Init(a), Init(b), c);
    } else {
      Triangle(Init(a), Init(b), Init(c));
    }
  }
}

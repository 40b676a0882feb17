// Recovering OCR-B look-alikes against a check digit: enumerate every read within two
// look-alike swaps, keep those that match, rank them.
module LookAlikes {
  import opened Prelude
  import opened Text
  import opened CheckDigits
  import Sorting

  type Table = m: map<char, char> | forall c :: c in m ==> m[c] != c

  const CONFUSE_ALNUM: Table :=
    map['0' := 'O', 'O' := '0', '1' := 'I', 'I' := '1', '5' := 'S', 'S' := '5',
        '8' := 'B', 'B' := '8', '2' := 'Z', 'Z' := '2', '6' := 'G', 'G' := '6']

  const CONFUSE_NUM: Table :=
    map['O' := '0', 'Q' := '0', 'D' := '0', 'I' := '1', 'L' := '1', 'S' := '5',
        'B' := '8', 'Z' := '2', 'G' := '6', 'A' := '4', 'T' := '7']

  // The swaps 1/I and 0/O, the cheapest ones.
  predicate Likely(c: char, d: char) {
    (c, d) in {('1', 'I'), ('I', '1'), ('0', 'O'), ('O', '0')}
  }

  function SwapCost(c: char, d: char): nat {
    if Likely(c, d) then 1 else 3
  }

  // The two tables, pair by pair: a document number may confuse a digit with its letter either
  // way, a date only a letter with the digit it stands for.
  lemma NumberPairs(c: char, d: char)
    ensures c in CONFUSE_ALNUM && CONFUSE_ALNUM[c] == d <==>
            (c, d) in {('0', 'O'), ('O', '0'), ('1', 'I'), ('I', '1'), ('5', 'S'), ('S', '5'),
                       ('8', 'B'), ('B', '8'), ('2', 'Z'), ('Z', '2'), ('6', 'G'), ('G', '6')}
  {}

  lemma DatePairs(c: char, d: char)
    ensures c in CONFUSE_NUM && CONFUSE_NUM[c] == d <==>
            (c, d) in {('O', '0'), ('Q', '0'), ('D', '0'), ('I', '1'), ('L', '1'), ('S', '5'),
                       ('B', '8'), ('Z', '2'), ('G', '6'), ('A', '4'), ('T', '7')}
  {}

  // Only 1/I and 0/O are likely.
  lemma SwapCosts(c: char)
    requires c in CONFUSE_ALNUM
    ensures SwapCost(c, CONFUSE_ALNUM[c]) == if c in {'1', 'I', '0', 'O'} then 1 else 3
  {}

  // ---- Digit/letter transitions ----

  // The class of each character that has one: digit is true, letter is false.
  function Classes(s: string): seq<bool> {
    if s == [] then []
    else
      var n := |s| - 1;
      Classes(s[..n]) + if IsDigit(s[n]) then [true] else if IsAlpha(s[n]) then [false] else []
  }

  function Changes(classes: seq<bool>): nat {
    if |classes| < 2 then 0
    else
      var n := |classes| - 1;
      Changes(classes[..n]) + if classes[n] != classes[n - 1] then 1 else 0
  }

  function Transitions(s: string): nat {
    Changes(Classes(s))
  }

  lemma ChangesSnoc(classes: seq<bool>, kind: bool)
    ensures Changes(classes + [kind]) ==
            Changes(classes) + if classes != [] && kind != classes[|classes| - 1] then 1 else 0
  {
    assert (classes + [kind])[..|classes|] == classes;
  }

  lemma ClassesSnoc(s: string, c: char)
    ensures Classes(s + [c]) == Classes(s) + if IsDigit(c) then [true] else if IsAlpha(c) then [false] else []
  {
    assert (s + [c])[..|s|] == s;
  }

  // What is neither a letter nor a digit does not count, and does not separate.
  lemma {:induction false} FillerIsSkipped(s: string, filler: string)
    requires forall c :: c in filler ==> !('0' <= c <= '9') && !('A' <= c <= 'Z') && !('a' <= c <= 'z')
    ensures Classes(s + filler) == Classes(s) && Transitions(s + filler) == Transitions(s)
  {
    if filler == [] {
      assert s + filler == s;
    } else {
      var n := |filler| - 1;
      assert forall c :: c in filler[..n] ==> c in filler;
      FillerIsSkipped(s, filler[..n]);
      assert filler[n] in filler && s + filler == s + filler[..n] + [filler[n]];
      ClassesSnoc(s + filler[..n], filler[n]);
    }
  }

  // A letter or digit counts one more exactly when the last one before it, however much filler
  // is between, was of the other kind.
  lemma TransitionAfterFiller(s: string, last: char, filler: string, next: char)
    requires '0' <= last <= '9' || 'A' <= last <= 'Z'
    requires '0' <= next <= '9' || 'A' <= next <= 'Z'
    requires forall c :: c in filler ==> c == '<'
    ensures Transitions(s + [last] + filler + [next]) ==
            Transitions(s + [last]) + if ('0' <= last <= '9') == ('0' <= next <= '9') then 0 else 1
  {
    FillerIsSkipped(s + [last], filler);
    ClassesSnoc(s, last);
    ClassesSnoc(s + [last] + filler, next);
    ChangesSnoc(Classes(s + [last]), IsDigit(next));
  }

  lemma OneCharacterHasNoTransition(c: char)
    ensures Transitions([c]) == 0 && Transitions("") == 0
  {
    ClassesSnoc("", c);
    assert "" + [c] == [c];
  }

  method CountTransitions(s: string) returns (t: nat)
    ensures t == Transitions(s)
  {
    t := 0;
    var prev: Option<bool> := None;
    ghost var classes := [];
    for i := 0 to |s|
      invariant classes == Classes(s[..i]) && t == Changes(classes)
      invariant prev == if classes == [] then None else Some(classes[|classes| - 1])
    {
      assert s[..i + 1][..i] == s[..i];
      var kind := if IsDigit(s[i]) then Some(true) else if IsAlpha(s[i]) then Some(false) else None;
      if kind.Some? {
        ChangesSnoc(classes, kind.value);
        if prev.Some? && kind != prev {
          t := t + 1;
        }
        prev := kind;
        classes := classes + [kind.value];
      }
    }
    assert s[..|s|] == s;
  }

  // ---- The order of the candidates ----

  datatype Scored = Scored(swaps: nat, cost: nat, transitions: nat, text: string)

  // The order of Python tuples.
  predicate Le(x: Scored, y: Scored) {
    if x.swaps != y.swaps then x.swaps < y.swaps
    else if x.cost != y.cost then x.cost < y.cost
    else if x.transitions != y.transitions then x.transitions < y.transitions
    else Lex(x.text, y.text)
  }

  // Fewer swaps go first, then cheaper ones, then the fewer transitions.
  lemma FewerGoFirst(x: Scored, y: Scored)
    ensures x.swaps < y.swaps ==> Le(x, y) && !Le(y, x)
    ensures x.swaps == y.swaps && x.cost < y.cost ==> Le(x, y) && !Le(y, x)
    ensures x.swaps == y.swaps && x.cost == y.cost && x.transitions < y.transitions ==> Le(x, y) && !Le(y, x)
  {}

  lemma LeIsTotalOrder()
    ensures Sorting.TotalPreorder(Le)
    ensures forall x, y :: Le(x, y) && Le(y, x) ==> x == y
  {
    forall x, y ensures Le(x, y) || Le(y, x) {
      LexTotal(x.text, y.text);
    }
    forall x, y | Le(x, y) && Le(y, x) ensures x == y {
      LexTotal(x.text, y.text);
    }
    forall x, y, z | Le(x, y) && Le(y, z) ensures Le(x, z) {
      if x.swaps == y.swaps == z.swaps && x.cost == y.cost == z.cost
        && x.transitions == y.transitions == z.transitions {
        LexTransitive(x.text, y.text, z.text);
      }
    }
  }

  // How many positions of a read differ from the field, and what those swaps cost.
  function Swaps(field: string, read: string): nat
    requires |field| == |read|
  {
    if field == [] then 0
    else
      var n := |field| - 1;
      Swaps(field[..n], read[..n]) + if field[n] != read[n] then 1 else 0
  }

  function Cost(field: string, read: string): nat
    requires |field| == |read|
  {
    if field == [] then 0
    else
      var n := |field| - 1;
      Cost(field[..n], read[..n]) + if field[n] != read[n] then SwapCost(field[n], read[n]) else 0
  }

  function Rank(field: string, read: string): Scored
    requires |field| == |read|
  {
    Scored(Swaps(field, read), Cost(field, read), Transitions(read), read)
  }

  // ---- What may be returned ----

  // Which positions to swap: none, one, or two in increasing order.
  datatype Pick = Zero | One(i: nat) | Two(i: nat, j: nat) {
    predicate Valid(field: string, confuse: Table) {
      match this
      case Zero => true
      case One(i) => i < |field| && field[i] in confuse
      case Two(i, j) => i < j < |field| && field[i] in confuse && field[j] in confuse
    }

    function Apply(field: string, confuse: Table): (read: string)
      requires Valid(field, confuse)
      ensures |read| == |field|
    {
      match this
      case Zero => field
      case One(i) => field[i := confuse[field[i]]]
      case Two(i, j) => field[i := confuse[field[i]]][j := confuse[field[j]]]
    }
  }

  ghost predicate IsCandidate(field: string, check: char, confuse: Table, read: string) {
    && CheckDigit(read) == check
    && exists p: Pick :: p.Valid(field, confuse) && p.Apply(field, confuse) == read
  }

  // The one list with exactly the candidates, each once, in strictly increasing rank.
  ghost predicate IsRanking(out: seq<string>, field: string, check: char, confuse: Table) {
    && (forall read :: read in out <==> IsCandidate(field, check, confuse, read))
    && (forall i :: 0 <= i < |out| ==> |out[i]| == |field|)
    && (forall i, j :: 0 <= i < j < |out| ==> out[i] != out[j] && Le(Rank(field, out[i]), Rank(field, out[j])))
  }

  lemma {:induction false} RankAfterSwap(field: string, read: string, i: nat, c: char)
    requires |field| == |read| && i < |field| && read[i] == field[i] && c != field[i]
    ensures Swaps(field, read[i := c]) == Swaps(field, read) + 1
    ensures Cost(field, read[i := c]) == Cost(field, read) + SwapCost(field[i], c)
  {
    var n := |field| - 1;
    if i == n {
      assert read[i := c][..n] == read[..n];
    } else {
      assert read[i := c][..n] == read[..n][i := c];
      RankAfterSwap(field[..n], read[..n], i, c);
    }
  }

  lemma {:induction false} RankOfSelf(field: string)
    ensures Swaps(field, field) == 0 && Cost(field, field) == 0
  {
    if field != [] {
      RankOfSelf(field[..|field| - 1]);
    }
  }

  lemma RankOfPick(field: string, confuse: Table, p: Pick)
    requires p.Valid(field, confuse)
    ensures var r := Rank(field, p.Apply(field, confuse));
            match p
            case Zero => r.swaps == 0 && r.cost == 0
            case One(i) => r.swaps == 1 && r.cost == SwapCost(field[i], confuse[field[i]])
            case Two(i, j) =>
              r.swaps == 2 && r.cost == SwapCost(field[i], confuse[field[i]]) + SwapCost(field[j], confuse[field[j]])
  {
    RankOfSelf(field);
    if p.One? || p.Two? {
      RankAfterSwap(field, field, p.i, confuse[field[p.i]]);
    }
    if p.Two? {
      RankAfterSwap(field, field[p.i := confuse[field[p.i]]], p.j, confuse[field[p.j]]);
    }
  }

  // Different picks give different reads, so the search never meets a read twice and the
  // final removal of duplicates never removes anything.
  lemma PicksAreDistinct(field: string, confuse: Table, p: Pick, q: Pick)
    requires p.Valid(field, confuse) && q.Valid(field, confuse)
    requires p.Apply(field, confuse) == q.Apply(field, confuse)
    ensures p == q
  {
    RankOfPick(field, confuse, p);
    RankOfPick(field, confuse, q);
    var r := p.Apply(field, confuse);
    if p.One? {
      assert r[p.i] != field[p.i] && q.i == p.i;
    } else if p.Two? {
      assert r[p.i] != field[p.i] && r[p.j] != field[p.j];
      assert p.i in {q.i, q.j} && p.j in {q.i, q.j};
    }
  }

  // Strictly increasing rank.
  ghost predicate Ordered(field: string, s: seq<string>) {
    && (forall i :: 0 <= i < |s| ==> |s[i]| == |field|)
    && (forall i, j :: 0 <= i < j < |s| ==> s[i] != s[j] && Le(Rank(field, s[i]), Rank(field, s[j])))
  }

  // A ranking is determined by the field, the check digit and the table.
  lemma RankingIsUnique(out: seq<string>, other: seq<string>, field: string, check: char, confuse: Table)
    requires IsRanking(out, field, check, confuse) && IsRanking(other, field, check, confuse)
    ensures out == other
  {
    SameOrderedElements(out, other, field);
  }

  lemma HeadsAgree(s: seq<string>, t: seq<string>, field: string)
    requires Ordered(field, s) && Ordered(field, t) && s != [] && t != []
    requires s[0] in t && t[0] in s
    ensures s[0] == t[0]
  {
    LeIsTotalOrder();
    var a :| 0 <= a < |t| && t[a] == s[0];
    var b :| 0 <= b < |s| && s[b] == t[0];
  }

  lemma TailMembers(s: seq<string>, field: string)
    requires Ordered(field, s) && s != []
    ensures forall x :: x in s[1..] <==> x in s && x != s[0]
  {}

  lemma {:induction false} SameOrderedElements(s: seq<string>, t: seq<string>, field: string)
    requires Ordered(field, s) && Ordered(field, t)
    requires forall x :: x in s <==> x in t
    ensures s == t
  {
    assert t != [] ==> t[0] in t;
    if s != [] {
      assert s[0] in t && t[0] in s;
      HeadsAgree(s, t, field);
      TailMembers(s, field);
      TailMembers(t, field);
      SameOrderedElements(s[1..], t[1..], field);
      assert s == [s[0]] + s[1..] && t == [t[0]] + t[1..];
    }
  }

  // ---- The search ----

  // Every entry is a ranked candidate, and every pick met so far has its entry.
  ghost predicate Covers(scored: seq<Scored>, met: set<Pick>, field: string, check: char, confuse: Table) {
    && (forall e :: e in scored ==>
          IsCandidate(field, check, confuse, e.text) && |e.text| == |field| && e == Rank(field, e.text))
    && (forall p :: p in met && p.Valid(field, confuse) && CheckDigit(p.Apply(field, confuse)) == check
          ==> Rank(field, p.Apply(field, confuse)) in scored)
  }

  method Consider(scored: seq<Scored>, field: string, check: char, confuse: Table, p: Pick, cost: nat,
                  ghost met: set<Pick>) returns (more: seq<Scored>)
    requires p.Valid(field, confuse)
    requires Rank(field, p.Apply(field, confuse)).cost == cost
    requires Covers(scored, met, field, check, confuse)
    ensures Covers(more, met + {p}, field, check, confuse)
  {
    var read := p.Apply(field, confuse);
    more := scored;
    if CheckDigit(read) == check {
      var transitions := CountTransitions(read);
      RankOfPick(field, confuse, p);
      var swaps := match p case Zero => 0 case One(_) => 1 case Two(_, _) => 2;
      more := more + [Scored(swaps, cost, transitions, read)];
    }
  }

  // The indices of the confusable characters, in order.
  method Indices(field: string, confuse: Table) returns (idxs: seq<nat>)
    ensures forall k :: k in idxs <==> 0 <= k < |field| && field[k] in confuse
    ensures forall a, b :: 0 <= a < b < |idxs| ==> idxs[a] < idxs[b]
  {
    idxs := [];
    for i := 0 to |field|
      invariant forall k :: k in idxs <==> 0 <= k < i && field[k] in confuse
      invariant forall a, b :: 0 <= a < b < |idxs| ==> idxs[a] < idxs[b]
    {
      if field[i] in confuse {
        assert forall a :: 0 <= a < |idxs| ==> idxs[a] in idxs;
        idxs := idxs + [i];
      }
    }
  }

  method Singles(field: string, check: char, confuse: Table, idxs: seq<nat>, before: seq<Scored>, ghost met: set<Pick>)
    returns (scored: seq<Scored>, ghost seen: set<Pick>)
    requires forall k :: k in idxs ==> One(k).Valid(field, confuse)
    requires Covers(before, met, field, check, confuse)
    ensures Covers(scored, seen, field, check, confuse)
    ensures met <= seen && forall k :: k in idxs ==> One(k) in seen
  {
    scored, seen := before, met;
    for a := 0 to |idxs|
      invariant Covers(scored, seen, field, check, confuse)
      invariant met <= seen && forall k :: k in idxs[..a] ==> One(k) in seen
    {
      var p := One(idxs[a]);
      RankOfPick(field, confuse, p);
      scored := Consider(scored, field, check, confuse, p, SwapCost(field[p.i], confuse[field[p.i]]), seen);
      seen := seen + {p};
    }
    assert idxs[..|idxs|] == idxs;
  }

  // The pairs whose first position is idxs[a].
  method PairsFrom(field: string, check: char, confuse: Table, idxs: seq<nat>, a: nat, before: seq<Scored>,
                   ghost met: set<Pick>)
    returns (scored: seq<Scored>, ghost seen: set<Pick>)
    requires a < |idxs| && forall k :: k in idxs ==> One(k).Valid(field, confuse)
    requires forall c, d :: 0 <= c < d < |idxs| ==> idxs[c] < idxs[d]
    requires Covers(before, met, field, check, confuse)
    ensures Covers(scored, seen, field, check, confuse)
    ensures met <= seen && forall d :: a < d < |idxs| ==> Two(idxs[a], idxs[d]) in seen
  {
    scored, seen := before, met;
    for b := a + 1 to |idxs|
      invariant Covers(scored, seen, field, check, confuse)
      invariant met <= seen && forall d :: a < d < b ==> Two(idxs[a], idxs[d]) in seen
    {
      var p := Two(idxs[a], idxs[b]);
      assert p.i in idxs && p.j in idxs;
      assert p.Valid(field, confuse);
      RankOfPick(field, confuse, p);
      var cost := SwapCost(field[p.i], confuse[field[p.i]]) + SwapCost(field[p.j], confuse[field[p.j]]);
      scored := Consider(scored, field, check, confuse, p, cost, seen);
      seen := seen + {p};
    }
  }

  method Pairs(field: string, check: char, confuse: Table, idxs: seq<nat>, before: seq<Scored>, ghost met: set<Pick>)
    returns (scored: seq<Scored>, ghost seen: set<Pick>)
    requires forall k :: k in idxs ==> One(k).Valid(field, confuse)
    requires forall c, d :: 0 <= c < d < |idxs| ==> idxs[c] < idxs[d]
    requires Covers(before, met, field, check, confuse)
    ensures Covers(scored, seen, field, check, confuse)
    ensures met <= seen && forall i, j :: i in idxs && j in idxs && i < j ==> Two(i, j) in seen
  {
    scored, seen := before, met;
    for a := 0 to |idxs|
      invariant Covers(scored, seen, field, check, confuse)
      invariant met <= seen && forall c, d :: 0 <= c < a && c < d < |idxs| ==> Two(idxs[c], idxs[d]) in seen
    {
      scored, seen := PairsFrom(field, check, confuse, idxs, a, scored, seen);
    }
    forall i, j | i in idxs && j in idxs && i < j ensures Two(i, j) in seen {
      var c :| 0 <= c < |idxs| && idxs[c] == i;
      var d :| 0 <= d < |idxs| && idxs[d] == j;
      assert c < d;
    }
  }

  method Candidates(field: string, check: char, confuse: Table) returns (out: seq<string>)
    ensures IsRanking(out, field, check, confuse)
  {
    RankOfPick(field, confuse, Zero);
    var scored := Consider([], field, check, confuse, Zero, 0, {});
    var idxs := Indices(field, confuse);
    ghost var met: set<Pick>;
    scored, met := Singles(field, check, confuse, idxs, scored, {} + {Zero});
    scored, met := Pairs(field, check, confuse, idxs, scored, met);
    forall p: Pick | p.Valid(field, confuse) ensures p in met {
      if p.One? { assert p.i in idxs; } else if p.Two? { assert p.i in idxs && p.j in idxs; }
    }
    out := Deduplicated(scored, field, check, confuse, met);
  }

  method Deduplicated(scored: seq<Scored>, field: string, check: char, confuse: Table, ghost met: set<Pick>)
    returns (out: seq<string>)
    requires Covers(scored, met, field, check, confuse)
    requires forall p: Pick :: p.Valid(field, confuse) ==> p in met
    ensures IsRanking(out, field, check, confuse)
  {
    var sorted := Sorting.Sort(Le, scored);
    LeIsTotalOrder();
    Sorting.SortSorted(Le, scored);
    Sorting.SameElements(scored, sorted);
    out := FirstOfEach(field, sorted);
    forall read ensures read in out <==> IsCandidate(field, check, confuse, read) {
      if IsCandidate(field, check, confuse, read) {
        var p: Pick :| p.Valid(field, confuse) && p.Apply(field, confuse) == read;
        assert p in met && Rank(field, read) in sorted;
      }
      if read in out {
        var e :| e in sorted && e.text == read;
        assert e in scored;
      }
    }
  }

  method FirstOfEach(field: string, sorted: seq<Scored>) returns (out: seq<string>)
    requires forall e :: e in sorted ==> |e.text| == |field| && e == Rank(field, e.text)
    requires Sorting.Sorted(Le, sorted)
    ensures forall e :: e in sorted ==> e.text in out
    ensures forall read :: read in out ==> exists e :: e in sorted && e.text == read
    ensures forall i :: 0 <= i < |out| ==> |out[i]| == |field|
    ensures forall i, j :: 0 <= i < j < |out| ==> out[i] != out[j] && Le(Rank(field, out[i]), Rank(field, out[j]))
  {
    out := [];
    for k := 0 to |sorted|
      invariant forall i :: 0 <= i < k ==> sorted[i].text in out
      invariant forall read :: read in out ==> exists e :: e in sorted && e.text == read
      invariant forall i :: 0 <= i < |out| ==> |out[i]| == |field|
      invariant forall i, m :: 0 <= i < |out| && k <= m < |sorted| ==> Le(Rank(field, out[i]), sorted[m])
      invariant forall i, j :: 0 <= i < j < |out| ==> out[i] != out[j] && Le(Rank(field, out[i]), Rank(field, out[j]))
    {
      var e := sorted[k];
      assert e in sorted;
      if e.text !in out {
        out := out + [e.text];
      }
    }
  }
}

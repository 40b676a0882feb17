// The string operations the MRZ and voucher code uses, on ASCII text.
module Text {
  predicate IsDigit(c: char) {
    '0' <= c <= '9'
  }

  predicate IsAlpha(c: char) {
    'A' <= c <= 'Z' || 'a' <= c <= 'z'
  }

  predicate IsSpace(c: char) {
    c == ' ' || '\t' <= c <= '\r' || '\U{1C}' <= c <= '\U{1F}'
  }

  // The alphabet of a machine-readable zone.
  predicate IsMrz(c: char) {
    IsDigit(c) || 'A' <= c <= 'Z' || c == '<'
  }

  predicate AllMrz(s: string) {
    forall c :: c in s ==> IsMrz(c)
  }

  // str.isdigit: at least one character, all digits.
  predicate AllDigits(s: string) {
    s != [] && forall c :: c in s ==> IsDigit(c)
  }

  function UpperChar(c: char): char {
    if 'a' <= c <= 'z' then (c as int - 32) as char else c
  }

  function Upper(s: string): string {
    Map(UpperChar, s)
  }

  function Map<A, B>(f: A -> B, s: seq<A>): (r: seq<B>)
    ensures |r| == |s|
    ensures forall i :: 0 <= i < |s| ==> r[i] == f(s[i])
  {
    seq(|s|, i requires 0 <= i < |s| => f(s[i]))
  }

  function Filter<T(!new)>(keep: T -> bool, s: seq<T>): (r: seq<T>)
    ensures |r| <= |s|
    ensures forall x :: x in r <==> x in s && keep(x)
  {
    if s == [] then []
    else if keep(s[0]) then [s[0]] + Filter(keep, s[1..])
    else Filter(keep, s[1..])
  }

  lemma {:induction false} MapFilter<A(!new)>(f: A -> A, keep: A -> bool, s: seq<A>)
    requires forall x :: keep(f(x)) == keep(x)
    ensures Map(f, Filter(keep, s)) == Filter(keep, Map(f, s))
  {
    if s != [] {
      var t := s[1..];
      MapFilter(f, keep, t);
      assert Map(f, s) == [f(s[0])] + Map(f, t);
      if keep(s[0]) {
        assert Map(f, [s[0]] + Filter(keep, t)) == [f(s[0])] + Map(f, Filter(keep, t));
      }
    }
  }

  lemma {:induction false} FilterAll<T(!new)>(keep: T -> bool, s: seq<T>)
    requires forall x :: x in s ==> keep(x)
    ensures Filter(keep, s) == s
  {
    if s != [] {
      FilterAll(keep, s[1..]);
    }
  }

  lemma {:induction false} FilterNone<T(!new)>(keep: T -> bool, s: seq<T>)
    requires forall x :: x in s ==> !keep(x)
    ensures Filter(keep, s) == []
  {
    if s != [] {
      FilterNone(keep, s[1..]);
    }
  }

  lemma {:induction false} FilterTwice<T(!new)>(keep: T -> bool, also: T -> bool, both: T -> bool, s: seq<T>)
    requires forall x :: both(x) <==> keep(x) && also(x)
    ensures Filter(also, Filter(keep, s)) == Filter(both, s)
  {
    if s != [] {
      FilterTwice(keep, also, both, s[1..]);
      if keep(s[0]) {
        assert ([s[0]] + Filter(keep, s[1..]))[1..] == Filter(keep, s[1..]);
      }
    }
  }

  lemma {:induction false} FilterConcat<T(!new)>(keep: T -> bool, s: seq<T>, t: seq<T>)
    ensures Filter(keep, s + t) == Filter(keep, s) + Filter(keep, t)
  {
    if s == [] {
      assert s + t == t;
    } else {
      assert (s + t)[1..] == s[1..] + t;
      FilterConcat(keep, s[1..], t);
    }
  }

  // "".join(s.split())
  function Compact(s: string): string {
    Filter(c => !IsSpace(c), s)
  }

  // s.replace(c, "")
  function Without(s: string, c: char): string {
    Filter(d => d != c, s)
  }

  // s.replace(c, d)
  function Replace(s: string, c: char, d: char): string {
    Map(e => if e == c then d else e, s)
  }

  function StripLeft(s: string): string {
    if s != [] && IsSpace(s[0]) then StripLeft(s[1..]) else s
  }

  function StripRight(s: string): string {
    if s != [] && IsSpace(s[|s| - 1]) then StripRight(s[..|s| - 1]) else s
  }

  function Strip(s: string): string {
    StripRight(StripLeft(s))
  }

  function Repeat(c: char, n: nat): (s: string)
    ensures |s| == n && forall i :: 0 <= i < n ==> s[i] == c
  {
    seq(n, _ => c)
  }

  lemma SliceOfSlice<T>(s: seq<T>, i: nat, j: nat, a: nat, b: nat)
    requires i <= j <= |s| && a <= b <= j - i
    ensures s[i..j][a..b] == s[i + a..i + b]
  {
    var t := s[i..j];
    forall k | 0 <= k < b - a
      ensures t[a..b][k] == s[i + a..i + b][k]
    {
      assert t[a..b][k] == t[a + k];
      assert t[a + k] == s[i + (a + k)];
    }
    assert t[a..b] == s[i + a..i + b];
  }

  // The index of the first "<<", or the length when there is none.
  function FirstFiller(s: string): (i: nat)
    ensures i <= |s|
    ensures i < |s| ==> i + 1 < |s| && s[i] == '<' && s[i + 1] == '<'
    ensures forall k :: 0 <= k < i && k + 1 < |s| ==> !(s[k] == '<' && s[k + 1] == '<')
  {
    if |s| < 2 then |s|
    else if s[0] == '<' && s[1] == '<' then 0
    else 1 + FirstFiller(s[1..])
  }

  // s.partition("<<"), without the separator.
  function Partition(s: string): (string, string) {
    var i := FirstFiller(s);
    if i < |s| then (s[..i], s[i + 2..]) else (s, "")
  }

  // s.split(sep) for a one-character separator.
  function Split(s: string, sep: char): (parts: seq<string>)
    ensures parts != []
    ensures forall p :: p in parts ==> sep !in p
  {
    if s == [] then [""]
    else
      var rest := Split(s[1..], sep);
      if s[0] == sep then [""] + rest else [[s[0]] + rest[0]] + rest[1..]
  }

  // sep.join(parts)
  function Join(sep: string, parts: seq<string>): string {
    if parts == [] then ""
    else if |parts| == 1 then parts[0]
    else parts[0] + sep + Join(sep, parts[1..])
  }

  lemma {:induction false} SplitWhole(s: string, sep: char)
    requires sep !in s
    ensures Split(s, sep) == [s]
  {
    if s != [] {
      SplitWhole(s[1..], sep);
      assert s == [s[0]] + s[1..];
    }
  }

  // The first separator ends the first part.
  lemma {:induction false} SplitFirst(s: string, sep: char, t: string)
    requires sep !in s
    ensures Split(s + [sep] + t, sep) == [s] + Split(t, sep)
  {
    var whole := s + [sep] + t;
    if s == [] {
      assert whole[1..] == t;
    } else {
      assert whole[1..] == s[1..] + [sep] + t;
      SplitFirst(s[1..], sep, t);
      assert s == [s[0]] + s[1..];
      assert ([s[1..]] + Split(t, sep))[1..] == Split(t, sep);
    }
  }

  // Splitting loses nothing.
  lemma {:induction false} JoinSplit(s: string, sep: char)
    ensures Join([sep], Split(s, sep)) == s
  {
    if s != [] {
      var rest := Split(s[1..], sep);
      JoinSplit(s[1..], sep);
      if s[0] == sep {
        assert ([""] + rest)[1..] == rest;
        assert Join([sep], [""] + rest) == "" + [sep] + Join([sep], rest);
      } else if |rest| > 1 {
        var parts := [[s[0]] + rest[0]] + rest[1..];
        assert parts[1..] == rest[1..];
      }
    }
  }

  function DigitChar(d: nat): char
    requires d < 10
  {
    ('0' as int + d) as char
  }

  // str(n)
  function Decimal(n: int): string
    decreases if n < 0 then 1 - n else n
  {
    if n < 0 then "-" + Decimal(-n)
    else if n < 10 then [DigitChar(n)]
    else Decimal(n / 10) + [DigitChar(n % 10)]
  }

  function DigitValue(c: char): (d: nat)
    requires IsDigit(c)
    ensures d < 10
  {
    c as int - '0' as int
  }

  // int(s) for a string of digits.
  function Number(s: string): nat
    requires forall c :: c in s ==> IsDigit(c)
  {
    if s == [] then 0 else 10 * Number(s[..|s| - 1]) + DigitValue(s[|s| - 1])
  }

  // The ASCII characters Python's split and strip take for white space.
  lemma WhiteSpace(c: char)
    ensures IsSpace(c) <==> c in {' ', '\t', '\n', '\U{B}', '\U{C}', '\r', '\U{1C}', '\U{1D}', '\U{1E}', '\U{1F}'}
  {}

  lemma UpperLetters(c: char)
    ensures 'a' <= c <= 'z' ==> UpperChar(c) as int == c as int - 'a' as int + 'A' as int
    ensures !('a' <= c <= 'z') ==> UpperChar(c) == c
  {}

  // What compacting keeps, and what stripping trims, seen from the ends.
  lemma CompactSnoc(s: string, c: char)
    ensures Compact(s + [c]) ==
            Compact(s) +
            if c in {' ', '\t', '\n', '\U{B}', '\U{C}', '\r', '\U{1C}', '\U{1D}', '\U{1E}', '\U{1F}'} then []
            else [c]
  {
    WhiteSpace(c);
    FilterConcat(x => !IsSpace(x), s, [c]);
    assert [c][1..] == [];
  }

  lemma {:induction false} StripLeftIs(s: string)
    ensures |StripLeft(s)| <= |s| && StripLeft(s) == s[|s| - |StripLeft(s)|..]
    ensures forall i :: 0 <= i < |s| - |StripLeft(s)| ==> IsSpace(s[i])
    ensures StripLeft(s) != [] ==> !IsSpace(StripLeft(s)[0])
  {
    if s != [] && IsSpace(s[0]) {
      var rest := s[1..];
      StripLeftIs(rest);
      assert StripLeft(s) == StripLeft(rest);
      assert rest[|rest| - |StripLeft(rest)|..] == s[|s| - |StripLeft(rest)|..];
      forall i | 0 <= i < |s| - |StripLeft(s)| ensures IsSpace(s[i]) {
        if i > 0 {
          assert s[i] == rest[i - 1];
        }
      }
    }
  }

  lemma {:induction false} StripRightIs(s: string)
    ensures |StripRight(s)| <= |s| && StripRight(s) == s[..|StripRight(s)|]
    ensures forall i :: |StripRight(s)| <= i < |s| ==> IsSpace(s[i])
    ensures StripRight(s) != [] ==> !IsSpace(StripRight(s)[|StripRight(s)| - 1])
  {
    if s != [] && IsSpace(s[|s| - 1]) {
      StripRightIs(s[..|s| - 1]);
    }
  }

  // A stripped text is a middle piece with nothing but white space around it, and no white
  // space at its ends.
  lemma StripIs(s: string)
    ensures exists i, j :: 0 <= i <= j <= |s| && Strip(s) == s[i..j]
                           && (forall k :: 0 <= k < i || j <= k < |s| ==> IsSpace(s[k]))
    ensures Strip(s) != [] ==> !IsSpace(Strip(s)[0]) && !IsSpace(Strip(s)[|Strip(s)| - 1])
  {
    var t := StripLeft(s);
    StripLeftIs(s);
    StripRightIs(t);
    var i, j := |s| - |t|, |s| - |t| + |Strip(s)|;
    assert Strip(s) == s[i..j];
    forall k | 0 <= k < i || j <= k < |s| ensures IsSpace(s[k]) {
      if k >= j {
        assert s[k] == t[k - i];
      }
    }
  }

  // Lexicographic order by code point, the order of Python strings.
  predicate Lex(s: string, t: string) {
    if s == [] then true
    else if t == [] then false
    else if s[0] != t[0] then s[0] < t[0]
    else Lex(s[1..], t[1..])
  }

  // The order is decided at the first difference, and a prefix comes first.
  lemma {:induction false} LexAtFirstDifference(p: string, c: char, d: char, s: string, t: string)
    requires c < d
    ensures Lex(p + [c] + s, p + [d] + t) && !Lex(p + [d] + t, p + [c] + s) && Lex(p, p + s)
  {
    if p != [] {
      LexAtFirstDifference(p[1..], c, d, s, t);
      assert (p + [c] + s)[1..] == p[1..] + [c] + s && (p + [d] + t)[1..] == p[1..] + [d] + t;
      assert (p + s)[1..] == p[1..] + s;
    } else {
      assert (p + [c] + s)[0] == c && (p + [d] + t)[0] == d;
    }
  }

  lemma {:induction false} LexTotal(s: string, t: string)
    ensures Lex(s, t) || Lex(t, s)
    ensures Lex(s, t) && Lex(t, s) ==> s == t
  {
    if s != [] && t != [] && s[0] == t[0] {
      LexTotal(s[1..], t[1..]);
      assert s == [s[0]] + s[1..] && t == [t[0]] + t[1..];
    }
  }

  lemma {:induction false} LexTransitive(s: string, t: string, u: string)
    requires Lex(s, t) && Lex(t, u)
    ensures Lex(s, u)
  {
    if s != [] && s[0] == t[0] && t[0] == u[0] {
      LexTransitive(s[1..], t[1..], u[1..]);
    }
  }
}

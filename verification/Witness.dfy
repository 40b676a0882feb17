// Primitives that are sound: the assumptions about the libraries can hold together.
module Witness {
  import opened Prelude
  import opened Jose

  // ---- A prefix code for JSON values ----

  // n as that many ones and a zero.
  function Unary(n: nat): bytes {
    if n == 0 then [0] else [1] + Unary(n - 1)
  }

  lemma {:induction false} UnaryIsPrefixCode(m: nat, n: nat, x: bytes, y: bytes)
    requires Unary(m) + x == Unary(n) + y
    ensures m == n && x == y
  {
    assert (Unary(m) + x)[0] == Unary(m)[0] && (Unary(n) + y)[0] == Unary(n)[0];
    if m == 0 || n == 0 {
      assert (Unary(m) + x)[1..] == x && (Unary(n) + y)[1..] == y;
    } else {
      assert (Unary(m) + x)[1..] == Unary(m - 1) + x && (Unary(n) + y)[1..] == Unary(n - 1) + y;
      UnaryIsPrefixCode(m - 1, n - 1, x, y);
    }
  }

  function Signed(n: int): bytes {
    if n >= 0 then Unary(2 * n) else Unary(-2 * n - 1)
  }

  lemma SignedIsPrefixCode(m: int, n: int, x: bytes, y: bytes)
    requires Signed(m) + x == Signed(n) + y
    ensures m == n && x == y
  {
    UnaryIsPrefixCode(if m >= 0 then 2 * m else -2 * m - 1, if n >= 0 then 2 * n else -2 * n - 1, x, y);
  }

  function Chars(s: string): bytes {
    if s == [] then [0] else [1] + Unary(s[0] as int) + Chars(s[1..])
  }

  lemma {:induction false} CharsIsPrefixCode(s: string, t: string, x: bytes, y: bytes)
    requires Chars(s) + x == Chars(t) + y
    ensures s == t && x == y
  {
    assert (Chars(s) + x)[0] == Chars(s)[0] && (Chars(t) + y)[0] == Chars(t)[0];
    if s == [] || t == [] {
      assert (Chars(s) + x)[1..] == x && (Chars(t) + y)[1..] == y;
    } else {
      assert (Chars(s) + x)[1..] == Unary(s[0] as int) + (Chars(s[1..]) + x);
      assert (Chars(t) + y)[1..] == Unary(t[0] as int) + (Chars(t[1..]) + y);
      UnaryIsPrefixCode(s[0] as int, t[0] as int, Chars(s[1..]) + x, Chars(t[1..]) + y);
      CharsIsPrefixCode(s[1..], t[1..], x, y);
      assert s == [s[0]] + s[1..] && t == [t[0]] + t[1..];
    }
  }

  // Some order in which to write the members of an object.
  ghost function AnyKey(keys: set<string>): (k: string)
    requires keys != {}
    ensures k in keys
  {
    var k :| k in keys;
    k
  }

  ghost function Dump(j: Json): bytes
    decreases j, 1, 0
  {
    match j
    case Null => [0]
    case Bool(b) => [1, if b then 1 else 0]
    case Int(n) => [2] + Signed(n)
    case Dec(units, places) => [3] + (Signed(units) + Unary(places))
    case Str(s) => [4] + Chars(s)
    case Arr(_) => [5] + DumpItems(j, 0)
    case Obj(members) => [6] + DumpMembers(j, members.Keys)
  }

  ghost function DumpItems(j: Json, from: nat): bytes
    requires j.Arr? && from <= |j.items|
    decreases j, 0, |j.items| - from
  {
    if from == |j.items| then [0] else [1] + (Dump(j.items[from]) + DumpItems(j, from + 1))
  }

  ghost function DumpMembers(j: Json, keys: set<string>): bytes
    requires j.Obj? && keys <= j.members.Keys
    decreases j, 0, |keys|
  {
    if keys == {} then [0]
    else
      var k := AnyKey(keys);
      [1] + (Chars(k) + (Dump(j.members[k]) + DumpMembers(j, keys - {k})))
  }

  lemma SameHead(a: bytes, b: bytes, x: bytes, y: bytes)
    requires a != [] && b != [] && a + x == b + y
    ensures a[0] == b[0] && a[1..] + x == b[1..] + y
    ensures |a| == 1 && |b| == 1 ==> x == y
  {
    assert |a| == 1 && |b| == 1 ==> a[1..] + x == x && b[1..] + y == y;
    assert (a + x)[0] == a[0] && (b + y)[0] == b[0];
    assert (a + x)[1..] == a[1..] + x && (b + y)[1..] == b[1..] + y;
  }

  lemma Regroup(a: bytes, b: bytes, x: bytes)
    ensures a + b + x == a + (b + x)
  {}

  lemma DecIsPrefixCode(m: int, k: nat, n: int, l: nat, x: bytes, y: bytes)
    requires Signed(m) + Unary(k) + x == Signed(n) + Unary(l) + y
    ensures m == n && k == l && x == y
  {
    Regroup(Signed(m), Unary(k), x);
    Regroup(Signed(n), Unary(l), y);
    SignedIsPrefixCode(m, n, Unary(k) + x, Unary(l) + y);
    UnaryIsPrefixCode(k, l, x, y);
  }

  lemma ScalarsArePrefixCode(a: Json, b: Json, x: bytes, y: bytes)
    requires !a.Arr? && !a.Obj? && Dump(a) + x == Dump(b) + y
    ensures a == b && x == y
  {
    SameHead(Dump(a), Dump(b), x, y);
    match a
    case Null =>
    case Bool(_) => SameHead(Dump(a)[1..], Dump(b)[1..], x, y);
    case Int(m) => SignedIsPrefixCode(m, b.n, x, y);
    case Dec(m, k) => DecIsPrefixCode(m, k, b.units, b.places, x, y);
    case Str(s) => CharsIsPrefixCode(s, b.s, x, y);
  }

  lemma {:induction false} DumpIsPrefixCode(a: Json, b: Json, x: bytes, y: bytes)
    requires Dump(a) + x == Dump(b) + y
    ensures a == b && x == y
    decreases a, 1, 0
  {
    if a.Arr? || a.Obj? {
      SameHead(Dump(a), Dump(b), x, y);
      if a.Arr? {
        ItemsArePrefixCode(a, b, 0, x, y);
      } else {
        MembersArePrefixCode(a, b, a.members.Keys, b.members.Keys, x, y);
        assert a.members == b.members;
      }
    } else {
      ScalarsArePrefixCode(a, b, x, y);
    }
  }

  lemma {:induction false} ItemsArePrefixCode(a: Json, b: Json, from: nat, x: bytes, y: bytes)
    requires a.Arr? && b.Arr? && from <= |a.items| && from <= |b.items| && a.items[..from] == b.items[..from]
    requires DumpItems(a, from) + x == DumpItems(b, from) + y
    ensures a.items == b.items && x == y
    decreases a, 0, |a.items| - from
  {
    SameHead(DumpItems(a, from), DumpItems(b, from), x, y);
    if from == |a.items| {
      assert a.items == a.items[..from] && b.items == b.items[..from];
    } else {
      var da, db := Dump(a.items[from]), Dump(b.items[from]);
      var ma, mb := DumpItems(a, from + 1), DumpItems(b, from + 1);
      assert DumpItems(a, from)[1..] + x == da + (ma + x) && DumpItems(b, from)[1..] + y == db + (mb + y);
      DumpIsPrefixCode(a.items[from], b.items[from], ma + x, mb + y);
      assert a.items[..from + 1] == a.items[..from] + [a.items[from]]
        && b.items[..from + 1] == b.items[..from] + [b.items[from]];
      ItemsArePrefixCode(a, b, from + 1, x, y);
    }
  }

  lemma MemberFirst(key: bytes, value: bytes, more: bytes, x: bytes)
    ensures ([1] + (key + (value + more)))[1..] + x == key + (value + (more + x))
  {}

  lemma {:induction false} MembersArePrefixCode(a: Json, b: Json, ka: set<string>, kb: set<string>, x: bytes, y: bytes)
    requires a.Obj? && b.Obj? && ka <= a.members.Keys && kb <= b.members.Keys
    requires DumpMembers(a, ka) + x == DumpMembers(b, kb) + y
    ensures ka == kb && x == y && forall k :: k in ka ==> a.members[k] == b.members[k]
    decreases a, 0, |ka|
  {
    SameHead(DumpMembers(a, ka), DumpMembers(b, kb), x, y);
    if ka != {} {
      var k, l := AnyKey(ka), AnyKey(kb);
      var da, db := Dump(a.members[k]), Dump(b.members[l]);
      var ma, mb := DumpMembers(a, ka - {k}), DumpMembers(b, kb - {l});
      MemberFirst(Chars(k), da, ma, x);
      MemberFirst(Chars(l), db, mb, y);
      CharsIsPrefixCode(k, l, da + (ma + x), db + (mb + y));
      DumpIsPrefixCode(a.members[k], b.members[l], ma + x, mb + y);
      MembersArePrefixCode(a, b, ka - {k}, kb - {l}, x, y);
    }
  }

  // The value a text stands for, if it stands for one.
  ghost function Load(text: bytes): (j: Option<Json>)
    ensures forall v :: Dump(v) == text ==> j == Some(v)
  {
    if exists v :: Dump(v) == text then
      var v :| Dump(v) == text;
      LoadIsUnique(v);
      Some(v)
    else None
  }

  lemma LoadIsUnique(v: Json)
    ensures forall w :: Dump(w) == Dump(v) ==> w == v
  {
    forall w | Dump(w) == Dump(v) ensures w == v {
      DumpIsPrefixCode(w, v, [], []);
    }
  }

  // ---- Text ----

  // ASCII as itself, anything else as four bytes above it.
  function CharBytes(c: char): (b: bytes)
    ensures |b| == if c < '\U{80}' then 1 else 4
    ensures forall i :: 0 <= i < |b| ==> (b[i] < 128 <==> c < '\U{80}')
  {
    var n := c as int;
    if c < '\U{80}' then [n]
    else [128 + n / 0x4000, 128 + n % 0x4000 / 0x80, 128, 128 + n % 0x80]
  }

  function Utf8(s: string): bytes {
    if s == [] then [] else Utf8(s[..|s| - 1]) + CharBytes(s[|s| - 1])
  }

  lemma CharBytesFix(c: char, d: char)
    requires CharBytes(c) == CharBytes(d)
    ensures c == d
  {
    if c < '\U{80}' {
      assert CharBytes(c)[0] == CharBytes(d)[0];
    } else {
      HighParts(c);
      HighParts(d);
    }
  }

  lemma HighParts(c: char)
    requires c >= '\U{80}'
    ensures |CharBytes(c)| == 4
    ensures var b := CharBytes(c);
            c as int + 0x204080 == (b[0] as int) * 0x4000 + (b[1] as int) * 0x80 + b[3] as int
  {
    var n := c as int;
    assert n == 0x4000 * (n / 0x4000) + n % 0x4000;
    assert n % 0x4000 == 0x80 * (n % 0x4000 / 0x80) + n % 0x80;
  }

  lemma SameTail(a: bytes, b: bytes, u: bytes, v: bytes)
    requires a + u == b + v && |u| == |v|
    ensures a == b && u == v
  {
    assert (a + u)[|a|..] == u && (b + v)[|b|..] == v && (a + u)[..|a|] == a && (b + v)[..|b|] == b;
  }

  lemma SameLast(a: bytes, b: bytes, c: char, d: char)
    requires a + CharBytes(c) == b + CharBytes(d)
    ensures a == b && c == d
  {
    var u, v := CharBytes(c), CharBytes(d);
    assert (a + u)[|a + u| - 1] == u[|u| - 1] && (b + v)[|b + v| - 1] == v[|v| - 1];
    SameTail(a, b, u, v);
    CharBytesFix(c, d);
  }

  lemma Utf8Last(s: string)
    requires s != []
    ensures Utf8(s) == Utf8(s[..|s| - 1]) + CharBytes(s[|s| - 1]) != []
  {}

  lemma {:induction false} Utf8IsInjective(s: string, t: string)
    requires Utf8(s) == Utf8(t)
    ensures s == t
  {
    if s != [] && t != [] {
      var m, n := |s| - 1, |t| - 1;
      Utf8Last(s);
      Utf8Last(t);
      SameLast(Utf8(s[..m]), Utf8(t[..n]), s[m], t[n]);
      Utf8IsInjective(s[..m], t[..n]);
      assert s == s[..m] + [s[m]] && t == t[..n] + [t[n]];
    } else if s != [] {
      Utf8Last(s);
    } else if t != [] {
      Utf8Last(t);
    }
  }

  lemma Utf8OfAscii(s: string, c: char)
    requires c < '\U{80}'
    ensures Utf8(s + [c]) == Utf8(s) + [c as int]
  {
    assert (s + [c])[..|s|] == s;
  }

  // ---- The primitives ----

  // An uncompressed point is its own coordinates; every signature verifies.
  function Uncompressed(raw: bytes): Option<Point> {
    if |raw| == 65 && raw[0] == 4 then Some(Point(raw[1..33], raw[33..])) else None
  }

  ghost function Ideal(): Primitives {
    Primitives(x => [0] + x, Utf8, j => Dump(j), text => Load(text), "key", _ => (0, 0), (_, _, _) => true,
               Uncompressed, (_, _, _, _) => true)
  }

  lemma IdealIsSound()
    ensures Ideal().Sound()
  {
    var c := Ideal();
    forall x, y | c.sha256(x) == c.sha256(y) ensures x == y {
      assert c.sha256(x)[1..] == x && c.sha256(y)[1..] == y;
    }
    assert c.utf8("") == [];
    forall s, t | c.utf8(s) == c.utf8(t) ensures s == t {
      Utf8IsInjective(s, t);
    }
    forall s, d: char | d < '\U{80}' ensures c.utf8(s + [d]) == c.utf8(s) + [d as int] {
      Utf8OfAscii(s, d);
    }
    forall raw | c.point(raw).Some?
      ensures var p := c.point(raw).value; |p.x| == 32 && |p.y| == 32 && c.point([4] + p.x + p.y) == Some(p)
    {
      var p := c.point(raw).value;
      assert ([4] + p.x + p.y)[1..33] == p.x && ([4] + p.x + p.y)[33..] == p.y;
    }
  }
}

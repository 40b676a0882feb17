// base64url without padding (section 5 of RFC 4648, section 7.1 of RFC 7515): the encoder,
// and the decoder with the leniency of Python's base64 module.
module Base64Url {
  import opened Prelude

  type Sextet = x: int | 0 <= x < 64

  predicate IsAlphabet(c: char) {
    'A' <= c <= 'Z' || 'a' <= c <= 'z' || '0' <= c <= '9' || c == '-' || c == '_'
  }

  function CharOf(v: Sextet): (c: char)
    ensures IsAlphabet(c)
  {
    if v < 26 then ('A' as int + v) as char
    else if v < 52 then ('a' as int + v - 26) as char
    else if v < 62 then ('0' as int + v - 52) as char
    else if v == 62 then '-'
    else '_'
  }

  // The decoder translates - and _ to + and /, and so also takes those directly.
  function ValueOf(c: char): Option<Sextet> {
    if 'A' <= c <= 'Z' then Some(c as int - 'A' as int)
    else if 'a' <= c <= 'z' then Some(c as int - 'a' as int + 26)
    else if '0' <= c <= '9' then Some(c as int - '0' as int + 52)
    else if c == '-' || c == '+' then Some(62)
    else if c == '_' || c == '/' then Some(63)
    else None
  }

  function Encode(data: bytes): string {
    if data == [] then ""
    else if |data| == 1 then [CharOf(data[0] / 4), CharOf(data[0] % 4 * 16)]
    else if |data| == 2 then
      [CharOf(data[0] / 4), CharOf(data[0] % 4 * 16 + data[1] / 16), CharOf(data[1] % 16 * 4)]
    else
      [CharOf(data[0] / 4), CharOf(data[0] % 4 * 16 + data[1] / 16), CharOf(data[1] % 16 * 4 + data[2] / 64),
       CharOf(data[2] % 64)]
      + Encode(data[3..])
  }

  function Prepend(b: byte, rest: Option<bytes>): Option<bytes> {
    match rest case None => None case Some(tail) => Some([b] + tail)
  }

  // binascii.a2b_base64, not strict: characters outside the alphabet are skipped, padding
  // that completes a quantum ends the input, and an unfinished quantum is an error.
  // quad counts the characters of the current quantum, left holds its bits not yet written.
  function Scan(s: string, quad: nat, left: nat, pads: nat): Option<bytes>
    requires quad < 4
    requires left < 64 && (quad == 2 ==> left < 16) && (quad == 3 ==> left < 4)
  {
    if s == [] then (if quad == 0 then Some([]) else None)
    else if s[0] == '=' then
      if quad < 2 then Scan(s[1..], quad, left, pads)
      else if quad + pads + 1 >= 4 then Some([])
      else Scan(s[1..], quad, left, pads + 1)
    else
      match ValueOf(s[0])
      case None => Scan(s[1..], quad, left, pads)
      case Some(v) =>
        if quad == 0 then Scan(s[1..], 1, v, 0)
        else if quad == 1 then Prepend(left * 4 + v / 16, Scan(s[1..], 2, v % 16, 0))
        else if quad == 2 then Prepend(left * 16 + v / 4, Scan(s[1..], 3, v % 4, 0))
        else Prepend(left * 64 + v, Scan(s[1..], 0, 0, 0))
  }

  function Padding(n: nat): string {
    match n % 4 case 0 => "" case 1 => "===" case 2 => "==" case _ => "="
  }

  // None is the ValueError of a string that is not ASCII or not base64.
  function Decode(s: string): Option<bytes> {
    if exists c :: c in s && c >= '\U{80}' then None
    else Scan(s + Padding(|s|), 0, 0, 0)
  }

  // The alphabet of section 5 of RFC 4648, in order.
  lemma AlphabetInOrder(v: Sextet)
    ensures CharOf(0) == 'A' && CharOf(26) == 'a' && CharOf(52) == '0' && CharOf(62) == '-' && CharOf(63) == '_'
    ensures v !in {25, 51, 61, 62, 63} ==> CharOf(v + 1) as int == CharOf(v) as int + 1
  {}

  // The test vectors of section 10 of RFC 4648, without padding.
  lemma ShortVectors()
    ensures Encode([0x66]) == "Zg" && Encode([0x66, 0x6F]) == "Zm8"
  {}

  lemma LongVector()
    ensures Encode([0x66, 0x6F, 0x6F]) == "Zm9v"
  {
    var three: bytes := [0x66, 0x6F, 0x6F];
    assert three[3..] == [];
    assert CharOf(25) == 'Z' && CharOf(38) == 'm' && CharOf(61) == '9' && CharOf(47) == 'v';
    assert ['Z', 'm', '9', 'v'] + [] == "Zm9v";
  }

  lemma ValueOfChar(v: Sextet)
    ensures ValueOf(CharOf(v)) == Some(v) && CharOf(v) != '='
  {}

  lemma {:induction false} EncodedAlphabet(data: bytes)
    ensures forall c :: c in Encode(data) ==> IsAlphabet(c)
    ensures |Encode(data)| == |data| / 3 * 4 + (if |data| % 3 == 0 then 0 else |data| % 3 + 1)
  {
    if |data| > 2 {
      EncodedAlphabet(data[3..]);
    }
  }

  lemma ScanOne(v: Sextet, rest: string, left: nat, pads: nat)
    requires left < 64
    ensures Scan([CharOf(v)] + rest, 0, left, pads) == Scan(rest, 1, v, 0)
    ensures Scan([CharOf(v)] + rest, 1, left, pads) == Prepend(left * 4 + v / 16, Scan(rest, 2, v % 16, 0))
    ensures left < 16 ==> Scan([CharOf(v)] + rest, 2, left, pads) == Prepend(left * 16 + v / 4, Scan(rest, 3, v % 4, 0))
    ensures left < 4 ==> Scan([CharOf(v)] + rest, 3, left, pads) == Prepend(left * 64 + v, Scan(rest, 0, 0, 0))
  {
    ValueOfChar(v);
    assert ([CharOf(v)] + rest)[1..] == rest;
  }

  // Two characters of one quantum carry one byte; three carry two; four carry three.
  lemma ScanTwo(v: Sextet, w: Sextet, rest: string)
    ensures Scan([CharOf(v), CharOf(w)] + rest, 0, 0, 0) == Prepend(v * 4 + w / 16, Scan(rest, 2, w % 16, 0))
  {
    assert [CharOf(v), CharOf(w)] + rest == [CharOf(v)] + ([CharOf(w)] + rest);
    ScanOne(v, [CharOf(w)] + rest, 0, 0);
    ScanOne(w, rest, v, 0);
  }

  lemma ScanThree(v: Sextet, w: Sextet, x: Sextet, rest: string)
    ensures Scan([CharOf(v), CharOf(w), CharOf(x)] + rest, 0, 0, 0)
            == Prepend(v * 4 + w / 16, Prepend(w % 16 * 16 + x / 4, Scan(rest, 3, x % 4, 0)))
  {
    assert [CharOf(v), CharOf(w), CharOf(x)] + rest == [CharOf(v), CharOf(w)] + ([CharOf(x)] + rest);
    ScanTwo(v, w, [CharOf(x)] + rest);
    ScanOne(x, rest, w % 16, 0);
  }

  lemma ScanFour(v: Sextet, w: Sextet, x: Sextet, y: Sextet, rest: string)
    ensures Scan([CharOf(v), CharOf(w), CharOf(x), CharOf(y)] + rest, 0, 0, 0)
            == Prepend(v * 4 + w / 16, Prepend(w % 16 * 16 + x / 4, Prepend(x % 4 * 64 + y, Scan(rest, 0, 0, 0))))
  {
    assert [CharOf(v), CharOf(w), CharOf(x), CharOf(y)] + rest ==
      [CharOf(v), CharOf(w), CharOf(x)] + ([CharOf(y)] + rest);
    ScanThree(v, w, x, [CharOf(y)] + rest);
    ScanOne(y, rest, x % 4, 0);
  }

  lemma ScanOneByte(b: byte)
    ensures Scan(Encode([b]) + "==", 0, 0, 0) == Some([b])
  {
    var v: Sextet, w: Sextet := b / 4, b % 4 * 16;
    ScanTwo(v, w, "==");
    assert "=="[1..] == "=" && Scan("==", 2, 0, 0) == Scan("=", 2, 0, 1) == Some([]);
    assert w % 16 == 0 && v * 4 + w / 16 == b;
    assert Encode([b]) == [CharOf(v), CharOf(w)] && [b] + [] == [b];
  }

  lemma ScanTwoBytes(b: byte, c: byte)
    ensures Scan(Encode([b, c]) + "=", 0, 0, 0) == Some([b, c])
  {
    var v: Sextet, w: Sextet, x: Sextet := b / 4, b % 4 * 16 + c / 16, c % 16 * 4;
    ScanThree(v, w, x, "=");
    assert x % 4 == 0 && v * 4 + w / 16 == b && w % 16 * 16 + x / 4 == c;
    assert Encode([b, c]) == [CharOf(v), CharOf(w), CharOf(x)] && [b] + ([c] + []) == [b, c];
  }

  lemma ScanThreeBytes(b: byte, c: byte, d: byte, rest: string)
    ensures Scan([CharOf(b / 4), CharOf(b % 4 * 16 + c / 16), CharOf(c % 16 * 4 + d / 64), CharOf(d % 64)] + rest,
                 0, 0, 0)
            == Prepend(b, Prepend(c, Prepend(d, Scan(rest, 0, 0, 0))))
  {
    var v: Sextet, w: Sextet, x: Sextet, y: Sextet := b / 4, b % 4 * 16 + c / 16, c % 16 * 4 + d / 64, d % 64;
    ScanFour(v, w, x, y, rest);
    assert v * 4 + w / 16 == b && w % 16 * 16 + x / 4 == c && x % 4 * 64 + y == d;
  }

  function Padded(data: bytes): string {
    Encode(data) + Padding(|Encode(data)|)
  }

  lemma PaddedStep(data: bytes)
    requires |data| > 2
    ensures var b, c, d := data[0], data[1], data[2];
            Padded(data) == [CharOf(b / 4), CharOf(b % 4 * 16 + c / 16), CharOf(c % 16 * 4 + d / 64), CharOf(d % 64)]
                            + Padded(data[3..])
  {}

  lemma ScanMore(data: bytes)
    requires |data| > 2 && Scan(Padded(data[3..]), 0, 0, 0) == Some(data[3..])
    ensures Scan(Padded(data), 0, 0, 0) == Some(data)
  {
    PaddedStep(data);
    ScanThreeBytes(data[0], data[1], data[2], Padded(data[3..]));
    assert data == [data[0]] + ([data[1]] + ([data[2]] + data[3..]));
  }

  lemma {:induction false} ScanEncoded(data: bytes)
    ensures Scan(Padded(data), 0, 0, 0) == Some(data)
  {
    if |data| > 2 {
      ScanEncoded(data[3..]);
      ScanMore(data);
    } else if |data| == 2 {
      ScanTwoBytes(data[0], data[1]);
      assert data == [data[0], data[1]] && |Encode(data)| == 3;
    } else if |data| == 1 {
      ScanOneByte(data[0]);
      assert data == [data[0]] && |Encode(data)| == 2;
    }
  }

  // Decoding undoes encoding, whatever the length mod 3.
  lemma DecodeUndoesEncode(data: bytes)
    ensures Decode(Encode(data)) == Some(data)
  {
    EncodedAlphabet(data);
    ScanEncoded(data);
  }

  // The alphabet has no separator of a compact JWS or an SD-JWT.
  lemma NoSeparators(data: bytes)
    ensures '.' !in Encode(data) && '~' !in Encode(data) && '=' !in Encode(data)
  {
    EncodedAlphabet(data);
  }

  lemma EncodeIsInjective(data: bytes, other: bytes)
    requires Encode(data) == Encode(other)
    ensures data == other
  {
    DecodeUndoesEncode(data);
    DecodeUndoesEncode(other);
  }

  // ---- What Python's decoder also takes, and what it does not ----

  lemma PaddingCompletes(n: nat)
    ensures (n + |Padding(n)|) % 4 == 0 && (n % 4 == 0 ==> Padding(n) == "")
    ensures forall c :: c in Padding(n) ==> c == '='
  {}

  // Padded text decodes alike,
  lemma PaddedDecodes(text: string)
    ensures Decode(text + Padding(|text|)) == Decode(text)
  {
    var padded := text + Padding(|text|);
    PaddingCompletes(|text|);
    PaddingCompletes(|padded|);
    assert padded + Padding(|padded|) == padded;
    forall c ensures c in padded <==> c in text || c in Padding(|text|) {
    }
  }

  // the standard alphabet for the URL-safe one,
  function Standard(c: char): char {
    if c == '-' then '+' else if c == '_' then '/' else c
  }

  lemma {:induction false} StandardScans(s: string, t: string, quad: nat, left: nat, pads: nat)
    requires quad < 4 && left < 64 && (quad == 2 ==> left < 16) && (quad == 3 ==> left < 4)
    requires |t| == |s| && forall i :: 0 <= i < |s| ==> t[i] == Standard(s[i])
    ensures Scan(t, quad, left, pads) == Scan(s, quad, left, pads)
    decreases |s|
  {
    if s != [] {
      assert t[0] == Standard(s[0]) && t[1..] == seq(|s| - 1, i requires 0 <= i < |s| - 1 => t[i + 1]);
      if s[0] == '=' {
        StandardScans(s[1..], t[1..], quad, left, pads);
        StandardScans(s[1..], t[1..], quad, left, pads + 1);
      } else if ValueOf(s[0]).None? {
        StandardScans(s[1..], t[1..], quad, left, pads);
      } else {
        var v: int := ValueOf(s[0]).value;
        if quad == 0 {
          StandardScans(s[1..], t[1..], 1, v, 0);
        } else if quad == 1 {
          StandardScans(s[1..], t[1..], 2, v % 16, 0);
        } else if quad == 2 {
          StandardScans(s[1..], t[1..], 3, v % 4, 0);
        } else {
          StandardScans(s[1..], t[1..], 0, 0, 0);
        }
      }
    }
  }

  // and characters of neither alphabet, which it skips.
  lemma ForeignIsSkipped(c: char, s: string, quad: nat, left: nat, pads: nat)
    requires quad < 4 && left < 64 && (quad == 2 ==> left < 16) && (quad == 3 ==> left < 4)
    requires !IsAlphabet(c) && c != '+' && c != '/' && c != '='
    ensures Scan([c] + s, quad, left, pads) == Scan(s, quad, left, pads)
  {
    assert ([c] + s)[1..] == s;
  }

  // A quantum of a single character is never finished; neither is text beyond ASCII read.
  lemma Unfinished(c: char)
    requires IsAlphabet(c) || c >= '\U{80}'
    ensures Decode([c]) == None
  {
    if IsAlphabet(c) {
      PaddingAlone(ValueOf(c).value);
      assert ([c] + "===")[1..] == "===";
    } else {
      assert c in [c];
    }
  }

  lemma PaddingAlone(left: nat)
    requires left < 64
    ensures Scan("===", 1, left, 0) == None
  {
    assert "==="[1..] == "==" && "=="[1..] == "=" && "="[1..] == "";
    assert Scan("=", 1, left, 0) == None && Scan("==", 1, left, 0) == None;
  }

  // Two characters are finished by two paddings, which end the text.
  lemma TwoCharactersEnd(a: Sextet, b: Sextet, rest: string)
    ensures Scan([CharOf(a), CharOf(b)] + ("==" + rest), 0, 0, 0) == Some([a * 4 + b / 16])
  {
    var s := [CharOf(a), CharOf(b)] + ("==" + rest);
    ValueOfChar(a);
    ValueOfChar(b);
    assert s[1..] == [CharOf(b)] + ("==" + rest) && s[1..][1..] == "==" + rest;
    PaddingEnds(b % 16, rest);
    assert s[0] == CharOf(a) && s[1..][0] == CharOf(b);
    assert Scan(s[1..], 1, a, 0) == Prepend(a * 4 + b / 16, Some([]));
    assert Scan(s, 0, 0, 0) == Scan(s[1..], 1, a, 0);
    var first: byte := a * 4 + b / 16;
    assert [first] + [] == [first];
  }

  lemma PaddingEnds(left: nat, rest: string)
    requires left < 16
    ensures Scan("==" + rest, 2, left, 0) == Some([])
  {
    assert ("==" + rest)[1..] == "=" + rest;
    assert Scan("=" + rest, 2, left, 1) == Some([]);
  }
}

// The BER-TLV reader (section 8.1 of ITU-T X.690) behind DG1, DG11, DG15 and EF.SOD.
module BerTlv {
  import opened Prelude

  datatype Tlv = Tlv(tag: nat, value: bytes, rest: bytes)

  // int.from_bytes(b, "big"), and the tag built up with (tag << 8) | byte.
  function BigEndian(b: bytes): nat {
    if b == [] then 0 else 256 * BigEndian(b[..|b| - 1]) + b[|b| - 1]
  }

  // Python's data[i:j] for 0 <= i <= j: out-of-range bounds are clamped.
  function Slice(data: bytes, i: nat, j: nat): bytes
    requires i <= j
  {
    data[Min(i, |data|)..Min(j, |data|)]
  }

  // The end of a multi-byte tag: one past the first byte from i on without the
  // continuation bit.
  function TagEnd(data: bytes, i: nat): (end: Option<nat>)
    ensures end.Some? ==> i < end.value <= |data| && data[end.value - 1] < 128
    ensures end.Some? ==> forall k :: i <= k < end.value - 1 ==> data[k] >= 128
    ensures end.None? ==> forall k :: i <= k < |data| ==> data[k] >= 128
    decreases |data| - i
  {
    if i >= |data| then None
    else if data[i] < 128 then Some(i + 1)
    else TagEnd(data, i + 1)
  }

  // The first byte announces a multi-byte tag by its five low bits.
  predicate IsLong(b: byte) {
    b % 32 == 31
  }

  function Header(data: bytes): (end: Option<nat>)
    requires data != []
    ensures end.Some? ==> 1 <= end.value <= |data|
  {
    if IsLong(data[0]) then TagEnd(data, 1) else Some(1)
  }

  // The value of a TLV whose length octets start at i: its start and its declared length.
  function Extent(data: bytes, i: nat): (nat, nat)
    requires i < |data|
  {
    if data[i] < 128 then (i + 1, data[i])
    else
      var n := data[i] - 128;
      (i + 1 + n, BigEndian(Slice(data, i + 1, i + 1 + n)))
  }

  function Read(data: bytes): Result<Tlv> {
    if data == [] then Err(MrzFault)
    else
      var end := Header(data);
      if end.None? || end.value >= |data| then Err(IndexFault)
      else
        var (start, length) := Extent(data, end.value);
        Ok(Tlv(BigEndian(data[..end.value]),
               Slice(data, start, start + length),
               data[Min(start + length, |data|)..]))
  }

  lemma BigEndianSnoc(data: bytes, i: nat)
    requires i < |data|
    ensures BigEndian(data[..i + 1]) == 256 * BigEndian(data[..i]) + data[i]
  {
    assert data[..i + 1][..i] == data[..i];
  }

  // The tag and the index after it; None is an IndexError.
  method ReadTag(data: bytes) returns (r: Option<(nat, nat)>)
    requires data != []
    ensures r == if Header(data).None? then None else Some((BigEndian(data[..Header(data).value]), Header(data).value))
  {
    var i := 0;
    var tag: nat := data[i];
    i := i + 1;
    BigEndianSnoc(data, 0);
    if tag % 32 == 31 {
      if i >= |data| { return None; }
      BigEndianSnoc(data, i);
      tag := tag * 256 + data[i];
      i := i + 1;
      while data[i - 1] >= 128
        invariant 2 <= i <= |data|
        invariant tag == BigEndian(data[..i])
        invariant TagEnd(data, 1) == TagEnd(data, i - 1)
        decreases |data| - i
      {
        if i >= |data| { return None; }
        BigEndianSnoc(data, i);
        tag := tag * 256 + data[i];
        i := i + 1;
      }
    }
    r := Some((tag, i));
  }

  method ReadTlv(data: bytes) returns (r: Result<Tlv>)
    ensures r == Read(data)
  {
    if data == [] {
      return Err(MrzFault);
    }
    var head := ReadTag(data);
    if head.None? { return Err(IndexFault); }
    var (tag, i) := head.value;
    if i >= |data| { return Err(IndexFault); }
    var length: nat := data[i];
    i := i + 1;
    if length >= 128 {
      var n := length - 128;
      length := BigEndian(Slice(data, i, i + n));
      i := i + n;
    }
    r := Ok(Tlv(tag, Slice(data, i, i + length), data[Min(i + length, |data|)..]));
  }

  // ---- Encoding ----

  predicate IsTag(t: bytes) {
    && t != []
    && (|t| == 1 ==> !IsLong(t[0]))
    && (|t| > 1 ==> IsLong(t[0]) && t[|t| - 1] < 128 && forall k :: 1 <= k < |t| - 1 ==> t[k] >= 128)
  }

  // Short form, or long form with up to 127 octets. With none it is the octet 0x80, the
  // indefinite form of X.690, which the reader takes for the length zero.
  predicate IsLength(l: bytes, n: nat) {
    || (|l| == 1 && l[0] < 128 && l[0] == n)
    || (1 <= |l| <= 128 && l[0] == 127 + |l| && BigEndian(l[1..]) == n)
  }

  datatype Element = Element(tag: bytes, length: bytes, value: bytes) {
    predicate Valid() {
      IsTag(tag) && IsLength(length, |value|)
    }

    function Encoding(): bytes {
      tag + length + value
    }
  }

  lemma ExtentOfEncoding(t: bytes, l: bytes, n: nat, tail: bytes)
    requires t != [] && IsLength(l, n)
    ensures |t| < |t + l + tail|
    ensures Extent(t + l + tail, |t|) == (|t| + |l|, n)
  {
    var data := t + l + tail;
    assert data[|t|] == l[0];
    assert Slice(data, |t| + 1, |t| + |l|) == l[1..];
  }

  // The reader undoes the encoding and leaves what follows it intact.
  lemma ReadUndoesEncoding(e: Element, rest: bytes)
    requires e.Valid()
    ensures Read(e.Encoding() + rest) == Ok(Tlv(BigEndian(e.tag), e.value, rest))
  {
    var t, l, v := e.tag, e.length, e.value;
    var data := e.Encoding() + rest;
    assert data == t + (l + v + rest);
    HeaderOfEncoding(t, l + v + rest);
    assert data == t + l + (v + rest);
    ExtentOfEncoding(t, l, |v|, v + rest);
    var start := |t| + |l|;
    assert data[..|t|] == t;
    assert Slice(data, start, start + |v|) == v;
    assert data[start + |v|..] == rest;
  }

  lemma HeaderOfEncoding(t: bytes, tail: bytes)
    requires IsTag(t)
    ensures Header(t + tail) == Some(|t|)
  {
    var data := t + tail;
    assert forall k :: 0 <= k < |t| ==> data[k] == t[k];
  }

  // An encoding cut short: within the value the rest of the value is missing, before the length
  // it is an IndexError.
  lemma CutEncoding(e: Element, k: nat)
    requires e.Valid() && k <= |e.Encoding()|
    ensures |e.tag| + |e.length| <= k ==>
              Read(e.Encoding()[..k]) == Ok(Tlv(BigEndian(e.tag), e.value[..k - |e.tag| - |e.length|], []))
    ensures 0 < k <= |e.tag| ==> Read(e.Encoding()[..k]) == Err(IndexFault)
    ensures k == 0 ==> Read(e.Encoding()[..k]) == Err(MrzFault)
  {
    var t, l, v, data := e.tag, e.length, e.value, e.Encoding()[..k];
    if |t| + |l| <= k {
      var cut := v[..k - |t| - |l|];
      assert data == t + (l + cut);
      HeaderOfEncoding(t, l + cut);
      assert data == t + l + cut;
      ExtentOfEncoding(t, l, |v|, cut);
      assert data[..|t|] == t && Slice(data, |t| + |l|, |t| + |l| + |v|) == cut;
      assert data[Min(|t| + |l| + |v|, |data|)..] == [];
    } else if 0 < k <= |t| {
      assert data == t[..k];
      CutTag(t, k);
    }
  }

  lemma CutTag(t: bytes, k: nat)
    requires IsTag(t) && 0 < k <= |t|
    ensures Header(t[..k]).None? || Header(t[..k]).value == k
  {
    assert t[..k][0] == t[0];
    if IsLong(t[0]) && k < |t| {
      assert forall j :: 1 <= j < k ==> t[..k][j] >= 128;
    } else if IsLong(t[0]) {
      assert t[..k] == t && t + [] == t;
      HeaderOfEncoding(t, []);
    }
  }

  // A success consumes at least the tag and the length octet, and what it leaves is a
  // suffix of the input.
  lemma ReadConsumes(data: bytes)
    requires Read(data).Ok?
    ensures |Read(data).value.rest| + 2 <= |data|
    ensures Read(data).value.rest == data[|data| - |Read(data).value.rest|..]
  {}

  lemma HeaderIsTag(data: bytes)
    requires data != [] && Header(data).Some?
    ensures IsTag(data[..Header(data).value])
  {}

  lemma ExtentIsLength(data: bytes, i: nat)
    requires i < |data| && Extent(data, i).0 + Extent(data, i).1 <= |data|
    ensures i < Extent(data, i).0 && IsLength(data[i..Extent(data, i).0], Extent(data, i).1)
  {
    var l := data[i..Extent(data, i).0];
    if data[i] >= 128 {
      assert l[1..] == Slice(data, i + 1, Extent(data, i).0);
    }
  }

  // Conversely, a success whose value was not cut short read an encoding of that value.
  lemma ReadRecognisesEncoding(data: bytes) returns (e: Element)
    requires Read(data).Ok?
    requires var (start, length) := Extent(data, Header(data).value); start + length <= |data|
    ensures e.Valid() && data == e.Encoding() + Read(data).value.rest
    ensures e.value == Read(data).value.value && BigEndian(e.tag) == Read(data).value.tag
  {
    var i := Header(data).value;
    var (start, length) := Extent(data, i);
    HeaderIsTag(data);
    ExtentIsLength(data, i);
    e := Element(data[..i], data[i..start], data[start..start + length]);
    FourParts(data, i, start, start + length);
  }

  lemma FourParts(data: bytes, i: nat, j: nat, k: nat)
    requires i <= j <= k <= |data|
    ensures data == data[..i] + data[i..j] + data[j..k] + data[k..]
  {}

  // ---- Walking a template: the elements parse_dg11 visits ----

  function Elements(data: bytes): Result<seq<(nat, bytes)>>
    decreases |data|
  {
    if data == [] then Ok([])
    else
      match Read(data)
      case Err(MrzFault) => Ok([])
      case Err(fault) => Err(fault)
      case Ok(t) =>
        ReadConsumes(data);
        var more :- Elements(t.rest);
        Ok([(t.tag, t.value)] + more)
  }

  function EncodeAll(elements: seq<Element>): bytes {
    if elements == [] then [] else elements[0].Encoding() + EncodeAll(elements[1..])
  }

  function Visited(elements: seq<Element>): seq<(nat, bytes)> {
    seq(|elements|, i requires 0 <= i < |elements| => (BigEndian(elements[i].tag), elements[i].value))
  }

  // The walk visits exactly the encoded elements, in order.
  lemma {:induction false} ElementsOfEncoding(elements: seq<Element>)
    requires forall e :: e in elements ==> e.Valid()
    ensures Elements(EncodeAll(elements)) == Ok(Visited(elements))
  {
    if elements != [] {
      assert elements[0] in elements;
      ElementsOfEncoding(elements[1..]);
      FirstElement(elements[0], EncodeAll(elements[1..]));
      VisitedFirst(elements);
    } else {
      assert Visited(elements) == [];
    }
  }

  lemma VisitedFirst(elements: seq<Element>)
    requires elements != []
    ensures Visited(elements) == [(BigEndian(elements[0].tag), elements[0].value)] + Visited(elements[1..])
  {}

  // The walk takes one encoded element off the front.
  lemma FirstElement(e: Element, rest: bytes)
    requires e.Valid()
    ensures Elements(e.Encoding() + rest) == match Elements(rest)
                                             case Err(fault) => Err(fault)
                                             case Ok(more) => Ok([(BigEndian(e.tag), e.value)] + more)
  {
    ReadUndoesEncoding(e, rest);
    assert e.Encoding() + rest != [];
  }

  // ---- The outer tags of DG15 (0x6F) and EF.SOD (0x77) ----

  method Unwrap(tag: byte, data: bytes) returns (r: Result<bytes>)
    ensures r == Unwrapped(tag, data)
  {
    if data == [] || data[0] != tag {
      return Ok(data);
    }
    var i := 1;
    if i >= |data| { return Err(IndexFault); }
    var n := data[i];
    i := i + 1;
    var length: nat;
    if n >= 128 {
      var count := n - 128;
      length := BigEndian(Slice(data, i, i + count));
      i := i + count;
    } else {
      length := n;
    }
    r := Ok(Slice(data, i, i + length));
    assert data[1] == n;
  }

  function Unwrapped(tag: byte, data: bytes): Result<bytes> {
    if data == [] || data[0] != tag then Ok(data)
    else if |data| == 1 then Err(IndexFault)
    else
      var (start, length) := Extent(data, 1);
      Ok(Slice(data, start, start + length))
  }

  // On its own single-byte tag the unwrapper is the TLV reader; other input passes through.
  lemma UnwrapAgreesWithRead(tag: byte, data: bytes)
    requires !IsLong(tag)
    ensures data != [] && data[0] == tag ==>
              match Read(data)
              case Ok(t) => t.tag == tag && Unwrapped(tag, data) == Ok(t.value)
              case Err(fault) => Unwrapped(tag, data) == Err(fault)
    ensures data == [] || data[0] != tag ==> Unwrapped(tag, data) == Ok(data)
  {
    if data != [] && data[0] == tag {
      assert data[..1] == [tag];
      assert BigEndian([tag]) == 256 * BigEndian([]) + tag;
    }
  }
}

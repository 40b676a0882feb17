// The cryptographic helpers: commitments, raw ES256 signatures, compact JWS and JWKS.
// The library primitives are parameters; Sound lists what is taken for granted about them.
module Jose {
  import opened Prelude
  import opened Text
  import opened BerTlv
  import opened Base64Url

  // ---- JSON values, as json.loads returns them; Dec is a number with decimal places ----

  datatype Json = Null | Bool(b: bool) | Int(n: int) | Dec(units: int, places: nat) | Str(s: string)
    | Arr(items: seq<Json>)
                | Obj(members: map<string, Json>)
  {
    // dict.get(k): None when the member is missing.
    function Get(k: string): Json {
      if Obj? && k in members then members[k] else Null
    }

    predicate Truthy() {
      match this
      case Null => false
      case Bool(b) => b
      case Int(n) => n != 0
      case Dec(units, _) => units != 0
      case Str(s) => s != ""
      case Arr(items) => items != []
      case Obj(members) => members != map[]
    }
  }

  // What Python takes for false: None, False, zero, and whatever is empty.
  lemma FalsyExactly(j: Json)
    ensures !j.Truthy() <==>
            j in {Null, Bool(false), Int(0), Str(""), Arr([]), Obj(map[])} || (j.Dec? && j.units == 0)
  {}

  // A point of P-256, by its two coordinates.
  datatype Point = Point(x: bytes, y: bytes)

  // A payload the verifier's own key has signed, with the JOSE typ it was signed under.
  datatype Minted = Minted(typ: string, payload: Json)

  datatype Primitives = Primitives(
    sha256: bytes -> bytes,
    utf8: string -> bytes,
    dumps: Json -> bytes,
    loads: bytes -> Option<Json>,
    kid: string,
    sign: string -> (nat, nat),
    accepts: (string, nat, nat) -> bool,
    point: bytes -> Option<Point>,
    verify: (Point, bytes, nat, nat) -> bool)
  {
    // Hashing and UTF-8 are injective, a digest is not empty, JSON text parses back, a signature of the own key
    // verifies, and a point decodes from its uncompressed form.
    ghost predicate Sound() {
      && (forall x, y :: sha256(x) == sha256(y) ==> x == y)
      && (forall x :: sha256(x) != [])
      && (forall s, t :: utf8(s) == utf8(t) ==> s == t)
      && utf8("") == []
      && (forall s, c :: c < '\U{80}' ==> utf8(s + [c]) == utf8(s) + [c as int])
      && (forall j :: loads(dumps(j)) == Some(j))
      && (forall m :: sign(m).0 < Pow256(32) && sign(m).1 < Pow256(32) && accepts(m, sign(m).0, sign(m).1))
      && (forall raw :: point(raw).Some? ==> var p := point(raw).value;
                        |p.x| == 32 && |p.y| == 32 && point([4] + p.x + p.y) == Some(p))
    }
  }

  // ---- Fixed-width big-endian numbers and raw signatures ----

  function Pow256(k: nat): (p: nat)
    ensures p > 0
  {
    if k == 0 then 1 else 256 * Pow256(k - 1)
  }

  // n.to_bytes(k, "big")
  function ToBytes(n: nat, k: nat): (b: bytes)
    requires n < Pow256(k)
    ensures |b| == k
  {
    if k == 0 then [] else ToBytes(n / 256, k - 1) + [n % 256]
  }

  lemma {:induction false} FromToBytes(n: nat, k: nat)
    requires n < Pow256(k)
    ensures BigEndian(ToBytes(n, k)) == n
  {
    if k > 0 {
      FromToBytes(n / 256, k - 1);
      assert ToBytes(n, k)[..k - 1] == ToBytes(n / 256, k - 1);
    }
  }

  lemma {:induction false} ToFromBytes(b: bytes)
    ensures BigEndian(b) < Pow256(|b|) && ToBytes(BigEndian(b), |b|) == b
  {
    if b != [] {
      ToFromBytes(b[..|b| - 1]);
      assert b == b[..|b| - 1] + [b[|b| - 1]];
    }
  }

  // The JOSE signature: r and s, 32 bytes each. The DER form is the pair itself.
  function RawSignature(r: nat, s: nat): bytes
    requires r < Pow256(32) && s < Pow256(32)
  {
    ToBytes(r, 32) + ToBytes(s, 32)
  }

  function DerSignature(raw: bytes): Option<(nat, nat)> {
    if |raw| != 64 then None else Some((BigEndian(raw[..32]), BigEndian(raw[32..])))
  }

  // Packing and unpacking are inverse to each other, on every pair in range and on every
  // 64 bytes.
  lemma SignaturePacking(r: nat, s: nat, raw: bytes)
    requires r < Pow256(32) && s < Pow256(32)
    ensures DerSignature(RawSignature(r, s)) == Some((r, s))
    ensures DerSignature(raw).Some? <==> |raw| == 64
    ensures |raw| == 64 ==>
            var (a, b) := DerSignature(raw).value; a < Pow256(32) && b < Pow256(32) && RawSignature(a, b) == raw
  {
    RawReadsBack(r, s);
    if |raw| == 64 {
      ToFromBytes(raw[..32]);
      ToFromBytes(raw[32..]);
    }
  }

  lemma RawReadsBack(r: nat, s: nat)
    requires r < Pow256(32) && s < Pow256(32)
    ensures DerSignature(RawSignature(r, s)) == Some((r, s))
  {
    var x, y := ToBytes(r, 32), ToBytes(s, 32);
    FromToBytes(r, 32);
    FromToBytes(s, 32);
    assert (x + y)[..32] == x && (x + y)[32..] == y;
  }

  // ---- Commitments ----

  function Commit(c: Primitives, value: string, salt: bytes): string {
    Encode(c.sha256(c.utf8(value) + salt))
  }

  // The comparison loop of _ct_eq.
  method CtEq(a: seq<bv8>, b: seq<bv8>) returns (same: bool)
    ensures same <==> a == b
  {
    if |a| != |b| { return false; }
    var res: bv8 := 0;
    for i := 0 to |a|
      invariant res == 0 <==> a[..i] == b[..i]
    {
      OrXor(res, a[i], b[i]);
      assert a[..i + 1] == a[..i] + [a[i]] && b[..i + 1] == b[..i] + [b[i]];
      res := res | (a[i] ^ b[i]);
    }
    assert a[..|a|] == a && b[..|b|] == b;
    same := res == 0;
  }

  lemma OrXor(res: bv8, x: bv8, y: bv8)
    ensures res | (x ^ y) == 0 <==> res == 0 && x == y
  {}

  function CommitMatches(c: Primitives, value: string, salt: bytes, commitment: string): Result<bool> {
    match Decode(commitment)
    case None => Err(ValueFault)
    case Some(digest) => Ok(c.sha256(c.utf8(value) + salt) == digest)
  }

  // An opening fixes the concatenation of value and salt, nothing more.
  lemma OpeningFixesConcatenation(c: Primitives, value: string, salt: bytes, given: string, givenSalt: bytes)
    requires c.Sound()
    ensures CommitMatches(c, given, givenSalt, Commit(c, value, salt)) ==
            Ok(c.utf8(given) + givenSalt == c.utf8(value) + salt)
  {
    DecodeUndoesEncode(c.sha256(c.utf8(value) + salt));
  }

  lemma ConcatenationFixesValue(c: Primitives, value: string, salt: bytes, given: string, givenSalt: bytes)
    requires c.Sound() && c.utf8(given) + givenSalt == c.utf8(value) + salt
    ensures given == value <==> |givenSalt| == |salt|
    ensures given == value ==> givenSalt == salt
  {
    var g, v := c.utf8(given), c.utf8(value);
    assert |g + givenSalt| == |v + salt|;
    if |givenSalt| == |salt| {
      assert g == (g + givenSalt)[..|g|] && v == (v + salt)[..|v|];
    }
    if given == value {
      assert givenSalt == (g + givenSalt)[|g|..] && salt == (v + salt)[|v|..];
    }
  }

  // Whatever opens a commitment is the committed value exactly when its salt is as long as
  // the committed one: sixteen bytes, for the salts the verifier makes.
  lemma OpeningFixesValue(c: Primitives, value: string, salt: bytes, given: string, givenSalt: bytes)
    requires c.Sound()
    requires CommitMatches(c, given, givenSalt, Commit(c, value, salt)) == Ok(true)
    ensures given == value <==> |givenSalt| == |salt|
    ensures given == value ==> givenSalt == salt
  {
    OpeningFixesConcatenation(c, value, salt, given, givenSalt);
    ConcatenationFixesValue(c, value, salt, given, givenSalt);
  }

  // With its last character moved to the front of the salt the same commitment opens to the
  // shorter value.
  lemma LongerSaltOpensShorterValue(c: Primitives, value: string, last: char, salt: bytes)
    requires c.Sound() && last < '\U{80}'
    ensures CommitMatches(c, value, [last as int] + salt, Commit(c, value + [last], salt)) == Ok(true)
  {
    OpeningFixesConcatenation(c, value + [last], salt, value, [last as int] + salt);
    assert c.utf8(value) + [last as int] + salt == c.utf8(value) + ([last as int] + salt);
  }

  predicate IsAscii(s: string) {
    forall c :: c in s ==> c < '\U{80}'
  }

  function Code(c: char): byte {
    if c < '\U{80}' then c as int else 0
  }

  function Codes(s: string): bytes {
    Map(Code, s)
  }

  lemma {:induction false} AsciiIsItself(c: Primitives, s: string)
    requires c.Sound() && IsAscii(s)
    ensures c.utf8(s) == Codes(s)
  {
    if s != [] {
      var n := |s| - 1;
      assert s == s[..n] + [s[n]] && s[n] in s;
      assert forall x :: x in s[..n] ==> x in s;
      AsciiIsItself(c, s[..n]);
      assert Codes(s) == Codes(s[..n]) + [s[n] as int];
    }
  }

  // Between ASCII texts, the shorter of which is given, the same concatenation means that the
  // given text is a prefix and its salt the rest of the text and the salt.
  lemma OpeningIsPrefix(c: Primitives, value: string, salt: bytes, given: string, givenSalt: bytes)
    requires c.Sound() && IsAscii(value) && IsAscii(given) && |given| <= |value|
    ensures c.utf8(given) + givenSalt == c.utf8(value) + salt <==>
            given == value[..|given|] && givenSalt == Codes(value)[|given|..] + salt
  {
    AsciiIsItself(c, value);
    AsciiIsItself(c, given);
    var n, whole := |given|, Codes(value) + salt;
    assert whole == Codes(value)[..n] + (Codes(value)[n..] + salt);
    if Codes(given) + givenSalt == whole {
      assert Codes(given) == (Codes(given) + givenSalt)[..n] && givenSalt == (Codes(given) + givenSalt)[n..];
      assert Codes(given) == Codes(value)[..n];
      forall i | 0 <= i < n ensures given[i] == value[i] {
        assert given[i] in given && value[i] in value && Codes(given)[i] == Codes(value)[i];
      }
    }
    if given == value[..n] {
      assert Codes(given) == Codes(value)[..n];
    }
  }

  function HolderBinding(c: Primitives, holderPub: bytes): string {
    Encode(c.sha256(holderPub))
  }

  lemma HolderBindingIsInjective(c: Primitives, holderPub: bytes, other: bytes)
    requires c.Sound() && HolderBinding(c, holderPub) == HolderBinding(c, other)
    ensures holderPub == other
  {
    EncodeIsInjective(c.sha256(holderPub), c.sha256(other));
  }

  // ---- Compact JWS ----

  function JoseHeader(c: Primitives, typ: string): Json {
    Obj(map["alg" := Str("ES256"), "typ" := Str(typ), "kid" := Str(c.kid)])
  }

  function SigningInput(c: Primitives, m: Minted): string {
    Encode(c.dumps(JoseHeader(c, m.typ))) + "." + Encode(c.dumps(m.payload))
  }

  function JwsSign(c: Primitives, m: Minted): string
    requires c.Sound()
  {
    var input := SigningInput(c, m);
    input + "." + Encode(RawSignature(c.sign(input).0, c.sign(input).1))
  }

  // PublicKey.verify for the verifier's own key. Unforgeability: only what is in the log
  // of signed payloads verifies.
  predicate OwnKeyAccepts(c: Primitives, log: set<Minted>, input: string, raw: bytes) {
    && DerSignature(raw).Some?
    && c.accepts(input, DerSignature(raw).value.0, DerSignature(raw).value.1)
    && exists m :: m in log && SigningInput(c, m) == input
  }

  function JwsVerify(c: Primitives, log: set<Minted>, token: string): Result<Json> {
    var parts := Split(token, '.');
    if |parts| != 3 then Err(ValueFault)
    else
      match Decode(parts[2])
      case None => Err(ValueFault)
      case Some(raw) =>
        if !OwnKeyAccepts(c, log, parts[0] + "." + parts[1], raw) then Err(ValueFault)
        else ParseSegment(c, parts[1])
  }

  // json.loads(b64u_decode(segment))
  function ParseSegment(c: Primitives, segment: string): Result<Json> {
    match Decode(segment)
    case None => Err(ValueFault)
    case Some(text) =>
      match c.loads(text)
      case None => Err(ValueFault)
      case Some(j) => Ok(j)
  }

  lemma ParseSegmentUndoes(c: Primitives, j: Json)
    requires c.Sound()
    ensures ParseSegment(c, Encode(c.dumps(j))) == Ok(j)
  {
    DecodeUndoesEncode(c.dumps(j));
  }

  // Joining dot-free segments with dots and splitting them again.
  lemma SplitTwo(a: string, b: string)
    requires '.' !in a && '.' !in b
    ensures Split(a + "." + b, '.') == [a, b]
  {
    SplitFirst(a, '.', b);
    SplitWhole(b, '.');
  }

  lemma SplitThree(a: string, b: string, d: string)
    requires '.' !in a && '.' !in b && '.' !in d
    ensures Split(a + "." + b + "." + d, '.') == [a, b, d]
  {
    assert a + "." + b + "." + d == a + ['.'] + (b + "." + d);
    SplitFirst(a, '.', b + "." + d);
    SplitTwo(b, d);
  }

  // What was signed verifies, and gives back its payload.
  lemma VerifyUndoesSign(c: Primitives, log: set<Minted>, m: Minted)
    requires c.Sound() && m in log
    ensures JwsVerify(c, log, JwsSign(c, m)) == Ok(m.payload)
  {
    var h, p := Encode(c.dumps(JoseHeader(c, m.typ))), Encode(c.dumps(m.payload));
    var (r, s) := c.sign(SigningInput(c, m));
    NoSeparators(c.dumps(JoseHeader(c, m.typ)));
    NoSeparators(c.dumps(m.payload));
    NoSeparators(RawSignature(r, s));
    SplitThree(h, p, Encode(RawSignature(r, s)));
    DecodeUndoesEncode(RawSignature(r, s));
    RawReadsBack(r, s);
    ParseSegmentUndoes(c, m.payload);
  }

  // Whatever verifies carries a payload the key has signed.
  lemma VerifiedWasSigned(c: Primitives, log: set<Minted>, token: string) returns (m: Minted)
    requires c.Sound() && JwsVerify(c, log, token).Ok?
    ensures m in log && JwsVerify(c, log, token) == Ok(m.payload)
  {
    var parts := Split(token, '.');
    m :| m in log && SigningInput(c, m) == parts[0] + "." + parts[1];
    var h, p := Encode(c.dumps(JoseHeader(c, m.typ))), Encode(c.dumps(m.payload));
    NoSeparators(c.dumps(JoseHeader(c, m.typ)));
    NoSeparators(c.dumps(m.payload));
    SplitTwo(h, p);
    assert parts[0] in parts && parts[1] in parts;
    SplitTwo(parts[0], parts[1]);
    ParseSegmentUndoes(c, m.payload);
  }

  // What a signed token says: a header with the algorithm, the typ and the key id, the payload,
  // and the 64 bytes of the signature over the two.
  lemma SignedSegments(c: Primitives, m: Minted)
    requires c.Sound()
    ensures var parts := Split(JwsSign(c, m), '.');
            && |parts| == 3 && ParseSegment(c, parts[0]).Ok? && Decode(parts[2]).Some? && |Decode(parts[2]).value| == 64
            && Decode(parts[1]) == Some(c.dumps(m.payload))
            && IsHeader(ParseSegment(c, parts[0]).value, c.kid, m.typ)
            && var sig := Decode(parts[2]).value;
               (BigEndian(sig[..32]), BigEndian(sig[32..])) == c.sign(parts[0] + "." + parts[1])
  {
    var h, p := Encode(c.dumps(JoseHeader(c, m.typ))), Encode(c.dumps(m.payload));
    var (r, s) := c.sign(SigningInput(c, m));
    NoSeparators(c.dumps(JoseHeader(c, m.typ)));
    NoSeparators(c.dumps(m.payload));
    NoSeparators(RawSignature(r, s));
    SplitThree(h, p, Encode(RawSignature(r, s)));
    DecodeUndoesEncode(RawSignature(r, s));
    DecodeUndoesEncode(c.dumps(m.payload));
    RawReadsBack(r, s);
    ParseSegmentUndoes(c, JoseHeader(c, m.typ));
    HeaderMembers(c, m.typ);
  }

  ghost predicate IsHeader(h: Json, kid: string, typ: string) {
    && h.Obj? && h.members.Keys == {"alg", "typ", "kid"}
    && h.Get("alg") == Str("ES256") && h.Get("typ") == Str(typ) && h.Get("kid") == Str(kid)
  }

  lemma HeaderMembers(c: Primitives, typ: string)
    ensures IsHeader(JoseHeader(c, typ), c.kid, typ)
  {}

  // A token verifies exactly when it is two segments the key has signed, and a third with 64
  // bytes that the key accepts for them.
  lemma VerifiesExactly(c: Primitives, log: set<Minted>, token: string, payload: Json)
    requires c.Sound()
    ensures JwsVerify(c, log, token) == Ok(payload) <==>
            exists m :: m in log && m.payload == payload && CarriesSigned(c, token, m)
  {
    if JwsVerify(c, log, token) == Ok(payload) {
      var parts := Split(token, '.');
      var m :| m in log && SigningInput(c, m) == parts[0] + "." + parts[1];
      InputParses(c, parts[0], parts[1], m);
      assert CarriesSigned(c, token, m);
    }
    if m :| m in log && m.payload == payload && CarriesSigned(c, token, m) {
      var parts := Split(token, '.');
      InputParses(c, parts[0], parts[1], m);
    }
  }

  ghost predicate CarriesSigned(c: Primitives, token: string, m: Minted) {
    var parts := Split(token, '.');
    && |parts| == 3 && parts[0] + "." + parts[1] == SigningInput(c, m)
    && Decode(parts[2]).Some? && |Decode(parts[2]).value| == 64
    && var sig := Decode(parts[2]).value;
       c.accepts(parts[0] + "." + parts[1], BigEndian(sig[..32]), BigEndian(sig[32..]))
  }

  lemma InputParses(c: Primitives, first: string, second: string, m: Minted)
    requires c.Sound() && '.' !in first && '.' !in second && first + "." + second == SigningInput(c, m)
    ensures ParseSegment(c, second) == Ok(m.payload)
  {
    var h, p := Encode(c.dumps(JoseHeader(c, m.typ))), Encode(c.dumps(m.payload));
    NoSeparators(c.dumps(JoseHeader(c, m.typ)));
    NoSeparators(c.dumps(m.payload));
    SplitTwo(h, p);
    SplitTwo(first, second);
    ParseSegmentUndoes(c, m.payload);
  }

  // The issuer part of an SD-JWT, token.split("~")[0].
  function IssuerPart(sdJwt: string): string {
    Split(sdJwt, '~')[0]
  }

  // A signed token with the trailing "~" of an SD-JWT without disclosures still verifies.
  lemma VerifyUndoesSdJwt(c: Primitives, log: set<Minted>, m: Minted)
    requires c.Sound() && m in log
    ensures IssuerPart(JwsSign(c, m) + "~") == JwsSign(c, m)
    ensures JwsVerify(c, log, IssuerPart(JwsSign(c, m) + "~")) == Ok(m.payload)
  {
    var token := JwsSign(c, m);
    var (r, s) := c.sign(SigningInput(c, m));
    NoSeparators(c.dumps(JoseHeader(c, m.typ)));
    NoSeparators(c.dumps(m.payload));
    NoSeparators(RawSignature(r, s));
    assert token + "~" == token + ['~'] + "";
    SplitFirst(token, '~', "");
    VerifyUndoesSign(c, log, m);
  }

  // ---- JWKS ----

  // b64u_decode(jwk[k]) if jwk.get(k) else b""
  function Coordinate(j: Json): Result<bytes> {
    if !j.Truthy() then Ok([])
    else if !j.Str? then Err(CrashFault)
    else
      match Decode(j.s)
      case None => Err(ValueFault)
      case Some(b) => Ok(b)
  }

  function PublicFromJwk(c: Primitives, jwk: Json): Result<Point> {
    if !jwk.Obj? then Err(CrashFault)
    else if jwk.Get("kty") != Str("EC") || jwk.Get("crv") != Str("P-256") then Err(ValueFault)
    else
      var x :- Coordinate(jwk.Get("x"));
      var y :- Coordinate(jwk.Get("y"));
      if |x| != 32 || |y| != 32 then Err(ValueFault)
      else FromRaw(c, [4] + x + y)
  }

  function FromRaw(c: Primitives, raw: bytes): Result<Point> {
    match c.point(raw) case None => Err(ValueFault) case Some(p) => Ok(p)
  }

  function JwkPublic(p: Point): Json {
    Obj(map["kty" := Str("EC"), "crv" := Str("P-256"), "x" := Str(Encode(p.x)), "y" := Str(Encode(p.y))])
  }

  function NormalizeEcJwk(c: Primitives, jwk: Json): Result<Json> {
    var p :- PublicFromJwk(c, jwk);
    Ok(JwkPublic(p))
  }

  // The JWK of a point determines the point, and denotes it.
  lemma JwkIsInjective(p: Point, q: Point)
    requires JwkPublic(p) == JwkPublic(q)
    ensures p == q
  {
    assert JwkPublic(p).Get("x") == JwkPublic(q).Get("x") && JwkPublic(p).Get("y") == JwkPublic(q).Get("y");
    EncodeIsInjective(p.x, q.x);
    EncodeIsInjective(p.y, q.y);
  }

  lemma CoordinateOf(b: bytes)
    requires b != []
    ensures Coordinate(Str(Encode(b))) == Ok(b)
  {
    DecodeUndoesEncode(b);
  }

  lemma JwkDenotesPoint(c: Primitives, raw: bytes, p: Point)
    requires c.Sound() && c.point(raw) == Some(p)
    ensures PublicFromJwk(c, JwkPublic(p)) == Ok(p)
    ensures NormalizeEcJwk(c, JwkPublic(p)) == Ok(JwkPublic(p))
  {
    CoordinateOf(p.x);
    CoordinateOf(p.y);
    JwkMembers(p);
  }

  // A JWK is read exactly when it is an EC key on P-256 with two coordinates of 32 bytes that
  // make a point of the curve.
  lemma JwkReadsExactly(c: Primitives, jwk: Json, p: Point)
    ensures PublicFromJwk(c, jwk) == Ok(p) <==>
            && jwk.Obj? && jwk.Get("kty") == Str("EC") && jwk.Get("crv") == Str("P-256")
            && jwk.Get("x").Str? && jwk.Get("y").Str?
            && Decode(jwk.Get("x").s).Some? && |Decode(jwk.Get("x").s).value| == 32
            && Decode(jwk.Get("y").s).Some? && |Decode(jwk.Get("y").s).value| == 32
            && c.point([4] + Decode(jwk.Get("x").s).value + Decode(jwk.Get("y").s).value) == Some(p)
  {}

  lemma JwkMembers(p: Point)
    ensures var jwk := JwkPublic(p);
            && jwk.Get("kty") == Str("EC") && jwk.Get("crv") == Str("P-256")
            && jwk.Get("x") == Str(Encode(p.x)) && jwk.Get("y") == Str(Encode(p.y))
  {}

  predicate Selected(key: Json, kid: Json) {
    !kid.Truthy() || key.Get("kid") == kid
  }

  predicate KeyAccepts(c: Primitives, key: Json, message: bytes, raw: bytes) {
    && PublicFromJwk(c, key).Ok?
    && DerSignature(raw).Some?
    && c.verify(PublicFromJwk(c, key).value, message, DerSignature(raw).value.0, DerSignature(raw).value.1)
  }

  // The loop over the candidate keys: malformed keys are skipped, the first that accepts wins.
  function AnyAccepts(c: Primitives, keys: seq<Json>, message: bytes, raw: bytes): Result<bool> {
    if keys == [] then Ok(false)
    else if PublicFromJwk(c, keys[0]) == Err(CrashFault) then Err(CrashFault)
    else if KeyAccepts(c, keys[0], message, raw) then Ok(true)
    else AnyAccepts(c, keys[1..], message, raw)
  }

  lemma {:induction false} AcceptedByOne(c: Primitives, keys: seq<Json>, message: bytes, raw: bytes)
    requires AnyAccepts(c, keys, message, raw) == Ok(true)
    ensures exists key :: key in keys && KeyAccepts(c, key, message, raw)
  {
    if !KeyAccepts(c, keys[0], message, raw) {
      AcceptedByOne(c, keys[1..], message, raw);
    }
  }

  method TryKeys(c: Primitives, keys: seq<Json>, message: bytes, raw: bytes) returns (r: Result<bool>)
    ensures r == AnyAccepts(c, keys, message, raw)
  {
    for i := 0 to |keys|
      invariant AnyAccepts(c, keys, message, raw) == AnyAccepts(c, keys[i..], message, raw)
    {
      assert keys[i..][1..] == keys[i + 1..];
      var key := PublicFromJwk(c, keys[i]);
      if key == Err(CrashFault) { return Err(CrashFault); }
      if KeyAccepts(c, keys[i], message, raw) { return Ok(true); }
    }
    r := Ok(false);
  }

  function VerifyJwtJwks(c: Primitives, token: string, jwks: seq<Json>): Result<Json> {
    var parts := Split(token, '.');
    if |parts| != 3 then Err(ValueFault)
    else
      var header :- ParseSegment(c, parts[0]);
      if !header.Obj? then Err(CrashFault)
      else if header.Get("alg") != Str("ES256") then Err(ValueFault)
      else
        var candidates := Filter(key => Selected(key, header.Get("kid")), jwks);
        if candidates == [] then Err(ValueFault)
        else
          match Decode(parts[2])
          case None => Err(ValueFault)
          case Some(raw) =>
            var accepted :- AnyAccepts(c, candidates, c.utf8(parts[0] + "." + parts[1]), raw);
            if accepted then ParseSegment(c, parts[1]) else Err(ValueFault)
  }

  // A header that is JSON but no object crashes; another algorithm is refused as a ValueError.
  lemma HeaderRefusals(c: Primitives, token: string, jwks: seq<Json>)
    requires |Split(token, '.')| == 3 && ParseSegment(c, Split(token, '.')[0]).Ok?
    ensures var header := ParseSegment(c, Split(token, '.')[0]).value;
            && (!header.Obj? ==> VerifyJwtJwks(c, token, jwks) == Err(CrashFault))
            && (header.Obj? && header.Get("alg") != Str("ES256") ==> VerifyJwtJwks(c, token, jwks) == Err(ValueFault))
  {}

  // The claims of a token that verifies were signed by a key of the JWKS, the one named by
  // the header's kid when the header names one.
  ghost predicate SignedUnder(c: Primitives, token: string, jwks: seq<Json>, claims: Json) {
    var parts := Split(token, '.');
    && |parts| == 3
    && ParseSegment(c, parts[1]) == Ok(claims)
    && ParseSegment(c, parts[0]).Ok? && Decode(parts[2]).Some? && |Decode(parts[2]).value| == 64
    && exists key, p :: SignsWith(c, parts[0] + "." + parts[1], ParseSegment(c, parts[0]).value.Get("kid"),
                                  Decode(parts[2]).value, jwks, key, p)
  }

  // A key of the JWKS, the named one if one is named, verifies the 64 bytes as its signature.
  ghost predicate SignsWith(c: Primitives, input: string, kid: Json, sig: bytes, jwks: seq<Json>, key: Json, p: Point)
    requires |sig| == 64
  {
    && key in jwks && (kid.Truthy() ==> key.Get("kid") == kid) && PublicFromJwk(c, key) == Ok(p)
    && c.verify(p, c.utf8(input), BigEndian(sig[..32]), BigEndian(sig[32..]))
  }

  lemma VerifiedJwtIsSigned(c: Primitives, token: string, jwks: seq<Json>)
    requires VerifyJwtJwks(c, token, jwks).Ok?
    ensures SignedUnder(c, token, jwks, VerifyJwtJwks(c, token, jwks).value)
  {
    var parts := Split(token, '.');
    var header := ParseSegment(c, parts[0]).value;
    var kid, raw, input := header.Get("kid"), Decode(parts[2]).value, parts[0] + "." + parts[1];
    var candidates := Filter(key => Selected(key, kid), jwks);
    AcceptedByOne(c, candidates, c.utf8(input), raw);
    var key :| key in candidates && KeyAccepts(c, key, c.utf8(input), raw);
    assert SignsWith(c, input, kid, raw, jwks, key, PublicFromJwk(c, key).value);
  }
}

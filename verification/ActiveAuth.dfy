// Active Authentication (section 6.1 of ICAO Doc 9303 Part 11): the chip's signature over a
// challenge, under the public key of DG15.
module ActiveAuth {
  import opened Prelude
  import opened BerTlv
  import opened Jose

  datatype HashAlg = SHA256 | SHA384 | SHA512 | SHA224 | SHA1

  // The hashes to try: the signature does not name its own.
  const AA_HASHES := [SHA256, SHA384, SHA512, SHA224, SHA1]

  datatype ChipKey = EcKey(bits: nat, id: bytes) | OtherKey

  datatype ChipSignature = Plain(r: nat, s: nat) | Der(encoded: bytes)

  // Loading a SubjectPublicKeyInfo, and ECDSA verification over the raw challenge.
  datatype ChipLibrary = ChipLibrary(load: bytes -> Option<ChipKey>,
                                     verify: (ChipKey, ChipSignature, bytes, HashAlg) -> bool)

  datatype Outcome = Valid | Unsupported | Invalid

  // Twice the size of the key is the plain r and s; anything else is DER already.
  function Interpret(bits: nat, signature: bytes): ChipSignature {
    var size := (bits + 7) / 8;
    if |signature| == 2 * size then Plain(BigEndian(signature[..size]), BigEndian(signature[size..]))
    else Der(signature)
  }

  // A plain signature is read back as the pair it was packed from.
  lemma PlainReadsBack(bits: nat, r: nat, s: nat)
    requires var size := (bits + 7) / 8; r < Pow256(size) && s < Pow256(size)
    ensures var size := (bits + 7) / 8; Interpret(bits, ToBytes(r, size) + ToBytes(s, size)) == Plain(r, s)
  {
    var size := (bits + 7) / 8;
    var x, y := ToBytes(r, size), ToBytes(s, size);
    FromToBytes(r, size);
    FromToBytes(s, size);
    assert (x + y)[..size] == x && (x + y)[size..] == y;
  }

  // Everything else is taken for DER as it is.
  lemma OtherwiseDer(bits: nat, signature: bytes)
    ensures |signature| != 2 * ((bits + 7) / 8) ==> Interpret(bits, signature) == Der(signature)
  {}

  lemma EveryHashIsTried(h: HashAlg)
    ensures h in AA_HASHES
  {
    assert AA_HASHES[0] in AA_HASHES && AA_HASHES[1] in AA_HASHES && AA_HASHES[2] in AA_HASHES;
    assert AA_HASHES[3] in AA_HASHES && AA_HASHES[4] in AA_HASHES;
  }

  predicate Signed(lib: ChipLibrary, key: ChipKey, challenge: bytes, signature: bytes)
    requires key.EcKey?
  {
    exists h :: h in AA_HASHES && lib.verify(key, Interpret(key.bits, signature), challenge, h)
  }

  // The loop tries each hash until one verifies, and so finds one whenever there is one.
  method VerifyEcdsa(lib: ChipLibrary, key: ChipKey, challenge: bytes, signature: bytes) returns (valid: bool)
    requires key.EcKey?
    ensures valid <==> Signed(lib, key, challenge, signature)
    ensures valid <==> exists h: HashAlg :: lib.verify(key, Interpret(key.bits, signature), challenge, h)
  {
    var der := Interpret(key.bits, signature);
    forall h: HashAlg ensures h in AA_HASHES {
      EveryHashIsTried(h);
    }
    for i := 0 to |AA_HASHES|
      invariant forall k :: 0 <= k < i ==> !lib.verify(key, der, challenge, AA_HASHES[k])
    {
      if lib.verify(key, der, challenge, AA_HASHES[i]) {
        assert AA_HASHES[i] in AA_HASHES;
        return true;
      }
    }
    valid := false;
  }

  function Verdict(lib: ChipLibrary, dg15: bytes, challenge: bytes, signature: bytes): Result<Outcome> {
    var spki :- Unwrapped(0x6F, dg15);
    match lib.load(spki)
    case None => Ok(Unsupported)
    case Some(OtherKey) => Ok(Unsupported)
    case Some(key) => Ok(if Signed(lib, key, challenge, signature) then Valid else Invalid)
  }

  method Verify(lib: ChipLibrary, dg15: bytes, challenge: bytes, signature: bytes) returns (r: Result<Outcome>)
    ensures r == Verdict(lib, dg15, challenge, signature)
  {
    var spki := Unwrap(0x6F, dg15);
    if spki.Err? { return Err(spki.fault); }
    var key := lib.load(spki.value);
    if key.None? || key.value.OtherKey? { return Ok(Unsupported); }
    var valid := VerifyEcdsa(lib, key.value, challenge, signature);
    r := Ok(if valid then Valid else Invalid);
  }
}

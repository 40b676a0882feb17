// The Wallet Instance Attestation: the provisioned JWKS and the check of an attestation.
module Wia {
  import opened Prelude
  import opened Text
  import opened Base64Url
  import opened Jose

  // _validate: a JWKS with a non-empty keys array of usable P-256 keys, each with a kid.
  function Validate(c: Primitives, doc: Json): Result<seq<Json>> {
    if !doc.Obj? || !doc.Get("keys").Arr? || doc.Get("keys").items == [] then Err(ValueFault)
    else
      var keys := doc.Get("keys").items;
      var _ :- ValidateKeys(c, keys);
      Ok(keys)
  }

  function ValidateKeys(c: Primitives, keys: seq<Json>): Result<()> {
    if keys == [] then Ok(())
    else if !keys[0].Obj? || !keys[0].Get("kid").Truthy() then Err(ValueFault)
    else
      var _ :- PublicFromJwk(c, keys[0]);
      ValidateKeys(c, keys[1..])
  }

  // The active keys: none before a JWKS is persisted.
  function Keys(doc: Option<Json>): seq<Json> {
    if doc.Some? && doc.value.Get("keys").Arr? then doc.value.Get("keys").items else []
  }

  function Pow10(k: nat): (p: nat)
    ensures p > 0
  {
    if k == 0 then 1 else 10 * Pow10(k - 1)
  }

  // int(exp), which truncates toward zero.
  function ToInt(j: Json): Result<int> {
    match j
    case Int(n) => Ok(n)
    case Bool(b) => Ok(if b then 1 else 0)
    case Dec(units, places) => Ok(if units >= 0 then units / Pow10(places) else -(-units / Pow10(places)))
    case Str(s) => if AllDigits(s) then Ok(Number(s)) else Err(ValueFault)
    case _ => Err(CrashFault)
  }

  function BoundJwk(claims: Json): Json {
    claims.Get("cnf").Get("jwk")
  }

  function VerifyWia(c: Primitives, token: string, jwks: seq<Json>, holderPub: bytes, now: int): Result<Json> {
    if jwks == [] then Err(ValueFault)
    else
      var claims :- VerifyJwtJwks(c, token, jwks);
      if !claims.Obj? then Err(CrashFault)
      else if claims.Get("exp") == Null then Err(ValueFault)
      else
        var exp :- ToInt(claims.Get("exp"));
        if exp < now || !BoundJwk(claims).Obj? then Err(ValueFault)
        else
          var holder :- FromRaw(c, holderPub);
          var bound :- NormalizeEcJwk(c, BoundJwk(claims));
          if bound != JwkPublic(holder) then Err(ValueFault) else Ok(claims)
  }

  // The attestation is signed under the JWKS, unexpired, and binds exactly the point of the
  // holder key.
  ghost predicate Attests(c: Primitives, token: string, jwks: seq<Json>, holderPub: bytes, now: int) {
    exists claims :: AttestsWith(c, token, jwks, holderPub, now, claims)
  }

  ghost predicate AttestsWith(c: Primitives, token: string, jwks: seq<Json>, holderPub: bytes, now: int, claims: Json) {
    && SignedUnder(c, token, jwks, claims)
    && ToInt(claims.Get("exp")).Ok? && ToInt(claims.Get("exp")).value >= now
    && c.point(holderPub).Some?
    && PublicFromJwk(c, claims.Get("cnf").Get("jwk")) == Ok(c.point(holderPub).value)
  }

  lemma SameJwkSamePoint(c: Primitives, jwk: Json, holderPub: bytes)
    requires FromRaw(c, holderPub).Ok? && NormalizeEcJwk(c, jwk) == Ok(JwkPublic(FromRaw(c, holderPub).value))
    ensures c.point(holderPub).Some? && PublicFromJwk(c, jwk) == Ok(c.point(holderPub).value)
  {
    JwkIsInjective(PublicFromJwk(c, jwk).value, c.point(holderPub).value);
  }

  // What the check established of the claims it returns.
  lemma AcceptedClaims(c: Primitives, token: string, jwks: seq<Json>, holderPub: bytes, now: int) returns (claims: Json)
    requires VerifyWia(c, token, jwks, holderPub, now).Ok?
    ensures VerifyJwtJwks(c, token, jwks) == Ok(claims)
    ensures ToInt(claims.Get("exp")).Ok? && ToInt(claims.Get("exp")).value >= now
    ensures FromRaw(c, holderPub).Ok?
    ensures NormalizeEcJwk(c, BoundJwk(claims)) == Ok(JwkPublic(FromRaw(c, holderPub).value))
  {
    claims := VerifyWia(c, token, jwks, holderPub, now).value;
  }

  lemma AcceptedAttests(c: Primitives, token: string, jwks: seq<Json>, holderPub: bytes, now: int)
    requires VerifyWia(c, token, jwks, holderPub, now).Ok?
    ensures Attests(c, token, jwks, holderPub, now)
  {
    var claims := AcceptedClaims(c, token, jwks, holderPub, now);
    VerifiedJwtIsSigned(c, token, jwks);
    SameJwkSamePoint(c, BoundJwk(claims), holderPub);
    assert AttestsWith(c, token, jwks, holderPub, now, claims);
  }

  // The gate in front of verify-identity and every derivation: with enforcement off a
  // missing or invalid attestation passes, with enforcement on neither does.
  function Enforce(c: Primitives, required: bool, token: string, jwks: seq<Json>, holderPub: bytes,
                   now: int): Result<()> {
    if token == "" then (if required then Err(VerificationFault) else Ok(()))
    else
      match VerifyWia(c, token, jwks, holderPub, now)
      case Ok(_) => Ok(())
      case Err(ValueFault) => if required then Err(VerificationFault) else Ok(())
      case Err(fault) => Err(fault)
  }

  lemma RequiredMeansAttested(c: Primitives, token: string, jwks: seq<Json>, holderPub: bytes, now: int)
    ensures Enforce(c, true, token, jwks, holderPub, now).Ok? <==>
            token != "" && VerifyWia(c, token, jwks, holderPub, now).Ok?
    ensures Enforce(c, true, token, jwks, holderPub, now).Ok? ==> Attests(c, token, jwks, holderPub, now)
  {
    if VerifyWia(c, token, jwks, holderPub, now).Ok? {
      AcceptedAttests(c, token, jwks, holderPub, now);
    }
  }

  // ---- A validated JWKS decides ----

  lemma {:induction false} ValidatedKeyUsable(c: Primitives, keys: seq<Json>, key: Json)
    requires ValidateKeys(c, keys).Ok? && key in keys
    ensures PublicFromJwk(c, key).Ok?
  {
    if key != keys[0] {
      ValidatedKeyUsable(c, keys[1..], key);
    }
  }

  // No usable key is skipped: the search accepts exactly when some key does.
  lemma {:induction false} UsableKeysDecide(c: Primitives, keys: seq<Json>, message: bytes, raw: bytes)
    requires forall key :: key in keys ==> PublicFromJwk(c, key).Ok?
    ensures AnyAccepts(c, keys, message, raw) == Ok(exists key :: key in keys && KeyAccepts(c, key, message, raw))
  {
    if keys != [] {
      assert keys[0] in keys;
      UsableKeysDecide(c, keys[1..], message, raw);
    }
  }

  // The token names its algorithm in a header that parses.
  predicate NamesES256(c: Primitives, token: string) {
    var parts := Split(token, '.');
    |parts| == 3 && ParseSegment(c, parts[0]).Ok? && ParseSegment(c, parts[0]).value.Get("alg") == Str("ES256")
  }

  lemma NamedTokenIsNotEmpty(c: Primitives, token: string)
    ensures NamesES256(c, token) ==> token != ""
  {}

  // Under keys that are all usable a token verifies exactly when its claims parse and one of
  // the keys its header allows signed them.
  lemma UsableJwksDecides(c: Primitives, token: string, jwks: seq<Json>)
    requires forall key :: key in jwks ==> PublicFromJwk(c, key).Ok?
    ensures VerifyJwtJwks(c, token, jwks).Ok? <==>
            NamesES256(c, token) && exists claims :: SignedUnder(c, token, jwks, claims)
  {
    if VerifyJwtJwks(c, token, jwks).Ok? {
      VerifiedJwtIsSigned(c, token, jwks);
    }
    if NamesES256(c, token) && exists claims :: SignedUnder(c, token, jwks, claims) {
      var claims :| SignedUnder(c, token, jwks, claims);
      SignedIsVerified(c, token, jwks, claims);
    }
  }

  lemma SignedIsVerified(c: Primitives, token: string, jwks: seq<Json>, claims: Json)
    requires forall key :: key in jwks ==> PublicFromJwk(c, key).Ok?
    requires NamesES256(c, token) && SignedUnder(c, token, jwks, claims)
    ensures VerifyJwtJwks(c, token, jwks) == Ok(claims)
  {
    var parts := Split(token, '.');
    var kid, raw, message :=
      ParseSegment(c, parts[0]).value.Get("kid"), Decode(parts[2]).value, c.utf8(parts[0] + "." + parts[1]);
    var key, p :| SignsWith(c, parts[0] + "." + parts[1], kid, raw, jwks, key, p);
    assert Selected(key, kid) && KeyAccepts(c, key, message, raw);
    var candidates := Filter(k => Selected(k, kid), jwks);
    assert key in candidates;
    UsableKeysDecide(c, candidates, message, raw);
  }

  // Hence under a validated JWKS the attestation check accepts exactly the tokens that
  // attest this holder key.
  lemma ValidatedJwksDecides(c: Primitives, doc: Json, token: string, holderPub: bytes, now: int)
    requires c.Sound() && Validate(c, doc).Ok?
    ensures VerifyWia(c, token, Keys(Some(doc)), holderPub, now).Ok? <==>
            NamesES256(c, token) && Attests(c, token, Keys(Some(doc)), holderPub, now)
  {
    var jwks := Keys(Some(doc));
    forall key | key in jwks ensures PublicFromJwk(c, key).Ok? {
      ValidatedKeyUsable(c, jwks, key);
    }
    UsableJwksDecides(c, token, jwks);
    if VerifyWia(c, token, jwks, holderPub, now).Ok? {
      AcceptedAttests(c, token, jwks, holderPub, now);
    }
    if NamesES256(c, token) && Attests(c, token, jwks, holderPub, now) {
      AttestedIsAccepted(c, token, jwks, holderPub, now);
    }
  }

  lemma AttestedIsAccepted(c: Primitives, token: string, jwks: seq<Json>, holderPub: bytes, now: int)
    requires c.Sound() && jwks != [] && forall key :: key in jwks ==> PublicFromJwk(c, key).Ok?
    requires NamesES256(c, token) && Attests(c, token, jwks, holderPub, now)
    ensures VerifyWia(c, token, jwks, holderPub, now).Ok?
  {
    var claims :| AttestsWith(c, token, jwks, holderPub, now, claims);
    SignedIsVerified(c, token, jwks, claims);
    BoundKeyNormalises(c, BoundJwk(claims), c.point(holderPub).value);
    ClaimsAreAccepted(c, token, jwks, holderPub, now, claims);
  }

  lemma ClaimsAreAccepted(c: Primitives, token: string, jwks: seq<Json>, holderPub: bytes, now: int, claims: Json)
    requires jwks != [] && VerifyJwtJwks(c, token, jwks) == Ok(claims)
    requires ToInt(claims.Get("exp")).Ok? && ToInt(claims.Get("exp")).value >= now && FromRaw(c, holderPub).Ok?
    requires NormalizeEcJwk(c, BoundJwk(claims)) == Ok(JwkPublic(FromRaw(c, holderPub).value))
    ensures VerifyWia(c, token, jwks, holderPub, now).Ok?
  {}

  lemma BoundKeyNormalises(c: Primitives, jwk: Json, p: Point)
    requires PublicFromJwk(c, jwk) == Ok(p)
    ensures NormalizeEcJwk(c, jwk) == Ok(JwkPublic(p))
  {}

  // ---- What validation, int() and an optional attestation accept ----

  lemma {:induction false} ValidateKeysExactly(c: Primitives, keys: seq<Json>)
    ensures ValidateKeys(c, keys).Ok? <==>
            forall key :: key in keys ==> key.Obj? && key.Get("kid").Truthy() && PublicFromJwk(c, key).Ok?
  {
    if keys != [] {
      ValidateKeysExactly(c, keys[1..]);
      assert keys == [keys[0]] + keys[1..];
    }
  }

  // A JWKS is valid exactly when its keys are a list that is not empty, of usable keys each
  // with a key id.
  lemma ValidExactly(c: Primitives, doc: Json)
    ensures Validate(c, doc).Ok? <==>
            && doc.Obj? && doc.Get("keys").Arr? && doc.Get("keys").items != []
            && forall key :: key in doc.Get("keys").items ==>
                 key.Obj? && key.Get("kid").Truthy() && PublicFromJwk(c, key).Ok?
    ensures Validate(c, doc).Ok? ==> Validate(c, doc).value == doc.Get("keys").items == Keys(Some(doc))
    ensures Keys(None) == []
  {
    if doc.Get("keys").Arr? {
      ValidateKeysExactly(c, doc.Get("keys").items);
    }
  }

  // int() of a number with decimals cuts them off.
  lemma DecimalsCutOff(units: int, places: nat)
    ensures var r := ToInt(Dec(units, places));
            && r.Ok?
            && (units >= 0 ==> r.value * Pow10(places) <= units < (r.value + 1) * Pow10(places))
            && (units < 0 ==> (r.value - 1) * Pow10(places) < units <= r.value * Pow10(places))
  {
    CutOff(if units >= 0 then units else -units, Pow10(places));
  }

  lemma CutOff(n: nat, t: nat)
    requires t > 0
    ensures (n / t) * t <= n < (n / t + 1) * t
  {
    assert n == t * (n / t) + n % t;
  }

  lemma OtherNumbers(n: int, b: bool)
    ensures ToInt(Int(n)) == Ok(n) && ToInt(Bool(b)) == Ok(if b then 1 else 0)
    ensures ToInt(Null) == Err(CrashFault) && ToInt(Str("")) == Err(ValueFault)
  {}

  // A number in a string is read too; an attestation without a term is a ValueError.
  lemma NumeralIsRead(s: string)
    requires s != "" && forall c :: c in s ==> '0' <= c <= '9'
    ensures ToInt(Str(s)) == Ok(Number(s))
  {}

  lemma NoKeyIsRefused(c: Primitives, token: string, holderPub: bytes, now: int)
    ensures VerifyWia(c, token, [], holderPub, now) == Err(ValueFault)
  {}

  lemma TermlessIsRefused(c: Primitives, token: string, jwks: seq<Json>, holderPub: bytes, now: int)
    requires jwks != [] && VerifyJwtJwks(c, token, jwks).Ok? && VerifyJwtJwks(c, token, jwks).value.Obj?
    requires VerifyJwtJwks(c, token, jwks).value.Get("exp") == Null
    ensures VerifyWia(c, token, jwks, holderPub, now) == Err(ValueFault)
  {}

  // With enforcement off nothing but a crash in the check is refused.
  lemma OptionalAttestation(c: Primitives, token: string, jwks: seq<Json>, holderPub: bytes, now: int)
    ensures Enforce(c, false, token, jwks, holderPub, now).Ok? <==>
            token == "" || VerifyWia(c, token, jwks, holderPub, now).Ok?
            || VerifyWia(c, token, jwks, holderPub, now) == Err(ValueFault)
  {}
}

// The Identity Verification Receipt, its commitments, and the derivations that open them.
module Receipt {
  import opened Prelude
  import opened Text
  import opened Dates
  import opened BerTlv
  import opened Base64Url
  import opened Jose
  import opened Td3
  import opened Verification

  const PORTRAIT_FIELD := "picture_dg2"
  const PORTRAIT_DISCLOSURE_FIELD := "picture_id"

  const CERTIFIED_FIELDS: set<string> :=
    {"given_name", "family_name", "birthdate", "nationality", "document_number", "document_type", "issuing_state",
     "sex", "doc_expiry", "place_of_birth", "personal_number", PORTRAIT_DISCLOSURE_FIELD}

  const IVR_TYP := "application/privasys-ivr+jws"
  const DISCLOSURE_TYP := "dc+sd-jwt"
  const AA_CHALLENGE_TYP := "application/privasys-aa-challenge+jws"
  const DISCLOSURE_VCT := "https://privasys.org/vct/identity-disclosure"

  // The liveness score as the receipt records it, rounded to ten-thousandths.
  datatype BioResult = BioResult(faceMatch: bool, liveness: int)

  // Sixteen random bytes per committed field.
  type Salt = s: bytes | |s| == 16 witness seq(16, _ => 0)

  const PORTRAIT_FIELDS := {PORTRAIT_FIELD, PORTRAIT_DISCLOSURE_FIELD}

  // ---- build_ivr ----

  // The committed values: the document's fields, and the portrait under its two names.
  function Committed(fields: Fields, dg2: bytes): Fields {
    if dg2 == [] then fields
    else fields[PORTRAIT_FIELD := Encode(dg2)][PORTRAIT_DISCLOSURE_FIELD := Encode(dg2)]
  }

  function Commitments(c: Primitives, values: Fields, salt: string -> Salt): map<string, Json> {
    map f | f in values :: Str(Commit(c, values[f], salt(f)))
  }

  function Salts(values: Fields, salt: string -> Salt): map<string, string> {
    map f | f in values :: Encode(salt(f))
  }

  function OptBool(b: Option<bool>): Json {
    match b case None => Null case Some(v) => Bool(v)
  }

  // What the receipt records of the document and of the comparison.
  function DocMember(doc: DocResult): (p: Json)
    ensures p.Obj? && p.members.Keys >= {"doc_type", "issuing_state"}
  {
    Obj(map["passive_auth" := Bool(doc.passiveAuth), "chip_auth" := Bool(doc.chipAuth),
            "doc_type" := Str(doc.docType), "issuing_state" := Str(doc.issuingState),
            "doc_expiry" := Str(doc.docExpiry), "not_expired" := Bool(doc.notExpired),
            "dsc_time_valid" := OptBool(doc.dscTimeValid), "mrz_valid" := Bool(doc.mrzValid)])
  }

  function BioMember(bio: BioResult): Json {
    Obj(map["face_match" := Bool(bio.faceMatch), "liveness_score" := Dec(bio.liveness, 4)])
  }

  function IvrPayload(c: Primitives, measurement: string, ttl: nat, doc: DocResult, bio: BioResult, holderPub: bytes,
                      commitments: map<string, Json>, jti: bytes, now: int): (p: Json)
    ensures p.Obj? && "n" !in p.members
  {
    Obj(map["v" := Int(1), "jti" := Str(Encode(jti)), "measurement" := Str(measurement),
            "verifier_id" := Str("privasys-identity"), "holder_binding" := Str(HolderBinding(c, holderPub)),
            "doc" := DocMember(doc), "biometric" := BioMember(bio), "commitments" := Obj(commitments),
            "iat" := Int(now), "exp" := Int(now + ttl)])
  }

  // The members the verifier reads back from a receipt.
  ghost predicate Records(c: Primitives, p: Json, measurement: string, ttl: nat, doc: DocResult, bio: BioResult,
                          holderPub: bytes,
                          commitments: map<string, Json>, jti: bytes, now: int) {
    && p.Get("jti") == Str(Encode(jti)) && p.Get("holder_binding") == Str(HolderBinding(c, holderPub))
    && p.Get("commitments") == Obj(commitments) && p.Get("measurement") == Str(measurement)
    && p.Get("iat") == Int(now) && p.Get("exp") == Int(now + ttl)
    && p.Get("doc") == DocMember(doc) && p.Get("biometric") == BioMember(bio)
  }

  lemma IvrMembers(c: Primitives, measurement: string, ttl: nat, doc: DocResult, bio: BioResult, holderPub: bytes,
                   commitments: map<string, Json>, jti: bytes, now: int)
    ensures Records(c, IvrPayload(c, measurement, ttl, doc, bio, holderPub, commitments, jti, now),
                    measurement, ttl, doc, bio, holderPub, commitments, jti, now)
  {
    var p := IvrPayload(c, measurement, ttl, doc, bio, holderPub, commitments, jti, now);
    var docMember, bioMember, binding := DocMember(doc), BioMember(bio), HolderBinding(c, holderPub);
    PayloadMembers(p, measurement, Str(Encode(jti)), binding, docMember, bioMember, commitments, now, now + ttl);
  }

  lemma PayloadMembers(p: Json, measurement: string, jti: Json, binding: string, doc: Json, bio: Json,
                       commitments: map<string, Json>, iat: int, exp: int)
    requires p == Obj(map["v" := Int(1), "jti" := jti, "measurement" := Str(measurement),
                          "verifier_id" := Str("privasys-identity"), "holder_binding" := Str(binding),
                          "doc" := doc, "biometric" := bio, "commitments" := Obj(commitments),
                          "iat" := Int(iat), "exp" := Int(exp)])
    ensures p.Get("jti") == jti && p.Get("holder_binding") == Str(binding)
    ensures p.Get("commitments") == Obj(commitments) && p.Get("measurement") == Str(measurement)
    ensures p.Get("iat") == Int(iat) && p.Get("exp") == Int(exp) && p.Get("doc") == doc && p.Get("biometric") == bio
  {}

  // ---- What the payloads say, member by member ----

  ghost predicate DocSays(p: Json, doc: DocResult) {
    && p.Obj?
    && p.members.Keys == {"passive_auth", "chip_auth", "doc_type", "issuing_state", "doc_expiry", "not_expired",
                          "dsc_time_valid", "mrz_valid"}
    && p.Get("passive_auth") == Bool(doc.passiveAuth) && p.Get("chip_auth") == Bool(doc.chipAuth)
    && p.Get("doc_type") == Str(doc.docType) && p.Get("issuing_state") == Str(doc.issuingState)
    && p.Get("doc_expiry") == Str(doc.docExpiry) && p.Get("not_expired") == Bool(doc.notExpired)
    && p.Get("dsc_time_valid") == (if doc.dscTimeValid.Some? then Bool(doc.dscTimeValid.value) else Null)
    && p.Get("mrz_valid") == Bool(doc.mrzValid)
  }

  lemma DocSaysAll(doc: DocResult)
    ensures DocSays(DocMember(doc), doc)
  {}

  ghost predicate BioSays(p: Json, bio: BioResult) {
    && p.Obj? && p.members.Keys == {"face_match", "liveness_score"}
    && p.Get("face_match") == Bool(bio.faceMatch) && p.Get("liveness_score") == Dec(bio.liveness, 4)
  }

  // A receipt: the constant members, the issue and the term, the hash of the holder key, what
  // was found, and the commitments.
  ghost predicate ReceiptSays(c: Primitives, p: Json, measurement: string, ttl: nat, doc: DocResult, bio: BioResult,
                              holderPub: bytes, commitments: map<string, Json>, jti: bytes, now: int) {
    && p.Obj?
    && p.members.Keys == {"v", "jti", "measurement", "verifier_id", "holder_binding", "doc", "biometric", "commitments",
                          "iat", "exp"}
    && p.Get("v") == Int(1) && p.Get("verifier_id") == Str("privasys-identity") && p.Get("jti") == Str(Encode(jti))
    && p.Get("measurement") == Str(measurement) && p.Get("holder_binding") == Str(Encode(c.sha256(holderPub)))
    && DocSays(p.Get("doc"), doc) && BioSays(p.Get("biometric"), bio) && p.Get("commitments") == Obj(commitments)
    && p.Get("iat") == Int(now) && p.Get("exp") == Int(now + ttl)
  }

  lemma ReceiptSaysAll(c: Primitives, measurement: string, ttl: nat, doc: DocResult, bio: BioResult, holderPub: bytes,
                       commitments: map<string, Json>, jti: bytes, now: int)
    ensures ReceiptSays(c, IvrPayload(c, measurement, ttl, doc, bio, holderPub, commitments, jti, now),
                        measurement, ttl, doc, bio, holderPub, commitments, jti, now)
  {
    DocSaysAll(doc);
    IvrMembers(c, measurement, ttl, doc, bio, holderPub, commitments, jti, now);
    ConstantMembers(c, measurement, ttl, doc, bio, holderPub, commitments, jti, now);
  }

  lemma ConstantMembers(c: Primitives, measurement: string, ttl: nat, doc: DocResult, bio: BioResult, holderPub: bytes,
                        commitments: map<string, Json>, jti: bytes, now: int)
    ensures var p := IvrPayload(c, measurement, ttl, doc, bio, holderPub, commitments, jti, now);
            && p.Get("v") == Int(1) && p.Get("verifier_id") == Str("privasys-identity")
            && p.members.Keys == {"v", "jti", "measurement", "verifier_id", "holder_binding", "doc", "biometric",
                                  "commitments", "iat", "exp"}
  {}

  // The committed values and the commitments over them.
  ghost predicate IsCommitted(values: Fields, fields: Fields, dg2: bytes) {
    && values.Keys == fields.Keys + (if dg2 == [] then {} else {"picture_dg2", "picture_id"})
    && (dg2 != [] ==> values["picture_dg2"] == Encode(dg2) && values["picture_id"] == Encode(dg2))
    && forall f :: f in fields && (dg2 == [] || f !in {"picture_dg2", "picture_id"}) ==> values[f] == fields[f]
  }

  lemma CommittedIs(fields: Fields, dg2: bytes)
    ensures IsCommitted(Committed(fields, dg2), fields, dg2)
  {}

  ghost predicate AreCommitments(c: Primitives, commitments: map<string, Json>, values: Fields, salt: string -> Salt) {
    && commitments.Keys == values.Keys
    && forall f :: f in values ==> commitments[f] == Str(Encode(c.sha256(c.utf8(values[f]) + salt(f))))
  }

  lemma CommitmentsAre(c: Primitives, values: Fields, salt: string -> Salt)
    ensures AreCommitments(c, Commitments(c, values, salt), values, salt)
    ensures Salts(values, salt).Keys == values.Keys
    ensures forall f :: f in values ==> Salts(values, salt)[f] == Encode(salt(f))
  {}

  lemma DocMembers(doc: DocResult)
    ensures DocMember(doc).Get("passive_auth") == Bool(doc.passiveAuth)
    ensures DocMember(doc).Get("chip_auth") == Bool(doc.chipAuth)
    ensures DocMember(doc).Get("doc_type") == Str(doc.docType)
    ensures DocMember(doc).Get("issuing_state") == Str(doc.issuingState)
  {}

  // The two dictionaries build_ivr fills, for the values committed so far.
  datatype Filled = Filled(salts: map<string, string>, commitments: map<string, Json>) {
    ghost predicate For(c: Primitives, values: Fields, salt: string -> Salt) {
      && salts.Keys == values.Keys && commitments.Keys == values.Keys
      && (forall f :: f in salts ==> salts[f] == Encode(salt(f)))
      && (forall f :: f in commitments ==> commitments[f] == Str(Commit(c, values[f], salt(f))))
    }
  }

  method CommitOne(c: Primitives, ghost values: Fields, name: string, value: string, salt: string -> Salt,
                   before: Filled)
    returns (after: Filled)
    requires before.For(c, values, salt)
    ensures after.For(c, values[name := value], salt)
  {
    var s := salt(name);
    after := Filled(before.salts[name := Encode(s)], before.commitments[name := Str(Commit(c, value, s))]);
  }

  // The fields not yet to do.
  ghost function Finished(fields: Fields, todo: set<string>): Fields {
    map f | f in fields && f !in todo :: fields[f]
  }

  lemma FinishedStep(fields: Fields, todo: set<string>, f: string)
    requires f in todo && f in fields
    ensures Finished(fields, todo - {f}) == Finished(fields, todo)[f := fields[f]]
  {}

  lemma FinishedEnds(fields: Fields)
    ensures Finished(fields, {}) == fields && Finished(fields, fields.Keys) == map[]
  {}

  // The loop over the text fields,
  method CommitTexts(c: Primitives, fields: Fields, salt: string -> Salt) returns (filled: Filled)
    ensures filled.For(c, fields, salt)
  {
    FinishedEnds(fields);
    filled := Filled(map[], map[]);
    var todo := fields.Keys;
    while todo != {}
      invariant todo <= fields.Keys
      invariant filled.For(c, Finished(fields, todo), salt)
      decreases |todo|
    {
      var f :| f in todo;
      FinishedStep(fields, todo, f);
      filled := CommitOne(c, Finished(fields, todo), f, fields[f], salt, filled);
      todo := todo - {f};
    }
  }

  // and the portrait under its two names.
  method CommitPortrait(c: Primitives, ghost values: Fields, portrait: string, salt: string -> Salt, before: Filled)
    returns (filled: Filled)
    requires before.For(c, values, salt)
    ensures filled.For(c, values[PORTRAIT_FIELD := portrait][PORTRAIT_DISCLOSURE_FIELD := portrait], salt)
  {
    filled := CommitOne(c, values, PORTRAIT_FIELD, portrait, salt, before);
    filled := CommitOne(c, values[PORTRAIT_FIELD := portrait], PORTRAIT_DISCLOSURE_FIELD, portrait, salt, filled);
  }

  method CommitFields(c: Primitives, fields: Fields, dg2: bytes, salt: string -> Salt) returns (filled: Filled)
    ensures filled == Filled(Salts(Committed(fields, dg2), salt), Commitments(c, Committed(fields, dg2), salt))
  {
    filled := CommitTexts(c, fields, salt);
    if dg2 != [] {
      filled := CommitPortrait(c, fields, Encode(dg2), salt, filled);
    }
    FilledIsDetermined(c, filled, Committed(fields, dg2), salt);
  }

  lemma FilledIsDetermined(c: Primitives, filled: Filled, values: Fields, salt: string -> Salt)
    requires filled.For(c, values, salt)
    ensures filled == Filled(Salts(values, salt), Commitments(c, values, salt))
  {
    assert filled.salts == Salts(values, salt);
    assert filled.commitments == Commitments(c, values, salt);
  }

  // ---- verify_ivr ----

  // payload.get(k, default) where the default stands for a missing member only.
  function GetDefault(j: Json, k: string, default: Json): Json {
    if j.Obj? && k in j.members then j.members[k] else default
  }

  const EMPTY_OBJECT := Obj(map[])

  function VerifyIvr(c: Primitives, log: set<Minted>, token: string, now: int): Result<Json> {
    var payload :- JwsVerify(c, log, token);
    var exp := GetDefault(payload, "exp", Int(0));
    var doc, bio := GetDefault(payload, "doc", EMPTY_OBJECT), GetDefault(payload, "biometric", EMPTY_OBJECT);
    if !payload.Obj? || !exp.Int? then Err(CrashFault)
    else if exp.n < now then Err(ValueFault)
    else if !doc.Obj? || !bio.Obj? then Err(CrashFault)
    else if !(doc.Get("passive_auth").Truthy() && bio.Get("face_match").Truthy()) then Err(ValueFault)
    else Ok(payload)
  }

  // A receipt is accepted exactly when the key signed it, it has not expired, and it records a
  // passed authentication and a face match.
  lemma VerifyIvrExactly(c: Primitives, log: set<Minted>, token: string, now: int, p: Json)
    ensures VerifyIvr(c, log, token, now) == Ok(p) <==>
            && JwsVerify(c, log, token) == Ok(p) && p.Obj?
            && (if "exp" in p.members then p.members["exp"].Int? && p.members["exp"].n >= now else 0 >= now)
            && p.Get("doc").Obj? && p.Get("biometric").Obj?
            && p.Get("doc").Get("passive_auth").Truthy() && p.Get("biometric").Get("face_match").Truthy()
  {}

  // What the key signed is refused with a ValueError, unless a member is of the wrong kind.
  lemma IvrRefusedExactly(c: Primitives, log: set<Minted>, token: string, now: int, p: Json)
    requires JwsVerify(c, log, token) == Ok(p) && p.Obj? && "exp" in p.members && p.members["exp"].Int?
    ensures VerifyIvr(c, log, token, now) == Err(CrashFault) <==>
            && p.members["exp"].n >= now
            && (("doc" in p.members && !p.members["doc"].Obj?)
                || ("biometric" in p.members && !p.members["biometric"].Obj?))
    ensures VerifyIvr(c, log, token, now).Err? ==> VerifyIvr(c, log, token, now).fault in {ValueFault, CrashFault}
  {}

  // ---- check_holder ----

  function HolderMessage(c: Primitives, jti: Json, rpId: string, nonce: string, ts: int): bytes {
    c.dumps(Obj(map["ivr" := jti, "rp_id" := Str(rpId), "nonce" := Str(nonce), "ts" := Int(ts)]))
  }

  function CheckHolder(c: Primitives, ivr: Json, holderPub: bytes, rpId: string, nonce: string, ts: int, sig: bytes,
                       now: int)
    : Result<()>
  {
    if Str(HolderBinding(c, holderPub)) != ivr.Get("holder_binding") then Err(ValueFault)
    else if now - ts > 300 || ts - now > 300 then Err(ValueFault)
    else if !ivr.Obj? || "jti" !in ivr.members then Err(CrashFault)
    else
      var key :- FromRaw(c, holderPub);
      match DerSignature(sig)
      case None => Err(ValueFault)
      case Some((r, s)) =>
        if c.verify(key, HolderMessage(c, ivr.members["jti"], rpId, nonce, ts), r, s) then Ok(()) else Err(ValueFault)
  }

  // The text a holder signs: exactly these four members.
  predicate SaysHolder(m: Json, jti: Json, rpId: string, nonce: string, ts: int) {
    && m.Obj? && m.members.Keys == {"ivr", "rp_id", "nonce", "ts"}
    && m.Get("ivr") == jti && m.Get("rp_id") == Str(rpId) && m.Get("nonce") == Str(nonce) && m.Get("ts") == Int(ts)
  }

  ghost predicate IsHolderText(c: Primitives, msg: bytes, jti: Json, rpId: string, nonce: string, ts: int) {
    exists m :: SaysHolder(m, jti, rpId, nonce, ts) && msg == c.dumps(m)
  }

  // The holder check passes exactly when the receipt binds the hash of this key, the timestamp
  // is within 300 seconds, and the 64 bytes are the key's signature over the text that names
  // this receipt, party, nonce and time.
  lemma CheckHolderExactly(c: Primitives, ivr: Json, holderPub: bytes, rpId: string, nonce: string, ts: int, sig: bytes,
                           now: int)
    ensures CheckHolder(c, ivr, holderPub, rpId, nonce, ts, sig, now).Ok? <==>
            && ivr.Get("holder_binding") == Str(Encode(c.sha256(holderPub))) && now - 300 <= ts <= now + 300
            && ivr.Obj? && "jti" in ivr.members && c.point(holderPub).Some? && |sig| == 64
            && exists msg :: IsHolderText(c, msg, ivr.members["jti"], rpId, nonce, ts)
                             && c.verify(c.point(holderPub).value, msg, BigEndian(sig[..32]), BigEndian(sig[32..]))
  {
    if ivr.Obj? && "jti" in ivr.members {
      var msg := HolderMessage(c, ivr.members["jti"], rpId, nonce, ts);
      HolderTextIs(c, ivr.members["jti"], rpId, nonce, ts);
      assert IsHolderText(c, msg, ivr.members["jti"], rpId, nonce, ts);
    }
  }

  lemma HolderTextIs(c: Primitives, jti: Json, rpId: string, nonce: string, ts: int)
    ensures forall msg :: IsHolderText(c, msg, jti, rpId, nonce, ts) <==> msg == HolderMessage(c, jti, rpId, nonce, ts)
  {
    var said := Obj(map["ivr" := jti, "rp_id" := Str(rpId), "nonce" := Str(nonce), "ts" := Int(ts)]);
    assert SaysHolder(said, jti, rpId, nonce, ts);
    forall m | SaysHolder(m, jti, rpId, nonce, ts) ensures m == said {
      assert m.members == said.members;
    }
  }

  // The signed bytes determine the receipt, the party, the nonce and the time, and read back
  // as an object that names them.
  lemma HolderTextFixesAll(c: Primitives, msg: bytes, jti: Json, rpId: string, nonce: string, ts: int,
                           jti': Json, rpId': string, nonce': string, ts': int)
    requires c.Sound() && IsHolderText(c, msg, jti, rpId, nonce, ts) && IsHolderText(c, msg, jti', rpId', nonce', ts')
    ensures jti == jti' && rpId == rpId' && nonce == nonce' && ts == ts'
    ensures c.loads(msg).Some? && SaysHolder(c.loads(msg).value, jti, rpId, nonce, ts)
  {
    var m :| SaysHolder(m, jti, rpId, nonce, ts) && msg == c.dumps(m);
    var n :| SaysHolder(n, jti', rpId', nonce', ts') && msg == c.dumps(n);
    assert c.loads(c.dumps(m)) == Some(m) && c.loads(c.dumps(n)) == Some(n);
  }

  // ---- The derivations ----

  // A disclosure to mint, a charged failure (CeremonyFailure), or another exception.
  datatype Derivation = Discloses(claim: string, value: Json, extra: map<string, Json>) | Fails(retryable: bool)
    | Raises(fault: Fault)

  // _open: None when the commitment opens.
  function Open(c: Primitives, ivr: Json, field: string, value: string, saltB64: string): Option<Derivation> {
    OpenMember(c, GetDefault(ivr, "commitments", EMPTY_OBJECT).Get(field), value, saltB64)
  }

  // The commitment found under the field's name decides.
  function OpenMember(c: Primitives, commitment: Json, value: string, saltB64: string): Option<Derivation> {
    if !commitment.Truthy() then Some(Fails(false))
    else
      match Decode(saltB64)
      case None => Some(Raises(ValueFault))
      case Some(salt) =>
        if !commitment.Str? then Some(Raises(CrashFault))
        else
          match CommitMatches(c, value, salt, commitment.s)
          case Err(fault) => Some(Raises(fault))
          case Ok(matches) => if matches then None else Some(Fails(false))
  }

  function AgeOverClaim(threshold: int): string {
    "age_over_" + Decimal(threshold)
  }

  function ProveAgeOver(c: Primitives, ivr: Json, birthdate: string, salt: string, threshold: int,
                        today: Date): Derivation {
    match Open(c, ivr, "birthdate", birthdate, salt)
    case Some(stopped) => stopped
    case None =>
      match ParseDate(birthdate)
      case None => Raises(ValueFault)
      case Some(birth) => Discloses(AgeOverClaim(threshold), Bool(Age(birth, today) >= threshold), map[])
  }

  const DEFAULT_BANDS := [0, 13, 16, 18, 21, 25, 65]

  // bands or DEFAULT_BANDS
  function Bounds(bands: seq<int>): (b: seq<int>)
    ensures b != []
  {
    if bands == [] then DEFAULT_BANDS else bands
  }

  ghost predicate UsualBound(b: int) {
    b == 0 || b == 13 || b == 16 || b == 18 || b == 21 || b == 25 || b == 65
  }

  lemma UsualBounds()
    ensures forall b :: b in Bounds([]) <==> UsualBound(b)
  {
    assert [0, 13, 16, 18, 21, 25, 65] == [0, 13, 16] + [18, 21] + [25, 65];
  }

  function UsualBand(age: nat): Band {
    if age < 13 then Between(0, 12) else if age < 16 then Between(13, 15)
    else if age < 18 then Between(16, 17) else if age < 21 then Between(18, 20)
    else if age < 25 then Between(21, 24) else if age < 65 then Between(25, 64) else From(65)
  }

  lemma UsualBandIsBand(age: nat, bounds: seq<int>)
    requires forall b :: b in bounds <==> UsualBound(b)
    ensures IsBand(UsualBand(age), bounds) && UsualBand(age).Holds(age)
  {
    var band := UsualBand(age);
    assert UsualBound(band.lo);
    match band
    case Between(lo, hi) =>
      assert UsualBound(hi + 1);
      forall b | b in bounds ensures b <= lo || hi < b {
        assert UsualBound(b);
      }
    case From(lo) =>
      forall b | b in bounds ensures b <= lo {
        assert UsualBound(b);
      }
  }

  lemma BandOfUsual(age: nat, bounds: seq<int>)
    requires bounds != [] && forall b :: b in bounds <==> UsualBound(b)
    ensures BandOf(age, bounds) == UsualBand(age)
  {
    var band, found := UsualBand(age), BandOf(age, bounds);
    UsualBandIsBand(age, bounds);
    BandHoldsAge(age, bounds);
    assert band.lo in bounds && band.lo <= age;
    assert found.Holds(age);
    BandIsUnique(age, bounds, band, found);
  }

  // The band of every age when the request names no bounds of its own.
  lemma UsualBands(age: nat)
    ensures BandOf(age, Bounds([])) == UsualBand(age)
  {
    UsualBounds();
    BandOfUsual(age, Bounds([]));
  }

  lemma OwnBands(bands: seq<int>)
    requires bands != []
    ensures Bounds(bands) == bands
  {}

  function ProveAgeBand(c: Primitives, ivr: Json, birthdate: string, salt: string, bands: seq<int>,
                        today: Date): Derivation {
    match Open(c, ivr, "birthdate", birthdate, salt)
    case Some(stopped) => stopped
    case None =>
      match ParseDate(birthdate)
      case None => Raises(ValueFault)
      case Some(birth) => Discloses("age_band", Str(BandOf(Age(birth, today), Bounds(bands)).Label()), map[])
  }

  function ProveField(c: Primitives, ivr: Json, field: string, value: string, salt: string): Derivation {
    if field !in CERTIFIED_FIELDS then Raises(ValueFault)
    else
      match Open(c, ivr, field, value, salt)
      case Some(stopped) => stopped
      case None => Discloses(field, Str(value), map[])
  }

  function ProveDocumentValid(): Derivation {
    Discloses("document_valid", Bool(true), map[])
  }

  function ProvePresence(c: Primitives, ivr: Json, dg2: string, salt: string, bio: BioResult, now: int): Derivation {
    match Open(c, ivr, PORTRAIT_FIELD, dg2, salt)
    case Some(stopped) => stopped
    case None =>
      if !bio.faceMatch then Fails(true)
      else Discloses("holder_present", Bool(true),
                     map["presence" := Obj(map["face_match" := Bool(true), "liveness_score" := Dec(bio.liveness, 4),
                                               "checked_at" := Int(now)])])
  }

  // ---- Tokens ----

  predicate IvrShaped(ivr: Json) {
    && ivr.Obj? && ivr.members.Keys >= {"jti", "doc", "iat"}
    && ivr.members["doc"].Obj? && ivr.members["doc"].members.Keys >= {"doc_type", "issuing_state"}
  }

  function Evidence(ivr: Json, voucher: string, extra: map<string, Json>): Json
    requires IvrShaped(ivr)
  {
    var doc := ivr.members["doc"];
    var base := map["ivr" := ivr.members["jti"], "doc_type" := doc.members["doc_type"],
                    "issuing_state" := doc.members["issuing_state"], "verified_at" := ivr.members["iat"],
                    "measurement" := GetDefault(ivr, "measurement", Str(""))];
    Obj((if voucher == "" then base else base["voucher" := Str(voucher)]) + extra)
  }

  // What a token is minted from, apart from the receipt: request, holder key and clock.
  datatype TokenContext = TokenContext(sub: string, rpId: string, iss: string, holderPub: bytes, voucher: string,
                                       ttl: nat, now: int)

  // The members every token has.
  function TokenMembers(ivr: Json, x: TokenContext, key: Point, claim: string, value: Json, extra: map<string,
                        Json>): map<string, Json>
    requires IvrShaped(ivr)
  {
    map["iss" := Str(x.iss), "sub" := Str(x.sub), "aud" := Str(x.rpId), "vct" := Str(DISCLOSURE_VCT),
        "claim" := Str(claim), "value" := value, "assurance" := Str("gov"),
        "evidence" := Evidence(ivr, x.voucher, extra),
        "iat" := Int(x.now), "exp" := Int(x.now + x.ttl),
        "cnf" := Obj(map["jwk" := JwkPublic(key)])]
  }

  // _token: an ill-shaped receipt is a KeyError, an invalid holder key a ValueError.
  function TokenPayload(c: Primitives, ivr: Json, x: TokenContext, claim: string, value: Json, extra: map<string, Json>,
                        failure: Option<bool>): Result<Json>
  {
    if !IvrShaped(ivr) then Err(CrashFault)
    else
      var key :- FromRaw(c, x.holderPub);
      var members := TokenMembers(ivr, x, key, claim, value, extra);
      Ok(Obj(if failure.None? then members else members["failure" := Obj(map["retryable" := Bool(failure.value)])]))
  }

  // A receipt that lacks what the evidence quotes is no ValueError, so no failure is signed for it.
  lemma UnquotableCrashes(c: Primitives, ivr: Json, x: TokenContext, claim: string, value: Json,
                          extra: map<string, Json>, failure: Option<bool>, k: string)
    requires ivr.Obj? && k in {"jti", "doc", "iat"} && k !in ivr.members
    ensures TokenPayload(c, ivr, x, claim, value, extra, failure) == Err(CrashFault)
  {}

  // A token: issuer, subject, party, the constant members, the claim and its value, the
  // evidence, the term, the holder's key, and for a failure whether it may be retried.
  ghost predicate TokenSays(t: Json, x: TokenContext, key: Point, claim: string, value: Json, failure: Option<bool>) {
    && t.Obj?
    && t.members.Keys == {"iss", "sub", "aud", "vct", "claim", "value", "assurance", "evidence", "iat", "exp", "cnf"}
                         + (if failure.Some? then {"failure"} else {})
    && t.Get("iss") == Str(x.iss) && t.Get("sub") == Str(x.sub) && t.Get("aud") == Str(x.rpId)
    && t.Get("vct") == Str("https://privasys.org/vct/identity-disclosure") && t.Get("assurance") == Str("gov")
    && t.Get("claim") == Str(claim) && t.Get("value") == value
    && t.Get("iat") == Int(x.now) && t.Get("exp") == Int(x.now + x.ttl)
    && t.Get("cnf").Obj? && t.Get("cnf").members.Keys == {"jwk"} && IsJwk(t.Get("cnf").Get("jwk"), key)
    && (failure.Some? ==>
          && t.Get("failure").Obj? && t.Get("failure").members.Keys == {"retryable"}
          && t.Get("failure").Get("retryable") == Bool(failure.value))
  }

  ghost predicate IsJwk(jwk: Json, key: Point) {
    && jwk.Obj? && jwk.members.Keys == {"kty", "crv", "x", "y"} && jwk.Get("kty") == Str("EC")
    && jwk.Get("crv") == Str("P-256") && jwk.Get("x") == Str(Encode(key.x)) && jwk.Get("y") == Str(Encode(key.y))
  }

  // The evidence: what the receipt records, the voucher if there was one, and what a presence
  // check adds.
  ghost predicate EvidenceSays(e: Json, ivr: Json, voucher: string, extra: map<string, Json>) {
    && e.Obj?
    && e.members.Keys == {"ivr", "doc_type", "issuing_state", "verified_at", "measurement"}
                         + (if voucher == "" then {} else {"voucher"}) + extra.Keys
    && e.Get("ivr") == ivr.Get("jti") && e.Get("doc_type") == ivr.Get("doc").Get("doc_type")
    && e.Get("issuing_state") == ivr.Get("doc").Get("issuing_state") && e.Get("verified_at") == ivr.Get("iat")
    && e.Get("measurement") == (if ivr.Obj? && "measurement" in ivr.members then ivr.Get("measurement") else Str(""))
    && (voucher != "" ==> e.Get("voucher") == Str(voucher))
    && forall k :: k in extra ==> e.Get(k) == extra[k]
  }

  lemma EvidenceSaysAll(ivr: Json, voucher: string, extra: map<string, Json>)
    requires IvrShaped(ivr) && extra.Keys <= {"presence"}
    ensures EvidenceSays(Evidence(ivr, voucher, extra), ivr, voucher, extra)
  {}

  lemma JwkSays(key: Point)
    ensures IsJwk(JwkPublic(key), key)
  {}

  lemma MembersSay(ivr: Json, x: TokenContext, key: Point, claim: string, value: Json, extra: map<string, Json>)
    requires IvrShaped(ivr)
    ensures var t := Obj(TokenMembers(ivr, x, key, claim, value, extra));
            TokenSays(t, x, key, claim, value, None) && t.Get("evidence") == Evidence(ivr, x.voucher, extra)
  {
    JwkSays(key);
    var evidence, cnf := Evidence(ivr, x.voucher, extra), Obj(map["jwk" := JwkPublic(key)]);
    var m := TokenMembers(ivr, x, key, claim, value, extra);
    FlatMembers(m, Str(x.iss), Str(x.sub), Str(x.rpId), Str(claim), value, evidence, Int(x.now),
                Int(x.now + x.ttl), cnf);
    assert cnf.members.Keys == {"jwk"} && cnf.Get("jwk") == JwkPublic(key);
  }

  lemma FlatMembers(m: map<string, Json>, iss: Json, sub: Json, aud: Json, claim: Json, value: Json, evidence: Json,
                    iat: Json, exp: Json, cnf: Json)
    requires m == map["iss" := iss, "sub" := sub, "aud" := aud,
                      "vct" := Str("https://privasys.org/vct/identity-disclosure"),
                      "claim" := claim, "value" := value, "assurance" := Str("gov"), "evidence" := evidence,
                      "iat" := iat, "exp" := exp, "cnf" := cnf]
    ensures m.Keys == {"iss", "sub", "aud", "vct", "claim", "value", "assurance", "evidence", "iat", "exp", "cnf"}
    ensures var t := Obj(m);
            && t.Get("iss") == iss && t.Get("sub") == sub && t.Get("aud") == aud && t.Get("claim") == claim
            && t.Get("value") == value && t.Get("evidence") == evidence && t.Get("iat") == iat && t.Get("exp") == exp
            && t.Get("cnf") == cnf && t.Get("assurance") == Str("gov")
            && t.Get("vct") == Str("https://privasys.org/vct/identity-disclosure")
  {}

  lemma FailureAdds(t: Json, x: TokenContext, key: Point, claim: string, value: Json, retryable: bool)
    requires TokenSays(t, x, key, claim, value, None)
    ensures var f := Obj(t.members["failure" := Obj(map["retryable" := Bool(retryable)])]);
            TokenSays(f, x, key, claim, value, Some(retryable)) && f.Get("evidence") == t.Get("evidence")
  {}

  lemma TokenSaysAll(c: Primitives, ivr: Json, x: TokenContext, claim: string, value: Json, extra: map<string, Json>,
                     failure: Option<bool>)
    requires TokenPayload(c, ivr, x, claim, value, extra, failure).Ok? && extra.Keys <= {"presence"}
    ensures c.point(x.holderPub).Some? && IvrShaped(ivr)
    ensures var t := TokenPayload(c, ivr, x, claim, value, extra, failure).value;
            && TokenSays(t, x, c.point(x.holderPub).value, claim, value, failure)
            && EvidenceSays(t.Get("evidence"), ivr, x.voucher, extra)
  {
    var key := c.point(x.holderPub).value;
    MembersSay(ivr, x, key, claim, value, extra);
    EvidenceSaysAll(ivr, x.voucher, extra);
    if failure.Some? {
      FailureAdds(Obj(TokenMembers(ivr, x, key, claim, value, extra)), x, key, claim, value, failure.value);
    }
  }

  // verify_disclosure
  function VerifyDisclosure(c: Primitives, log: set<Minted>, sdJwt: string, now: int): Result<Json> {
    var payload :- JwsVerify(c, log, IssuerPart(sdJwt));
    var exp := GetDefault(payload, "exp", Int(0));
    if !payload.Obj? || !exp.Int? then Err(CrashFault)
    else if exp.n < now then Err(ValueFault)
    else Ok(payload)
  }

  // ---- Commit and prove is complete ----

  // The commitments of a receipt are those of these values under these salts.
  ghost predicate Commits(c: Primitives, ivr: Json, values: Fields, salt: string -> Salt) {
    ivr.Obj? && "commitments" in ivr.members && ivr.members["commitments"] == Obj(Commitments(c, values, salt))
  }

  // Opening a committed field succeeds exactly with the committed concatenation.
  lemma OpenMeansConcatenation(c: Primitives, ivr: Json, values: Fields, salt: string -> Salt, field: string,
                               given: string, saltB64: string)
    requires c.Sound() && Commits(c, ivr, values, salt)
    ensures Open(c, ivr, field, given, saltB64).None? <==>
            field in values && Decode(saltB64).Some?
              && c.utf8(given) + Decode(saltB64).value == c.utf8(values[field]) + salt(field)
  {
    var member := GetDefault(ivr, "commitments", EMPTY_OBJECT).Get(field);
    if field in values {
      assert member == Str(Commit(c, values[field], salt(field)));
      OneOpening(c, values[field], salt(field), given, saltB64);
    } else {
      assert member == Null;
    }
  }

  // A single commitment, opened with a given value and salt.
  lemma OneOpening(c: Primitives, value: string, salt: bytes, given: string, saltB64: string)
    requires c.Sound()
    ensures OpenMember(c, Str(Commit(c, value, salt)), given, saltB64).None? <==>
            Decode(saltB64).Some? && c.utf8(given) + Decode(saltB64).value == c.utf8(value) + salt
  {
    DecodeUndoesEncode(c.sha256(c.utf8(value) + salt));
    CommitmentIsTruthy(c, value, salt);
    if Decode(saltB64).Some? {
      OpeningFixesConcatenation(c, value, salt, given, Decode(saltB64).value);
    }
  }

  // A digest is never empty, so its commitment is never an empty string.
  lemma CommitmentIsTruthy(c: Primitives, value: string, salt: bytes)
    requires c.Sound()
    ensures Commit(c, value, salt) != ""
  {
    EncodedAlphabet(c.sha256(c.utf8(value) + salt));
  }

  // What opens a committed field is the committed value exactly when the salt it comes with
  // has sixteen bytes.
  lemma OpenedValue(c: Primitives, ivr: Json, values: Fields, salt: string -> Salt, field: string, given: string,
                    saltB64: string)
    requires c.Sound() && Commits(c, ivr, values, salt)
    requires Open(c, ivr, field, given, saltB64).None?
    ensures field in values && Decode(saltB64).Some?
    ensures given == values[field] <==> |Decode(saltB64).value| == 16
  {
    OpenMeansConcatenation(c, ivr, values, salt, field, given, saltB64);
    OpeningFixesConcatenation(c, values[field], salt(field), given, Decode(saltB64).value);
    OpeningFixesValue(c, values[field], salt(field), given, Decode(saltB64).value);
  }

  // The salt returned for a field opens that field's commitment,
  lemma OwnSaltOpens(c: Primitives, ivr: Json, values: Fields, salt: string -> Salt, field: string)
    requires c.Sound() && Commits(c, ivr, values, salt) && field in values
    ensures Open(c, ivr, field, values[field], Salts(values, salt)[field]).None?
  {
    DecodeUndoesEncode(salt(field));
    OpenMeansConcatenation(c, ivr, values, salt, field, values[field], Encode(salt(field)));
  }

  lemma OwnFieldProvable(c: Primitives, ivr: Json, values: Fields, salt: string -> Salt, field: string)
    requires c.Sound() && Commits(c, ivr, values, salt) && field in values
    ensures ProveField(c, ivr, field, values[field], Salts(values, salt)[field]) ==
            if field in CERTIFIED_FIELDS then Discloses(field, Str(values[field]), map[]) else Raises(ValueFault)
  {
    OwnSaltOpens(c, ivr, values, salt, field);
  }

  lemma CommittedNames(fields: Fields, dg2: bytes, field: string)
    requires fields.Keys <= TEXT_FIELDS && field in Committed(fields, dg2)
    ensures field in CERTIFIED_FIELDS <==> field != PORTRAIT_FIELD
  {}

  // A committed portrait is the text of bytes that are not empty.
  lemma CommittedPortrait(fields: Fields, dg2: bytes)
    requires fields.Keys <= TEXT_FIELDS && PORTRAIT_FIELD in Committed(fields, dg2)
    ensures var text := Committed(fields, dg2)[PORTRAIT_FIELD]; text != "" && Decode(text) == Some(dg2)
  {
    assert PORTRAIT_FIELD !in TEXT_FIELDS;
    EncodedAlphabet(dg2);
    DecodeUndoesEncode(dg2);
  }

  // so every text field the document parsers can produce is disclosed with exactly its
  // value, the portrait too under its disclosable name, but not under its presence name.
  lemma EveryFieldIsProvable(c: Primitives, ivr: Json, groups: map<int, bytes>, now: nat, decode: bytes -> string,
                             dg2: bytes, salt: string -> Salt, field: string)
    requires c.Sound() && 1 in groups && CertifiedFields(groups, now, decode).Ok?
    requires Commits(c, ivr, Committed(CertifiedFields(groups, now, decode).value, dg2), salt)
    requires field in Committed(CertifiedFields(groups, now, decode).value, dg2)
    ensures var values := Committed(CertifiedFields(groups, now, decode).value, dg2);
            ProveField(c, ivr, field, values[field], Salts(values, salt)[field]) ==
            if field == PORTRAIT_FIELD then Raises(ValueFault) else Discloses(field, Str(values[field]), map[])
  {
    FieldsAreKnown(groups, now, decode);
    CommittedNames(CertifiedFields(groups, now, decode).value, dg2, field);
    OwnFieldProvable(c, ivr, Committed(CertifiedFields(groups, now, decode).value, dg2), salt, field);
  }

  // The two portrait commitments are independent: each opens with its own salt, and with the
  // salt of the other only if the two salts are equal. So a disclosure of the portrait never
  // opens the presence commitment, nor a presence ceremony the disclosure commitment.
  lemma PortraitCommitmentsIndependent(c: Primitives, ivr: Json, fields: Fields, dg2: bytes, salt: string -> Salt)
    requires c.Sound() && dg2 != [] && Commits(c, ivr, Committed(fields, dg2), salt)
    ensures forall field, other :: field in PORTRAIT_FIELDS && other in PORTRAIT_FIELDS ==>
              (Open(c, ivr, field, Encode(dg2), Encode(salt(other))).None? <==> salt(field) == salt(other))
  {
    forall field, other | field in PORTRAIT_FIELDS && other in PORTRAIT_FIELDS
      ensures Open(c, ivr, field, Encode(dg2), Encode(salt(other))).None? <==> salt(field) == salt(other)
    {
      var v := c.utf8(Encode(dg2));
      DecodeUndoesEncode(salt(other));
      OpenMeansConcatenation(c, ivr, Committed(fields, dg2), salt, field, Encode(dg2), Encode(salt(other)));
      assert (v + salt(field))[|v|..] == salt(field) && (v + salt(other))[|v|..] == salt(other);
    }
  }
}
